/**
 * The in-page search of the regulation pages: a small state machine over the
 * content container's markup (`regulationContent.innerHTML`), the snapshot
 * taken before highlighting (`originalContent`), the highlighted occurrences
 * (`matchNodes`, one "current-match" flag per `mark.highlight` element in
 * document order) and the cursor (`currentMatchIndex`).
 *
 * Toast notifications are returned as a Notice instead of being shown;
 * `searchCount` is the text of the result-count span.
 */
module Search {
  import opened JsBuiltins
  import opened Highlight
  import opened Wrappers

  /** The text of the result-count span after a search without occurrences. */
  const NotFoundText: string := "找不到結果"

  /** The text of the result-count span right after a search with n occurrences. */
  function FoundText(n: nat): string {
    "找到 " + NatToString(n) + " 個結果"
  }

  /** The text of the result-count span while occurrence k (1-based) of n is current. */
  function PositionText(k: nat, n: nat): string {
    "第（" + NatToString(k) + "/" + NatToString(n) + "）個結果"
  }

  /** The toast a search raises. */
  datatype Notice =
    | AskForQuery          // "請輸入要搜尋的關鍵字。"
    | ResultsFound(count: nat)  // "找到 count 個結果。"
    | NoResults            // "找不到結果。"

  class SearchEngine {
    /** Whether `article.regulation-content` exists on the page. */
    const hasContainer: bool
    /**
     * The container's markup as the highlighting replace wrote it. Which
     * `mark` also carries `current-match` is kept in `matchNodes`, not here.
     */
    var content: string
    /** The snapshot taken before highlighting; "" when none is held. */
    var originalContent: string
    /** One entry per highlighted occurrence: does it carry `current-match`? */
    var matchNodes: seq<bool>
    var currentMatchIndex: int
    /** Text of the `searchCount` span. */
    var searchCount: string

    /** Whether the search panel `searchContainer` exists, and whether it has class `hidden`. */
    const hasPanel: bool
    var panelHidden: bool
    /** Whether the input `searchText` exists, and its value. */
    const hasInput: bool
    var inputValue: string

    /** The markup the page was loaded with, never altered by searching. */
    ghost const pristine: string
    /** The query of the last highlighting pass. */
    ghost var lastQuery: string

    /** The markup without any highlighting: the snapshot while one is held. */
    ghost function Unhighlighted(): string
      reads this
    {
      if originalContent != [] then originalContent else content
    }

    /**
     * The invariant that holds between any two statements of the operations:
     * the cursor is -1 or a valid index, no occurrence other than the one at
     * the cursor is marked current, the markup is the highlighting of the
     * snapshot with one entry in matchNodes per hit, and clearing would bring
     * back the page's own markup.
     */
    ghost predicate Consistent()
      reads this
    {
      && -1 <= currentMatchIndex < |matchNodes|
      && (forall j :: 0 <= j < |matchNodes| && matchNodes[j] ==> j == currentMatchIndex)
      && Unhighlighted() == pristine
      && (!hasContainer ==> originalContent == [] && matchNodes == [])
      && (originalContent == [] ==> matchNodes == [])
      && (originalContent != [] ==>
            && |lastQuery| > 0
            && content == Highlighted(originalContent, lastQuery)
            && |matchNodes| == MatchCount(originalContent, lastQuery))
    }

    /** The state between user actions: in addition, a non-empty match list has its current match. */
    ghost predicate Valid()
      reads this
    {
      && Consistent()
      && (matchNodes != [] ==> 0 <= currentMatchIndex && matchNodes[currentMatchIndex])
    }

    /** Exactly the occurrence at the cursor is marked current. */
    ghost predicate OnlyCursorMarked()
      reads this
    {
      forall j :: 0 <= j < |matchNodes| ==> (matchNodes[j] <==> j == currentMatchIndex)
    }

    /** No highlighting state is held: module variables as the script initialises them. */
    ghost predicate Cleared()
      reads this
    {
      currentMatchIndex == -1 && matchNodes == [] && originalContent == []
    }

    /**
     * The module variables as the script declares them, on a page whose
     * fragments have loaded: `markup` is the container's markup at the first
     * user action (after the `only-one-par` pass), and the input and the
     * count span start out empty.
     */
    constructor (hasContainer: bool, markup: string, hasPanel: bool, startsHidden: bool, hasInput: bool)
      ensures Valid() && Cleared()
      ensures this.hasContainer == hasContainer && content == markup && pristine == markup
      ensures this.hasPanel == hasPanel && panelHidden == startsHidden
      ensures this.hasInput == hasInput && inputValue == []
      ensures searchCount == []
    {
      this.hasContainer := hasContainer;
      content := markup;
      originalContent := [];
      matchNodes := [];
      currentMatchIndex := -1;
      searchCount := [];
      this.hasPanel := hasPanel;
      panelHidden := startsHidden;
      this.hasInput := hasInput;
      inputValue := [];
      pristine := markup;
      lastQuery := [];
    }

    /**
     * `removeHighlights`: with a container, reset the cursor and the match
     * list, blank the count, and put the snapshot back if one is held.
     */
    method RemoveHighlights()
      requires Valid()
      modifies this`currentMatchIndex, this`matchNodes, this`searchCount,
               this`content, this`originalContent
      ensures Valid()
      ensures !hasContainer ==> unchanged(this)
      ensures hasContainer ==> Cleared() && searchCount == [] && content == pristine
    {
      if !hasContainer {
        return;
      }
      currentMatchIndex := -1;
      matchNodes := [];
      searchCount := [];
      if originalContent != [] {
        content := originalContent;
        originalContent := [];
      }
    }

    /**
     * `performSearch`: an empty query (or a page without container) only
     * clears. Otherwise the previous highlighting is removed first, the
     * snapshot is taken of the markup so restored, every occurrence is
     * wrapped, and with at least one occurrence the first one becomes current.
     * A search without occurrences keeps its snapshot: the markup is then
     * unchanged, but a snapshot is held until the next clear.
     */
    method PerformSearch(searchText: string) returns (notice: Notice)
      requires Valid()
      modifies this`currentMatchIndex, this`matchNodes, this`searchCount,
               this`content, this`originalContent, this`lastQuery
      ensures Valid()
      ensures !hasContainer ==> notice == AskForQuery && unchanged(this)
      ensures hasContainer && searchText == [] ==>
                notice == AskForQuery && Cleared() && searchCount == [] && content == pristine
      ensures hasContainer && searchText != [] ==>
                var n := MatchCount(pristine, searchText);
                && originalContent == pristine
                && content == Highlighted(pristine, searchText)
                && |matchNodes| == n
                && OnlyCursorMarked()
                && (n > 0 ==> notice == ResultsFound(n) && currentMatchIndex == 0
                              && searchCount == PositionText(1, n))
                && (n == 0 ==> notice == NoResults && currentMatchIndex == -1
                               && searchCount == NotFoundText && content == pristine)
    {
      if !hasContainer || searchText == [] {
        RemoveHighlights();
        return AskForQuery;
      }
      RemoveHighlights();
      MarkOccurrences(searchText);
      var n := |matchNodes|;
      if n > 0 {
        currentMatchIndex := -1;
        notice := ResultsFound(n);
        ScrollToMatch(0);
      } else {
        UnchangedIffNoMatch(pristine, searchText);
        notice := NoResults;
      }
    }

    /**
     * Steps 2 to 5 of `performSearch`, from a cleared state: take the
     * snapshot, write back its highlighting, list one unmarked match per
     * occurrence and report the count.
     */
    method MarkOccurrences(searchText: string)
      requires Valid() && hasContainer && searchText != [] && Cleared() && content == pristine
      modifies this`matchNodes, this`searchCount, this`content, this`originalContent, this`lastQuery
      ensures Consistent() && currentMatchIndex == -1
      ensures originalContent == pristine && content == Highlighted(pristine, searchText)
      ensures var n := MatchCount(pristine, searchText);
              && |matchNodes| == n && (forall j :: 0 <= j < n ==> !matchNodes[j])
              && searchCount == if n > 0 then FoundText(n) else NotFoundText
    {
      originalContent := content;
      lastQuery := searchText;
      content := Highlighted(originalContent, searchText);
      var n := MatchCount(originalContent, searchText);
      matchNodes := seq(n, _ => false);
      searchCount := if n > 0 then FoundText(n) else NotFoundText;
      if originalContent == [] {
        EmptyMarkupHasNoMatch(searchText);
      }
    }

    /**
     * `scrollToMatch`: on a non-empty match list, take the marker off the
     * previous occurrence (if the cursor pointed at one), move the cursor to
     * the wrapped index, mark that occurrence and report "k/n".
     */
    method ScrollToMatch(index: int)
      requires Consistent()
      modifies this`currentMatchIndex, this`matchNodes, this`searchCount
      ensures Valid()
      ensures |matchNodes| == |old(matchNodes)|
      ensures old(matchNodes) == [] ==> unchanged(this)
      ensures old(matchNodes) != [] ==>
                && currentMatchIndex == index % |matchNodes|
                && OnlyCursorMarked()
                && searchCount == PositionText(currentMatchIndex + 1, |matchNodes|)
    {
      var n := |matchNodes|;
      if n == 0 {
        return;
      }
      if 0 <= currentMatchIndex < n {
        matchNodes := matchNodes[currentMatchIndex := false];
      }
      FlooredWrapIsEuclidean(index, n);
      currentMatchIndex := WrapIndex(index, n);
      matchNodes := matchNodes[currentMatchIndex := true];
      searchCount := PositionText(currentMatchIndex + 1, n);
    }

    /** `handleNavigation`: step the cursor by `direction` (+1 or -1 from the buttons), wrapping. */
    method HandleNavigation(direction: int)
      requires Valid()
      modifies this`currentMatchIndex, this`matchNodes, this`searchCount
      ensures Valid()
      ensures old(matchNodes) == [] ==> unchanged(this)
      ensures old(matchNodes) != [] ==>
                && |matchNodes| == |old(matchNodes)|
                && currentMatchIndex == (old(currentMatchIndex) + direction) % |matchNodes|
                && OnlyCursorMarked()
                && searchCount == PositionText(currentMatchIndex + 1, |matchNodes|)
      ensures (old(matchNodes) != [] && direction == 1 && old(currentMatchIndex) == |matchNodes| - 1)
                ==> currentMatchIndex == 0
      ensures (old(matchNodes) != [] && direction == -1 && old(currentMatchIndex) == 0)
                ==> currentMatchIndex == |matchNodes| - 1
    {
      if |matchNodes| == 0 {
        return;
      }
      var n := |matchNodes|;
      var nextIndex := currentMatchIndex + direction;
      if nextIndex == n {
        ModUnique(nextIndex, n, 1, 0);
      } else if nextIndex == -1 {
        ModUnique(nextIndex, n, -1, n - 1);
      }
      ScrollToMatch(nextIndex);
    }

    /**
     * `handleSearchClick` (also the Enter key in the input): search for the
     * trimmed input value, when the input exists.
     */
    method HandleSearchClick() returns (notice: Option<Notice>)
      requires Valid()
      modifies this`currentMatchIndex, this`matchNodes, this`searchCount,
               this`content, this`originalContent, this`lastQuery
      ensures Valid()
      ensures !hasInput ==> notice == None && unchanged(this)
      ensures hasInput && !hasContainer ==> notice == Some(AskForQuery) && unchanged(this)
      ensures hasInput && AllWhitespace(inputValue) ==>
                && notice == Some(AskForQuery) && Cleared() && content == pristine
                && (hasContainer ==> searchCount == [])
      ensures hasInput && hasContainer && Trim(inputValue) != [] ==>
                var q, n := Trim(inputValue), MatchCount(pristine, Trim(inputValue));
                && originalContent == pristine
                && content == Highlighted(pristine, q)
                && |matchNodes| == n
                && OnlyCursorMarked()
                && (n > 0 ==> notice == Some(ResultsFound(n)) && currentMatchIndex == 0
                              && searchCount == PositionText(1, n))
                && (n == 0 ==> notice == Some(NoResults) && currentMatchIndex == -1
                               && searchCount == NotFoundText && content == pristine)
    {
      if !hasInput {
        return None;
      }
      var searchText := Trim(inputValue);
      TrimEmptyIffAllWhitespace(inputValue);
      var n := PerformSearch(searchText);
      notice := Some(n);
    }

    /**
     * `toggleSearchVisibility`: show a hidden panel; hide a shown one, and
     * then also clear the highlighting and blank the input.
     */
    method ToggleSearchVisibility()
      requires Valid()
      modifies this`currentMatchIndex, this`matchNodes, this`searchCount,
               this`content, this`originalContent, this`panelHidden, this`inputValue
      ensures Valid()
      ensures !hasPanel ==> unchanged(this)
      ensures hasPanel && old(panelHidden) ==> !panelHidden && unchanged(this`content, this`originalContent,
                this`matchNodes, this`currentMatchIndex, this`searchCount, this`inputValue)
      ensures hasPanel && !old(panelHidden) ==>
                && panelHidden
                && content == pristine
                && (hasContainer ==> Cleared() && searchCount == [])
                && (hasInput ==> inputValue == [])
                && (!hasInput ==> inputValue == old(inputValue))
                && (!hasContainer ==> searchCount == old(searchCount))
    {
      if !hasPanel {
        return;
      }
      if panelHidden {
        panelHidden := false;
      } else {
        panelHidden := true;
        RemoveHighlights();
        if hasInput {
          inputValue := [];
        }
      }
    }

    /**
     * The input's `input` listener: the value changes, and when it trims to
     * "" while a snapshot is held, the highlighting is cleared.
     */
    method OnInput(value: string)
      requires Valid() && hasInput
      modifies this`currentMatchIndex, this`matchNodes, this`searchCount,
               this`content, this`originalContent, this`inputValue
      ensures Valid()
      ensures inputValue == value
      ensures AllWhitespace(value) && old(originalContent) != [] ==>
                Cleared() && searchCount == [] && content == pristine
      ensures !(AllWhitespace(value) && old(originalContent) != []) ==>
                unchanged(this`content, this`originalContent, this`matchNodes,
                          this`currentMatchIndex, this`searchCount)
    {
      inputValue := value;
      TrimEmptyIffAllWhitespace(value);
      if Trim(inputValue) == [] && originalContent != [] {
        RemoveHighlights();
      }
    }
  }

  /**
   * A search followed by clearing gives back the container's markup byte for
   * byte, whatever was highlighted before the search.
   */
  method SearchThenClear(e: SearchEngine, q: string) returns (notice: Notice)
    requires e.Valid()
    modifies e
    ensures e.Valid() && e.Cleared()
    ensures e.content == old(e.Unhighlighted())
  {
    notice := e.PerformSearch(q);
    e.RemoveHighlights();
  }
}
