# Laws pages: in-page search, article anchors, footer stamp and the single-paragraph rule

This project models, in Dafny, the page scripts of a site that publishes legal
texts (regulations split into articles such as 第12條 and paragraphs). It
covers four parts of that code.

- **In-page search** (`js/script.js`). A search panel finds, case-insensitively
  and from left to right, every occurrence of a query in the regulation
  container that does not overlap an earlier hit. It wraps each such
  occurrence in `<mark class="highlight">` and marks one occurrence as current
  (`current-match`), and the next/previous buttons move between them with
  wrap-around. Clearing restores the markup saved before highlighting. The
  module-level state (`originalContent`, `matchNodes`, `currentMatchIndex`,
  the container's `innerHTML`, the panel's `hidden` class, the input's value, the
  count text) is the `SearchEngine` class. Its methods keep a proved invariant.
  Every operation is proved against the pure model of the escape-and-replace
  expression (module `Highlight`).
- **Article anchors** (`addAnchorAndLinkToArtSpans`, in `js/script.js` and
  `public/js/script.js`). Every `span.art` gets, as its first child, a `＃`
  link to `#` plus an id derived from its trimmed text when that is an article
  heading (`article-N` or `article-N-M`) and from its position otherwise
  (`article-no-K`). A span without an id gets the derived one, so the link
  points at the span itself; an id the span already has is kept, and its link
  then points at the derived id.
- **Footer** (`updateFooterInfo` and the fragment-load guard, in all three
  scripts). The footer's year span and last-updated span are written. The
  last-updated stamp is `YYYY-MM-DD HH:MM`.
- **The `only-one-par` rule** (`public/js/script.js`, `script.js`, and the
  same code in `js/script.js`). In each `.art-data`, the first `.par` has
  `only-one-par` exactly when it is the only `.par`.

The JavaScript built-ins these rely on are written out with their ECMAScript
semantics (module `JsBuiltins`):

- `%` is the truncating remainder of section 6.1.6.1.6 of ECMA-262, not
  Dafny's Euclidean one;
- `String.prototype.trim` strips the WhiteSpace and LineTerminator code points
  of sections 12.2 and 12.3;
- `padStart` follows section 22.1.3.17;
- `Number::toString` on integers below 10^21 follows section 6.1.6.1.20.

The escape class of the search is exactly the SyntaxCharacter set of the
Pattern grammar (section 22.2.1).

Modules, in dependency order:

| file | module | content |
|---|---|---|
| `wrappers.dfy` | `Wrappers` | `Option` |
| `js_builtins.dfy` | `JsBuiltins` | remainder, trim, decimal printing, padStart |
| `highlight.dfy` | `Highlight` | escaping, the leftmost case-insensitive scan, the `<mark>` rendering |
| `search_engine.dfy` | `Search` | the `SearchEngine` class |
| `anchors.dfy` | `Anchors` | heading parser, anchor ids, the span loop |
| `footer.dfy` | `Footer` | the stamp, `updateFooterInfo`, the load guard |
| `paragraphs.dfy` | `Paragraphs` | the `only-one-par` loop |

A search with no occurrence still takes the snapshot
(`originalContent = regulationContent.innerHTML`, js/script.js:264) before
counting, so a snapshot is held afterwards although the markup is unchanged
(`Highlight.UnchangedIffNoMatch`).

## Model

| member | source | states |
|---|---|---|
| JsBuiltins.JsRemainder | js/script.js:313 | the JavaScript `%`: the result has the dividend's sign, is smaller in magnitude than the divisor, and differs from the dividend by a multiple of it |
| JsBuiltins.FlooredWrapIsEuclidean | js/script.js:313 | `((i % n) + n) % n` in JavaScript arithmetic equals the Euclidean `i mod n` and lies in `[0, n)`, for every integer i and every n > 0 |
| JsBuiltins.ModUnique | js/script.js:313 | a quotient and remainder with `0 <= r < n` are the only ones, which pins down each wrap-around |
| JsBuiltins.TrimStartIsSuffix | js/script.js:336 | `trimStart` removes exactly a whitespace prefix: the result is a suffix of the input, and what is dropped is all whitespace |
| JsBuiltins.TrimEndIsPrefix | js/script.js:336 | `trimEnd` removes exactly a whitespace suffix |
| JsBuiltins.Trim | js/script.js:336 | a non-empty trimmed value neither starts nor ends with whitespace |
| JsBuiltins.TrimIsInfix | js/script.js:336 | the trimmed value is the infix of the input between a whitespace prefix and a whitespace suffix |
| JsBuiltins.TrimEmptyIffAllWhitespace | js/script.js:409 | a value trims to `''` exactly when it is whitespace only (both directions) |
| JsBuiltins.AllWhitespaceTrimsStart | js/script.js:336 | a whitespace-only value trims to `''` |
| JsBuiltins.NatToString | js/script.js:280 | `toString` of a count gives ASCII digits that read back as the count, with no leading zero, and one digit exactly for values below 10 |
| JsBuiltins.NatToStringInjective | js/script.js:114 | distinct numbers print differently, so distinct positions get distinct `article-no-${index+1}` ids (the same line is public/js/script.js:100) |
| JsBuiltins.IntToString | script.js:72 | `toString` of an integer: the digits of its magnitude with no leading zero, after a minus sign when it is negative |
| JsBuiltins.LeadingZero | script.js:80 | a `'0'` added in front of a digit string keeps its value |
| JsBuiltins.PadStart | script.js:80 | `padStart(target, fill)` leaves a long enough string alone; otherwise it puts fill characters in front up to the target length; either way the input is the suffix |
| Highlight.EscapeIsLiteral | js/script.js:267 | the escaped query, read as a pattern, is a sequence of literal atoms spelling the query, so every character matches itself |
| Highlight.LiteralIsEscape | js/script.js:267 | conversely, a pattern body that reads literally as q is exactly the escaping of q |
| Highlight.SearchPatternIsLiteralGroup | js/script.js:267 | the string handed to `new RegExp` is one capture group whose body matches the query literally, for every query |
| Highlight.Scan | js/script.js:267-269 | the global replace scans left to right: the segments spell the markup and every hit equals the query ignoring ASCII case |
| Highlight.ScanIsLeftmost | js/script.js:267-269 | the scan is a leftmost segmentation: no occurrence of the query starts at a character the scan kept as plain, so no occurrence starting outside an earlier hit is skipped and none overlap; an occurrence starting inside an earlier hit is not wrapped, as the global replace resumes after each match |
| Highlight.LeftmostIsScan | js/script.js:267-269 | any segmentation with those properties is the scan: the description determines the replacement uniquely |
| Highlight.RenderLength | js/script.js:269 | the highlighted markup is longer by exactly one `<mark class="highlight">`…`</mark>` pair per occurrence |
| Highlight.RenderNoHits | js/script.js:269 | without occurrences, the replacement returns the markup unchanged |
| Highlight.UnchangedIffNoMatch | js/script.js:264-272 | the highlighted markup equals the original exactly when the query does not occur (both directions) |
| Highlight.EmptyMarkupHasNoMatch | js/script.js:269-277 | an empty container yields no occurrence |
| Search.SearchEngine.constructor | js/script.js:27-29 | the initial state: no snapshot, no matches, cursor -1, the page's markup at the first user action; the input value and the count span are taken to start empty |
| Search.SearchEngine.RemoveHighlights | js/script.js:193-214 | with a container: cursor -1, no matches, blank count, and the held snapshot put back and dropped, so the markup is the page's own; without a container nothing changes |
| Search.SearchEngine.PerformSearch | js/script.js:253-297 | an empty query or a missing container only clears and asks for a query. Otherwise the snapshot is the unhighlighted markup, the markup becomes its highlighting and there is one match per occurrence. With n > 0 matches the first is current and the count reads `第（1/n）個結果`; with none the cursor is -1, the count reads 找不到結果 and the markup is unchanged |
| Search.SearchEngine.ScrollToMatch | js/script.js:304-330 | with matches, the cursor becomes `index mod n` (any integer index, negative included), exactly that match is marked current and the count shows its 1-based position; with no matches nothing changes |
| Search.SearchEngine.HandleNavigation | js/script.js:342-347 | the cursor moves to `(cursor + direction) mod n`: from the last match forward to the first, from the first backward to the last; with no matches nothing changes |
| Search.SearchEngine.HandleSearchClick | js/script.js:333-339 | searches for the trimmed input value. A whitespace-only value clears exactly as an empty query does (no snapshot, no matches, cursor -1, blank count) and asks for a query; without the container it only asks for a query; any other value gives `performSearch`'s outcome for the trimmed query: the highlighting, one match per occurrence, the first current with count `第（1/n）個結果` when n > 0, cursor -1 and 找不到結果 when n = 0; without the input nothing happens |
| Search.SearchEngine.ToggleSearchVisibility | js/script.js:217-246 | a hidden panel is shown and nothing else changes; a shown panel is hidden, the highlighting is cleared and the input is blanked |
| Search.SearchEngine.OnInput | js/script.js:408-412 | typing a whitespace-only value while a snapshot is held clears the highlighting; any other input leaves the search state alone |
| Search.SearchThenClear | js/script.js:261-264 | a search followed by a clear gives back the unhighlighted markup exactly, whatever was highlighted before, with or without a container |
| Anchors.DigitRun | public/js/script.js:92 | the greedy `\d+`: the longest prefix of ASCII digits |
| Anchors.ParseArticleLabel | public/js/script.js:92 | every well-formed heading 第N條 or 第N條之M is recognised, with N and M as written |
| Anchors.ParsedIsLabel | public/js/script.js:92 | whatever the pattern accepts is such a heading, so parsing and printing are inverse |
| Anchors.ArticleIdsDistinct | public/js/script.js:94-97 | the article id determines the article number: distinct article numbers never share an id |
| Anchors.SubSuffix | public/js/script.js:97 | the `-M` part is present exactly when a sub-number was captured |
| Anchors.AnchorIdShape | public/js/script.js:90-101 | a heading gets `article-` plus the article number, which starts with a digit; any other text gets `article-no-` plus its 1-based position, which starts with `n` |
| Anchors.AnchorIdCollision | public/js/script.js:90-101 | two spans get the same id exactly when both are headings of the same article, or neither is a heading and they sit at the same position (both directions) |
| Anchors.AnchorStepShape | public/js/script.js:104-127 | after the step the `＃` link comes first, the old children follow, the text gains a leading `＃`; an existing id stays, and a span without one gets the id its link points at |
| Anchors.IdForShape | public/js/script.js:94-101 | the id built from a match is `article-` plus the article number, with `-M` only for a captured non-empty M; without a match it is `article-no-` plus the 1-based position |
| Anchors.SubSuffixInjective | public/js/script.js:97 | the `-M` part determines the sub-number |
| Anchors.AddAnchor | js/script.js:118-140 | the mutation of one step: the children become the link to the given id followed by the old children, whether the span was empty or not; the id is set to the given id only when the span had none |
| Anchors.AddAnchorAndLinkToArtSpans | js/script.js:103-141 | after the loop, every span has the link to the id derived from its own trimmed text and position in front of its old children, and has that id unless it had one already |
| Anchors.AddAnchorAt | js/script.js:103-141 | one iteration keeps the loop invariant: the spans before the position are done, the others untouched |
| Search.SearchEngine.MarkOccurrences | js/script.js:263-282 | from a cleared state, the snapshot is the page's markup, the markup becomes its highlighting, there is one unmarked match per occurrence and the count text reports them |
| Footer.Pad2 | script.js:80 | `toString().padStart(2, '0')`: digits reading back as the number, at least two of them, exactly two below 100, the plain numeral from 10 on |
| Footer.LastUpdatedLayout | script.js:80 | for a real date with a four-digit year the stamp is 16 characters of the form `YYYY-MM-DD HH:MM`, and each field reads back as the year, the 1-based month, the day, the hour and the minute |
| Footer.DatePartLayout | public/js/script.js:71 | the date part is `YYYY-MM-DD`, with the 0-based month shifted to 1-based |
| Footer.TimePartLayout | js/script.js:85 | the time part is `HH:MM` |
| Footer.LastUpdatedInjective | script.js:80 | distinct in-range readings never print the same stamp |
| Footer.UpdateFooterInfo | script.js:67-85 | without a footer nothing changes; the last-updated span, when present, holds the stamp of the second reading; the year span, when present holds the first reading's year; nothing outside the two spans changes |
| Footer.OnFragmentsSettled | script.js:92-96 | the footer is written only when its load was fulfilled with a non-null value; otherwise its spans are unchanged |
| Paragraphs.RuleClasses | public/js/script.js:275-280 | the first `.par` has `only-one-par` exactly when the `.art-data` holds one `.par`, and every other class is untouched |
| Paragraphs.RuleOverrides | script.js:198-206 | a later application of the rule overrides an earlier one, so the rule is idempotent |
| Paragraphs.RuleDependsOnOthersOnly | script.js:201-206 | the result depends on the other classes and the count only |
| Paragraphs.MarkOnlyOnePar | js/script.js:537-547 | after the loop, each first `.par` has the rule's class list for its own `.art-data` (the last one to reach a shared `.par` decides); in every first `.par` the classes other than `only-one-par` are unchanged; an `.art-data` without `.par` is skipped |

## Left out

- Fragment loading (`loadHtmlFragment`, `fetch`, `Promise.allSettled`) and the search-button loader at js/script.js:149-189 are network I/O. Only the continuation's guard on the footer result is modelled, with the settled result as a parameter.
- Toast notifications, `console` logging, `scrollIntoView` and the navigation buttons' `display` style are I/O without state the scripts read back. Notices are returned as a `Notice` value instead of being shown.
- Theme switching, clipboard copy and scroll-to-top code are outside this model. So are `blog-src/src/config.ts`, `blog-src/astro.config.mjs` and the two `sw.js` files.
- Search.SearchEngine.PerformSearch: the match list has one entry per occurrence found by the replace. The browser builds it by re-parsing the markup and querying `mark.highlight`. The model therefore does not capture matches inside tag or attribute text that break the markup, nor `mark.highlight` elements the page held before the search.
- Highlight.Scan: case-insensitive matching folds ASCII letters only. Regular-expression Canonicalize also upper-cases other letters. Characters are whole code points, not UTF-16 code units.
- Search.SearchEngine: `content` is the markup the highlighting replace wrote. The `current-match` class that `scrollToMatch` adds to and removes from a `mark` inside the container is held in `matchNodes` instead, so after a search with hits `content` is not the container's `innerHTML` byte for byte. No script reads that markup back before it is restored.
- Search.SearchEngine: the count span (`searchCount`) is assumed present. The source writes it only when `getElementById` finds it.
- Search.SearchEngine.OnInput: the listener is registered only when both the search button and the input exist (js/script.js:400). The model gives it whenever the input exists.
- Anchors.AddAnchorAndLinkToArtSpans: the spans are distinct and not nested in one another. A span's text is read from its own children, so an anchor inserted into an enclosing span is not seen.
- Anchors.AddAnchor: the method states the new children and id. The link's shape, the text it adds and the kept id are stated about the step functions by Anchors.AnchorStepShape.
- JsBuiltins.IntToString: Numbers are taken as unbounded integers. The double-precision range and the exponent form that `toString` uses from 10^21 on are not modelled; no count, position or date field comes near them.
- Footer: the two `new Date()` readings are parameters. `getFullYear` and the other getters are taken as given integers.
- Footer.LastUpdatedLayout: states the 16-character layout only for years 1000 to 9999 and calendar ranges. Outside those ranges the stamp is still the same concatenation, with a longer or signed year.
- Paragraphs.MarkOnlyOnePar: the `.par` lists of the `.art-data` elements are inputs; the DOM queries themselves are not modelled.
