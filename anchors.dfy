/**
 * Article anchors: every `span.art` (an article heading such as 第12條 or
 * 第12條之1) gets, as its first child, a `＃` link to `#` plus the id derived
 * from its trimmed text, and that id, unless it already has one (its link
 * then still points at the derived id).
 */
module Anchors {
  import opened JsBuiltins
  import opened Wrappers


  /** The article number of a heading: main number, and the number after 之 if any. */
  datatype ArticleNumber = ArticleNumber(main: string, sub: Option<string>)

  predicate WellFormed(a: ArticleNumber) {
    IsDigits(a.main) && (a.sub.Some? ==> IsDigits(a.sub.value))
  }

  /** The heading text of an article number: 第N條 or 第N條之M. */
  function ArticleLabel(a: ArticleNumber): string {
    "第" + a.main + "條" + (match a.sub case Some(m) => "之" + m case None => "")
  }

  /** Length of the longest prefix of s made of ASCII digits. */
  function DigitRun(s: string): (k: nat)
    ensures k <= |s|
    ensures forall i :: 0 <= i < k ==> IsAsciiDigit(s[i])
    ensures k < |s| ==> !IsAsciiDigit(s[k])
    decreases |s|
  {
    if s != [] && IsAsciiDigit(s[0]) then 1 + DigitRun(s[1..]) else 0
  }

  /**
   * `text.match(/^第(\d+)條(?:之(\d+))?$/)`: the captured numbers when the
   * whole text is a heading, None otherwise. `\d` is the ASCII digit class,
   * and since 條 is not a digit the greedy `\d+` can only end just before it.
   */
  function ParseArticle(t: string): Option<ArticleNumber> {
    if |t| == 0 || t[0] != '第' then None
    else
      var k := DigitRun(t[1..]);
      if k == 0 || 1 + k >= |t| || t[1 + k] != '條' then None
      else
        var rest := t[2 + k..];
        if rest == [] then Some(ArticleNumber(t[1..1 + k], None))
        else if rest[0] == '之' && IsDigits(rest[1..]) then
          Some(ArticleNumber(t[1..1 + k], Some(rest[1..])))
        else None
  }

  /** Every well-formed heading is recognised, with its numbers as written. */
  lemma ParseArticleLabel(a: ArticleNumber)
    requires WellFormed(a)
    ensures ParseArticle(ArticleLabel(a)) == Some(a)
  {
    var t := ArticleLabel(a);
    var n := a.main;
    assert t[1..] == n + ("條" + (match a.sub case Some(m) => "之" + m case None => ""));
    DigitRunOfDigits(n, t[1..]);
    assert t[1..1 + |n|] == n;
    assert t[1 + |n|] == '條';
    match a.sub {
      case None =>
        assert t[2 + |n|..] == [];
      case Some(m) =>
        assert t[2 + |n|..] == "之" + m;
        assert ("之" + m)[1..] == m;
    }
  }

  /** The digit run of `n + x` is n when n is digits and x does not start with one. */
  lemma {:induction false} DigitRunOfDigits(n: string, s: string)
    requires IsDigits(n) && |n| < |s| && s[..|n|] == n && !IsAsciiDigit(s[|n|])
    ensures DigitRun(s) == |n|
  {
    assert forall i :: 0 <= i < |n| ==> s[i] == n[i];
  }

  /** Only heading texts are recognised: whatever matches is a well-formed label. */
  lemma ParsedIsLabel(t: string)
    requires ParseArticle(t).Some?
    ensures WellFormed(ParseArticle(t).value)
    ensures t == ArticleLabel(ParseArticle(t).value)
  {
    var a := ParseArticle(t).value;
    var k := DigitRun(t[1..]);
    assert a.main == t[1..1 + k];
    assert IsDigits(a.main) by {
      forall i | 0 <= i < k ensures IsAsciiDigit(a.main[i]) {
        assert a.main[i] == t[1..][i];
      }
    }
    var rest := t[2 + k..];
    assert t == [t[0]] + a.main + [t[1 + k]] + rest;
    match a.sub {
      case None =>
      case Some(m) =>
        assert rest == [rest[0]] + m;
    }
  }

  const ArticlePrefix: string := "article-"
  const FallbackPrefix: string := "article-no-"

  /**
   * The anchor id of the span at 0-based `index` among `span.art`: from the
   * article number when the trimmed text is a heading, from the position
   * otherwise.
   */
  function AnchorId(text: string, index: nat): string {
    IdFor(ParseArticle(Trim(text)), index)
  }

  /**
   * The id built from the match result: `article-N`, followed by `-M` when
   * the second group captured a non-empty (truthy) M; `article-no-K` with the
   * 1-based position K when the text did not match.
   */
  function IdFor(p: Option<ArticleNumber>, index: nat): string {
    match p
    case Some(a) =>
      ArticlePrefix + a.main
      + (match a.sub case Some(m) => (if m != [] then "-" + m else "") case None => "")
    case None => FallbackPrefix + NatToString(index + 1)
  }

  /** The id is fully determined by the article number it was made from. */
  lemma ArticleIdsDistinct(a: ArticleNumber, b: ArticleNumber)
    requires WellFormed(a) && WellFormed(b)
    requires IdOf(a) == IdOf(b)
    ensures a == b
  {
    var x, y := IdTail(a), IdTail(b);
    IdSplit(a);
    IdSplit(b);
    assert x == IdOf(a)[|ArticlePrefix|..];
    assert y == IdOf(b)[|ArticlePrefix|..];
    TailSplit(a);
    TailSplit(b);
    DigitsPrefixUnique(a.main, x, b.main, y);
    assert SubSuffix(a.sub) == x[|a.main|..];
    assert SubSuffix(b.sub) == y[|b.main|..];
    SubSuffixInjective(a.sub, b.sub);
  }

  /** What follows "article-" in an article id. */
  function IdTail(a: ArticleNumber): string {
    a.main + SubSuffix(a.sub)
  }

  lemma IdSplit(a: ArticleNumber)
    ensures IdOf(a) == ArticlePrefix + IdTail(a)
    ensures IdOf(a)[|ArticlePrefix|..] == IdTail(a)
  {
    assert IdOf(a) == ArticlePrefix + IdTail(a);
  }

  /** In the tail the main number comes first, then a non-digit or the end. */
  lemma TailSplit(a: ArticleNumber)
    ensures var x := IdTail(a);
            && |a.main| <= |x| && x[..|a.main|] == a.main && x[|a.main|..] == SubSuffix(a.sub)
            && (|a.main| < |x| ==> !IsAsciiDigit(x[|a.main|]))
  {
    var x := IdTail(a);
    assert x[..|a.main|] == a.main;
    assert x[|a.main|..] == SubSuffix(a.sub);
  }

  lemma SubSuffixInjective(s: Option<string>, t: Option<string>)
    requires SubSuffix(s) == SubSuffix(t)
    ensures s == t
  {
  }

  /** What follows the main number in an id: "-M", or nothing. */
  function SubSuffix(sub: Option<string>): (r: string)
    ensures sub.None? <==> r == []
    ensures sub.Some? ==> r[0] == '-' && r[1..] == sub.value
  {
    match sub
    case None => []
    case Some(m) => "-" + m
  }

  /** The id derived from an article number. */
  function IdOf(a: ArticleNumber): string {
    ArticlePrefix + a.main + SubSuffix(a.sub)
  }

  /** Two digit runs that each are followed by a non-digit (or the end) in equal strings are equal. */
  lemma DigitsPrefixUnique(n1: string, x: string, n2: string, y: string)
    requires IsDigits(n1) && IsDigits(n2) && x == y
    requires |n1| <= |x| && x[..|n1|] == n1 && (|n1| < |x| ==> !IsAsciiDigit(x[|n1|]))
    requires |n2| <= |y| && y[..|n2|] == n2 && (|n2| < |y| ==> !IsAsciiDigit(y[|n2|]))
    ensures n1 == n2
  {
    assert forall i :: 0 <= i < |n1| ==> x[i] == n1[i];
    assert forall i :: 0 <= i < |n2| ==> y[i] == n2[i];
  }

  /**
   * Two spans get the same anchor id exactly when both are headings of the
   * same article, or both are not headings and sit at the same position: a
   * positional id never collides with an article id.
   */
  lemma AnchorIdCollision(t1: string, i1: nat, t2: string, i2: nat)
    ensures AnchorId(t1, i1) == AnchorId(t2, i2) <==>
              (ParseArticle(Trim(t1)).Some? && ParseArticle(Trim(t1)) == ParseArticle(Trim(t2)))
              || (ParseArticle(Trim(t1)).None? && ParseArticle(Trim(t2)).None? && i1 == i2)
  {
    var p1, p2 := ParseArticle(Trim(t1)), ParseArticle(Trim(t2));
    var id1, id2 := AnchorId(t1, i1), AnchorId(t2, i2);
    AnchorIdShape(t1, i1);
    AnchorIdShape(t2, i2);
    if id1 == id2 {
      if p1.Some? && p2.Some? {
        ArticleIdsDistinct(p1.value, p2.value);
      } else if p1.None? && p2.None? {
        assert id1[|FallbackPrefix|..] == NatToString(i1 + 1);
        assert id2[|FallbackPrefix|..] == NatToString(i2 + 1);
        NatToStringInjective(i1 + 1, i2 + 1);
      }
    }
  }

  /**
   * An article id continues after "article-" with a digit, a positional id
   * with 'n': the two kinds are told apart by one character.
   */
  lemma AnchorIdShape(t: string, i: nat)
    ensures |AnchorId(t, i)| > |ArticlePrefix|
    ensures ParseArticle(Trim(t)).Some? ==>
              && WellFormed(ParseArticle(Trim(t)).value)
              && AnchorId(t, i) == IdOf(ParseArticle(Trim(t)).value)
              && IsAsciiDigit(AnchorId(t, i)[|ArticlePrefix|])
    ensures ParseArticle(Trim(t)).None? ==>
              && AnchorId(t, i) == FallbackPrefix + NatToString(i + 1)
              && AnchorId(t, i)[|ArticlePrefix|] == 'n'
  {
    var p := ParseArticle(Trim(t));
    if p.Some? {
      ParsedIsLabel(Trim(t));
    }
    IdForShape(p, i);
  }

  /** The same, on the match result. */
  lemma IdForShape(p: Option<ArticleNumber>, i: nat)
    requires p.Some? ==> WellFormed(p.value)
    ensures |IdFor(p, i)| > |ArticlePrefix|
    ensures p.Some? ==> IdFor(p, i) == IdOf(p.value) && IsAsciiDigit(IdFor(p, i)[|ArticlePrefix|])
    ensures p.None? ==> IdFor(p, i) == FallbackPrefix + NatToString(i + 1) && IdFor(p, i)[|ArticlePrefix|] == 'n'
  {
    if p.Some? {
      var a := p.value;
      assert IdFor(p, i) == IdOf(a);
      assert IdOf(a)[|ArticlePrefix|] == a.main[0];
    }
  }

  // ---------------------------------------------------------------------------
  // The DOM side: `addAnchorAndLinkToArtSpans`.
  // ---------------------------------------------------------------------------

  /** A child node of a span: a text node, or the inserted anchor element. */
  datatype Child =
    | TextNode(data: string)
    | Link(href: string, className: string, caption: string)

  function TextContent(children: seq<Child>): string
    decreases |children|
  {
    if children == [] then []
    else
      (match children[0] case TextNode(d) => d case Link(_, _, l) => l)
      + TextContent(children[1..])
  }

  /** The `<a class="law-btn-anchor" href="#id">＃</a>` element. */
  function AnchorLink(anchorId: string): Child {
    Link("#" + anchorId, "law-btn-anchor", "＃")
  }

  class ArtSpan {
    var id: string
    var children: seq<Child>

    constructor (id: string, children: seq<Child>)
      ensures this.id == id && this.children == children
    {
      this.id := id;
      this.children := children;
    }

    function Text(): string
      reads this
    {
      TextContent(children)
    }
  }

  /** The children of a span once the link to `anchorId` has been put in front. */
  function InsertAnchor(children: seq<Child>, anchorId: string): seq<Child> {
    [AnchorLink(anchorId)] + children
  }

  /** `if (!span.id) span.id = anchorId`. */
  function KeepOrSet(id: string, anchorId: string): string {
    if id == [] then anchorId else id
  }

  /** The children of a span after its step; `index` is its position. */
  function WithAnchor(children: seq<Child>, index: nat): seq<Child> {
    InsertAnchor(children, AnchorId(TextContent(children), index))
  }

  /** The id of a span after its step: kept when present, derived otherwise. */
  function AssignedId(id: string, children: seq<Child>, index: nat): string {
    KeepOrSet(id, AnchorId(TextContent(children), index))
  }

  /**
   * After the step the span starts with the `＃` link and keeps its old
   * children after it, and a span that had no id gets exactly the id its
   * link points at.
   */
  lemma AnchorStepShape(id: string, children: seq<Child>, index: nat)
    ensures var w := WithAnchor(children, index);
            && w[1..] == children
            && w[0].Link? && w[0].caption == "＃" && w[0].className == "law-btn-anchor"
            && TextContent(w) == "＃" + TextContent(children)
    ensures id != [] ==> AssignedId(id, children, index) == id
    ensures id == [] ==> WithAnchor(children, index)[0].href == "#" + AssignedId(id, children, index)
  {
    var w := WithAnchor(children, index);
    assert w[1..] == children;
  }

  /**
   * The mutation of one step of the `forEach`: the anchor goes in as the
   * first child (inserted before the first child, or appended to an empty
   * span), and the id is set only when the span has none.
   */
  method AddAnchor(span: ArtSpan, anchorId: string)
    modifies span
    ensures span.children == InsertAnchor(old(span.children), anchorId)
    ensures span.id == KeepOrSet(old(span.id), anchorId)
  {
    var anchor := AnchorLink(anchorId);
    if span.children != [] {
      span.children := [anchor] + span.children;
    } else {
      span.children := [anchor];
    }
    if span.id == [] {
      span.id := anchorId;
    }
  }

  /**
   * `addAnchorAndLinkToArtSpans`: for every `span.art`, in document order,
   * the id is derived from the span's trimmed text and its position, and the
   * step above is applied with it.
   */
  method AddAnchorAndLinkToArtSpans(spans: seq<ArtSpan>)
    requires forall i, j :: 0 <= i < j < |spans| ==> spans[i] != spans[j]
    modifies set s | s in spans
    ensures forall i :: 0 <= i < |spans| ==>
              && spans[i].children == WithAnchor(old(spans[i].children), i)
              && spans[i].id == AssignedId(old(spans[i].id), old(spans[i].children), i)
  {
    ghost var oldChildren := seq(|spans|, i requires 0 <= i < |spans| reads spans => spans[i].children);
    ghost var oldIds := seq(|spans|, i requires 0 <= i < |spans| reads spans => spans[i].id);
    ghost var ids := seq(|spans|, i requires 0 <= i < |spans| => AnchorId(TextContent(oldChildren[i]), i));
    for index := 0 to |spans|
      invariant Progress(spans, oldChildren, oldIds, ids, index)
    {
      var anchorId := AnchorId(spans[index].Text(), index);
      AddAnchorAt(spans, oldChildren, oldIds, ids, index, anchorId);
    }
  }

  /**
   * The loop invariant: the spans before `index` have had their step with
   * the id recorded for them, the others still have their children and id.
   */
  ghost predicate Progress(spans: seq<ArtSpan>, oldChildren: seq<seq<Child>>, oldIds: seq<string>,
                           ids: seq<string>, index: nat)
    reads spans
  {
    && |oldChildren| == |spans| == |oldIds| == |ids| && index <= |spans|
    && (forall i :: 0 <= i < index ==>
          spans[i].children == InsertAnchor(oldChildren[i], ids[i])
          && spans[i].id == KeepOrSet(oldIds[i], ids[i]))
    && (forall i :: index <= i < |spans| ==>
          spans[i].children == oldChildren[i] && spans[i].id == oldIds[i])
  }

  /** One iteration of the loop, with the invariant it keeps. */
  method AddAnchorAt(spans: seq<ArtSpan>, ghost oldChildren: seq<seq<Child>>, ghost oldIds: seq<string>,
                     ghost ids: seq<string>, index: nat, anchorId: string)
    requires forall i, j :: 0 <= i < j < |spans| ==> spans[i] != spans[j]
    requires index < |spans| && Progress(spans, oldChildren, oldIds, ids, index)
    requires anchorId == ids[index]
    modifies spans[index]
    ensures Progress(spans, oldChildren, oldIds, ids, index + 1)
  {
    AddAnchor(spans[index], anchorId);
  }
}
