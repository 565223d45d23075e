/**
 * The escape-and-replace expression at the heart of the in-page search:
 * the query's regular-expression syntax characters are escaped, the escaped
 * text is wrapped in one capture group and compiled with the flags `gi`, and
 * every occurrence in the container's serialized markup is replaced by
 * `<mark class="highlight">$1</mark>`.
 *
 * The replacement is modelled as a segmentation of the markup into plain
 * characters and hits, scanned left to right; the markup written back is the
 * rendering of that segmentation.
 */
module Highlight {
  import opened JsBuiltins
  import opened Wrappers

  // ---------------------------------------------------------------------------
  // Escaping: `searchText.replace(/[.*+?^${}()|[\]\\]/g, '\\$&')`.
  // The class lists exactly the SyntaxCharacter set of the ECMA-262 Pattern
  // grammar (section 22.2.1); every other code point is a PatternCharacter,
  // which matches itself.
  // ---------------------------------------------------------------------------

  predicate IsSyntaxCharacter(c: char) {
    || c == '.' || c == '*' || c == '+' || c == '?' || c == '^' || c == '$'
    || c == '{' || c == '}' || c == '(' || c == ')' || c == '|' || c == '['
    || c == ']' || c == '\\'
  }

  /** Prefix every syntax character of the query with a backslash. */
  function Escape(q: string): string
    decreases |q|
  {
    if q == [] then []
    else (if IsSyntaxCharacter(q[0]) then ['\\', q[0]] else [q[0]]) + Escape(q[1..])
  }

  /**
   * Reading of a regular-expression body as a sequence of literal atoms: a
   * PatternCharacter, or a backslash followed by a syntax character (an
   * IdentityEscape). Anything else (an unescaped syntax character, so an
   * operator, a group or a class, or a backslash before any other character,
   * such as `\d` or `\b`) has pattern meaning and yields None.
   */
  function LiteralAtoms(p: string): Option<string>
    decreases |p|
  {
    if p == [] then Some([])
    else if p[0] == '\\' then
      if |p| >= 2 && IsSyntaxCharacter(p[1]) then
        match LiteralAtoms(p[2..])
        case Some(t) => Some([p[1]] + t)
        case None => None
      else None
    else if IsSyntaxCharacter(p[0]) then None
    else
      match LiteralAtoms(p[1..])
      case Some(t) => Some([p[0]] + t)
      case None => None
  }

  /** The escaped query is read back as the query itself, literally. */
  lemma {:induction false} EscapeIsLiteral(q: string)
    ensures LiteralAtoms(Escape(q)) == Some(q)
    decreases |q|
  {
    if q != [] {
      EscapeIsLiteral(q[1..]);
      var e := Escape(q);
      if IsSyntaxCharacter(q[0]) {
        assert e[2..] == Escape(q[1..]);
      } else {
        assert e[1..] == Escape(q[1..]);
      }
      assert [q[0]] + q[1..] == q;
    }
  }

  /** Conversely, the only pattern body that reads as the literal q is Escape(q). */
  lemma {:induction false} LiteralIsEscape(p: string, q: string)
    requires LiteralAtoms(p) == Some(q)
    ensures p == Escape(q)
    decreases |p|
  {
    if p != [] {
      if p[0] == '\\' {
        var t := LiteralAtoms(p[2..]).value;
        LiteralIsEscape(p[2..], t);
        assert q == [p[1]] + t;
        assert q[1..] == t;
        assert p == ['\\', p[1]] + p[2..];
      } else {
        var t := LiteralAtoms(p[1..]).value;
        LiteralIsEscape(p[1..], t);
        assert q == [p[0]] + t;
        assert q[1..] == t;
        assert p == [p[0]] + p[1..];
      }
    }
  }

  /** The source text handed to `new RegExp`: one capture group around the escaped query. */
  function SearchPattern(q: string): string {
    "(" + Escape(q) + ")"
  }

  /** The body of a pattern that is a single capture group, read as literal atoms. */
  function CaptureGroupLiteral(p: string): Option<string> {
    if |p| >= 2 && p[0] == '(' && p[|p| - 1] == ')' then LiteralAtoms(p[1..|p| - 1])
    else None
  }

  /** Whatever the query, the search pattern is one group that matches the query literally. */
  lemma SearchPatternIsLiteralGroup(q: string)
    ensures CaptureGroupLiteral(SearchPattern(q)) == Some(q)
  {
    var p := SearchPattern(q);
    assert p[1..|p| - 1] == Escape(q);
    EscapeIsLiteral(q);
  }

  // ---------------------------------------------------------------------------
  // Case-insensitive matching (flag `i`). Without the `u` flag, characters are
  // compared after Canonicalize, which upper-cases them; this model folds the
  // ASCII letters only.
  // ---------------------------------------------------------------------------

  function Canonical(c: char): char {
    if 'a' <= c <= 'z' then (c as int - 32) as char else c
  }

  predicate EqualIgnoringCase(a: string, b: string) {
    |a| == |b| && forall i :: 0 <= i < |a| ==> Canonical(a[i]) == Canonical(b[i])
  }

  /** The literal query occurs, up to case, in `s` starting at offset p. */
  predicate MatchAt(s: string, p: nat, q: string) {
    p + |q| <= |s| && EqualIgnoringCase(s[p..p + |q|], q)
  }

  lemma MatchAtShift(s: string, d: nat, o: nat, q: string)
    requires d <= |s|
    ensures MatchAt(s, d + o, q) <==> MatchAt(s[d..], o, q)
  {
    if d + o + |q| <= |s| {
      assert s[d..][o..o + |q|] == s[d + o..d + o + |q|];
    }
  }

  // ---------------------------------------------------------------------------
  // Segmentation of the markup by a global scan.
  // ---------------------------------------------------------------------------

  /** A piece of the scanned markup: a character left alone, or an occurrence of the query. */
  datatype Segment = Plain(c: char) | Hit(text: string)

  /** The markup the segments were cut from. */
  function Flatten(segs: seq<Segment>): string
    decreases |segs|
  {
    if segs == [] then []
    else
      (match segs[0] case Plain(c) => [c] case Hit(t) => t) + Flatten(segs[1..])
  }

  /** Offset in the original markup at which segment k starts. */
  function Offset(segs: seq<Segment>, k: nat): nat
    requires k <= |segs|
  {
    |Flatten(segs[..k])|
  }

  function HitCount(segs: seq<Segment>): nat
    decreases |segs|
  {
    if segs == [] then 0 else (if segs[0].Hit? then 1 else 0) + HitCount(segs[1..])
  }

  /**
   * The left-to-right scan of a global regular expression over `s`: where the
   * query matches, the occurrence is consumed whole; elsewhere one character
   * is kept and the scan moves on by one. The query is never empty here (the
   * caller returns early on an empty query).
   */
  function Scan(s: string, q: string): (r: seq<Segment>)
    requires |q| > 0
    ensures Flatten(r) == s
    ensures forall k :: 0 <= k < |r| && r[k].Hit? ==> EqualIgnoringCase(r[k].text, q)
    decreases |s|
  {
    if s == [] then []
    else
      var d := if MatchAt(s, 0, q) then |q| else 1;
      var g := if MatchAt(s, 0, q) then Hit(s[..|q|]) else Plain(s[0]);
      var rest := Scan(s[d..], q);
      var r := [g] + rest;
      assert r[1..] == rest;
      assert forall k :: 1 <= k < |r| ==> r[k] == rest[k - 1];
      assert Flatten([g]) == s[..d];
      r
  }

  /**
   * The independent description of what a global replace does: the segments
   * spell `s`, every hit is an occurrence of the query, and no occurrence of
   * the query starts at a plain character (the scan is leftmost and skips
   * whatever a hit has consumed, so occurrences never overlap).
   */
  ghost predicate IsLeftmostSegmentation(s: string, q: string, segs: seq<Segment>) {
    && Flatten(segs) == s
    && (forall k :: 0 <= k < |segs| && segs[k].Hit? ==> EqualIgnoringCase(segs[k].text, q))
    && (forall k :: 0 <= k < |segs| && segs[k].Plain? ==> !MatchAt(s, Offset(segs, k), q))
  }

  function SegLength(g: Segment): nat {
    match g case Plain(_) => 1 case Hit(t) => |t|
  }

  lemma OffsetCons(g: Segment, rest: seq<Segment>, k: nat)
    requires k <= |rest|
    ensures Offset([g] + rest, k + 1) == SegLength(g) + Offset(rest, k)
  {
    var segs := [g] + rest;
    assert segs[..k + 1] == [g] + rest[..k];
    assert ([g] + rest[..k])[1..] == rest[..k];
  }

  /** The scan satisfies the description. */
  lemma {:induction false} ScanIsLeftmost(s: string, q: string)
    requires |q| > 0
    ensures IsLeftmostSegmentation(s, q, Scan(s, q))
    decreases |s|
  {
    if s != [] {
      var m := MatchAt(s, 0, q);
      var d := if m then |q| else 1;
      var g := if m then Hit(s[..|q|]) else Plain(s[0]);
      var rest := Scan(s[d..], q);
      assert Scan(s, q) == [g] + rest;
      ScanIsLeftmost(s[d..], q);
      PlainsAfterHead(s, q, g, rest, d);
    }
  }

  /** The no-occurrence-at-a-plain condition carries over from the tail to the whole. */
  lemma PlainsAfterHead(s: string, q: string, g: Segment, rest: seq<Segment>, d: nat)
    requires d == SegLength(g) && d <= |s|
    requires g.Plain? ==> !MatchAt(s, 0, q)
    requires forall k :: 0 <= k < |rest| && rest[k].Plain? ==> !MatchAt(s[d..], Offset(rest, k), q)
    ensures forall k :: 0 <= k < |[g] + rest| && ([g] + rest)[k].Plain?
              ==> !MatchAt(s, Offset([g] + rest, k), q)
  {
    var r := [g] + rest;
    forall k | 0 <= k < |r| && r[k].Plain?
      ensures !MatchAt(s, Offset(r, k), q)
    {
      if k == 0 {
        assert r[..0] == [];
      } else {
        OffsetCons(g, rest, k - 1);
        assert r[k] == rest[k - 1];
        MatchAtShift(s, d, Offset(rest, k - 1), q);
      }
    }
  }

  /** And the description admits no other segmentation: it characterises the scan. */
  lemma {:induction false} LeftmostIsScan(s: string, q: string, segs: seq<Segment>)
    requires |q| > 0
    requires IsLeftmostSegmentation(s, q, segs)
    ensures segs == Scan(s, q)
    decreases |s|
  {
    if segs == [] {
    } else {
      var g, rest := segs[0], segs[1..];
      assert segs == [g] + rest;
      var d := SegLength(g);
      assert Flatten(segs) == (match g case Plain(c) => [c] case Hit(t) => t) + Flatten(rest);
      assert Offset(segs, 0) == 0;
      if g.Hit? {
        assert EqualIgnoringCase(g.text, q);
        assert s[..|q|] == g.text;
        assert MatchAt(s, 0, q);
      } else {
        assert !MatchAt(s, 0, q);
      }
      assert d > 0 && Flatten(rest) == s[d..];
      forall k | 0 <= k < |rest| && rest[k].Plain?
        ensures !MatchAt(s[d..], Offset(rest, k), q)
      {
        assert segs[k + 1] == rest[k];
        OffsetCons(g, rest, k);
        MatchAtShift(s, d, Offset(rest, k), q);
      }
      forall k | 0 <= k < |rest| && rest[k].Hit?
        ensures EqualIgnoringCase(rest[k].text, q)
      {
        assert segs[k + 1] == rest[k];
      }
      LeftmostIsScan(s[d..], q, rest);
    }
  }

  // ---------------------------------------------------------------------------
  // The markup written back into the container.
  // ---------------------------------------------------------------------------

  const MarkOpen: string := "<mark class=\"highlight\">"
  const MarkClose: string := "</mark>"

  /** Each hit is wrapped, with its own text (`$1`), in the highlight marker. */
  function Render(segs: seq<Segment>): string
    decreases |segs|
  {
    if segs == [] then []
    else
      (match segs[0] case Plain(c) => [c] case Hit(t) => MarkOpen + t + MarkClose)
      + Render(segs[1..])
  }

  /** `originalContent.replace(regex, '<mark class="highlight">$1</mark>')`. */
  function Highlighted(s: string, q: string): string
    requires |q| > 0
  {
    Render(Scan(s, q))
  }

  /** Number of `mark.highlight` elements the new markup holds. */
  function MatchCount(s: string, q: string): nat
    requires |q| > 0
  {
    HitCount(Scan(s, q))
  }

  /** The rendering grows by exactly one pair of tags per hit. */
  lemma {:induction false} RenderLength(segs: seq<Segment>)
    ensures |Render(segs)| == |Flatten(segs)| + HitCount(segs) * (|MarkOpen| + |MarkClose|)
    decreases |segs|
  {
    if segs != [] {
      RenderLength(segs[1..]);
    }
  }

  /** Without hits, the rendering is the markup itself. */
  lemma {:induction false} RenderNoHits(segs: seq<Segment>)
    requires HitCount(segs) == 0
    ensures Render(segs) == Flatten(segs)
    decreases |segs|
  {
    if segs != [] {
      RenderNoHits(segs[1..]);
    }
  }

  /**
   * The markup changes exactly when the query occurs: a search with no result
   * leaves the markup byte-for-byte as it was.
   */
  lemma UnchangedIffNoMatch(s: string, q: string)
    requires |q| > 0
    ensures Highlighted(s, q) == s <==> MatchCount(s, q) == 0
  {
    var segs := Scan(s, q);
    RenderLength(segs);
    if HitCount(segs) == 0 {
      RenderNoHits(segs);
    }
  }

  /** An empty container has nothing to highlight. */
  lemma EmptyMarkupHasNoMatch(q: string)
    requires |q| > 0
    ensures MatchCount([], q) == 0 && Highlighted([], q) == []
  {
  }
}
