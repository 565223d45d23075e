/**
 * The few JavaScript built-ins the page scripts rely on, written out with the
 * semantics ECMA-262 gives them: the truncating remainder operator `%`,
 * `String.prototype.trim`, `String.prototype.padStart` and `Number::toString`
 * on integral values.
 */
module JsBuiltins {

  function Abs(x: int): nat { if x < 0 then -x else x }

  // ---------------------------------------------------------------------------
  // The `%` operator (ECMA-262 section 6.1.6.1.6, Number::remainder): the result
  // takes the sign of the dividend and is smaller in magnitude than the divisor.
  // Dafny's own `%` is Euclidean (never negative), so the two differ for a < 0.
  // ---------------------------------------------------------------------------

  function JsRemainder(a: int, n: int): (r: int)
    requires n != 0
    ensures Abs(r) < Abs(n)
    ensures a >= 0 ==> r >= 0
    ensures a < 0 ==> r <= 0
    ensures (a - r) % Abs(n) == 0
  {
    var m := Abs(n);
    if a >= 0 then
      ModUnique(a - a % m, m, a / m, 0);
      a % m
    else
      var r := (-a) % m;
      assert -a == m * ((-a) / m) + r;
      assert a + r == m * (-((-a) / m));
      ModUnique(a + r, m, -((-a) / m), 0);
      -r
  }

  /** n * d is at least n once d is positive. */
  lemma MulAtLeast(n: int, d: int)
    requires n > 0 && d >= 1
    ensures n * d >= n
  {
    assert n * d == n + n * (d - 1);
  }

  /** If a == n * q + r with 0 <= r < n, then r is Dafny's a % n. */
  lemma ModUnique(a: int, n: int, q: int, r: int)
    requires n > 0 && 0 <= r < n && a == n * q + r
    ensures a % n == r && a / n == q
  {
    var q', r' := a / n, a % n;
    assert a == n * q' + r';
    assert n * q - n * q' == r' - r;
    assert n * (q - q') == r' - r;
    if q > q' {
      MulAtLeast(n, q - q');
    } else if q < q' {
      assert n * (q' - q) == r - r';
      MulAtLeast(n, q' - q);
    }
  }

  /**
   * The wrap-around used by the search cursor: `((i % n) + n) % n` with the
   * JavaScript operator.
   */
  function WrapIndex(i: int, n: int): int
    requires n > 0
  {
    JsRemainder(JsRemainder(i, n) + n, n)
  }

  /** The JavaScript floored-modulo formula is exactly Dafny's Euclidean `%`. */
  lemma FlooredWrapIsEuclidean(i: int, n: int)
    requires n > 0
    ensures WrapIndex(i, n) == i % n
    ensures 0 <= WrapIndex(i, n) < n
  {
    if i >= 0 {
      var r := i % n;
      assert 0 <= r < n;
      ModUnique(r + n, n, 1, r);
    } else {
      var q, r := (-i) / n, (-i) % n;
      assert -i == n * q + r;
      assert JsRemainder(i, n) == -r;
      if r == 0 {
        ModUnique(n, n, 1, 0);
        ModUnique(i, n, -q, 0);
      } else {
        ModUnique(n - r, n, 0, n - r);
        assert i == n * (-q - 1) + (n - r);
        ModUnique(i, n, -q - 1, n - r);
      }
    }
  }

  // ---------------------------------------------------------------------------
  // String.prototype.trim (ECMA-262 section 22.1.3.32): strips WhiteSpace and
  // LineTerminator code points (sections 12.2 and 12.3) from both ends.
  // ---------------------------------------------------------------------------

  predicate IsJsWhitespace(c: char) {
    || c == '\t' || c == '\n' || c == '\U{000B}' || c == '\U{000C}' || c == '\r'
    || c == ' ' || c == '\U{00A0}' || c == '\U{1680}'
    || ('\U{2000}' <= c <= '\U{200A}')
    || c == '\U{2028}' || c == '\U{2029}' || c == '\U{202F}' || c == '\U{205F}'
    || c == '\U{3000}' || c == '\U{FEFF}'
  }

  predicate AllWhitespace(s: string) {
    forall i :: 0 <= i < |s| ==> IsJsWhitespace(s[i])
  }

  /** `s.trimStart()`: leading whitespace removed. */
  function TrimStart(s: string): (r: string)
    ensures |r| <= |s|
    ensures r != [] ==> !IsJsWhitespace(r[0])
    decreases |s|
  {
    if s != [] && IsJsWhitespace(s[0]) then TrimStart(s[1..]) else s
  }

  /** `s.trimEnd()`: trailing whitespace removed. */
  function TrimEnd(s: string): (r: string)
    ensures |r| <= |s|
    ensures r != [] ==> !IsJsWhitespace(r[|r| - 1])
    decreases |s|
  {
    if s != [] && IsJsWhitespace(s[|s| - 1]) then TrimEnd(s[..|s| - 1]) else s
  }

  /** `s.trim()`: whitespace removed from both ends. */
  function Trim(s: string): (r: string)
    ensures r != [] ==> !IsJsWhitespace(r[0]) && !IsJsWhitespace(r[|r| - 1])
  {
    TrimEndIsPrefix(TrimStart(s));
    TrimEnd(TrimStart(s))
  }

  /** TrimStart drops exactly a whitespace prefix. */
  lemma {:induction false} TrimStartIsSuffix(s: string)
    ensures var r := TrimStart(s);
            r == s[|s| - |r|..] && AllWhitespace(s[..|s| - |r|])
    decreases |s|
  {
    if s != [] && IsJsWhitespace(s[0]) {
      TrimStartIsSuffix(s[1..]);
      var r := TrimStart(s[1..]);
      assert s[..|s| - |r|] == [s[0]] + s[1..][..|s| - 1 - |r|];
    }
  }

  /** TrimEnd drops exactly a whitespace suffix. */
  lemma {:induction false} TrimEndIsPrefix(s: string)
    ensures var r := TrimEnd(s);
            r == s[..|r|] && AllWhitespace(s[|r|..])
    decreases |s|
  {
    if s != [] && IsJsWhitespace(s[|s| - 1]) {
      TrimEndIsPrefix(s[..|s| - 1]);
      var r := TrimEnd(s[..|s| - 1]);
      assert s[|r|..] == s[..|s| - 1][|r|..] + [s[|s| - 1]];
    }
  }

  /**
   * The trimmed string is the infix of `s` left between a whitespace prefix
   * and a whitespace suffix.
   */
  lemma TrimIsInfix(s: string)
    ensures Trim(s) == TrimEnd(TrimStart(s))
    ensures var i, r := |s| - |TrimStart(s)|, TrimEnd(TrimStart(s));
            && i + |r| <= |s| && r == s[i..i + |r|]
            && AllWhitespace(s[..i]) && AllWhitespace(s[i + |r|..])
  {
    var t := TrimStart(s);
    TrimStartIsSuffix(s);
    TrimEndIsPrefix(t);
    SliceOfSuffix(s, t, TrimEnd(t));
  }

  /** A prefix r of a suffix t of s is the slice of s where t starts. */
  lemma SliceOfSuffix(s: string, t: string, r: string)
    requires |t| <= |s| && t == s[|s| - |t|..] && |r| <= |t| && r == t[..|r|]
    ensures var i := |s| - |t|;
            r == s[i..i + |r|] && s[i + |r|..] == t[|r|..]
  {
  }

  /** A string trims to "" exactly when it consists of whitespace only. */
  lemma TrimEmptyIffAllWhitespace(s: string)
    ensures Trim(s) == [] <==> AllWhitespace(s)
  {
    TrimIsInfix(s);
    var i := |s| - |TrimStart(s)|;
    if AllWhitespace(s) {
      AllWhitespaceTrimsStart(s);
    } else {
      assert s[i..][0] == s[i];
    }
  }

  lemma {:induction false} AllWhitespaceTrimsStart(s: string)
    requires AllWhitespace(s)
    ensures TrimStart(s) == []
    decreases |s|
  {
    if s != [] {
      AllWhitespaceTrimsStart(s[1..]);
    }
  }

  // ---------------------------------------------------------------------------
  // Decimal digits, Number::toString on integral values (ECMA-262 section
  // 6.1.6.1.20) and String.prototype.padStart (section 22.1.3.17).
  // ---------------------------------------------------------------------------

  predicate IsAsciiDigit(c: char) { '0' <= c <= '9' }

  /** A non-empty run of ASCII digits: what the regex class `\d+` accepts. */
  predicate IsDigits(s: string) {
    |s| > 0 && forall i :: 0 <= i < |s| ==> IsAsciiDigit(s[i])
  }

  function DigitChar(d: nat): (c: char)
    requires d < 10
    ensures IsAsciiDigit(c) && c as int - '0' as int == d
  {
    ('0' as int + d) as char
  }

  /** The value of a string of decimal digits, most significant first. */
  function DecimalValue(s: string): nat
    requires forall i :: 0 <= i < |s| ==> IsAsciiDigit(s[i])
    decreases |s|
  {
    if s == [] then 0
    else
      assert IsAsciiDigit(s[|s| - 1]);
      DecimalValue(s[..|s| - 1]) * 10 + (s[|s| - 1] as int - '0' as int)
  }

  /** The decimal numeral of n, as `n.toString()` prints it. */
  function NatToString(n: nat): (r: string)
    ensures IsDigits(r)
    ensures DecimalValue(r) == n
    ensures |r| > 1 ==> r[0] != '0'
    ensures n < 10 <==> |r| == 1
    decreases n
  {
    if n < 10 then [DigitChar(n)]
    else
      var r := NatToString(n / 10) + [DigitChar(n % 10)];
      assert r[..|r| - 1] == NatToString(n / 10);
      r
  }

  /** `toString` of an integral Number, with a minus sign when negative. */
  function IntToString(i: int): (r: string)
    ensures |r| > 0
    ensures i >= 0 ==> IsDigits(r) && DecimalValue(r) == i
    ensures i < 0 ==> r[0] == '-' && IsDigits(r[1..]) && DecimalValue(r[1..]) == -i
    ensures i >= 0 && |r| > 1 ==> r[0] != '0'
    ensures i < 0 && |r| > 2 ==> r[1] != '0'
  {
    if i < 0 then "-" + NatToString(-i) else NatToString(i)
  }

  /** NatToString is one-to-one: distinct numbers print differently. */
  lemma NatToStringInjective(a: nat, b: nat)
    requires NatToString(a) == NatToString(b)
    ensures a == b
  {
  }

  /** Prefixing a zero does not change the value of a digit string. */
  lemma {:induction false} LeadingZero(s: string)
    requires forall i :: 0 <= i < |s| ==> IsAsciiDigit(s[i])
    ensures forall i :: 0 <= i < |"0" + s| ==> IsAsciiDigit(("0" + s)[i])
    ensures DecimalValue("0" + s) == DecimalValue(s)
    decreases |s|
  {
    if s != [] {
      var z := "0" + s;
      assert z[..|z| - 1] == "0" + s[..|s| - 1];
      LeadingZero(s[..|s| - 1]);
    }
  }

  function Repeat(c: char, k: nat): (r: string)
    ensures |r| == k && forall i :: 0 <= i < k ==> r[i] == c
  {
    if k == 0 then [] else [c] + Repeat(c, k - 1)
  }

  /**
   * `s.padStart(target, fill)` with a one-character fill string: a string
   * already at least `target` long is returned unchanged; otherwise `fill` is
   * repeated in front until the length is `target`.
   */
  function PadStart(s: string, target: nat, fill: char): (r: string)
    ensures |r| == if |s| >= target then |s| else target
    ensures r[|r| - |s|..] == s
    ensures forall i :: 0 <= i < |r| - |s| ==> r[i] == fill
  {
    if |s| >= target then s else Repeat(fill, target - |s|) + s
  }
}
