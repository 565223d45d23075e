/**
 * The footer: `updateFooterInfo` writes the current year and a
 * `YYYY-MM-DD HH:MM` last-updated stamp into two spans found by id, and runs
 * only once the footer fragment has loaded. The clock is not modelled: each
 * `new Date()` reading is a parameter.
 */
module Footer {
  import opened JsBuiltins
  import opened Wrappers

  /**
   * The fields of a `Date` the stamp reads, as its getters report them:
   * `getMonth` is 0-based, the others are as printed on a calendar.
   */
  datatype Clock = Clock(year: int, month: nat, date: nat, hours: nat, minutes: nat)

  /** A reading of a real calendar with a four-digit year. */
  predicate InRange(c: Clock) {
    1000 <= c.year <= 9999 && c.month < 12 && 1 <= c.date <= 31
    && c.hours < 24 && c.minutes < 60
  }

  /** `n.toString().padStart(2, '0')`. */
  function Pad2(n: nat): (r: string)
    ensures IsDigits(r) && DecimalValue(r) == n
    ensures |r| >= 2
    ensures n < 100 ==> |r| == 2
    ensures n >= 10 ==> r == NatToString(n)
  {
    var s := NatToString(n);
    var r := PadStart(s, 2, '0');
    if n < 10 then
      assert r == "0" + s;
      LeadingZero(s);
      r
    else if n < 100 then
      TwoDigits(n);
      r
    else r
  }

  lemma TwoDigits(n: nat)
    requires 10 <= n < 100
    ensures |NatToString(n)| == 2
  {
    assert NatToString(n) == NatToString(n / 10) + [DigitChar(n % 10)];
  }

  lemma FourDigits(n: nat)
    requires 1000 <= n < 10000
    ensures |NatToString(n)| == 4
  {
    assert NatToString(n) == NatToString(n / 10) + [DigitChar(n % 10)];
    assert NatToString(n / 10) == NatToString(n / 100) + [DigitChar(n / 10 % 10)];
    TwoDigits(n / 100);
  }

  /** A four-digit year prints as four characters. */
  lemma YearWidth(year: int)
    requires 1000 <= year <= 9999
    ensures |IntToString(year)| == 4
  {
    FourDigits(year);
  }

  /** The last-updated text: the date, a space, then the time of day. */
  function LastUpdated(c: Clock): string {
    DatePart(c) + " " + TimePart(c)
  }

  /** `YYYY-MM-DD`, with the 0-based month shifted to 1-based. */
  function DatePart(c: Clock): string {
    IntToString(c.year) + "-" + Pad2(c.month + 1) + "-" + Pad2(c.date)
  }

  /** `HH:MM`. */
  function TimePart(c: Clock): string {
    Pad2(c.hours) + ":" + Pad2(c.minutes)
  }

  /**
   * For an in-range reading the stamp is 16 characters, `YYYY-MM-DD HH:MM`,
   * and each field reads back as the number it was printed from.
   */
  lemma LastUpdatedLayout(c: Clock)
    requires InRange(c)
    ensures var s := LastUpdated(c);
            && |s| == 16
            && s[4] == '-' && s[7] == '-' && s[10] == ' ' && s[13] == ':'
            && IsDigits(s[0..4]) && DecimalValue(s[0..4]) == c.year
            && IsDigits(s[5..7]) && DecimalValue(s[5..7]) == c.month + 1
            && IsDigits(s[8..10]) && DecimalValue(s[8..10]) == c.date
            && IsDigits(s[11..13]) && DecimalValue(s[11..13]) == c.hours
            && IsDigits(s[14..16]) && DecimalValue(s[14..16]) == c.minutes
  {
    var s, dp, tp := LastUpdated(c), DatePart(c), TimePart(c);
    DatePartLayout(c);
    TimePartLayout(c);
    Join2(dp, ' ', tp);
    assert s[0..4] == dp[0..4];
    assert s[5..7] == dp[5..7];
    assert s[8..10] == dp[8..10];
    assert s[11..13] == tp[0..2];
    assert s[14..16] == tp[3..5];
  }

  lemma DatePartLayout(c: Clock)
    requires InRange(c)
    ensures var s := DatePart(c);
            && |s| == 10 && s[4] == '-' && s[7] == '-'
            && s[0..4] == IntToString(c.year) && s[5..7] == Pad2(c.month + 1) && s[8..10] == Pad2(c.date)
  {
    YearWidth(c.year);
    Join3(IntToString(c.year), '-', Pad2(c.month + 1), '-', Pad2(c.date));
  }

  lemma TimePartLayout(c: Clock)
    requires InRange(c)
    ensures var s := TimePart(c);
            && |s| == 5 && s[2] == ':'
            && s[0..2] == Pad2(c.hours) && s[3..5] == Pad2(c.minutes)
  {
    Join2(Pad2(c.hours), ':', Pad2(c.minutes));
  }

  /** Where the parts of `a + [x] + b` sit. */
  lemma Join2(a: string, x: char, b: string)
    ensures var s := a + [x] + b;
            && |s| == |a| + 1 + |b| && s[|a|] == x
            && s[..|a|] == a && s[|a| + 1..] == b
  {
    var s := a + [x] + b;
    assert s[|a| + 1..] == b;
  }

  /** Where the parts of `a + [x] + b + [y] + c` sit. */
  lemma Join3(a: string, x: char, b: string, y: char, c: string)
    ensures var s := a + [x] + b + [y] + c;
            && |s| == |a| + |b| + |c| + 2 && s[|a|] == x && s[|a| + 1 + |b|] == y
            && s[0..|a|] == a && s[|a| + 1..|a| + 1 + |b|] == b && s[|a| + |b| + 2..] == c
  {
    Join2(a, x, b);
    Join2(a + [x] + b, y, c);
    var s := a + [x] + b + [y] + c;
    assert s[..|a| + 1 + |b|] == a + [x] + b;
  }

  /** Distinct in-range readings never print the same stamp. */
  lemma LastUpdatedInjective(c1: Clock, c2: Clock)
    requires InRange(c1) && InRange(c2)
    requires LastUpdated(c1) == LastUpdated(c2)
    ensures c1 == c2
  {
    LastUpdatedLayout(c1);
    LastUpdatedLayout(c2);
  }

  // ---------------------------------------------------------------------------
  // `updateFooterInfo` and the guard that calls it.
  // ---------------------------------------------------------------------------

  /** A span whose `textContent` the footer code assigns. */
  class TextSpan {
    var textContent: string

    constructor (text: string)
      ensures textContent == text
    {
      textContent := text;
    }
  }

  /**
   * The footer container, with what `querySelector` finds in it for the
   * year span and the last-updated span (null when absent).
   */
  class FooterElement {
    const yearSpan: TextSpan?
    const lastUpdatedSpan: TextSpan?

    /** `#current-year` and `#last-updated` name two different elements, if any. */
    constructor (yearSpan: TextSpan?, lastUpdatedSpan: TextSpan?)
      requires yearSpan == null || yearSpan != lastUpdatedSpan
      ensures this.yearSpan == yearSpan && this.lastUpdatedSpan == lastUpdatedSpan
      ensures Valid()
    {
      this.yearSpan := yearSpan;
      this.lastUpdatedSpan := lastUpdatedSpan;
    }

    /** An element has one id, so the two queries never find the same span. */
    predicate Valid() {
      yearSpan == null || yearSpan != lastUpdatedSpan
    }

    /** The spans present in this footer. */
    function Spans(): set<TextSpan> {
      (if yearSpan != null then {yearSpan} else {})
      + (if lastUpdatedSpan != null then {lastUpdatedSpan} else {})
    }
  }

  /**
   * `updateFooterInfo(footer)`: nothing without a footer; otherwise each
   * span present is written, independently of the other. `year` is the
   * first clock reading (`new Date().getFullYear()`, converted to a string
   * by the assignment), `now` the second one.
   */
  method UpdateFooterInfo(footer: FooterElement?, year: int, now: Clock)
    requires footer != null ==> footer.Valid()
    modifies if footer == null then {} else footer.Spans()
    ensures footer != null && footer.lastUpdatedSpan != null ==>
              footer.lastUpdatedSpan.textContent == LastUpdated(now)
    ensures footer != null && footer.yearSpan != null ==>
              footer.yearSpan.textContent == IntToString(year)
  {
    if footer == null {
      return;
    }
    var yearSpan := footer.yearSpan;
    if yearSpan != null {
      yearSpan.textContent := IntToString(year);
    }
    var lastUpdatedSpan := footer.lastUpdatedSpan;
    if lastUpdatedSpan != null {
      lastUpdatedSpan.textContent := LastUpdated(now);
    }
  }

  /** How a `Promise.allSettled` entry ended; a fulfilled load carries the HTML or null. */
  datatype Settled = Fulfilled(value: Option<string>) | Rejected

  /** Whether the footer load succeeded: fulfilled with a value that is not null. */
  predicate FooterLoaded(result: Settled) {
    result.Fulfilled? && result.value.Some?
  }

  /**
   * The continuation after the three fragment loads settle: the footer is
   * updated only when its own load was fulfilled with a non-null value.
   */
  method OnFragmentsSettled(footerResult: Settled, footer: FooterElement?, year: int, now: Clock)
    requires footer != null ==> footer.Valid()
    modifies if footer == null then {} else footer.Spans()
    ensures !FooterLoaded(footerResult) ==> footer == null || unchanged(footer.Spans())
    ensures FooterLoaded(footerResult) && footer != null && footer.lastUpdatedSpan != null ==>
              footer.lastUpdatedSpan.textContent == LastUpdated(now)
    ensures FooterLoaded(footerResult) && footer != null && footer.yearSpan != null ==>
              footer.yearSpan.textContent == IntToString(year)
  {
    if footerResult.Fulfilled? && footerResult.value != None {
      UpdateFooterInfo(footer, year, now);
    }
  }
}
