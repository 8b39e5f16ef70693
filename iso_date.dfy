/** The `full-date` form of section 5.6 of RFC 3339 (`YYYY-MM-DD`): the text
    both halves of the system exchange for calendar days. */
module IsoDate {
  import opened Wrappers
  import opened Gregorian

  predicate IsDigit(c: char) {
    '0' <= c <= '9'
  }

  function DigitChar(n: int): (c: char)
    requires 0 <= n <= 9
    ensures IsDigit(c)
  {
    (48 + n) as char
  }

  function DigitValue(c: char): (n: int)
    requires IsDigit(c)
    ensures 0 <= n <= 9
  {
    c as int - 48
  }

  predicate AllDigits(s: string) {
    forall i :: 0 <= i < |s| ==> IsDigit(s[i])
  }

  /** `n` as exactly two decimal digits, zero-padded. */
  function TwoDigits(n: int): (s: string)
    requires 0 <= n <= 99
    ensures |s| == 2 && AllDigits(s)
  {
    [DigitChar(n / 10), DigitChar(n % 10)]
  }

  /** `n` as exactly four decimal digits, zero-padded. */
  function FourDigits(n: int): (s: string)
    requires 0 <= n <= 9999
    ensures |s| == 4 && AllDigits(s)
  {
    TwoDigits(n / 100) + TwoDigits(n % 100)
  }

  function TwoDigitValue(s: string): (n: int)
    requires |s| == 2 && AllDigits(s)
    ensures 0 <= n <= 99
  {
    10 * DigitValue(s[0]) + DigitValue(s[1])
  }

  function FourDigitValue(s: string): (n: int)
    requires |s| == 4 && AllDigits(s)
    ensures 0 <= n <= 9999
  {
    100 * TwoDigitValue(s[..2]) + TwoDigitValue(s[2..])
  }

  /** Years, months and days that fit the fixed-width fields. */
  predicate Formattable(d: Date) {
    0 <= d.year <= 9999 && 0 <= d.month <= 99 && 0 <= d.day <= 99
  }

  /** `date-fullyear "-" date-month "-" date-mday`; what Python's
      `date.isoformat()` and the first ten characters of JavaScript's
      `toISOString()` produce for years 0000..9999. */
  function FormatDate(d: Date): (s: string)
    requires Formattable(d)
    ensures |s| == 10 && s[4] == '-' && s[7] == '-'
  {
    FourDigits(d.year) + "-" + TwoDigits(d.month) + "-" + TwoDigits(d.day)
  }

  /** Reads a `full-date`; None unless the text has that exact shape and names
      a day that exists (month 01..12, day within the month's length). */
  function ParseFullDate(s: string): (r: Option<Date>)
    ensures r.Some? ==> ValidDate(r.value) && Formattable(r.value)
  {
    if |s| == 10 && AllDigits(s[0..4]) && s[4] == '-' && AllDigits(s[5..7])
       && s[7] == '-' && AllDigits(s[8..10])
    then
      var d := Date(FourDigitValue(s[0..4]), TwoDigitValue(s[5..7]), TwoDigitValue(s[8..10]));
      if ValidDate(d) then Some(d) else None
    else None
  }

  lemma TwoDigitsRoundTrip(n: int)
    requires 0 <= n <= 99
    ensures TwoDigitValue(TwoDigits(n)) == n
  {
  }

  lemma FourDigitsRoundTrip(n: int)
    requires 0 <= n <= 9999
    ensures FourDigitValue(FourDigits(n)) == n
  {
    var s := FourDigits(n);
    assert s[..2] == TwoDigits(n / 100) && s[2..] == TwoDigits(n % 100);
    TwoDigitsRoundTrip(n / 100);
    TwoDigitsRoundTrip(n % 100);
  }

  lemma TwoDigitValueRoundTrip(s: string)
    requires |s| == 2 && AllDigits(s)
    ensures TwoDigits(TwoDigitValue(s)) == s
  {
  }

  lemma FourDigitValueRoundTrip(s: string)
    requires |s| == 4 && AllDigits(s)
    ensures FourDigits(FourDigitValue(s)) == s
  {
    var hi, lo := TwoDigitValue(s[..2]), TwoDigitValue(s[2..]);
    assert FourDigitValue(s) / 100 == hi && FourDigitValue(s) % 100 == lo;
    TwoDigitValueRoundTrip(s[..2]);
    TwoDigitValueRoundTrip(s[2..]);
    assert s == s[..2] + s[2..];
  }

  /** Formatting a valid date and reading it back gives the date. */
  lemma ParseFormat(d: Date)
    requires ValidDate(d) && Formattable(d)
    ensures ParseFullDate(FormatDate(d)) == Some(d)
  {
    var s := FormatDate(d);
    assert s[0..4] == FourDigits(d.year);
    assert s[5..7] == TwoDigits(d.month);
    assert s[8..10] == TwoDigits(d.day);
    FourDigitsRoundTrip(d.year);
    TwoDigitsRoundTrip(d.month);
    TwoDigitsRoundTrip(d.day);
  }

  /** A string that reads as a date is that date's canonical text: there is
      exactly one spelling of each day. */
  lemma FormatParse(s: string)
    requires ParseFullDate(s).Some?
    ensures FormatDate(ParseFullDate(s).value) == s
  {
    FourDigitValueRoundTrip(s[0..4]);
    TwoDigitValueRoundTrip(s[5..7]);
    TwoDigitValueRoundTrip(s[8..10]);
    assert s == s[0..4] + "-" + s[5..7] + "-" + s[8..10];
  }

  /** Different valid dates have different texts. */
  lemma FormatDateInjective(a: Date, b: Date)
    requires ValidDate(a) && Formattable(a) && ValidDate(b) && Formattable(b)
    requires FormatDate(a) == FormatDate(b)
    ensures a == b
  {
    ParseFormat(a);
    ParseFormat(b);
  }
}
