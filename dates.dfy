/**
 * Decimal digit strings and the Gregorian calendar, as Python's `datetime`
 * sees them: `strptime` with the directives `%Y`, `%m`, `%d`, `%H`, `%M`, `%S`
 * and `strftime` with the same directives. Digits are ASCII only.
 */
module Dates {
  import opened Wrappers

  // ---------------------------------------------------------------------
  // Digits and decimal numerals
  // ---------------------------------------------------------------------

  predicate IsDigit(c: char) {
    '0' <= c <= '9'
  }

  predicate IsDigits(s: string) {
    forall i :: 0 <= i < |s| ==> IsDigit(s[i])
  }

  function DigitValue(c: char): (v: nat)
    requires IsDigit(c)
    ensures v < 10
  {
    (c as int) - ('0' as int)
  }

  function DigitChar(v: nat): (c: char)
    requires v < 10
    ensures IsDigit(c) && DigitValue(c) == v
  {
    (('0' as int) + v) as char
  }

  /** The value `int()` gives a string of decimal digits, most significant first. */
  function DecimalValue(s: string): nat
    requires IsDigits(s)
  {
    if s == [] then 0 else 10 * DecimalValue(s[..|s| - 1]) + DigitValue(s[|s| - 1])
  }

  /** `str(n)`, or `%d`: the decimal numeral of `n` without leading zeros. */
  function DecimalString(n: nat): (s: string)
    ensures IsDigits(s) && |s| >= 1
    ensures (s[0] == '0') == (n == 0)
  {
    if n < 10 then [DigitChar(n)] else DecimalString(n / 10) + [DigitChar(n % 10)]
  }

  /** Left padding with `'0'` up to `width` characters, as in the format `{n:0<width>d}`. */
  function ZeroPad(s: string, width: nat): (r: string)
    ensures |r| == if |s| >= width then |s| else width
    ensures r[|r| - |s|..] == s
    ensures forall i :: 0 <= i < |r| - |s| ==> r[i] == '0'
    decreases width - |s|
  {
    if |s| >= width then s
    else
      var t := ['0'] + s;
      var r := ZeroPad(t, width);
      assert r[|r| - |s|..] == r[|r| - |t|..][1..];
      assert r[|r| - |t|] == t[0];
      r
  }

  /** `%m`, `%d`, `%H`, `%M`, `%S` as strftime writes them: always two digits. */
  function TwoDigits(v: nat): (s: string)
    requires v < 100
    ensures |s| == 2 && IsDigits(s)
  {
    [DigitChar(v / 10), DigitChar(v % 10)]
  }

  function Pow10(k: nat): (p: nat)
    ensures p >= 1
  {
    if k == 0 then 1 else 10 * Pow10(k - 1)
  }

  lemma {:induction false} DecimalRoundTrip(n: nat)
    ensures DecimalValue(DecimalString(n)) == n
  {
    if n >= 10 {
      DecimalRoundTrip(n / 10);
      var s := DecimalString(n);
      assert s[..|s| - 1] == DecimalString(n / 10);
    }
  }

  /** A numeral has at most `k` digits exactly when its value is below 10^k. */
  lemma {:induction false} DecimalStringLength(n: nat, k: nat)
    requires k >= 1
    ensures |DecimalString(n)| <= k <==> n < Pow10(k)
  {
    if k == 1 {
      if n >= 10 {
        assert |DecimalString(n)| == |DecimalString(n / 10)| + 1;
      }
    } else if n >= 10 {
      DecimalStringLength(n / 10, k - 1);
      assert |DecimalString(n)| == |DecimalString(n / 10)| + 1;
      assert n / 10 < Pow10(k - 1) <==> n < 10 * Pow10(k - 1);
    } else {
      assert Pow10(k) == 10 * Pow10(k - 1);
    }
  }

  lemma FourDigitYear(n: nat)
    requires 1000 <= n <= 9999
    ensures |DecimalString(n)| == 4
  {
    assert Pow10(3) == 1000 && Pow10(4) == 10000;
    DecimalStringLength(n, 3);
    DecimalStringLength(n, 4);
  }

  /** A leading zero does not change a numeral's value. */
  lemma {:induction false} LeadingZero(s: string)
    requires IsDigits(s)
    ensures IsDigits(['0'] + s) && DecimalValue(['0'] + s) == DecimalValue(s)
  {
    var t := ['0'] + s;
    if s != [] {
      assert t[..|t| - 1] == ['0'] + s[..|s| - 1];
      LeadingZero(s[..|s| - 1]);
    } else {
      assert t[..|t| - 1] == [];
    }
  }

  lemma {:induction false} ZeroPadValue(s: string, width: nat)
    requires IsDigits(s)
    ensures IsDigits(ZeroPad(s, width)) && DecimalValue(ZeroPad(s, width)) == DecimalValue(s)
    decreases width - |s|
  {
    if |s| < width {
      LeadingZero(s);
      ZeroPadValue(['0'] + s, width);
    }
  }

  lemma PairValue(s: string)
    requires |s| == 2 && IsDigits(s)
    ensures DecimalValue(s) == 10 * DigitValue(s[0]) + DigitValue(s[1])
  {
    var first := s[..1];
    assert first == [s[0]] && first[..0] == [];
    assert DecimalValue(first) == DigitValue(s[0]);
  }

  lemma TwoDigitsValue(v: nat)
    requires v < 100
    ensures DecimalValue(TwoDigits(v)) == v
  {
    PairValue(TwoDigits(v));
  }

  lemma TwoDigitsOfValue(s: string)
    requires |s| == 2 && IsDigits(s)
    ensures DecimalValue(s) < 100 && TwoDigits(DecimalValue(s)) == s
  {
    PairValue(s);
    assert DigitChar(DigitValue(s[0])) == s[0] && DigitChar(DigitValue(s[1])) == s[1];
  }

  lemma {:induction false} LeadingDigitBound(s: string)
    requires IsDigits(s) && |s| >= 1
    ensures DecimalValue(s) >= DigitValue(s[0])
  {
    if |s| >= 2 {
      LeadingDigitBound(s[..|s| - 1]);
    } else {
      assert s[..0] == [];
    }
  }

  /** A numeral without a leading zero is the one `str()` prints for its value. */
  lemma {:induction false} CanonicalNumeral(s: string)
    requires IsDigits(s) && |s| >= 1 && s[0] != '0'
    ensures DecimalString(DecimalValue(s)) == s
  {
    var n := DecimalValue(s);
    var last := s[|s| - 1];
    if |s| == 1 {
      assert s[..0] == [];
      assert s == [DigitChar(DigitValue(last))];
    } else {
      var init := s[..|s| - 1];
      LeadingDigitBound(init);
      CanonicalNumeral(init);
      assert n / 10 == DecimalValue(init) && n % 10 == DigitValue(last);
      assert DigitChar(DigitValue(last)) == last;
      assert s == init + [last];
    }
  }

  // ---------------------------------------------------------------------
  // The Gregorian calendar, with the year range of Python's datetime
  // ---------------------------------------------------------------------

  const MinYear: int := 1
  const MaxYear: int := 9999

  predicate IsLeapYear(y: int) {
    y % 4 == 0 && (y % 100 != 0 || y % 400 == 0)
  }

  function DaysInMonth(y: int, m: int): (n: int)
    requires 1 <= m <= 12
    ensures 28 <= n <= 31
    ensures n == 29 <==> m == 2 && IsLeapYear(y)
  {
    if m == 2 then (if IsLeapYear(y) then 29 else 28)
    else if m == 4 || m == 6 || m == 9 || m == 11 then 30
    else 31
  }

  datatype Date = Date(year: int, month: int, day: int)

  datatype DateTime = DateTime(date: Date, hour: int, minute: int, second: int)

  /** What the `datetime.date` constructor accepts. */
  predicate IsValidDate(d: Date) {
    && MinYear <= d.year <= MaxYear
    && 1 <= d.month <= 12
    && 1 <= d.day <= DaysInMonth(d.year, d.month)
  }

  /** What the `datetime.datetime` constructor accepts (no leap seconds). */
  predicate IsValidDateTime(t: DateTime) {
    && IsValidDate(t.date)
    && 0 <= t.hour < 24
    && 0 <= t.minute < 60
    && 0 <= t.second < 60
  }

  lemma LeapDay(y: int)
    requires MinYear <= y <= MaxYear
    ensures IsValidDate(Date(y, 2, 29)) <==> IsLeapYear(y)
    ensures !IsValidDate(Date(y, 2, 30))
  {
  }

  // ---------------------------------------------------------------------
  // strptime(s, "%Y-%m-%d") on the strings `\d{4}-\d{2}-\d{2}` matches,
  // and strftime("%Y-%m-%d")
  // ---------------------------------------------------------------------

  /** The regular expression `\d{4}-\d{2}-\d{2}` matches all of `s`. */
  predicate IsIsoDateShape(s: string) {
    && |s| == 10
    && IsDigits(s[0..4]) && s[4] == '-'
    && IsDigits(s[5..7]) && s[7] == '-'
    && IsDigits(s[8..10])
  }

  /** The year, month and day fields of a `YYYY-MM-DD` string, not yet checked. */
  function IsoDateFields(s: string): Date
    requires IsIsoDateShape(s)
  {
    Date(DecimalValue(s[0..4]), DecimalValue(s[5..7]), DecimalValue(s[8..10]))
  }

  /**
   * `datetime.strptime(s, "%Y-%m-%d")` for `s` of the shape `DDDD-DD-DD`:
   * `None` stands for the `ValueError` it raises (month 00 or above 12, day 00
   * or past the month's end, year 0000).
   */
  function ParseIsoDate(s: string): (r: Option<Date>)
    requires IsIsoDateShape(s)
    ensures r.Some? ==> IsValidDate(r.value)
  {
    var d := IsoDateFields(s);
    if IsValidDate(d) then Some(d) else None
  }

  /**
   * `strftime("%Y-%m-%d")`. `%Y` is written as glibc writes it: the year's
   * numeral without padding, so that year 999 becomes `999`.
   */
  function FormatIsoDate(d: Date): (s: string)
    requires IsValidDate(d)
  {
    DecimalString(d.year) + "-" + TwoDigits(d.month) + "-" + TwoDigits(d.day)
  }

  /** Formatting a date of a four-digit year and parsing it back gives the date. */
  lemma IsoDateRoundTrip(d: Date)
    requires IsValidDate(d) && d.year >= 1000
    ensures IsIsoDateShape(FormatIsoDate(d))
    ensures ParseIsoDate(FormatIsoDate(d)) == Some(d)
  {
    var s := FormatIsoDate(d);
    FourDigitYear(d.year);
    assert s[0..4] == DecimalString(d.year);
    assert s[5..7] == TwoDigits(d.month);
    assert s[8..10] == TwoDigits(d.day);
    DecimalRoundTrip(d.year);
    TwoDigitsValue(d.month);
    TwoDigitsValue(d.day);
  }

  /** Parsing a `YYYY-MM-DD` string and formatting the date gives the string back, unless the year has a leading zero. */
  lemma IsoDateFormatsBack(s: string)
    requires IsIsoDateShape(s) && ParseIsoDate(s).Some? && s[0] != '0'
    ensures FormatIsoDate(ParseIsoDate(s).value) == s
  {
    var d := ParseIsoDate(s).value;
    CanonicalNumeral(s[0..4]);
    TwoDigitsOfValue(s[5..7]);
    TwoDigitsOfValue(s[8..10]);
    assert s == s[0..4] + "-" + s[5..7] + "-" + s[8..10];
  }

  /** `strftime("%d-%m-%Y")`, the day-first folder name; `%Y` as in FormatIsoDate. */
  function FormatDayFirst(d: Date): (s: string)
    requires IsValidDate(d)
  {
    TwoDigits(d.day) + "-" + TwoDigits(d.month) + "-" + DecimalString(d.year)
  }

  /** The day-first name determines the date: distinct dates get distinct folders. */
  lemma DayFirstInjective(d1: Date, d2: Date)
    requires IsValidDate(d1) && IsValidDate(d2)
    requires FormatDayFirst(d1) == FormatDayFirst(d2)
    ensures d1 == d2
  {
    var s1, s2 := FormatDayFirst(d1), FormatDayFirst(d2);
    assert s1[0..2] == TwoDigits(d1.day) && s2[0..2] == TwoDigits(d2.day);
    assert s1[3..5] == TwoDigits(d1.month) && s2[3..5] == TwoDigits(d2.month);
    assert s1[6..] == DecimalString(d1.year) && s2[6..] == DecimalString(d2.year);
    TwoDigitsValue(d1.day);
    TwoDigitsValue(d2.day);
    TwoDigitsValue(d1.month);
    TwoDigitsValue(d2.month);
    DecimalRoundTrip(d1.year);
    DecimalRoundTrip(d2.year);
  }

  // ---------------------------------------------------------------------
  // strptime(s, "%Y:%m:%d %H:%M:%S"), the form of the Exif
  // DateTimeOriginal tag (JEITA CP-3451, section 4.6.5)
  // ---------------------------------------------------------------------

  /** `s` is `YYYY:MM:DD HH:MM:SS` with every field fully written. */
  predicate IsExifDateTimeShape(s: string) {
    && |s| == 19
    && IsDigits(s[0..4]) && s[4] == ':'
    && IsDigits(s[5..7]) && s[7] == ':'
    && IsDigits(s[8..10]) && s[10] == ' '
    && IsDigits(s[11..13]) && s[13] == ':'
    && IsDigits(s[14..16]) && s[16] == ':'
    && IsDigits(s[17..19])
  }

  /** `datetime.strptime(s, "%Y:%m:%d %H:%M:%S")`; `None` stands for its `ValueError`. */
  function ParseExifDateTime(s: string): (r: Option<DateTime>)
    ensures r.Some? ==> IsExifDateTimeShape(s) && IsValidDateTime(r.value)
  {
    if !IsExifDateTimeShape(s) then None
    else
      var t := DateTime(Date(DecimalValue(s[0..4]), DecimalValue(s[5..7]), DecimalValue(s[8..10])),
                        DecimalValue(s[11..13]), DecimalValue(s[14..16]), DecimalValue(s[17..19]));
      if IsValidDateTime(t) then Some(t) else None
  }

  /** How a camera writes DateTimeOriginal for a moment of a four-digit year. */
  function FormatExifDateTime(t: DateTime): (s: string)
    requires IsValidDateTime(t)
  {
    DecimalString(t.date.year) + ":" + TwoDigits(t.date.month) + ":" + TwoDigits(t.date.day) + " "
      + TwoDigits(t.hour) + ":" + TwoDigits(t.minute) + ":" + TwoDigits(t.second)
  }

  lemma ExifDateTimeRoundTrip(t: DateTime)
    requires IsValidDateTime(t) && t.date.year >= 1000
    ensures ParseExifDateTime(FormatExifDateTime(t)) == Some(t)
  {
    var s := FormatExifDateTime(t);
    FourDigitYear(t.date.year);
    assert s[0..4] == DecimalString(t.date.year);
    assert s[5..7] == TwoDigits(t.date.month);
    assert s[8..10] == TwoDigits(t.date.day);
    assert s[11..13] == TwoDigits(t.hour);
    assert s[14..16] == TwoDigits(t.minute);
    assert s[17..19] == TwoDigits(t.second);
    DecimalRoundTrip(t.date.year);
    TwoDigitsValue(t.date.month);
    TwoDigitsValue(t.date.day);
    TwoDigitsValue(t.hour);
    TwoDigitsValue(t.minute);
    TwoDigitsValue(t.second);
  }
}
