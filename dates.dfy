/**
 * Calendar dates as Python's `datetime.date` has them: years 1 to 9999, the
 * proleptic Gregorian calendar, ordering by (year, month, day), and the
 * `%Y-%m-%d` text the form stores in the sheet.
 */
module Dates {
  import opened Wrappers

  datatype Date = Date(year: int, month: int, day: int)

  predicate IsLeapYear(y: int) {
    y % 4 == 0 && (y % 100 != 0 || y % 400 == 0)
  }

  function DaysInMonth(y: int, m: int): (n: int)
    requires 1 <= m <= 12
    ensures 28 <= n <= 31
    ensures m == 2 ==> (n == 29 <==> IsLeapYear(y))
  {
    if m == 2 then (if IsLeapYear(y) then 29 else 28)
    else if m == 4 || m == 6 || m == 9 || m == 11 then 30
    else 31
  }

  /** What `date(year, month, day)` accepts without raising `ValueError`. */
  predicate IsValidDate(d: Date) {
    1 <= d.year <= 9999 && 1 <= d.month <= 12 && 1 <= d.day <= DaysInMonth(d.year, d.month)
  }

  /** A date a date picker or `date.today()` can produce. */
  type CalendarDate = d: Date | IsValidDate(d) witness Date(2000, 1, 1)

  /** `a <= b` on Python dates. */
  predicate NotAfter(a: Date, b: Date) {
    a.year < b.year
    || (a.year == b.year && (a.month < b.month || (a.month == b.month && a.day <= b.day)))
  }

  /** `date(1950, 1, 1)`, the earliest accepted birth date. */
  const MIN_BIRTHDATE := Date(1950, 1, 1)

  /**
   * `date(today.year - 18, today.month, today.day)`: the latest accepted birth
   * date, or None where that constructor call raises.
   */
  function EighteenYearsBefore(today: Date): (r: Option<Date>)
    ensures r.Some? ==> IsValidDate(r.value) && r.value.year == today.year - 18
    ensures r.Some? ==> r.value.month == today.month && r.value.day == today.day
  {
    var d := Date(today.year - 18, today.month, today.day);
    if IsValidDate(d) then Some(d) else None
  }

  /**
   * For every date of year 19 or later the limit exists except on 29 February:
   * a leap year minus 18 is never a leap year, so the page fails on that day.
   */
  lemma EighteenYearsBeforeFailsOnlyOnLeapDay(today: Date)
    requires IsValidDate(today) && today.year >= 19
    ensures EighteenYearsBefore(today).None? <==> today.month == 2 && today.day == 29
  {
    var y := today.year;
    if today.month == 2 && today.day == 29 {
      assert IsLeapYear(y);
      assert (y - 18) % 4 == 2;
      assert !IsLeapYear(y - 18);
    } else if today.month == 2 {
      assert today.day <= 28;
    }
  }

  function DigitChar(d: int): (c: char)
    requires 0 <= d <= 9
    ensures '0' <= c <= '9'
  {
    ('0' as int + d) as char
  }

  predicate IsDigit(c: char) {
    '0' <= c <= '9'
  }

  function DigitValue(c: char): (d: int)
    requires IsDigit(c)
    ensures 0 <= d <= 9 && DigitChar(d) == c
  {
    c as int - '0' as int
  }

  /** The last `width` decimal digits of `n`, zero-padded (as `%04d`, `%02d`). */
  function Digits(n: nat, width: nat): (s: string)
    ensures |s| == width
    ensures forall k :: 0 <= k < |s| ==> IsDigit(s[k])
  {
    if width == 0 then [] else Digits(n / 10, width - 1) + [DigitChar(n % 10)]
  }

  /** The number a string of decimal digits spells. */
  function DigitsValue(s: string): (n: nat)
    requires forall k :: 0 <= k < |s| ==> IsDigit(s[k])
  {
    if s == [] then 0 else 10 * DigitsValue(s[..|s| - 1]) + DigitValue(s[|s| - 1])
  }

  function Pow10(k: nat): (p: nat)
    ensures p >= 1
  {
    if k == 0 then 1 else 10 * Pow10(k - 1)
  }

  lemma {:induction false} DigitsRoundTrip(n: nat, width: nat)
    requires n < Pow10(width)
    ensures DigitsValue(Digits(n, width)) == n
  {
    if width > 0 {
      var s := Digits(n, width);
      assert s[..|s| - 1] == Digits(n / 10, width - 1);
      assert s[|s| - 1] == DigitChar(n % 10);
      assert DigitsValue(s) == 10 * DigitsValue(s[..|s| - 1]) + DigitValue(s[|s| - 1]);
      DigitsRoundTrip(n / 10, width - 1);
      assert n == 10 * (n / 10) + n % 10;
    }
  }

  /** `date.strftime("%Y-%m-%d")`. */
  function Format(d: Date): (s: string)
    requires IsValidDate(d)
    ensures |s| == 10 && s[4] == '-' && s[7] == '-'
  {
    Digits(d.year, 4) + "-" + Digits(d.month, 2) + "-" + Digits(d.day, 2)
  }

  predicate AllDigits(s: string) {
    forall k :: 0 <= k < |s| ==> IsDigit(s[k])
  }

  /** `datetime.strptime(s, "%Y-%m-%d").date()` restricted to the padded form. */
  function Parse(s: string): (r: Option<Date>)
    ensures r.Some? ==> IsValidDate(r.value)
  {
    if |s| == 10 && s[4] == '-' && s[7] == '-'
       && AllDigits(s[..4]) && AllDigits(s[5..7]) && AllDigits(s[8..])
    then
      var d := Date(DigitsValue(s[..4]), DigitsValue(s[5..7]), DigitsValue(s[8..]));
      if IsValidDate(d) then Some(d) else None
    else None
  }

  /** The text stored for a date determines the date. */
  lemma ParseFormat(d: Date)
    requires IsValidDate(d)
    ensures Parse(Format(d)) == Some(d)
  {
    var s := Format(d);
    assert s[..4] == Digits(d.year, 4);
    assert s[5..7] == Digits(d.month, 2);
    assert s[8..] == Digits(d.day, 2);
    assert Pow10(4) == 10000 && Pow10(2) == 100;
    DigitsRoundTrip(d.year, 4);
    DigitsRoundTrip(d.month, 2);
    DigitsRoundTrip(d.day, 2);
  }

  lemma FormatInjective(a: Date, b: Date)
    requires IsValidDate(a) && IsValidDate(b)
    ensures Format(a) == Format(b) <==> a == b
  {
    if Format(a) == Format(b) {
      ParseFormat(a);
      ParseFormat(b);
    }
  }
}
