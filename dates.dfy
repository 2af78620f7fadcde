/**
  Dates in the layout `20060102` (configs/models.go:4): `time.Parse` with that
  layout, `Format` of the current day, and `time.Time.Before` of a parsed date
  (midnight UTC) against the current instant.
*/
module Dates {
  import opened Wrappers
  import opened Digits
  import StringOrder

  /** A calendar day; `time.Parse` yields it at midnight UTC. */
  datatype Date = Date(year: int, month: int, day: int)

  predicate IsLeapYear(y: int) {
    y % 4 == 0 && (y % 100 != 0 || y % 400 == 0)
  }

  /** The length of a month of the Gregorian calendar. */
  function DaysIn(month: int, year: int): (n: int)
    ensures 28 <= n <= 31
    ensures n == 29 <==> month == 2 && IsLeapYear(year)
  {
    if month == 2 then (if IsLeapYear(year) then 29 else 28)
    else if month == 4 || month == 6 || month == 9 || month == 11 then 30
    else 31
  }

  /** A day the layout can spell: four-digit year, month 1-12, day within the Gregorian month. */
  predicate ValidDate(d: Date) {
    0 <= d.year <= 9999 && 1 <= d.month <= 12 && 1 <= d.day <= DaysIn(d.month, d.year)
  }

  /** The year, month and day fields of an eight-digit string. */
  function Fields(s: string): (d: Date)
    requires |s| == 8 && AllDigits(s)
  {
    Date(Value(s[..4]), Value(s[4..6]), Value(s[6..]))
  }

  /** The strings `time.Parse("20060102", s)` accepts: exactly eight ASCII digits naming a real day. */
  predicate IsDateString(s: string) {
    |s| == 8 && AllDigits(s) && ValidDate(Fields(s))
  }

  function Parse(s: string): (r: Option<Date>)
    ensures r.Some? <==> IsDateString(s)
    ensures r.Some? ==> ValidDate(r.value)
  {
    if IsDateString(s) then Some(Fields(s)) else None
  }

  function Format(d: Date): (s: string)
    requires ValidDate(d)
    ensures |s| == 8 && AllDigits(s)
  {
    Padded(d.year, 4) + Padded(d.month, 2) + Padded(d.day, 2)
  }

  lemma Pow10Values()
    ensures Pow10(2) == 100 && Pow10(4) == 10000
  {
    assert Pow10(1) == 10;
    assert Pow10(3) == 1000;
  }

  /** Formatting a valid day and parsing it back gives the day. */
  lemma ParseFormat(d: Date)
    requires ValidDate(d)
    ensures Parse(Format(d)) == Some(d)
  {
    var s := Format(d);
    assert s[..4] == Padded(d.year, 4);
    assert s[4..6] == Padded(d.month, 2);
    assert s[6..] == Padded(d.day, 2);
    Pow10Values();
    ValueOfPadded(d.year, 4);
    ValueOfPadded(d.month, 2);
    ValueOfPadded(d.day, 2);
  }

  /** Parsing a date string and formatting the day gives the string back. */
  lemma FormatParse(s: string)
    requires IsDateString(s)
    ensures Format(Parse(s).value) == s
  {
    PaddedOfValue(s[..4]);
    PaddedOfValue(s[4..6]);
    PaddedOfValue(s[6..]);
    assert s == s[..4] + s[4..6] + s[6..];
  }

  /** Chronological order of days. */
  predicate DateLess(p: Date, q: Date) {
    p.year < q.year || (p.year == q.year && (p.month < q.month || (p.month == q.month && p.day < q.day)))
  }

  lemma DateKey(s: string)
    requires |s| == 8 && AllDigits(s)
    ensures Fields(s).month < 100 && Fields(s).day < 100
    ensures Value(s) == Fields(s).year * 10000 + Fields(s).month * 100 + Fields(s).day
  {
    assert s == s[..4] + (s[4..6] + s[6..]);
    ValueConcat(s[4..6], s[6..]);
    ValueConcat(s[..4], s[4..6] + s[6..]);
    ValueBound(s[4..6]);
    ValueBound(s[6..]);
    Pow10Values();
  }

  /** On date strings, Go's string `<` is chronological order: what a plain
      string comparison against today's date relies on. */
  lemma StringOrderIsChronological(s: string, t: string)
    requires IsDateString(s) && IsDateString(t)
    ensures StringOrder.Less(s, t) <==> DateLess(Parse(s).value, Parse(t).value)
  {
    StringOrder.LessOnDigits(s, t);
    DateKey(s);
    DateKey(t);
  }

  /** An instant read from the clock, in UTC: a day and the nanoseconds since its midnight. */
  datatype Instant = Instant(date: Date, nanos: int)

  const NanosPerDay: int := 86_400_000_000_000

  type Clock = c: Instant | ValidDate(c.date) && 0 <= c.nanos < NanosPerDay
    witness Instant(Date(1970, 1, 1), 0)

  /** `now.Format("20060102")`: today's date string, which parses back to today. */
  function Today(now: Clock): (s: string)
    ensures IsDateString(s) && Parse(s) == Some(now.date)
  {
    ParseFormat(now.date);
    Format(now.date)
  }

  function YearLength(y: int): (n: nat)
    ensures n == 365 || n == 366
  {
    if IsLeapYear(y) then 366 else 365
  }

  /** Days from 1 January of year 0 to 1 January of year `y`. */
  function DaysBeforeYear(y: int): (n: nat)
  {
    if y <= 0 then 0 else DaysBeforeYear(y - 1) + YearLength(y - 1)
  }

  /** Days from 1 January of year `y` to the first of month `m`. */
  function DaysBeforeMonth(m: int, y: int): (n: nat)
    decreases m
  {
    if m <= 1 then 0 else DaysBeforeMonth(m - 1, y) + DaysIn(m - 1, y)
  }

  /** The position of a day on the calendar: days since 1 January of year 0. */
  function DayNumber(d: Date): (n: int) {
    DaysBeforeYear(d.year) + DaysBeforeMonth(d.month, d.year) + d.day - 1
  }

  /** An instant as nanoseconds on the single UTC time line that `time.Time` compares on. */
  function Nanos(i: Instant): (n: int) {
    DayNumber(i.date) * NanosPerDay + i.nanos
  }

  /** `parsed.Before(now)`, where `parsed` is midnight UTC of `d`. */
  predicate Before(d: Date, now: Clock) {
    Nanos(Instant(d, 0)) < Nanos(now)
  }

  lemma {:induction false} DaysBeforeMonthMonotone(m: int, n: int, y: int)
    requires m <= n
    ensures DaysBeforeMonth(m, y) <= DaysBeforeMonth(n, y)
    decreases n - m
  {
    if m < n {
      DaysBeforeMonthMonotone(m, n - 1, y);
    }
  }

  /** The twelve months fill the year. */
  lemma MonthsFillYear(y: int)
    ensures DaysBeforeMonth(13, y) == YearLength(y)
  {
    assert DaysBeforeMonth(3, y) == 31 + DaysIn(2, y);
    assert DaysBeforeMonth(7, y) == DaysBeforeMonth(3, y) + 31 + 30 + 31 + 30;
    assert DaysBeforeMonth(13, y) == DaysBeforeMonth(7, y) + 31 + 31 + 30 + 31 + 30 + 31;
  }

  lemma {:induction false} DaysBeforeYearGap(x: int, y: int)
    requires 0 <= x < y
    ensures DaysBeforeYear(x) + YearLength(x) <= DaysBeforeYear(y)
    decreases y
  {
    if x < y - 1 {
      DaysBeforeYearGap(x, y - 1);
    }
  }

  /** Calendar order is order of day numbers. */
  lemma DayNumberIncreasing(p: Date, q: Date)
    requires ValidDate(p) && ValidDate(q) && DateLess(p, q)
    ensures DayNumber(p) < DayNumber(q)
  {
    DaysBeforeMonthMonotone(p.month + 1, 13, p.year);
    MonthsFillYear(p.year);
    if p.year < q.year {
      DaysBeforeYearGap(p.year, q.year);
    } else if p.month < q.month {
      DaysBeforeMonthMonotone(p.month + 1, q.month, p.year);
    }
  }

  /** Midnight of `d` is before `now` exactly when `d` is an earlier day, or is today's
      date once any time of the day has passed. */
  lemma BeforeByDay(d: Date, now: Clock)
    requires ValidDate(d)
    ensures Before(d, now) <==> DateLess(d, now.date) || (d == now.date && now.nanos > 0)
  {
    var a, b := DayNumber(d), DayNumber(now.date);
    assert a >= 0 && b >= 0;
    if DateLess(d, now.date) {
      DayNumberIncreasing(d, now.date);
      Digits.MultipleGap(a, b, NanosPerDay);
    } else if DateLess(now.date, d) {
      DayNumberIncreasing(now.date, d);
      Digits.MultipleGap(b, a, NanosPerDay);
    } else {
      assert d == now.date;
    }
  }

  /** `Before` restated on strings: strictly smaller than today's string, or
      today's string itself after midnight. */
  lemma BeforeAsStrings(s: string, now: Clock)
    requires IsDateString(s)
    ensures Before(Parse(s).value, now) <==>
              StringOrder.Less(s, Today(now)) || (s == Today(now) && now.nanos > 0)
  {
    StringOrderIsChronological(s, Today(now));
    FormatParse(s);
    BeforeByDay(Parse(s).value, now);
  }
}
