/**
 * get_tomorrow_date (utils.py): the day after a given date in the proleptic
 * Gregorian calendar that Python's `datetime` uses (years 1 to 9999),
 * rendered as `YYYY-MM-DD`. The date of "now" is a parameter.
 */
module Calendar {
  import opened Wrappers
  import opened Text

  datatype Date = Date(year: int, month: int, day: int)

  const MIN_YEAR := 1
  const MAX_YEAR := 9999

  /** The last date `datetime` can represent; one day later raises an overflow error. */
  const LAST_DATE := Date(MAX_YEAR, 12, 31)

  predicate IsLeap(y: int) {
    y % 4 == 0 && (y % 100 != 0 || y % 400 == 0)
  }

  function DaysInYear(y: int): int {
    if IsLeap(y) then 366 else 365
  }

  function DaysInMonth(y: int, m: int): (n: int)
    requires 1 <= m <= 12
    ensures 28 <= n <= 31
  {
    if m == 2 then (if IsLeap(y) then 29 else 28)
    else if m == 4 || m == 6 || m == 9 || m == 11 then 30
    else 31
  }

  predicate Valid(d: Date) {
    && MIN_YEAR <= d.year <= MAX_YEAR
    && 1 <= d.month <= 12
    && 1 <= d.day <= DaysInMonth(d.year, d.month)
  }

  /** Days in the years before `y`, counted from 1 January of year 1. */
  function DaysBeforeYear(y: int): nat
    requires y >= MIN_YEAR
  {
    if y == MIN_YEAR then 0 else DaysBeforeYear(y - 1) + DaysInYear(y - 1)
  }

  /** Days in year `y` before the first of month `m`. */
  function DaysBeforeMonth(y: int, m: int): nat
    requires 1 <= m <= 12
  {
    [0, 31, 59, 90, 120, 151, 181, 212, 243, 273, 304, 334][m - 1]
    + (if m > 2 && IsLeap(y) then 1 else 0)
  }

  /** The proleptic Gregorian ordinal: 1 January of year 1 is day 1. */
  function Ordinal(d: Date): nat
    requires Valid(d)
  {
    DaysBeforeYear(d.year) + DaysBeforeMonth(d.year, d.month) + d.day
  }

  /** Date order: by year, then month, then day. */
  predicate Before(d: Date, e: Date) {
    || d.year < e.year
    || (d.year == e.year && d.month < e.month)
    || (d.year == e.year && d.month == e.month && d.day < e.day)
  }

  /** The calendar successor; None past the last representable date. */
  function NextDay(d: Date): (r: Option<Date>)
    requires Valid(d)
    ensures r.Some? ==> Valid(r.value) && Before(d, r.value)
    ensures r.None? <==> d == LAST_DATE
  {
    if d.day < DaysInMonth(d.year, d.month) then Some(Date(d.year, d.month, d.day + 1))
    else if d.month < 12 then Some(Date(d.year, d.month + 1, 1))
    else if d.year < MAX_YEAR then Some(Date(d.year + 1, 1, 1))
    else None
  }

  lemma MonthStep(y: int, m: int)
    requires 1 <= m <= 12
    ensures DaysBeforeMonth(y, m) + DaysInMonth(y, m) == if m == 12 then DaysInYear(y) else DaysBeforeMonth(y, m + 1)
  {
  }

  lemma {:induction false} MonthsMonotone(y: int, m: int, n: int)
    requires 1 <= m < n <= 12
    ensures DaysBeforeMonth(y, m) + DaysInMonth(y, m) <= DaysBeforeMonth(y, n)
    decreases n - m
  {
    MonthStep(y, m);
    if m + 1 < n {
      MonthsMonotone(y, m + 1, n);
    }
  }

  lemma {:induction false} YearsMonotone(y: int, z: int)
    requires MIN_YEAR <= y < z
    ensures DaysBeforeYear(y) + DaysInYear(y) <= DaysBeforeYear(z)
  {
    if y + 1 < z {
      YearsMonotone(y, z - 1);
    }
  }

  /** A date falls within its own year's days. */
  lemma WithinYear(d: Date)
    requires Valid(d)
    ensures Ordinal(d) <= DaysBeforeYear(d.year) + DaysInYear(d.year)
  {
    if d.month < 12 {
      MonthsMonotone(d.year, d.month, 12);
    }
    MonthStep(d.year, 12);
  }

  /** The ordinal is strictly increasing in date order, hence one-to-one. */
  lemma OrdinalMonotone(d: Date, e: Date)
    requires Valid(d) && Valid(e) && Before(d, e)
    ensures Ordinal(d) < Ordinal(e)
  {
    if d.year < e.year {
      WithinYear(d);
      YearsMonotone(d.year, e.year);
    } else if d.month < e.month {
      MonthsMonotone(d.year, d.month, e.month);
    }
  }

  /**
   * NextDay is exactly "one day later": it returns `e` iff `e` is a valid
   * date whose ordinal is one more than that of `d` (which is what adding
   * `timedelta(days=1)` does).
   */
  lemma NextDayIsSuccessor(d: Date, e: Date)
    requires Valid(d)
    ensures NextDay(d) == Some(e) <==> Valid(e) && Ordinal(e) == Ordinal(d) + 1
  {
    var r := NextDay(d);
    if r.Some? {
      var n := r.value;
      if d.day == DaysInMonth(d.year, d.month) {
        MonthStep(d.year, d.month);
      }
      if Valid(e) && e != n {
        if Before(e, n) {
          OrdinalMonotone(e, n);
          if Before(d, e) { OrdinalMonotone(d, e); } else if e != d { OrdinalMonotone(e, d); }
        } else {
          OrdinalMonotone(n, e);
        }
      }
    } else if Valid(e) {
      if Before(d, e) {
        assert false;
      } else if e != d {
        OrdinalMonotone(e, d);
      }
    }
  }

  /** `YYYY-MM-DD` with zero padding, as `strftime('%Y-%m-%d')`. */
  function FormatDate(d: Date): (s: string)
    requires Valid(d)
    ensures |s| == 10 && s[4] == '-' && s[7] == '-'
    ensures AllDigits(s[..4]) && AllDigits(s[5..7]) && AllDigits(s[8..])
  {
    var s := Digits(d.year, 4) + "-" + Digits(d.month, 2) + "-" + Digits(d.day, 2);
    assert s[..4] == Digits(d.year, 4) && s[5..7] == Digits(d.month, 2) && s[8..] == Digits(d.day, 2);
    s
  }

  /** Reads a `YYYY-MM-DD` string back into a valid date. */
  function ParseDate(s: string): (r: Option<Date>)
    ensures r.Some? ==> Valid(r.value)
  {
    if |s| == 10 && s[4] == '-' && s[7] == '-'
       && AllDigits(s[..4]) && AllDigits(s[5..7]) && AllDigits(s[8..])
    then
      var d := Date(Value(s[..4]), Value(s[5..7]), Value(s[8..]));
      if Valid(d) then Some(d) else None
    else None
  }

  /** Formatting loses nothing: the string reads back as the same date. */
  lemma FormatDateRoundTrip(d: Date)
    requires Valid(d)
    ensures ParseDate(FormatDate(d)) == Some(d)
  {
    var s := FormatDate(d);
    assert s[..4] == Digits(d.year, 4) && s[5..7] == Digits(d.month, 2) && s[8..] == Digits(d.day, 2);
    assert Pow10(4) == 10000 && Pow10(2) == 100;
  }

  /**
   * get_tomorrow_date for the given `today`: Some of a ten-character
   * `YYYY-MM-DD` string naming the day after `today`; None when that day is
   * past the year 9999 (where `datetime` raises).
   */
  function GetTomorrowDate(today: Date): (r: Option<string>)
    requires Valid(today)
    ensures r.None? <==> today == LAST_DATE
    ensures r.Some? ==> |r.value| == 10 && r.value[4] == '-' && r.value[7] == '-'
    ensures r.Some? ==> ParseDate(r.value) == NextDay(today)
  {
    match NextDay(today)
    case None => None
    case Some(t) =>
      FormatDateRoundTrip(t);
      Some(FormatDate(t))
  }

  /** Month end, year end, 29 February in a leap year, and 1900, which is not one. */
  lemma Rollovers()
    ensures NextDay(Date(2025, 1, 31)) == Some(Date(2025, 2, 1))
    ensures NextDay(Date(2024, 12, 31)) == Some(Date(2025, 1, 1))
    ensures NextDay(Date(2024, 2, 28)) == Some(Date(2024, 2, 29))
    ensures NextDay(Date(2024, 2, 29)) == Some(Date(2024, 3, 1))
    ensures NextDay(Date(1900, 2, 28)) == Some(Date(1900, 3, 1))
  {
  }

  /** The rendering of New Year's Day 2025. */
  lemma YearText()
    ensures Digits(2025, 4) == "2025"
  {
    assert DigitChar(0) == '0' && DigitChar(2) == '2' && DigitChar(5) == '5';
    var y2 := Digits(2, 1);
    assert y2 == ['2'];
    var y20 := Digits(20, 2);
    assert y20 == y2 + ['0'];
    var y202 := Digits(202, 3);
    assert y202 == y20 + ['2'];
    assert Digits(2025, 4) == y202 + ['5'];
  }

  lemma NewYearText()
    ensures FormatDate(Date(2025, 1, 1)) == "2025-01-01"
  {
    YearText();
    TwoDigits(1);
    assert DigitChar(0) == '0' && DigitChar(1) == '1';
    assert Digits(1, 2) == "01";
    assert "2025" + "-" + "01" + "-" + "01" == "2025-01-01";
  }
}
