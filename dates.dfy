/**
  Civil (proleptic Gregorian) calendar dates, compared at day granularity.

  The application normalises every JavaScript `Date` to local midnight and
  then works only with its year, month, day of month and weekday; this module
  gives those notions directly. Months are numbered 1..12 here (JavaScript's
  `getMonth()` numbers them 0..11).
*/
module CivilDates {

  datatype CivilDate = CivilDate(year: int, month: int, day: int)

  predicate IsLeapYear(y: int) {
    y % 4 == 0 && (y % 100 != 0 || y % 400 == 0)
  }

  /** Length of month `m` of year `y`: what `new Date(y, m, 0).getDate()` yields. */
  function DaysInMonth(y: int, m: int): (n: int)
    requires 1 <= m <= 12
    ensures 28 <= n <= 31
    ensures n == 29 <==> m == 2 && IsLeapYear(y)
    ensures n == 28 <==> m == 2 && !IsLeapYear(y)
  {
    if m == 2 then (if IsLeapYear(y) then 29 else 28)
    else if m == 4 || m == 6 || m == 9 || m == 11 then 30
    else 31
  }

  function DaysInYear(y: int): int {
    if IsLeapYear(y) then 366 else 365
  }

  predicate Valid(d: CivilDate) {
    1 <= d.month <= 12 && 1 <= d.day <= DaysInMonth(d.year, d.month)
  }

  /** Is `d` the last day of its month? */
  predicate IsLastDayOfMonth(d: CivilDate)
    requires Valid(d)
  {
    d.day == DaysInMonth(d.year, d.month)
  }

  /** Chronological order of dates (lexicographic on year, month, day). */
  predicate Le(a: CivilDate, b: CivilDate): (r: bool)
    ensures a == b ==> r
    ensures r ==> a.year <= b.year
  {
    a.year < b.year
    || (a.year == b.year && a.month < b.month)
    || (a.year == b.year && a.month == b.month && a.day <= b.day)
  }

  /** The following calendar day: what `setDate(getDate() + 1)` does to a date. */
  function NextDay(d: CivilDate): (r: CivilDate)
    requires Valid(d)
    ensures Valid(r)
    ensures Le(d, r) && d != r
  {
    if d.day < DaysInMonth(d.year, d.month) then CivilDate(d.year, d.month, d.day + 1)
    else if d.month < 12 then CivilDate(d.year, d.month + 1, 1)
    else CivilDate(d.year + 1, 1, 1)
  }

  // ---------------------------------------------------------------------
  // Day numbers: a count of days, so that order and weekday are arithmetic.
  // ---------------------------------------------------------------------

  /** Days from 0001-01-01 to January 1 of year `y` (negative before year 1). */
  function DaysBeforeYear(y: int): int {
    365 * (y - 1) + (y - 1) / 4 - (y - 1) / 100 + (y - 1) / 400
  }

  /** Days of year `y` that lie before the first of month `m` (`m` may be 13). */
  function DaysBeforeMonth(y: int, m: int): int
    requires 1 <= m <= 13
  {
    if m == 1 then 0 else DaysBeforeMonth(y, m - 1) + DaysInMonth(y, m - 1)
  }

  /** Number of days since 0001-01-01 (which has day number 0). */
  function DayNumber(d: CivilDate): int
    requires 1 <= d.month <= 12
  {
    DaysBeforeYear(d.year) + DaysBeforeMonth(d.year, d.month) + d.day - 1
  }

  /** Day of the week, 0 for Sunday .. 6 for Saturday (JavaScript `getDay()`). */
  function Weekday(d: CivilDate): (w: int)
    requires 1 <= d.month <= 12
    ensures 0 <= w < 7
  {
    // 0001-01-01 (day number 0) was a Monday.
    (DayNumber(d) + 1) % 7
  }

  // ---------------------------------------------------------------------
  // Lemmas
  // ---------------------------------------------------------------------

  lemma DaysBeforeYearStep(y: int)
    ensures DaysBeforeYear(y + 1) == DaysBeforeYear(y) + DaysInYear(y)
  {
    assert y / 4 - (y - 1) / 4 == if y % 4 == 0 then 1 else 0;
    assert y / 100 - (y - 1) / 100 == if y % 100 == 0 then 1 else 0;
    assert y / 400 - (y - 1) / 400 == if y % 400 == 0 then 1 else 0;
  }

  lemma DaysBeforeMonthOfYear(y: int)
    ensures DaysBeforeMonth(y, 13) == DaysInYear(y)
  {
    var feb := DaysInMonth(y, 2);
    assert DaysBeforeMonth(y, 2) == 31;
    assert DaysBeforeMonth(y, 3) == 31 + feb;
    assert DaysBeforeMonth(y, 4) == 62 + feb;
    assert DaysBeforeMonth(y, 5) == 92 + feb;
    assert DaysBeforeMonth(y, 6) == 123 + feb;
    assert DaysBeforeMonth(y, 7) == 153 + feb;
    assert DaysBeforeMonth(y, 8) == 184 + feb;
    assert DaysBeforeMonth(y, 9) == 215 + feb;
    assert DaysBeforeMonth(y, 10) == 245 + feb;
    assert DaysBeforeMonth(y, 11) == 276 + feb;
    assert DaysBeforeMonth(y, 12) == 306 + feb;
  }

  /** Shifting before or after reducing modulo 7 gives the same weekday. */
  lemma ModSevenShift(x: int, k: int)
    ensures (x + k) % 7 == (x % 7 + k) % 7
  {
    var q := x / 7;
    assert x == 7 * q + x % 7;
    assert x + k == 7 * q + (x % 7 + k);
  }

  lemma {:induction false} DaysBeforeMonthMono(y: int, m: int, n: int)
    requires 1 <= m <= n <= 13
    ensures DaysBeforeMonth(y, m) + 28 * (n - m) <= DaysBeforeMonth(y, n)
    decreases n - m
  {
    if m < n {
      DaysBeforeMonthMono(y, m, n - 1);
    }
  }

  lemma {:induction false} DaysBeforeYearMono(a: int, b: int)
    requires a <= b
    ensures DaysBeforeYear(a) + 365 * (b - a) <= DaysBeforeYear(b)
    decreases b - a
  {
    if a < b {
      DaysBeforeYearMono(a, b - 1);
      DaysBeforeYearStep(b - 1);
    }
  }

  /** A valid date's day number lies within its own year. */
  lemma DayNumberInYear(d: CivilDate)
    requires Valid(d)
    ensures DaysBeforeYear(d.year) <= DayNumber(d) < DaysBeforeYear(d.year + 1)
  {
    DaysBeforeYearStep(d.year);
    assert DaysBeforeMonth(d.year, d.month + 1) == DaysBeforeMonth(d.year, d.month) + DaysInMonth(d.year, d.month);
    DaysBeforeMonthMono(d.year, 1, d.month);
    DaysBeforeMonthMono(d.year, d.month + 1, 13);
    DaysBeforeMonthOfYear(d.year);
  }

  /** The calendar order agrees with the order of day numbers. */
  lemma LeIffDayNumber(a: CivilDate, b: CivilDate)
    requires Valid(a) && Valid(b)
    ensures Le(a, b) <==> DayNumber(a) <= DayNumber(b)
  {
    DayNumberInYear(a);
    DayNumberInYear(b);
    if a.year < b.year {
      DaysBeforeYearMono(a.year + 1, b.year);
    } else if b.year < a.year {
      DaysBeforeYearMono(b.year + 1, a.year);
    } else if a.month < b.month {
      assert DaysBeforeMonth(a.year, a.month + 1) == DaysBeforeMonth(a.year, a.month) + DaysInMonth(a.year, a.month);
      DaysBeforeMonthMono(a.year, a.month + 1, b.month);
    } else if b.month < a.month {
      assert DaysBeforeMonth(b.year, b.month + 1) == DaysBeforeMonth(b.year, b.month) + DaysInMonth(b.year, b.month);
      DaysBeforeMonthMono(a.year, b.month + 1, a.month);
    }
  }

  /** `Le` is a total order: reflexive, antisymmetric, transitive and total. */
  lemma LeTotalOrder(a: CivilDate, b: CivilDate, c: CivilDate)
    ensures Le(a, a)
    ensures Le(a, b) && Le(b, a) ==> a == b
    ensures Le(a, b) && Le(b, c) ==> Le(a, c)
    ensures Le(a, b) || Le(b, a)
  {
  }

  /** Distinct valid dates have distinct day numbers. */
  lemma DayNumberInjective(a: CivilDate, b: CivilDate)
    requires Valid(a) && Valid(b)
    requires DayNumber(a) == DayNumber(b)
    ensures a == b
  {
    LeIffDayNumber(a, b);
    LeIffDayNumber(b, a);
  }

  /** Moving to the next day adds exactly one to the day number. */
  lemma NextDayNumber(d: CivilDate)
    requires Valid(d)
    ensures DayNumber(NextDay(d)) == DayNumber(d) + 1
  {
    if d.day == DaysInMonth(d.year, d.month) && d.month == 12 {
      DaysBeforeYearStep(d.year);
      DaysBeforeMonthOfYear(d.year);
    }
  }

  /** Weekdays advance by one, cyclically, from one day to the next. */
  lemma NextDayWeekday(d: CivilDate)
    requires Valid(d)
    ensures Weekday(NextDay(d)) == (Weekday(d) + 1) % 7
  {
    NextDayNumber(d);
    ModSevenShift(DayNumber(d) + 1, 1);
  }

  /** Two valid dates share a weekday exactly when they are a whole number of weeks apart. */
  lemma SameWeekdayIffWeeksApart(a: CivilDate, b: CivilDate)
    requires Valid(a) && Valid(b)
    ensures Weekday(a) == Weekday(b) <==> (DayNumber(b) - DayNumber(a)) % 7 == 0
  {
    var x, y := DayNumber(a) + 1, DayNumber(b) + 1;
    assert x == 7 * (x / 7) + x % 7;
    assert y == 7 * (y / 7) + y % 7;
    assert y - x == 7 * (y / 7 - x / 7) + (y % 7 - x % 7);
  }

  /** The days of one month are numbered consecutively, so day `k` falls `k - 1` weekdays after the first. */
  lemma WeekdayInMonth(y: int, m: int, k: int)
    requires 1 <= m <= 12
    ensures Weekday(CivilDate(y, m, k)) == (Weekday(CivilDate(y, m, 1)) + k - 1) % 7
  {
    var first := DayNumber(CivilDate(y, m, 1));
    assert DayNumber(CivilDate(y, m, k)) == first + k - 1;
    ModSevenShift(first + 1, k - 1);
  }
}
