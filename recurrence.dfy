/**
  Tasks and their recurrence rules: on which calendar days a task is shown.

  `ShouldAdd` is the per-day test of the expansion loop in `tasksByDate`;
  `OccursOn` is the resulting, declarative occurrence relation that the
  calendar index is specified by.
*/
module Recurrence {
  import opened Wrappers
  import opened CivilDates

  /** The `frequency` string of a task; any other string is `Unrecognised`. */
  datatype Frequency = Once | Daily | Weekly | Monthly | Yearly | Unrecognised(name: string)

  /**
    A task record. `start` is the date part of `task.date` (the time of day is
    dropped by the midnight normalisation); `endDate` is `None` when the
    stored end date is empty.
  */
  datatype Task = Task(text: string, start: CivilDate, frequency: Frequency, endDate: Option<CivilDate>)

  predicate ValidTask(t: Task) {
    Valid(t.start) && (t.endDate.Some? ==> Valid(t.endDate.value))
  }

  /** Is `t` expanded by the day-by-day loop (recurring, with an end date)? */
  predicate IsRanged(t: Task) {
    t.frequency != Once && t.endDate.Some?
  }

  /** The per-day test of the expansion loop: does `t` recur on `current`? */
  predicate ShouldAdd(t: Task, current: CivilDate): (b: bool)
    requires Valid(t.start) && Valid(current)
    ensures t.frequency == Once || t.frequency.Unrecognised? ==> !b
    ensures t.frequency == Daily ==> b
    ensures t.frequency == Weekly ==> (b <==> Weekday(current) == Weekday(t.start))
    ensures t.frequency == Monthly && b ==> current.day == t.start.day || IsLastDayOfMonth(current)
    ensures t.frequency == Yearly ==> (b <==> current.month == t.start.month && current.day == t.start.day)
  {
    match t.frequency
    case Daily => true
    case Weekly => Weekday(current) == Weekday(t.start)
    case Monthly =>
      var lastOfCurrent := DaysInMonth(current.year, current.month);
      var lastOfStart := DaysInMonth(t.start.year, t.start.month);
      current.day == t.start.day
      || (t.start.day > lastOfCurrent && current.day == lastOfCurrent)
      || (t.start.day == lastOfStart && current.day == lastOfCurrent)
    case Yearly => current.month == t.start.month && current.day == t.start.day
    case _ => false
  }

  /**
    Does task `t` appear on day `d`? A one-off task, and a recurring task with
    no end date, appear on their start date only; a recurring task with an
    end date appears on the days of the inclusive range [start, end] that
    pass its frequency's test.
  */
  predicate OccursOn(t: Task, d: CivilDate)
    requires ValidTask(t)
    ensures OccursOn(t, d) ==> Valid(d)
  {
    if !IsRanged(t) then d == t.start
    else Valid(d) && Le(t.start, d) && Le(d, t.endDate.value) && ShouldAdd(t, d)
  }

  // ---------------------------------------------------------------------
  // Properties of the recurrence rule
  // ---------------------------------------------------------------------

  /** A one-off task, or a recurring one with no end date, occurs on exactly one day: its start. */
  lemma SingleOccurrence(t: Task, d: CivilDate)
    requires ValidTask(t) && (t.frequency == Once || t.endDate.None?)
    ensures OccursOn(t, d) <==> d == t.start
  {
  }

  /**
    A ranged task occurs only within [start, end], compared by day number;
    with the end before the start it never occurs, not even on its start date.
  */
  lemma RangedWithinBounds(t: Task, d: CivilDate)
    requires ValidTask(t) && IsRanged(t) && OccursOn(t, d)
    ensures DayNumber(t.start) <= DayNumber(d) <= DayNumber(t.endDate.value)
  {
    LeIffDayNumber(t.start, d);
    LeIffDayNumber(d, t.endDate.value);
  }

  lemma EndBeforeStartNoOccurrence(t: Task, d: CivilDate)
    requires ValidTask(t) && IsRanged(t)
    requires DayNumber(t.endDate.value) < DayNumber(t.start)
    ensures !OccursOn(t, d)
  {
    if OccursOn(t, d) {
      RangedWithinBounds(t, d);
    }
  }

  /** A daily task occurs on every day of its range, and on no other. */
  lemma DailyEveryDay(t: Task, d: CivilDate)
    requires ValidTask(t) && t.frequency == Daily && t.endDate.Some? && Valid(d)
    ensures OccursOn(t, d) <==> DayNumber(t.start) <= DayNumber(d) <= DayNumber(t.endDate.value)
  {
    LeIffDayNumber(t.start, d);
    LeIffDayNumber(d, t.endDate.value);
  }

  /**
    A weekly task occurs on the days of its range that are a whole number of
    weeks after its start, and so always on its start's weekday.
  */
  lemma WeeklyWholeWeeks(t: Task, d: CivilDate)
    requires ValidTask(t) && t.frequency == Weekly && t.endDate.Some? && Valid(d)
    ensures OccursOn(t, d) <==>
      DayNumber(t.start) <= DayNumber(d) <= DayNumber(t.endDate.value)
      && (DayNumber(d) - DayNumber(t.start)) % 7 == 0
    ensures OccursOn(t, d) ==> Weekday(d) == Weekday(t.start)
  {
    LeIffDayNumber(t.start, d);
    LeIffDayNumber(d, t.endDate.value);
    SameWeekdayIffWeeksApart(t.start, d);
  }

  /**
    A monthly task occurs only on its start's day of the month or on the last
    day of a month; on a last day that is not its start's day of the month,
    only when the start day does not exist in that month or the start was
    itself a month end.
  */
  lemma MonthlyDays(t: Task, d: CivilDate)
    requires ValidTask(t) && t.frequency == Monthly && t.endDate.Some? && OccursOn(t, d)
    ensures d.day == t.start.day || IsLastDayOfMonth(d)
    ensures d.day != t.start.day ==>
      t.start.day > DaysInMonth(d.year, d.month) || IsLastDayOfMonth(t.start)
  {
  }

  /**
    Clamping: in every month of the range, a monthly task occurs on its start
    day, or on the month's last day when the month is too short for it.
  */
  lemma MonthlyClamped(t: Task, y: int, m: int)
    requires ValidTask(t) && t.frequency == Monthly && t.endDate.Some? && 1 <= m <= 12
    requires var c := CivilDate(y, m, if t.start.day <= DaysInMonth(y, m) then t.start.day else DaysInMonth(y, m));
      Le(t.start, c) && Le(c, t.endDate.value)
    ensures OccursOn(t, CivilDate(y, m, if t.start.day <= DaysInMonth(y, m) then t.start.day else DaysInMonth(y, m)))
  {
  }

  /** A task that starts on a month end recurs on the last day of every month in its range. */
  lemma MonthlyMonthEnd(t: Task, d: CivilDate)
    requires ValidTask(t) && t.frequency == Monthly && t.endDate.Some?
    requires IsLastDayOfMonth(t.start)
    requires Valid(d) && IsLastDayOfMonth(d) && Le(t.start, d) && Le(d, t.endDate.value)
    ensures OccursOn(t, d)
  {
  }

  /** A yearly task occurs only on its start's month and day; a February 29 start only in leap years. */
  lemma YearlySameMonthAndDay(t: Task, d: CivilDate)
    requires ValidTask(t) && t.frequency == Yearly && OccursOn(t, d)
    ensures d.month == t.start.month && d.day == t.start.day
    ensures t.start.month == 2 && t.start.day == 29 ==> IsLeapYear(d.year)
  {
  }

  /**
    A yearly task with an end date occurs exactly on the anniversaries of its
    start (same month and day) that lie within [start, end].
  */
  lemma YearlyOnAnniversary(t: Task, d: CivilDate)
    requires ValidTask(t) && t.frequency == Yearly && t.endDate.Some? && Valid(d)
    ensures OccursOn(t, d) <==>
      d.month == t.start.month && d.day == t.start.day && Le(t.start, d) && Le(d, t.endDate.value)
  {
  }

  /** An unrecognised frequency with an end date never matches a day in the loop. */
  lemma UnrecognisedRangedNever(t: Task, d: CivilDate)
    requires ValidTask(t) && t.frequency.Unrecognised? && t.endDate.Some?
    ensures !OccursOn(t, d)
  {
  }

  // ---------------------------------------------------------------------
  // Worked examples
  // ---------------------------------------------------------------------

  /** Monthly from 2024-01-31 to 2024-04-30: the 31st, then each month's last day. */
  lemma MonthlyFromJanuary31()
    ensures var t := Task("rent", CivilDate(2024, 1, 31), Monthly, Some(CivilDate(2024, 4, 30)));
      forall d :: OccursOn(t, d) <==>
        d in {CivilDate(2024, 1, 31), CivilDate(2024, 2, 29), CivilDate(2024, 3, 31), CivilDate(2024, 4, 30)}
  {
    var t := Task("rent", CivilDate(2024, 1, 31), Monthly, Some(CivilDate(2024, 4, 30)));
    forall d
      ensures OccursOn(t, d) <==>
        d in {CivilDate(2024, 1, 31), CivilDate(2024, 2, 29), CivilDate(2024, 3, 31), CivilDate(2024, 4, 30)}
    {
      if OccursOn(t, d) {
        assert d.year == 2024 && 1 <= d.month <= 4;
      }
    }
  }

  /**
    A month-end start shorter than a later month matches that month twice:
    from 2023-02-28, on March 28 (same day of month) and March 31 (month end).
  */
  lemma MonthlyFromFebruary28TwiceInMarch()
    ensures var t := Task("bill", CivilDate(2023, 2, 28), Monthly, Some(CivilDate(2023, 3, 31)));
      OccursOn(t, CivilDate(2023, 3, 28)) && OccursOn(t, CivilDate(2023, 3, 31))
      && !OccursOn(t, CivilDate(2023, 3, 30))
  {
  }

  /** Yearly from 2023-03-15 to 2025-03-15: exactly three occurrences. */
  lemma YearlyThreeOccurrences()
    ensures var t := Task("tax", CivilDate(2023, 3, 15), Yearly, Some(CivilDate(2025, 3, 15)));
      forall d :: OccursOn(t, d) <==>
        d in {CivilDate(2023, 3, 15), CivilDate(2024, 3, 15), CivilDate(2025, 3, 15)}
  {
    var t := Task("tax", CivilDate(2023, 3, 15), Yearly, Some(CivilDate(2025, 3, 15)));
    forall d
      ensures OccursOn(t, d) <==>
        d in {CivilDate(2023, 3, 15), CivilDate(2024, 3, 15), CivilDate(2025, 3, 15)}
    {
      if OccursOn(t, d) {
        assert 2023 <= d.year <= 2025;
      }
    }
  }
}
