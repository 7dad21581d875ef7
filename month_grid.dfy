/**
  The month view's grid: 35 cells (five weeks of seven days, Sunday first),
  each either empty or one day of the displayed month.
*/
module MonthGrid {
  import opened Wrappers
  import opened CivilDates

  const GridSize := 35

  /** Weekday of the first of the month: the number of leading blank cells. */
  function FirstWeekday(year: int, month: int): (w: int)
    requires 1 <= month <= 12
    ensures 0 <= w < 7
  {
    Weekday(CivilDate(year, month, 1))
  }

  /** Cell `i` holds day `i - FirstWeekday + 1` when that is a day of the month, else nothing. */
  function GridCell(year: int, month: int, i: int): Option<CivilDate>
    requires 1 <= month <= 12
  {
    var dayNum := i - FirstWeekday(year, month) + 1;
    if dayNum < 1 || dayNum > DaysInMonth(year, month) then None
    else Some(CivilDate(year, month, dayNum))
  }

  /** `calendarDays`: the grid of the month `month` of `year`, built cell by cell. */
  method CalendarDays(year: int, month: int) returns (cells: seq<Option<CivilDate>>)
    requires 1 <= month <= 12
    ensures |cells| == GridSize
    ensures forall i :: 0 <= i < GridSize ==> cells[i] == GridCell(year, month, i)
  {
    var firstDayOfMonth := FirstWeekday(year, month);
    var daysInMonth := DaysInMonth(year, month);
    cells := [];
    for i := 0 to GridSize
      invariant |cells| == i
      invariant forall j :: 0 <= j < i ==> cells[j] == GridCell(year, month, j)
    {
      var dayNum := i - firstDayOfMonth + 1;
      cells := cells + [if dayNum < 1 || dayNum > daysInMonth then None else Some(CivilDate(year, month, dayNum))];
    }
  }

  // ---------------------------------------------------------------------
  // Properties of the grid
  // ---------------------------------------------------------------------

  /** Every non-empty cell is a real day of the displayed month, in the column of its weekday. */
  lemma GridCellInItsColumn(year: int, month: int, i: int)
    requires 1 <= month <= 12 && 0 <= i < GridSize
    requires GridCell(year, month, i).Some?
    ensures var d := GridCell(year, month, i).value;
      Valid(d) && d.year == year && d.month == month && Weekday(d) == i % 7
  {
    var f := FirstWeekday(year, month);
    WeekdayInMonth(year, month, i - f + 1);
  }

  /**
    The filled cells are the consecutive days 1 .. min(daysInMonth, 35 - first
    weekday): day `k` of the month is shown, and in cell `first + k - 1`,
    exactly when it fits in the grid; later days are dropped.
  */
  lemma GridShowsDay(year: int, month: int, k: int)
    requires 1 <= month <= 12 && 1 <= k <= DaysInMonth(year, month)
    ensures (exists i :: 0 <= i < GridSize && GridCell(year, month, i) == Some(CivilDate(year, month, k)))
      <==> k <= GridSize - FirstWeekday(year, month)
    ensures k <= GridSize - FirstWeekday(year, month) ==>
      GridCell(year, month, FirstWeekday(year, month) + k - 1) == Some(CivilDate(year, month, k))
  {
    var f := FirstWeekday(year, month);
    if k <= GridSize - f {
      assert GridCell(year, month, f + k - 1) == Some(CivilDate(year, month, k));
    }
  }

  /** A cell is empty exactly when it lies before the first or after the last day of the month. */
  lemma GridBlanks(year: int, month: int, i: int)
    requires 1 <= month <= 12 && 0 <= i < GridSize
    ensures GridCell(year, month, i).None? <==>
      i < FirstWeekday(year, month) || i >= FirstWeekday(year, month) + DaysInMonth(year, month)
  {
  }

  /** April 2025 starts on a Tuesday: two leading blanks, days 1 to 30, three trailing blanks. */
  lemma April2025()
    ensures FirstWeekday(2025, 4) == 2
    ensures forall i :: 0 <= i < 2 ==> GridCell(2025, 4, i).None?
    ensures forall i :: 2 <= i < 32 ==> GridCell(2025, 4, i) == Some(CivilDate(2025, 4, i - 1))
    ensures forall i :: 32 <= i < GridSize ==> GridCell(2025, 4, i).None?
  {
  }

  /** August 2025 starts on a Friday and has 31 days: the 31st does not fit in the grid. */
  lemma August2025DropsLastDay()
    ensures FirstWeekday(2025, 8) == 5
    ensures forall i :: 0 <= i < GridSize ==> GridCell(2025, 8, i) != Some(CivilDate(2025, 8, 31))
  {
    GridShowsDay(2025, 8, 31);
  }
}
