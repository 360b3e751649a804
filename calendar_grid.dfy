/**
 The month view's grid (`getCalendarDays`): six rows of seven days, Sunday
 first, holding the whole month with the tail of the previous month before
 it and the head of the following month after it.
 */
module CalendarGrid {
  import opened Gregorian
  import opened IsoDate
  import opened Types

  /** The grid always has six weeks of cells. */
  const GridSize := 42

  /** The weekday of the first of the month: how many cells the previous month fills. */
  function LeadingDays(year: int, month: int): int
    requires 0 <= month < 12
  {
    Weekday(Date(year, month, 1))
  }

  /** The date in cell `i`: the cells hold consecutive days, and cell `LeadingDays` holds the 1st. */
  function GridDate(year: int, month: int, i: int): Date
    requires 0 <= month < 12
  {
    MakeDate(year, month, i + 1 - LeadingDays(year, month))
  }

  predicate InMonth(d: Date, year: int, month: int) {
    d.year == year && d.month == month
  }

  /** One cell of the grid: `today` is matched field by field, the key is the date's YYYY-MM-DD text. */
  function Cell(date: Date, isCurrentMonth: bool, today: Date): DayData
    requires date.Valid()
  {
    DayData(date, isCurrentMonth, IsSameDate(date, today), ToIsoString(date))
  }

  /** The grid of the month view: cell `i` shows `GridDate(year, month, i)`, flagged when it lies in the month. */
  function MonthGrid(year: int, month: int, today: Date): seq<DayData>
    requires 0 <= month < 12
  {
    seq(GridSize, i requires 0 <= i < GridSize =>
      var d := GridDate(year, month, i);
      Cell(d, InMonth(d, year, month), today))
  }

  /**
   `getCalendarDays`: the padding from the previous month counted back from
   its last day, the days of the month, and as many days of the next month
   as the 42 cells still have room for. `today` stands for the clock reading
   `new Date()`.
   */
  method GetCalendarDays(year: int, month: int, today: Date) returns (days: seq<DayData>)
    requires 0 <= month < 12
    ensures days == MonthGrid(year, month, today)
  {
    ghost var grid := MonthGrid(year, month, today);
    var firstDayOfMonth := MakeDate(year, month, 1);
    var lastDayOfMonth := MakeDate(year, month + 1, 0);
    var startDayOfWeek := Weekday(firstDayOfMonth);
    var daysInMonth := lastDayOfMonth.day;
    MakeDateInMonth(year, month, 1);
    MakeDateDayZero(year, month);
    assert startDayOfWeek == LeadingDays(year, month) && daysInMonth == DaysInMonth(year, month);

    days := [];
    var prevMonthLastDay := MakeDate(year, month, 0).day;
    var i := startDayOfWeek - 1;
    while i >= 0
      invariant -1 <= i < startDayOfWeek
      invariant |days| == startDayOfWeek - 1 - i
      invariant days == grid[..|days|]
    {
      var date := MakeDate(year, month - 1, prevMonthLastDay - i);
      PreviousMonthCell(year, month, prevMonthLastDay, i, |days|);
      AppendCell(year, month, today, days, date, false);
      days := days + [Cell(date, false, today)];
      i := i - 1;
    }

    i := 1;
    while i <= daysInMonth
      invariant 1 <= i <= daysInMonth + 1
      invariant |days| == startDayOfWeek + i - 1
      invariant days == grid[..|days|]
    {
      var date := MakeDate(year, month, i);
      CurrentMonthCell(year, month, i, |days|);
      AppendCell(year, month, today, days, date, true);
      days := days + [Cell(date, true, today)];
      i := i + 1;
    }

    var remainingSlots := GridSize - |days|;
    assert remainingSlots <= 14;
    i := 1;
    while i <= remainingSlots
      invariant 1 <= i <= remainingSlots + 1
      invariant |days| == startDayOfWeek + daysInMonth + i - 1
      invariant days == grid[..|days|]
    {
      var date := MakeDate(year, month + 1, i);
      NextMonthCell(year, month, i, |days|);
      AppendCell(year, month, today, days, date, false);
      days := days + [Cell(date, false, today)];
      i := i + 1;
    }
  }

  /** Appending the next cell of the grid to a prefix of the grid gives a longer prefix. */
  lemma AppendCell(year: int, month: int, today: Date, days: seq<DayData>, date: Date, flag: bool)
    requires 0 <= month < 12 && |days| < GridSize
    requires days == MonthGrid(year, month, today)[..|days|]
    requires date == GridDate(year, month, |days|) && flag == InMonth(date, year, month)
    ensures days + [Cell(date, flag, today)] == MonthGrid(year, month, today)[..|days| + 1]
  {
    var grid := MonthGrid(year, month, today);
    assert grid[|days|] == Cell(date, flag, today);
    ExtendPrefix(grid, days);
  }

  lemma ExtendPrefix<T>(s: seq<T>, p: seq<T>)
    requires |p| < |s| && p == s[..|p|]
    ensures p + [s[|p|]] == s[..|p| + 1]
  {
  }

  /** A date of the month lies between the 1st and the 1st of the next month. */
  lemma InMonthBounds(d: Date, year: int, month: int)
    requires d.Valid() && InMonth(d, year, month)
    ensures DayNumber(Date(year, month, 1)) <= DayNumber(d) < DayNumber(Date(year, month, 1)) + DaysInMonth(year, month)
  {
  }

  /** Cell `i` holds the day `i - LeadingDays` days after the 1st. */
  lemma GridDayNumber(year: int, month: int, i: int)
    requires 0 <= month < 12
    ensures DayNumber(GridDate(year, month, i)) == DayNumber(Date(year, month, 1)) - LeadingDays(year, month) + i
  {
    assert month / 12 == 0 && month % 12 == month;
  }

  /** `i` days back from the previous month's last day is the cell `i + 1` before the 1st, outside the month. */
  lemma PreviousMonthCell(year: int, month: int, last: int, i: int, k: int)
    requires 0 <= month < 12 && 0 <= i < LeadingDays(year, month)
    requires last == MakeDate(year, month, 0).day && k == LeadingDays(year, month) - 1 - i
    ensures MakeDate(year, month - 1, last - i) == GridDate(year, month, k)
    ensures !InMonth(GridDate(year, month, k), year, month)
  {
    var (py, pm) := MonthBefore(year, month);
    var g := GridDate(year, month, k);
    MakeDatePrevMonthEnd(year, month);
    assert last == DaysInMonth(py, pm);
    MakeDateShift(Date(year, month, 1), -1);
    MakeDatePrevMonth(year, month, last - i);
    GridDayNumber(year, month, k);
    SameCellBefore(Date(py, pm, last), i, g, year, month);
    assert MakeDate(year, month - 1, last - i) == Date(py, pm, last - i) == g;
  }

  /** The date `i` days before `last`, the day before the 1st, is the grid's date of that day number and lies outside the month. */
  lemma SameCellBefore(last: Date, i: int, g: Date, year: int, month: int)
    requires last.Valid() && g.Valid() && 0 <= i < last.day && 0 <= month < 12
    requires DayNumber(last) == DayNumber(Date(year, month, 1)) - 1
    requires DayNumber(g) == DayNumber(last) - i
    ensures Date(last.year, last.month, last.day - i) == g && !InMonth(g, year, month)
  {
    DayNumberInjective(Date(last.year, last.month, last.day - i), g);
    if InMonth(g, year, month) {
      InMonthBounds(g, year, month);
    }
  }

  /** Day `day` of the month is the cell `LeadingDays + day - 1`, and it is flagged. */
  lemma CurrentMonthCell(year: int, month: int, day: int, k: int)
    requires 0 <= month < 12 && 1 <= day <= DaysInMonth(year, month)
    requires k == LeadingDays(year, month) + day - 1
    ensures MakeDate(year, month, day) == GridDate(year, month, k) == Date(year, month, day)
    ensures InMonth(GridDate(year, month, k), year, month)
  {
    MakeDateInMonth(year, month, day);
  }

  /** Day `i` of the next month comes `i` cells after the month's last day, and it is not flagged. */
  lemma NextMonthCell(year: int, month: int, i: int, k: int)
    requires 0 <= month < 12 && 1 <= i <= 14
    requires k == LeadingDays(year, month) + DaysInMonth(year, month) + i - 1
    ensures MakeDate(year, month + 1, i) == GridDate(year, month, k)
    ensures !InMonth(GridDate(year, month, k), year, month)
  {
    var (ny, nm) := MonthAfter(year, month);
    MakeDateNextMonth(year, month, i);
    NextMonthStart(year, month);
    GridDayNumber(year, month, k);
    SameCellAfter(Date(ny, nm, i), GridDate(year, month, k), year, month);
  }

  /** A date of the next month that has the grid date's day number is that grid date, outside the month. */
  lemma SameCellAfter(d: Date, g: Date, year: int, month: int)
    requires d.Valid() && g.Valid() && 0 <= month < 12
    requires DayNumber(Date(d.year, d.month, 1)) == DayNumber(Date(year, month, 1)) + DaysInMonth(year, month)
    requires DayNumber(g) == DayNumber(d)
    ensures d == g && !InMonth(g, year, month)
  {
    DayNumberInjective(d, g);
    if InMonth(g, year, month) {
      InMonthBounds(g, year, month);
    }
  }

  /** Column arithmetic: counting back `lead`, the weekday of day `n`, lands on a Sunday, and `i` days on is weekday `i % 7`. */
  lemma ColumnWeekday(n: int, lead: int, i: int, m: int)
    requires lead == (n + 1) % 7 && 0 <= i && m == n - lead + i
    ensures (m + 1) % 7 == i % 7
  {
    BackByWeekday(n, lead);
    ModSevenAdd(n - lead + 1, i);
  }

  /**
   The grid is six full weeks: the cells hold consecutive days, and the
   column of a cell is its weekday, so the first cell is a Sunday and the
   previous month fills at most six cells.
   */
  lemma GridWeeks(year: int, month: int, today: Date)
    requires 0 <= month < 12
    ensures var grid := MonthGrid(year, month, today);
      |grid| == GridSize && 0 <= LeadingDays(year, month) <= 6 &&
      forall i :: 0 <= i < GridSize ==>
        DayNumber(grid[i].date) == DayNumber(grid[0].date) + i && Weekday(grid[i].date) == i % 7
  {
    var grid := MonthGrid(year, month, today);
    GridDayNumber(year, month, 0);
    forall i | 0 <= i < GridSize
      ensures DayNumber(grid[i].date) == DayNumber(grid[0].date) + i && Weekday(grid[i].date) == i % 7
    {
      GridDayNumber(year, month, i);
      GridColumn(year, month, i);
    }
  }

  lemma GridColumn(year: int, month: int, i: int)
    requires 0 <= month < 12 && 0 <= i
    ensures Weekday(GridDate(year, month, i)) == i % 7
  {
    GridDayNumber(year, month, i);
    ColumnOf(GridDate(year, month, i), Date(year, month, 1), i);
  }

  lemma ColumnOf(g: Date, first: Date, i: int)
    requires 0 <= g.month < 12 && 0 <= first.month < 12 && 0 <= i
    requires DayNumber(g) == DayNumber(first) - Weekday(first) + i
    ensures Weekday(g) == i % 7
  {
    ColumnWeekday(DayNumber(first), Weekday(first), i, DayNumber(g));
  }

  /**
   Exactly the cells `LeadingDays` to `LeadingDays + DaysInMonth - 1` are
   flagged as the current month, and they hold the month's days in order.
   */
  lemma GridFlags(year: int, month: int, today: Date, i: int)
    requires 0 <= month < 12 && 0 <= i < GridSize
    ensures var grid := MonthGrid(year, month, today);
      var lead := LeadingDays(year, month);
      (grid[i].isCurrentMonth <==> lead <= i < lead + DaysInMonth(year, month)) &&
      (grid[i].isCurrentMonth ==> grid[i].date == Date(year, month, i - lead + 1))
  {
    var lead := LeadingDays(year, month);
    var g := GridDate(year, month, i);
    if lead <= i < lead + DaysInMonth(year, month) {
      CurrentMonthCell(year, month, i - lead + 1, i);
    } else if InMonth(g, year, month) {
      GridDayNumber(year, month, i);
      InMonthBounds(g, year, month);
    }
  }

  /** Every day of the month has a cell, flagged, at `LeadingDays + day - 1`. */
  lemma GridHasEveryDay(year: int, month: int, today: Date, day: int)
    requires 0 <= month < 12 && 1 <= day <= DaysInMonth(year, month)
    ensures var k := LeadingDays(year, month) + day - 1;
      0 <= k < GridSize && MonthGrid(year, month, today)[k].date == Date(year, month, day) &&
      MonthGrid(year, month, today)[k].isCurrentMonth
  {
    var k := LeadingDays(year, month) + day - 1;
    CurrentMonthCell(year, month, day, k);
    GridFlags(year, month, today, k);
  }

  /** No two cells show the same date. */
  lemma GridDatesDistinct(year: int, month: int, today: Date, i: int, j: int)
    requires 0 <= month < 12 && 0 <= i < GridSize && 0 <= j < GridSize && i != j
    ensures MonthGrid(year, month, today)[i].date != MonthGrid(year, month, today)[j].date
  {
    GridDayNumber(year, month, i);
    GridDayNumber(year, month, j);
  }

  /** A cell is marked as today exactly when it shows `today`, so at most one cell is. */
  lemma GridToday(year: int, month: int, today: Date, i: int, j: int)
    requires 0 <= month < 12 && 0 <= i < GridSize && 0 <= j < GridSize
    ensures var grid := MonthGrid(year, month, today);
      (grid[i].isToday <==> grid[i].date == today) &&
      (grid[i].isToday && grid[j].isToday ==> i == j)
  {
    if i != j {
      GridDatesDistinct(year, month, today, i, j);
    }
  }

  /** Every cell lies in the year before, the year of, or the year after the month shown. */
  lemma GridYears(year: int, month: int, i: int)
    requires 0 <= month < 12 && 0 <= i < GridSize
    ensures year - 1 <= GridDate(year, month, i).year <= year + 1
  {
    var g := GridDate(year, month, i);
    GridDayNumber(year, month, i);
    DayNumberInYear(Date(year, month, 1));
    DayNumberInYear(g);
    YearStep(year - 1);
    YearStep(year + 1);
    if g.year < year - 1 {
      YearsIncrease(g.year, year - 1);
    } else if g.year > year + 1 {
      YearsIncrease(year + 1, g.year);
    }
  }

  /**
   The cells' YYYY-MM-DD keys are pairwise different, so each cell has its
   own entry in the prayer log (for the years the four-digit key covers).
   */
  lemma GridKeysDistinct(year: int, month: int, today: Date, i: int, j: int)
    requires 0 <= month < 12 && 1 <= year <= 9998
    requires 0 <= i < GridSize && 0 <= j < GridSize && i != j
    ensures MonthGrid(year, month, today)[i].isoString != MonthGrid(year, month, today)[j].isoString
  {
    var a, b := GridDate(year, month, i), GridDate(year, month, j);
    GridDatesDistinct(year, month, today, i, j);
    GridYears(year, month, i);
    GridYears(year, month, j);
    IsoKeyInjective(a, b);
  }

  /** February 2026 starts on a Sunday and has 28 days: no leading cells, and the last 14 cells are March 1 to 14. */
  lemma February2026Grid(today: Date, i: int)
    requires 0 <= i < GridSize
    ensures LeadingDays(2026, 1) == 0
    ensures var cell := MonthGrid(2026, 1, today)[i];
      if i < 28 then cell.isCurrentMonth && cell.date == Date(2026, 1, i + 1)
      else !cell.isCurrentMonth && cell.date == Date(2026, 2, i - 27)
  {
    assert DaysBeforeYear(2026) == 739616;
    FourWeekMonthGrid(2026, 1, today, i);
  }

  /** A 28-day month that starts on a Sunday fills exactly four rows; the next month fills the last two. */
  lemma FourWeekMonthGrid(year: int, month: int, today: Date, i: int)
    requires 0 <= month < 11 && 0 <= i < GridSize
    requires LeadingDays(year, month) == 0 && DaysInMonth(year, month) == 28
    ensures var cell := MonthGrid(year, month, today)[i];
      if i < 28 then cell.isCurrentMonth && cell.date == Date(year, month, i + 1)
      else !cell.isCurrentMonth && cell.date == Date(year, month + 1, i - 27)
  {
    GridFlags(year, month, today, i);
    if 28 <= i {
      NextMonthCell(year, month, i - 27, i);
      MakeDateNextMonth(year, month, i - 27);
    }
  }
}
