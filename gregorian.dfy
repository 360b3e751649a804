/**
 Proleptic Gregorian calendar arithmetic, standing in for the parts of the
 JavaScript `Date` object the calendar relies on: a local date is a year, a
 zero-based month and a day of the month; the constructor `new Date(y, m, d)`
 and `setDate` normalise out-of-range months and days (`MakeDate`), and
 `getDay` gives the weekday with 0 for Sunday (`Weekday`).
 */
module Gregorian {

  /** A local calendar date; `month` is zero-based as in `Date.getMonth()`. */
  datatype Date = Date(year: int, month: int, day: int) {
    predicate Valid() {
      0 <= month < 12 && 1 <= day <= DaysInMonth(year, month)
    }
  }

  predicate IsLeapYear(year: int) {
    year % 4 == 0 && (year % 100 != 0 || year % 400 == 0)
  }

  function DaysInMonth(year: int, month: int): (n: int)
    requires 0 <= month < 12
    ensures 28 <= n <= 31
    ensures n == 29 <==> month == 1 && IsLeapYear(year)
  {
    if month == 1 then (if IsLeapYear(year) then 29 else 28)
    else if month == 3 || month == 5 || month == 8 || month == 10 then 30
    else 31
  }

  function YearLength(year: int): int {
    if IsLeapYear(year) then 366 else 365
  }

  /** Days from 0001-01-01 to the first of January of `year`. */
  function DaysBeforeYear(year: int): int {
    var y := year - 1;
    365 * y + y / 4 - y / 100 + y / 400
  }

  /** Days from the first of January to the first of `month` in `year`. */
  function DaysBeforeMonth(year: int, month: int): int
    requires 0 <= month < 12
  {
    var leapDay := if 2 <= month && IsLeapYear(year) then 1 else 0;
    if month == 0 then 0
    else if month == 1 then 31
    else if month == 2 then 59 + leapDay
    else if month == 3 then 90 + leapDay
    else if month == 4 then 120 + leapDay
    else if month == 5 then 151 + leapDay
    else if month == 6 then 181 + leapDay
    else if month == 7 then 212 + leapDay
    else if month == 8 then 243 + leapDay
    else if month == 9 then 273 + leapDay
    else if month == 10 then 304 + leapDay
    else 334 + leapDay
  }

  /** Days elapsed since 0001-01-01 (a Monday); the model of a local-midnight timestamp. */
  function DayNumber(d: Date): int
    requires 0 <= d.month < 12
  {
    DaysBeforeYear(d.year) + DaysBeforeMonth(d.year, d.month) + d.day - 1
  }

  /** `Date.getDay()`: 0 for Sunday through 6 for Saturday. */
  function Weekday(d: Date): (w: int)
    requires 0 <= d.month < 12
    ensures 0 <= w < 7
  {
    (DayNumber(d) + 1) % 7
  }

  /** Adding to a number shifts its remainder modulo 7 by the same amount. */
  lemma ModSevenAdd(x: int, e: int)
    ensures (x + e) % 7 == (x % 7 + e) % 7
  {
    var q := x / 7;
    assert x == 7 * q + x % 7;
    assert x + e == 7 * q + (x % 7 + e);
  }

  /** Weekdays within one month advance with the day of the month. */
  lemma WeekdayInMonth(year: int, month: int, day: int)
    requires 0 <= month < 12
    ensures Weekday(Date(year, month, day)) == (Weekday(Date(year, month, 1)) + day - 1) % 7
  {
    var n := DayNumber(Date(year, month, 1));
    assert DayNumber(Date(year, month, day)) == n + day - 1;
    ModSevenAdd(n + 1, day - 1);
  }

  /** Count of whole Sunday-to-Saturday weeks before `d`'s week; equal for two days of the same week. */
  function WeekNumber(d: Date): int
    requires 0 <= d.month < 12
  {
    (DayNumber(d) + 1) / 7
  }

  lemma FloorStep4(y: int)
    ensures (y + 1) / 4 - y / 4 == if (y + 1) % 4 == 0 then 1 else 0
  {
  }

  lemma FloorStep100(y: int)
    ensures (y + 1) / 100 - y / 100 == if (y + 1) % 100 == 0 then 1 else 0
  {
  }

  lemma FloorStep400(y: int)
    ensures (y + 1) / 400 - y / 400 == if (y + 1) % 400 == 0 then 1 else 0
  {
  }

  lemma DivisorsOfLeapCentury(year: int)
    ensures year % 400 == 0 ==> year % 100 == 0
    ensures year % 100 == 0 ==> year % 4 == 0
  {
    if year % 400 == 0 {
      var q := year / 400;
      assert year == 400 * q;
      assert year / 100 == 4 * q;
    }
    if year % 100 == 0 {
      var q := year / 100;
      assert year == 100 * q;
      assert year / 4 == 25 * q;
    }
  }

  /** Consecutive years start `YearLength` days apart. */
  lemma YearStep(year: int)
    ensures DaysBeforeYear(year + 1) == DaysBeforeYear(year) + YearLength(year)
  {
    var y := year - 1;
    FloorStep4(y);
    FloorStep100(y);
    FloorStep400(y);
    DivisorsOfLeapCentury(year);
    var leap := (year / 4 - y / 4) - (year / 100 - y / 100) + (year / 400 - y / 400);
    assert DaysBeforeYear(year + 1) - DaysBeforeYear(year) == 365 + leap;
    assert leap == if IsLeapYear(year) then 1 else 0;
  }

  /** A later year starts after the whole of an earlier one. */
  lemma {:induction false} YearsIncrease(y1: int, y2: int)
    requires y1 < y2
    ensures DaysBeforeYear(y1 + 1) <= DaysBeforeYear(y2)
    decreases y2 - y1
  {
    if y1 + 1 < y2 {
      YearsIncrease(y1 + 1, y2);
      YearStep(y1 + 1);
    }
  }

  lemma MonthEnd(year: int, month: int)
    requires 0 <= month < 12
    ensures month < 11 ==> DaysBeforeMonth(year, month + 1) == DaysBeforeMonth(year, month) + DaysInMonth(year, month)
    ensures month == 11 ==> YearLength(year) == DaysBeforeMonth(year, month) + DaysInMonth(year, month)
  {
  }

  lemma MonthsIncrease(year: int, m1: int, m2: int)
    requires 0 <= m1 < m2 < 12
    ensures DaysBeforeMonth(year, m1) + DaysInMonth(year, m1) <= DaysBeforeMonth(year, m2)
  {
  }

  /** A valid date's day number lies inside its own year. */
  lemma DayNumberInYear(d: Date)
    requires d.Valid()
    ensures DaysBeforeYear(d.year) <= DayNumber(d) < DaysBeforeYear(d.year + 1)
  {
    MonthEnd(d.year, 11);
    if d.month < 11 {
      MonthsIncrease(d.year, d.month, 11);
    }
    YearStep(d.year);
  }

  /** The year of a valid date is determined by its day number. */
  lemma YearOfDayNumber(d: Date, year: int)
    requires d.Valid()
    requires DaysBeforeYear(year) <= DayNumber(d) < DaysBeforeYear(year + 1)
    ensures d.year == year
  {
    DayNumberInYear(d);
    if d.year < year {
      YearsIncrease(d.year, year);
    } else if year < d.year {
      YearsIncrease(year, d.year);
    }
  }

  /** Distinct valid dates have distinct day numbers. */
  lemma DayNumberInjective(a: Date, b: Date)
    requires a.Valid() && b.Valid()
    requires DayNumber(a) == DayNumber(b)
    ensures a == b
  {
    DayNumberInYear(a);
    YearOfDayNumber(b, a.year);
    if a.month < b.month {
      MonthsIncrease(a.year, a.month, b.month);
    } else if b.month < a.month {
      MonthsIncrease(a.year, b.month, a.month);
    }
  }

  /** The day after `d`. */
  function NextDay(d: Date): (r: Date)
    requires d.Valid()
    ensures r.Valid() && DayNumber(r) == DayNumber(d) + 1
  {
    MonthEnd(d.year, d.month);
    YearStep(d.year);
    if d.day < DaysInMonth(d.year, d.month) then Date(d.year, d.month, d.day + 1)
    else if d.month < 11 then Date(d.year, d.month + 1, 1)
    else Date(d.year + 1, 0, 1)
  }

  /** The day before `d`. */
  function PrevDay(d: Date): (r: Date)
    requires d.Valid()
    ensures r.Valid() && DayNumber(r) == DayNumber(d) - 1
  {
    if 1 < d.day then Date(d.year, d.month, d.day - 1)
    else if 0 < d.month then
      MonthEnd(d.year, d.month - 1);
      Date(d.year, d.month - 1, DaysInMonth(d.year, d.month - 1))
    else
      MonthEnd(d.year - 1, 11);
      YearStep(d.year - 1);
      Date(d.year - 1, 11, 31)
  }

  /** The date `n` days after (or, for negative `n`, before) `d`. */
  function AddDays(d: Date, n: int): (r: Date)
    requires d.Valid()
    ensures r.Valid() && DayNumber(r) == DayNumber(d) + n
    decreases if n < 0 then -n else n
  {
    if n == 0 then d
    else if 0 < n then AddDays(NextDay(d), n - 1)
    else AddDays(PrevDay(d), n + 1)
  }

  /**
   `new Date(year, month, day)`: the month is first brought into 0..11 by
   moving whole years, then the day counts from the first of that month, so
   day 0 is the last day of the previous month and days past the month's end
   run into the following months.
   */
  function MakeDate(year: int, month: int, day: int): (r: Date)
    ensures r.Valid()
    ensures DayNumber(r) == DayNumber(Date(year + month / 12, month % 12, 1)) + day - 1
  {
    AddDays(Date(year + month / 12, month % 12, 1), day - 1)
  }

  /** `setDate(getDate() + k)` on a valid date moves it by `k` days. */
  lemma MakeDateShift(d: Date, k: int)
    requires d.Valid()
    ensures DayNumber(MakeDate(d.year, d.month, d.day + k)) == DayNumber(d) + k
  {
    assert d.month / 12 == 0 && d.month % 12 == d.month;
  }

  /** Shifting a date by `k` days shifts its weekday by `k` modulo 7. */
  lemma WeekdayShift(d: Date, k: int)
    requires d.Valid()
    ensures Weekday(MakeDate(d.year, d.month, d.day + k)) == (Weekday(d) + k) % 7
  {
    MakeDateShift(d, k);
    WeekdayAfter(d, MakeDate(d.year, d.month, d.day + k), k);
  }

  /** A date `k` days after `a` falls `k` weekdays later, modulo 7. */
  lemma WeekdayAfter(a: Date, b: Date, k: int)
    requires a.Valid() && b.Valid() && DayNumber(b) == DayNumber(a) + k
    ensures Weekday(b) == (Weekday(a) + k) % 7
  {
    var x, y := DayNumber(a) + 1, DayNumber(b) + 1;
    assert Weekday(a) == x % 7 && Weekday(b) == y % 7;
    ModSevenShift(x, y, k);
  }

  lemma ModSevenShift(x: int, y: int, k: int)
    requires y == x + k
    ensures y % 7 == (x % 7 + k) % 7
  {
    ModSevenAdd(x, k);
  }

  /** A day number `w` days back from a day whose weekday is `w` is a Sunday. */
  lemma BackByWeekday(n: int, w: int)
    requires w == (n + 1) % 7
    ensures (n - w + 1) % 7 == 0
  {
    ModSevenAdd(n + 1, -w);
  }

  /** The date `Weekday(d)` days before `d` is the Sunday on or before `d`. */
  lemma SundayBefore(d: Date, s: Date)
    requires d.Valid() && 0 <= s.month < 12
    requires DayNumber(s) == DayNumber(d) - Weekday(d)
    ensures Weekday(s) == 0 && DayNumber(d) - 6 <= DayNumber(s) <= DayNumber(d)
  {
    BackByWeekday(DayNumber(d), Weekday(d));
  }

  /** Going back by a date's own weekday reaches the Sunday on or before it. */
  lemma BackToSunday(d: Date)
    requires d.Valid()
    ensures var s := MakeDate(d.year, d.month, d.day - Weekday(d));
      Weekday(s) == 0 && DayNumber(d) - 6 <= DayNumber(s) <= DayNumber(d)
  {
    var s := MakeDate(d.year, d.month, d.day - Weekday(d));
    MakeDateShift(d, -Weekday(d));
    SundayBefore(d, s);
  }

  /** A day inside the (normalised) month is taken as it is. */
  lemma MakeDateInMonth(year: int, month: int, day: int)
    requires 0 <= month < 12
    requires 1 <= day <= DaysInMonth(year, month)
    ensures MakeDate(year, month, day) == Date(year, month, day)
  {
    assert month / 12 == 0 && month % 12 == month;
    assert DayNumber(MakeDate(year, month, day)) == DayNumber(Date(year, month, 1)) + day - 1;
    DayNumberInjective(MakeDate(year, month, day), Date(year, month, day));
  }

  /** Year and month of the month after (`year`, `month`). */
  function MonthAfter(year: int, month: int): (r: (int, int))
    requires 0 <= month < 12
    ensures 0 <= r.1 < 12
    ensures r.0 * 12 + r.1 == year * 12 + month + 1
  {
    if month == 11 then (year + 1, 0) else (year, month + 1)
  }

  /** Year and month of the month before (`year`, `month`). */
  function MonthBefore(year: int, month: int): (r: (int, int))
    requires 0 <= month < 12
    ensures 0 <= r.1 < 12
    ensures r.0 * 12 + r.1 == year * 12 + month - 1
  {
    if month == 0 then (year - 1, 11) else (year, month - 1)
  }

  /** The first of the following month comes `DaysInMonth` days after the first of this one. */
  lemma NextMonthStart(year: int, month: int)
    requires 0 <= month < 12
    ensures DayNumber(Date(MonthAfter(year, month).0, MonthAfter(year, month).1, 1))
         == DayNumber(Date(year, month, 1)) + DaysInMonth(year, month)
  {
    MonthEnd(year, month);
    YearStep(year);
  }

  /** A month index outside 0..11 rolls over into the year: `MakeDate` counts from the 1st of the normalised month. */
  lemma MakeDateNormalised(year: int, month: int, day: int, ny: int, nm: int)
    requires 0 <= nm < 12 && ny * 12 + nm == year * 12 + month
    ensures DayNumber(MakeDate(year, month, day)) == DayNumber(Date(ny, nm, 1)) + day - 1
  {
    assert year + month / 12 == ny && month % 12 == nm;
  }

  /** `new Date(y, m + 1, 0)` is the last day of month `m`: the source's way of asking for a month's length. */
  lemma MakeDateDayZero(year: int, month: int)
    requires 0 <= month < 12
    ensures MakeDate(year, month + 1, 0) == Date(year, month, DaysInMonth(year, month))
  {
    var (ny, nm) := MonthAfter(year, month);
    MakeDateNormalised(year, month + 1, 0, ny, nm);
    NextMonthStart(year, month);
    DayNumberInjective(MakeDate(year, month + 1, 0), Date(year, month, DaysInMonth(year, month)));
  }

  /** `new Date(y, m + 1, i)` for a day `i` that the following month has. */
  lemma MakeDateNextMonth(year: int, month: int, day: int)
    requires 0 <= month < 12
    requires 1 <= day <= DaysInMonth(MonthAfter(year, month).0, MonthAfter(year, month).1)
    ensures MakeDate(year, month + 1, day) == Date(MonthAfter(year, month).0, MonthAfter(year, month).1, day)
  {
    var (ny, nm) := MonthAfter(year, month);
    MakeDateNormalised(year, month + 1, day, ny, nm);
    DayNumberInjective(MakeDate(year, month + 1, day), Date(ny, nm, day));
  }

  /** `new Date(y, m - 1, i)` for a day `i` that the previous month has. */
  lemma MakeDatePrevMonth(year: int, month: int, day: int)
    requires 0 <= month < 12
    requires 1 <= day <= DaysInMonth(MonthBefore(year, month).0, MonthBefore(year, month).1)
    ensures MakeDate(year, month - 1, day) == Date(MonthBefore(year, month).0, MonthBefore(year, month).1, day)
  {
    var (py, pm) := MonthBefore(year, month);
    MakeDateNormalised(year, month - 1, day, py, pm);
    DayNumberInjective(MakeDate(year, month - 1, day), Date(py, pm, day));
  }

  /** `new Date(y, m, 0)` is the last day of the previous month. */
  lemma MakeDatePrevMonthEnd(year: int, month: int)
    requires 0 <= month < 12
    ensures MakeDate(year, month, 0) == Date(MonthBefore(year, month).0, MonthBefore(year, month).1,
                                            DaysInMonth(MonthBefore(year, month).0, MonthBefore(year, month).1))
  {
    var (py, pm) := MonthBefore(year, month);
    var last := Date(py, pm, DaysInMonth(py, pm));
    MakeDateShift(Date(year, month, 1), -1);
    NextMonthStart(py, pm);
    assert MonthAfter(py, pm) == (year, month);
    DayNumberInjective(MakeDate(year, month, 0), last);
  }
}
