/**
 The schedule engine: the daily prayer target in minutes for any date. The
 target is fixed per Sunday-to-Saturday week of 2026 by a table holding one
 row per month and one entry per Sunday of that month; dates whose week
 starts before 2026-01-04 or outside 2026 have target 0.
 */
module Schedule {
  import opened Gregorian

  /** `SCHEDULE_2026`: row `m` holds the targets of the 1st, 2nd, ... Sunday of month `m` of 2026. */
  const Schedule2026: seq<seq<nat>> := [
    [5, 6, 7, 9],
    [10, 11, 12, 14],
    [15, 16, 17, 18, 19],
    [20, 21, 22, 24],
    [25, 26, 27, 29, 30],
    [31, 32, 33, 34],
    [35, 36, 37, 39],
    [40, 41, 42, 44, 45],
    [46, 47, 48, 49],
    [50, 51, 52, 54],
    [55, 56, 57, 58, 59],
    [60, 60, 60, 60]
  ]

  /** The first day of the schedule, a Sunday. */
  const SeasonStart: Date := Date(2026, 0, 4)

  /** The first day after the last scheduled week (the week of 2026-12-27). */
  const SeasonEnd: Date := Date(2027, 0, 3)

  /** The Sunday on or before `date`, found as `setDate(getDate() - getDay())`. */
  function WeekStart(date: Date): (ws: Date)
    requires date.Valid()
    ensures ws.Valid() && Weekday(ws) == 0
    ensures DayNumber(date) - 6 <= DayNumber(ws) <= DayNumber(date)
  {
    BackToSunday(date);
    MakeDate(date.year, date.month, date.day - Weekday(date))
  }

  /** Day of the month of the first Sunday: `1 + (7 - getDay(first of month)) % 7`. */
  function FirstSunday(year: int, month: int): int
    requires 0 <= month < 12
  {
    1 + (7 - Weekday(MakeDate(year, month, 1))) % 7
  }

  /** `FirstSunday` is the earliest day of the month that falls on a Sunday. */
  lemma FirstSundayIsFirst(year: int, month: int)
    requires 0 <= month < 12
    ensures 1 <= FirstSunday(year, month) <= 7
    ensures Weekday(Date(year, month, FirstSunday(year, month))) == 0
    ensures forall e :: 1 <= e < FirstSunday(year, month) ==> Weekday(Date(year, month, e)) != 0
  {
    var w := Weekday(Date(year, month, 1));
    FirstSundayOf(year, month);
    var f := FirstSunday(year, month);
    WeekdayInMonth(year, month, f);
    FirstSundayOffset(w, f);
    forall e | 1 <= e < f
      ensures Weekday(Date(year, month, e)) != 0
    {
      WeekdayInMonth(year, month, e);
      FirstSundayOffset(w, e);
    }
  }

  /** Counting from a 1st that falls on weekday `w`, day `1 + (7 - w) % 7` is the first whose weekday is Sunday. */
  lemma FirstSundayOffset(w: int, e: int)
    requires 0 <= w < 7 && 1 <= e <= 1 + (7 - w) % 7
    ensures (w + e - 1) % 7 == 0 <==> e == 1 + (7 - w) % 7
  {
  }

  /** `calculateDuration`: the target in minutes for `date`, which depends only on its week's Sunday. */
  function CalculateDuration(date: Date): nat
    requires date.Valid()
  {
    WeekTarget(WeekStart(date))
  }

  /** The part of `calculateDuration` after the week's Sunday is found: the season checks and the table lookup. */
  function WeekTarget(weekStart: Date): nat
    requires weekStart.Valid()
  {
    if DayNumber(weekStart) < DayNumber(SeasonStart) then 0
    else if weekStart.year != 2026 then 0
    else
      var monthIndex := weekStart.month;
      var firstSundayDate := FirstSunday(weekStart.year, monthIndex);
      var weekIndex := (weekStart.day - firstSundayDate) / 7;
      var monthSchedule := Schedule2026[monthIndex];
      if 0 <= weekIndex < |monthSchedule| then monthSchedule[weekIndex] else 0
  }

  /** Zero-based ordinal of a Sunday among the Sundays of its month. */
  function SundayIndex(sunday: Date): int
    requires sunday.Valid()
  {
    (sunday.day - FirstSunday(sunday.year, sunday.month)) / 7
  }

  /** Weekdays of the first of each month of 2026 (Thursday, Sunday, Sunday, Wednesday, ...). */
  const FirstWeekdays2026: seq<int> := [4, 0, 0, 3, 5, 1, 3, 6, 2, 4, 0, 2]

  lemma FirstWeekdayOfMonth2026(m: int)
    requires 0 <= m < 12
    ensures Weekday(Date(2026, m, 1)) == FirstWeekdays2026[m]
  {
    assert DaysBeforeYear(2026) == 739616;
  }

  lemma RowsFitMonths2026(m: int)
    requires 0 <= m < 12
    ensures var f := 1 + (7 - FirstWeekdays2026[m]) % 7;
            f + 7 * (|Schedule2026[m]| - 1) <= DaysInMonth(2026, m) < f + 7 * |Schedule2026[m]|
  {
  }

  /** The number of Sundays of each month of 2026 is the length of its row. */
  lemma RowLengthIsSundayCount(m: int)
    requires 0 <= m < 12
    ensures FirstSunday(2026, m) + 7 * (|Schedule2026[m]| - 1) <= DaysInMonth(2026, m)
    ensures DaysInMonth(2026, m) < FirstSunday(2026, m) + 7 * |Schedule2026[m]|
  {
    FirstSundayOf2026(m);
    RowsFitMonths2026(m);
  }

  lemma FirstSundayOf2026(m: int)
    requires 0 <= m < 12
    ensures FirstSunday(2026, m) == 1 + (7 - FirstWeekdays2026[m]) % 7
  {
    FirstSundayOf(2026, m);
    FirstWeekdayOfMonth2026(m);
  }

  /** A day whose weekday is Sunday is a whole number of weeks after the month's first Sunday. */
  lemma SundayOffset(w1: int, day: int)
    requires 0 <= w1 < 7 && 1 <= day
    requires (w1 + day - 1) % 7 == 0
    ensures 1 + (7 - w1) % 7 <= day
    ensures (day - (1 + (7 - w1) % 7)) % 7 == 0
  {
    var f := 1 + (7 - w1) % 7;
    assert w1 + f - 1 == (if w1 == 0 then 0 else 7);
    ModSevenAdd(w1 + f - 1, day - f);
  }

  lemma FirstSundayOf(year: int, month: int)
    requires 0 <= month < 12
    ensures FirstSunday(year, month) == 1 + (7 - Weekday(Date(year, month, 1))) % 7
  {
    var first := MakeDate(year, month, 1);
    MakeDateInMonth(year, month, 1);
    assert first == Date(year, month, 1);
  }

  lemma SundayInMonth(sunday: Date)
    requires sunday.Valid() && Weekday(sunday) == 0
    ensures (Weekday(Date(sunday.year, sunday.month, 1)) + sunday.day - 1) % 7 == 0
  {
    WeekdayInMonth(sunday.year, sunday.month, sunday.day);
  }

  lemma SundayIndexBound(sunday: Date)
    requires sunday.Valid() && sunday.year == 2026
    requires FirstSunday(2026, sunday.month) <= sunday.day
    ensures 0 <= SundayIndex(sunday) < |Schedule2026[sunday.month]|
  {
    RowLengthIsSundayCount(sunday.month);
  }

  /**
   Each row has exactly one entry per Sunday of its month in 2026: every
   Sunday of 2026 has an ordinal inside its row.
   */
  lemma SundayIndexInRow(sunday: Date)
    requires sunday.Valid() && sunday.year == 2026 && Weekday(sunday) == 0
    ensures FirstSunday(2026, sunday.month) <= sunday.day
    ensures (sunday.day - FirstSunday(2026, sunday.month)) % 7 == 0
    ensures 0 <= SundayIndex(sunday) < |Schedule2026[sunday.month]|
  {
    SundayInMonth(sunday);
    FirstSundayOf(2026, sunday.month);
    SundayOffset(Weekday(Date(2026, sunday.month, 1)), sunday.day);
    SundayIndexBound(sunday);
  }

  /** Two Sundays are a whole number of weeks apart. */
  lemma SundaysWeeksApart(s: int, t: int)
    requires (s + 1) % 7 == 0 && (t + 1) % 7 == 0
    ensures (s - t) % 7 == 0
  {
    ModSevenAdd(s + 1, t - s);
  }

  lemma SeasonConstants()
    ensures DayNumber(SeasonStart) == DaysBeforeYear(2026) + 3
    ensures DayNumber(SeasonEnd) == DayNumber(SeasonStart) + 364
    ensures DaysBeforeYear(2027) == DayNumber(SeasonStart) + 362
    ensures Weekday(SeasonStart) == 0
  {
    assert DaysBeforeYear(2026) == 739616;
    YearStep(2026);
  }

  /** Every entry of the table is a positive number of minutes. */
  lemma ScheduleEntriesPositive(m: int, i: int)
    requires 0 <= m < 12 && 0 <= i < |Schedule2026[m]|
    ensures Schedule2026[m][i] > 0
  {
  }

  /** Before the season starts the target is 0. */
  lemma DurationBeforeSeason(date: Date)
    requires date.Valid() && DayNumber(date) < DayNumber(SeasonStart)
    ensures CalculateDuration(date) == 0
  {
  }

  /** Where a week's Sunday `s` can lie, for a day `n` of that week, against the season's first Sunday `j`. */
  lemma SundayAgainstSeason(s: int, n: int, j: int)
    requires (s + 1) % 7 == 0 && (j + 1) % 7 == 0
    requires n - 6 <= s <= n
    ensures j <= n < j + 364 ==> j <= s <= j + 357
    ensures j + 364 <= n ==> j + 364 <= s
  {
    SundaysWeeksApart(s, j);
  }

  /** From 2027-01-03 on, the week's Sunday is past 2026 and the target is 0. */
  lemma DurationAfterSeason(date: Date)
    requires date.Valid() && DayNumber(SeasonEnd) <= DayNumber(date)
    ensures CalculateDuration(date) == 0
  {
    var ws := WeekStart(date);
    SeasonConstants();
    SundayAgainstSeason(DayNumber(ws), DayNumber(date), DayNumber(SeasonStart));
    DayNumberInYear(ws);
    assert ws.year != 2026;
  }

  /** Inside the season the week's Sunday lies in 2026 on or after 2026-01-04. */
  lemma SeasonWeekStart(date: Date)
    requires date.Valid()
    requires DayNumber(SeasonStart) <= DayNumber(date) < DayNumber(SeasonEnd)
    ensures DayNumber(SeasonStart) <= DayNumber(WeekStart(date)) && WeekStart(date).year == 2026
  {
    SeasonSunday(WeekStart(date), date);
  }

  lemma SeasonSunday(ws: Date, date: Date)
    requires date.Valid() && ws.Valid() && Weekday(ws) == 0
    requires DayNumber(date) - 6 <= DayNumber(ws) <= DayNumber(date)
    requires DayNumber(SeasonStart) <= DayNumber(date) < DayNumber(SeasonEnd)
    ensures DayNumber(SeasonStart) <= DayNumber(ws) && ws.year == 2026
  {
    SeasonConstants();
    SundayAgainstSeason(DayNumber(ws), DayNumber(date), DayNumber(SeasonStart));
    YearOfDayNumber(ws, 2026);
  }

  /**
   Inside the season the week's Sunday has its ordinal inside its month's
   row, so the source's fallback `return 0` is never reached, and the target
   is that positive table entry.
   */
  lemma DurationInSeason(date: Date)
    requires date.Valid()
    requires DayNumber(SeasonStart) <= DayNumber(date) < DayNumber(SeasonEnd)
    ensures var ws := WeekStart(date);
      ws.year == 2026 && 0 <= SundayIndex(ws) < |Schedule2026[ws.month]| &&
      CalculateDuration(date) == Schedule2026[ws.month][SundayIndex(ws)] > 0
  {
    var ws := WeekStart(date);
    SeasonWeekStart(date);
    SundayIndexInRow(ws);
    ScheduleEntriesPositive(ws.month, SundayIndex(ws));
  }

  /** The Sunday of the week holding day `n` is fixed by the week count `(n + 1) / 7`. */
  lemma SundayOfWeekCount(s: int, n: int)
    requires (s + 1) % 7 == 0 && n - 6 <= s <= n
    ensures s + 1 == 7 * ((n + 1) / 7)
  {
  }

  /** Two Sundays that each start the week of a day, for days of the same week count, are one date. */
  lemma SameWeekSameSunday(wa: Date, wb: Date, na: int, nb: int)
    requires wa.Valid() && wb.Valid()
    requires Weekday(wa) == 0 && Weekday(wb) == 0
    requires na - 6 <= DayNumber(wa) <= na && nb - 6 <= DayNumber(wb) <= nb
    requires (na + 1) / 7 == (nb + 1) / 7
    ensures wa == wb
  {
    SundayOfWeekCount(DayNumber(wa), na);
    SundayOfWeekCount(DayNumber(wb), nb);
    DayNumberInjective(wa, wb);
  }

  /** Two days of the same Sunday-to-Saturday week have the same Sunday. */
  lemma WeekStartOfSameWeek(a: Date, b: Date)
    requires a.Valid() && b.Valid() && WeekNumber(a) == WeekNumber(b)
    ensures WeekStart(a) == WeekStart(b)
  {
    SundaysOfSameWeek(a, b, WeekStart(a), WeekStart(b));
  }

  /**
   `WeekStartOfSameWeek` with the two Sundays passed in as plain values, so
   that the solver sees only `WeekStart`'s contract and not its unfolded body;
   proving it directly inside `WeekStartOfSameWeek` runs out of resource.
   */
  lemma SundaysOfSameWeek(a: Date, b: Date, wa: Date, wb: Date)
    requires a.Valid() && b.Valid() && WeekNumber(a) == WeekNumber(b)
    requires wa.Valid() && Weekday(wa) == 0 && DayNumber(a) - 6 <= DayNumber(wa) <= DayNumber(a)
    requires wb.Valid() && Weekday(wb) == 0 && DayNumber(b) - 6 <= DayNumber(wb) <= DayNumber(b)
    ensures wa == wb
  {
    SameWeekSameSunday(wa, wb, DayNumber(a), DayNumber(b));
  }

  /** The target is the same on every day of a Sunday-to-Saturday week. */
  lemma DurationConstantInWeek(a: Date, b: Date)
    requires a.Valid() && b.Valid() && WeekNumber(a) == WeekNumber(b)
    ensures CalculateDuration(a) == CalculateDuration(b)
  {
    WeekStartOfSameWeek(a, b);
  }

  /** Read in week order, the table never decreases: rows rise and each row ends at or below the next row's start. */
  lemma ScheduleNonDecreasing(m1: int, i1: int, m2: int, i2: int)
    requires 0 <= m1 <= m2 < 12
    requires 0 <= i1 < |Schedule2026[m1]| && 0 <= i2 < |Schedule2026[m2]|
    requires m1 < m2 || i1 <= i2
    ensures Schedule2026[m1][i1] <= Schedule2026[m2][i2]
  {
  }

  /** Of two Sundays of 2026, the earlier one comes first in (month, ordinal) order. */
  lemma SundayOrder(a: Date, b: Date)
    requires a.Valid() && b.Valid() && a.year == 2026 && b.year == 2026
    requires DayNumber(a) <= DayNumber(b)
    ensures a.month <= b.month
    ensures a.month == b.month ==> SundayIndex(a) <= SundayIndex(b)
  {
    if b.month < a.month {
      MonthsIncrease(2026, b.month, a.month);
    }
  }

  /** Later days have later (or the same) week-starting Sundays. */
  lemma WeekStartMonotone(a: Date, b: Date)
    requires a.Valid() && b.Valid() && DayNumber(a) <= DayNumber(b)
    ensures DayNumber(WeekStart(a)) <= DayNumber(WeekStart(b))
  {
    SundaysInOrder(DayNumber(WeekStart(a)), DayNumber(a), DayNumber(WeekStart(b)), DayNumber(b));
  }

  lemma SundaysInOrder(sa: int, na: int, sb: int, nb: int)
    requires (sa + 1) % 7 == 0 && na - 6 <= sa <= na
    requires (sb + 1) % 7 == 0 && nb - 6 <= sb <= nb
    requires na <= nb
    ensures sa <= sb
  {
    SundaysWeeksApart(sa, sb);
  }

  /** Of two Sundays of 2026, the later one has the larger (or equal) target. */
  lemma SundayTargetsOrdered(wa: Date, wb: Date)
    requires wa.Valid() && wb.Valid() && wa.year == 2026 && wb.year == 2026
    requires Weekday(wa) == 0 && Weekday(wb) == 0
    requires DayNumber(wa) <= DayNumber(wb)
    ensures 0 <= SundayIndex(wa) < |Schedule2026[wa.month]| && 0 <= SundayIndex(wb) < |Schedule2026[wb.month]|
    ensures Schedule2026[wa.month][SundayIndex(wa)] <= Schedule2026[wb.month][SundayIndex(wb)]
  {
    SundayIndexInRow(wa);
    SundayIndexInRow(wb);
    SundayOrder(wa, wb);
    ScheduleNonDecreasing(wa.month, SundayIndex(wa), wb.month, SundayIndex(wb));
  }

  /** Through the season the target never decreases from one day to a later one. */
  lemma DurationNonDecreasing(a: Date, b: Date)
    requires a.Valid() && b.Valid()
    requires DayNumber(a) <= DayNumber(b) < DayNumber(SeasonEnd)
    ensures CalculateDuration(a) <= CalculateDuration(b)
  {
    if DayNumber(SeasonStart) <= DayNumber(a) {
      DurationInSeason(a);
      DurationInSeason(b);
      WeekStartMonotone(a, b);
      SundayTargetsOrdered(WeekStart(a), WeekStart(b));
    }
  }

  /** A date has a positive target exactly when it lies in the season, 2026-01-04 to 2027-01-02. */
  lemma DurationPositiveIffInSeason(date: Date)
    requires date.Valid()
    ensures CalculateDuration(date) > 0 <==> DayNumber(SeasonStart) <= DayNumber(date) < DayNumber(SeasonEnd)
  {
    if DayNumber(date) < DayNumber(SeasonStart) {
      DurationBeforeSeason(date);
    } else if DayNumber(SeasonEnd) <= DayNumber(date) {
      DurationAfterSeason(date);
    } else {
      DurationInSeason(date);
    }
  }

  /** Every day of 2026 from January 4 on has a positive target; January 1 to 3 have none. */
  lemma Positive2026(date: Date)
    requires date.Valid() && date.year == 2026
    ensures CalculateDuration(date) > 0 <==> (date.month > 0 || 4 <= date.day)
  {
    SeasonConstants();
    DayNumberInYear(date);
    if date.month > 0 {
      MonthsIncrease(date.year, 0, date.month);
    }
    DurationPositiveIffInSeason(date);
  }

  /** The target of any day of the week that starts on `sunday`, a Sunday of the season, is that Sunday's table entry. */
  lemma DurationOfWeek(date: Date, sunday: Date)
    requires date.Valid() && sunday.Valid() && sunday.year == 2026 && Weekday(sunday) == 0
    requires DayNumber(SeasonStart) <= DayNumber(sunday) <= DayNumber(date) <= DayNumber(sunday) + 6
    ensures 0 <= SundayIndex(sunday) < |Schedule2026[sunday.month]|
    ensures CalculateDuration(date) == Schedule2026[sunday.month][SundayIndex(sunday)]
  {
    WeekStartIs(date, sunday);
    SundayTarget(sunday);
  }

  lemma WeekStartIs(date: Date, sunday: Date)
    requires date.Valid() && sunday.Valid() && Weekday(sunday) == 0
    requires DayNumber(sunday) <= DayNumber(date) <= DayNumber(sunday) + 6
    ensures WeekStart(date) == sunday
  {
    SameWeekSameSunday(WeekStart(date), sunday, DayNumber(date), DayNumber(date));
  }

  lemma SundayTarget(sunday: Date)
    requires sunday.Valid() && sunday.year == 2026 && Weekday(sunday) == 0
    requires DayNumber(SeasonStart) <= DayNumber(sunday)
    ensures 0 <= SundayIndex(sunday) < |Schedule2026[sunday.month]|
    ensures WeekTarget(sunday) == Schedule2026[sunday.month][SundayIndex(sunday)]
  {
    SundayIndexInRow(sunday);
  }

  /** Every day of the first scheduled week, 2026-01-04 to 2026-01-10, has target 5. */
  lemma FirstWeekTarget(date: Date)
    requires date.Valid() && date.year == 2026 && date.month == 0 && 4 <= date.day <= 10
    ensures CalculateDuration(date) == 5
  {
    SeasonConstants();
    var sunday := SeasonStart;
    FirstSundayOf2026(0);
    assert SundayIndex(sunday) == 0;
    assert Schedule2026[0][0] == 5;
    DurationOfWeek(date, sunday);
    assert CalculateDuration(date) == Schedule2026[0][0];
  }

  /** The second week, 2026-01-11 to 2026-01-17, has target 6. */
  lemma SecondWeekTarget(date: Date)
    requires date.Valid() && date.year == 2026 && date.month == 0 && 11 <= date.day <= 17
    ensures CalculateDuration(date) == 6
  {
    assert DaysBeforeYear(2026) == 739616;
    var sunday := Date(2026, 0, 11);
    FirstSundayOf2026(0);
    assert SundayIndex(sunday) == 1;
    assert Schedule2026[0][1] == 6;
    DurationOfWeek(date, sunday);
    assert CalculateDuration(date) == Schedule2026[0][1];
  }

  /**
   A week that crosses a month boundary keeps the target of the month its
   Sunday lies in: the days from 2026-03-29 to 2026-04-04, April 1 included,
   have March's fifth entry 19.
   */
  lemma WeekOfMarch29Target(date: Date)
    requires date.Valid() && date.year == 2026
    requires (date.month == 2 && 29 <= date.day) || (date.month == 3 && date.day <= 4)
    ensures CalculateDuration(date) == 19
  {
    assert DaysBeforeYear(2026) == 739616;
    var sunday := Date(2026, 2, 29);
    FirstSundayOf2026(2);
    assert SundayIndex(sunday) == 4;
    assert Schedule2026[2][4] == 19;
    DurationOfWeek(date, sunday);
    assert CalculateDuration(date) == Schedule2026[2][4];
  }

  /** The week of May 31, May's fifth Sunday, runs to 2026-06-06 and has 30. */
  lemma WeekOfMay31Target(date: Date)
    requires date.Valid() && date.year == 2026
    requires (date.month == 4 && date.day == 31) || (date.month == 5 && date.day <= 6)
    ensures CalculateDuration(date) == 30
  {
    assert DaysBeforeYear(2026) == 739616;
    var sunday := Date(2026, 4, 31);
    FirstSundayOf2026(4);
    assert SundayIndex(sunday) == 4;
    assert Schedule2026[4][4] == 30;
    DurationOfWeek(date, sunday);
    assert CalculateDuration(date) == Schedule2026[4][4];
  }

  /** The week of August 30, August's fifth Sunday, runs to 2026-09-05 and has 45. */
  lemma WeekOfAugust30Target(date: Date)
    requires date.Valid() && date.year == 2026
    requires (date.month == 7 && 30 <= date.day) || (date.month == 8 && date.day <= 5)
    ensures CalculateDuration(date) == 45
  {
    assert DaysBeforeYear(2026) == 739616;
    var sunday := Date(2026, 7, 30);
    FirstSundayOf2026(7);
    assert SundayIndex(sunday) == 4;
    assert Schedule2026[7][4] == 45;
    DurationOfWeek(date, sunday);
    assert CalculateDuration(date) == Schedule2026[7][4];
  }

  /** 2026-12-01 to 2026-12-05 belong to the week of November 29 and have 59, not December's 60. */
  lemma WeekOfNovember29Target(date: Date)
    requires date.Valid() && date.year == 2026
    requires (date.month == 10 && 29 <= date.day) || (date.month == 11 && date.day <= 5)
    ensures CalculateDuration(date) == 59
  {
    assert DaysBeforeYear(2026) == 739616;
    var sunday := Date(2026, 10, 29);
    FirstSundayOf2026(10);
    assert SundayIndex(sunday) == 4;
    assert Schedule2026[10][4] == 59;
    DurationOfWeek(date, sunday);
    assert CalculateDuration(date) == Schedule2026[10][4];
  }

  /** The weeks of December 6, 13 and 20 (2026-12-06 to 2026-12-26) have 60. */
  lemma DecemberWeeksTarget(date: Date)
    requires date.Valid() && date.year == 2026 && date.month == 11 && 6 <= date.day <= 26
    ensures CalculateDuration(date) == 60
  {
    assert DaysBeforeYear(2026) == 739616;
    FirstSundayOf2026(11);
    var k := (date.day - 6) / 7;
    var sunday := Date(2026, 11, 6 + 7 * k);
    assert SundayIndex(sunday) == k;
    assert Schedule2026[11][k] == 60;
    DurationOfWeek(date, sunday);
    assert CalculateDuration(date) == Schedule2026[11][k];
  }

  /** The last scheduled week runs from 2026-12-27 into 2027 and has 60 up to 2027-01-02. */
  lemma LastWeekTarget(date: Date)
    requires date.Valid()
    requires (date.year == 2026 && date.month == 11 && 27 <= date.day) ||
             (date.year == 2027 && date.month == 0 && date.day <= 2)
    ensures CalculateDuration(date) == 60
  {
    SeasonConstants();
    assert DaysBeforeYear(2026) == 739616;
    var sunday := Date(2026, 11, 27);
    FirstSundayOf2026(11);
    assert SundayIndex(sunday) == 3;
    assert Schedule2026[11][3] == 60;
    DurationOfWeek(date, sunday);
    assert CalculateDuration(date) == Schedule2026[11][3];
  }
}
