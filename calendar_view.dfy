/**
 The calendar view's logic: ticking a day off in the prayer log, the
 month's progress figures, the month's base target, and stepping between
 months. The view keeps two pieces of state, the date whose month is shown
 and the prayer log keyed by YYYY-MM-DD.
 */
module CalendarView {
  import opened Gregorian
  import opened Types
  import opened IsoDate
  import opened Schedule
  import opened CalendarGrid

  /** The prayer log: one entry per ticked-off day, keyed by its YYYY-MM-DD text. */
  type Logs = map<string, PrayerLog>

  /** A log as the view writes it: every entry is keyed by its own date, completed, with a positive target. */
  predicate WellFormedLogs(logs: Logs) {
    forall k :: k in logs ==> logs[k].date == k && logs[k].completed && logs[k].minutes > 0
  }

  /** The log holds a completed entry under `key` (`existing?.completed` for the key of a day). */
  predicate KeyCompleted(logs: Logs, key: string) {
    key in logs && logs[key].completed
  }

  // ---------------------------------------------------------------------------
  // toggleDay
  // ---------------------------------------------------------------------------

  /**
   The log after clicking `day`: days without a target are ignored, a
   completed entry is removed, anything else gets a completed entry holding
   the day's target.
   */
  function Toggled(logs: Logs, day: DayData): (r: Logs)
    requires day.date.Valid()
    ensures forall k :: k != day.isoString ==> (k in r <==> k in logs)
    ensures forall k :: k != day.isoString && k in r ==> r[k] == logs[k]
    ensures CalculateDuration(day.date) == 0 ==> r == logs
    ensures CalculateDuration(day.date) > 0 ==>
      (day.isoString in r <==> !KeyCompleted(logs, day.isoString)) &&
      (day.isoString in r ==> r[day.isoString] == PrayerLog(day.isoString, CalculateDuration(day.date), true))
  {
    var targetMinutes := CalculateDuration(day.date);
    if targetMinutes == 0 then logs
    else if KeyCompleted(logs, day.isoString) then logs - {day.isoString}
    else logs[day.isoString := PrayerLog(day.isoString, targetMinutes, true)]
  }

  /** Clicking a day with a target flips whether it counts as completed. */
  lemma ToggleFlipsCompletion(logs: Logs, day: DayData)
    requires day.date.Valid() && CalculateDuration(day.date) > 0
    ensures KeyCompleted(Toggled(logs, day), day.isoString) <==> !KeyCompleted(logs, day.isoString)
  {
  }

  /**
   Clicking a day twice gives back the log exactly when the day has no
   target, had no entry, or had the completed entry the click would write.
   */
  lemma ToggleTwice(logs: Logs, day: DayData)
    requires day.date.Valid()
    ensures var key, target := day.isoString, CalculateDuration(day.date);
      Toggled(Toggled(logs, day), day) == logs <==>
      (target == 0 || key !in logs || logs[key] == PrayerLog(key, target, true))
  {
    var key, target := day.isoString, CalculateDuration(day.date);
    var twice := Toggled(Toggled(logs, day), day);
    if target > 0 && key in logs {
      if logs[key] == PrayerLog(key, target, true) {
        assert twice == logs;
      } else if logs[key].completed {
        assert twice[key] != logs[key];
      } else {
        assert key !in twice;
      }
    } else if target > 0 {
      assert twice == logs;
    }
  }

  /** Clicking keeps the log well formed. */
  lemma ToggleKeepsWellFormed(logs: Logs, day: DayData)
    requires day.date.Valid() && WellFormedLogs(logs)
    ensures WellFormedLogs(Toggled(logs, day))
  {
  }

  // ---------------------------------------------------------------------------
  // calculateMonthProgress
  // ---------------------------------------------------------------------------

  /** Every cell holds a real calendar date. */
  predicate ValidDays(days: seq<DayData>) {
    forall i :: 0 <= i < |days| ==> days[i].date.Valid()
  }

  /** `calendarDays.filter(day => day.isCurrentMonth)`. */
  function CurrentMonthDays(days: seq<DayData>): (r: seq<DayData>)
    ensures |r| <= |days|
    ensures ValidDays(days) ==> ValidDays(r)
  {
    if |days| == 0 then []
    else
      (if days[0].isCurrentMonth then [days[0]] else []) + CurrentMonthDays(days[1..])
  }

  /** The filter keeps exactly the cells flagged as the current month. */
  lemma {:induction false} CurrentMonthDaysMembers(days: seq<DayData>)
    ensures forall x :: x in CurrentMonthDays(days) <==> x in days && x.isCurrentMonth
  {
    if |days| > 0 {
      CurrentMonthDaysMembers(days[1..]);
      assert days == [days[0]] + days[1..];
    }
  }

  /** How many of `days` have a positive target. */
  function ActiveCount(days: seq<DayData>): (n: nat)
    requires ValidDays(days)
    ensures n <= |days|
  {
    if |days| == 0 then 0
    else
      (if CalculateDuration(days[0].date) > 0 then 1 else 0) + ActiveCount(days[1..])
  }

  /** How many of `days` have a positive target and a completed log entry. */
  function CompletedCount(days: seq<DayData>, logs: Logs): nat
    requires ValidDays(days)
  {
    if |days| == 0 then 0
    else
      (if KeyCompleted(logs, days[0].isoString) && CalculateDuration(days[0].date) > 0 then 1 else 0)
      + CompletedCount(days[1..], logs)
  }

  /** A completed day is counted only if it is active, so completed never exceeds total. */
  lemma {:induction false} CompletedAtMostActive(days: seq<DayData>, logs: Logs)
    requires ValidDays(days)
    ensures CompletedCount(days, logs) <= ActiveCount(days)
  {
    if |days| > 0 {
      CompletedAtMostActive(days[1..], logs);
    }
  }

  /** `Math.round(c / t * 100)`, and 0 when there is nothing to count. */
  function RoundedPercentage(completed: nat, total: nat): (p: nat)
    requires completed <= total
    ensures total == 0 ==> p == 0
    ensures total > 0 ==> 200 * completed - total < 2 * total * p <= 200 * completed + total
    ensures p <= 100
  {
    if total > 0 then PercentageBounds(completed, total); (200 * completed + total) / (2 * total) else 0
  }

  lemma PercentageBounds(c: nat, t: nat)
    requires 0 < t && c <= t
    ensures var p := (200 * c + t) / (2 * t);
      200 * c - t < 2 * t * p <= 200 * c + t && p <= 100
  {
    var q, x := 2 * t, 200 * c + t;
    var p := x / q;
    assert q * p <= x < q * p + q;
    if p > 100 {
      MulAtLeast(q, p, 101);
    }
  }

  lemma MulAtLeast(q: nat, p: int, k: int)
    requires k <= p
    ensures q * k <= q * p
  {
  }

  /**
   With fewer than 200 days counted (a month has at most 31), the
   percentage is 100 exactly when every counted day is completed.
   */
  lemma PercentageFullIffAllCompleted(c: nat, t: nat)
    requires 0 < t < 200 && c <= t
    ensures RoundedPercentage(c, t) == 100 <==> c == t
  {
    var p := RoundedPercentage(c, t);
    if p == 100 {
      assert 2 * t * p == 200 * t;
    } else if c == t {
      assert p < 100;
      MulAtLeast(2 * t, 99, p);
    }
  }

  datatype MonthProgress = MonthProgress(completed: nat, total: nat, percentage: nat)

  /**
   `calculateMonthProgress`: among the cells of the shown month, the days
   with a target (total), those of them ticked off (completed), and the
   rounded share.
   */
  function CalculateMonthProgress(days: seq<DayData>, logs: Logs): (p: MonthProgress)
    requires ValidDays(days)
    ensures p.completed <= p.total <= |CurrentMonthDays(days)|
    ensures p.percentage <= 100 && (p.total == 0 ==> p.percentage == 0)
    ensures p.total > 0 ==> 200 * p.completed - p.total < 2 * p.total * p.percentage <= 200 * p.completed + p.total
  {
    var daysInMonth := CurrentMonthDays(days);
    var completedDays := CompletedCount(daysInMonth, logs);
    var totalDays := ActiveCount(daysInMonth);
    CompletedAtMostActive(daysInMonth, logs);
    MonthProgress(completedDays, totalDays, RoundedPercentage(completedDays, totalDays))
  }

  /** The cells flagged as the current month are exactly the block from `a` to `b`. */
  lemma {:induction false} FlaggedBlock(s: seq<DayData>, a: int, b: int)
    requires 0 <= a <= b <= |s|
    requires forall i :: 0 <= i < |s| ==> (s[i].isCurrentMonth <==> a <= i < b)
    ensures CurrentMonthDays(s) == s[a..b]
  {
    if |s| > 0 {
      var rest := s[1..];
      assert forall i :: 0 <= i < |rest| ==> rest[i] == s[i + 1];
      if a > 0 {
        FlaggedBlock(rest, a - 1, b - 1);
        assert rest[a - 1..b - 1] == s[a..b];
      } else if b > 0 {
        FlaggedBlock(rest, 0, b - 1);
        assert [s[0]] + rest[0..b - 1] == s[0..b];
      } else {
        FlaggedBlock(rest, 0, 0);
      }
    }
  }

  /** Every cell of a month grid holds a real date. */
  lemma GridValidDays(year: int, month: int, today: Date)
    requires 0 <= month < 12
    ensures ValidDays(MonthGrid(year, month, today))
  {
  }

  /** The current-month cells of the grid are the month's days, from the 1st to the last. */
  lemma GridMonthDays(year: int, month: int, today: Date)
    requires 0 <= month < 12
    ensures var grid := MonthGrid(year, month, today);
      var cells := CurrentMonthDays(grid);
      |cells| == DaysInMonth(year, month) &&
      forall j :: 0 <= j < |cells| ==> cells[j].date == Date(year, month, j + 1)
  {
    var grid := MonthGrid(year, month, today);
    var lead := LeadingDays(year, month);
    GridFlagBlock(year, month, today);
    FlaggedBlock(grid, lead, lead + DaysInMonth(year, month));
    GridDateBlock(year, month, today);
    BlockOfDays(grid, lead, year, month);
  }

  lemma GridFlagBlock(year: int, month: int, today: Date)
    requires 0 <= month < 12
    ensures var grid := MonthGrid(year, month, today);
      var lead := LeadingDays(year, month);
      |grid| == GridSize && 0 <= lead && lead + DaysInMonth(year, month) <= GridSize &&
      forall i :: 0 <= i < |grid| ==> (grid[i].isCurrentMonth <==> lead <= i < lead + DaysInMonth(year, month))
  {
    var grid := MonthGrid(year, month, today);
    var lead := LeadingDays(year, month);
    forall i | 0 <= i < |grid|
      ensures grid[i].isCurrentMonth <==> lead <= i < lead + DaysInMonth(year, month)
    {
      GridFlags(year, month, today, i);
    }
  }

  lemma GridDateBlock(year: int, month: int, today: Date)
    requires 0 <= month < 12
    ensures var grid := MonthGrid(year, month, today);
      var lead := LeadingDays(year, month);
      forall i :: lead <= i < lead + DaysInMonth(year, month) && i < |grid| ==>
        grid[i].date == Date(year, month, i - lead + 1)
  {
    var grid := MonthGrid(year, month, today);
    var lead := LeadingDays(year, month);
    forall i | lead <= i < lead + DaysInMonth(year, month) && i < |grid|
      ensures grid[i].date == Date(year, month, i - lead + 1)
    {
      GridFlags(year, month, today, i);
    }
  }

  /** Re-indexing a block of consecutive days from 0. */
  lemma BlockOfDays(s: seq<DayData>, lead: int, year: int, month: int)
    requires 0 <= month < 12 && 0 <= lead && lead + DaysInMonth(year, month) <= |s|
    requires forall i :: lead <= i < lead + DaysInMonth(year, month) && i < |s| ==>
      s[i].date == Date(year, month, i - lead + 1)
    ensures var block := s[lead..lead + DaysInMonth(year, month)];
      forall j :: 0 <= j < |block| ==> block[j].date == Date(year, month, j + 1)
  {
    var block := s[lead..lead + DaysInMonth(year, month)];
    forall j | 0 <= j < |block| ensures block[j].date == Date(year, month, j + 1) {
      assert block[j] == s[lead + j];
    }
  }

  /** The target of day `day` of the month. */
  function DayTarget(year: int, month: int, day: int): nat
    requires 0 <= month < 12 && 1 <= day <= DaysInMonth(year, month)
  {
    CalculateDuration(Date(year, month, day))
  }

  /** The targets of the days of a month, from the 1st to the last. */
  function MonthTargets(year: int, month: int): (ts: seq<nat>)
    requires 0 <= month < 12
    ensures |ts| == DaysInMonth(year, month)
  {
    seq(DaysInMonth(year, month), j requires 0 <= j < DaysInMonth(year, month) => DayTarget(year, month, j + 1))
  }

  /** Entry `j` of `MonthTargets` is the target of day `j + 1`. */
  lemma MonthTargetAt(year: int, month: int, j: int)
    requires 0 <= month < 12 && 0 <= j < DaysInMonth(year, month)
    ensures MonthTargets(year, month)[j] == DayTarget(year, month, j + 1)
  {
  }

  /** How many entries of `ts` are positive. */
  function CountPositive(ts: seq<nat>): (n: nat)
    ensures n <= |ts|
  {
    if |ts| == 0 then 0
    else (if ts[0] > 0 then 1 else 0) + CountPositive(ts[1..])
  }

  /** When exactly the entries from index `k` on are positive, `|ts| - k` of them count. */
  lemma {:induction false} CountAfterZeros(ts: seq<nat>, k: nat)
    requires k <= |ts|
    requires forall i :: 0 <= i < |ts| ==> (ts[i] > 0 <==> k <= i)
    ensures CountPositive(ts) == |ts| - k
  {
    if |ts| > 0 {
      CountAfterZeros(ts[1..], if k == 0 then 0 else k - 1);
    }
  }

  /** A counter over the cells agrees with a count over their targets. */
  lemma {:induction false} ActiveCountIsCount(s: seq<DayData>, ts: seq<nat>)
    requires ValidDays(s) && |s| == |ts|
    requires forall j :: 0 <= j < |s| ==> ts[j] == CalculateDuration(s[j].date)
    ensures ActiveCount(s) == CountPositive(ts)
  {
    if |s| > 0 {
      ActiveCountIsCount(s[1..], ts[1..]);
    }
  }

  /** Over a month grid, the progress total is the number of the month's days with a positive target. */
  lemma GridProgressTotal(year: int, month: int, today: Date, logs: Logs)
    requires 0 <= month < 12
    ensures ValidDays(MonthGrid(year, month, today)) &&
      CalculateMonthProgress(MonthGrid(year, month, today), logs).total == CountPositive(MonthTargets(year, month))
  {
    var grid := MonthGrid(year, month, today);
    GridValidDays(year, month, today);
    GridMonthDays(year, month, today);
    var cells := CurrentMonthDays(grid);
    var ts := MonthTargets(year, month);
    assert ValidDays(cells) by {
      forall i | 0 <= i < |cells| ensures cells[i].date.Valid() {
        assert cells[i].date == Date(year, month, i + 1);
      }
    }
    forall j | 0 <= j < |cells| ensures ts[j] == CalculateDuration(cells[j].date) {
      assert cells[j].date == Date(year, month, j + 1);
      MonthTargetAt(year, month, j);
    }
    ActiveCountIsCount(cells, ts);
  }

  /** The progress total of each month of 2026: all its days, except January 1 to 3. */
  lemma ProgressTotal2026(year: int, month: int, today: Date, logs: Logs)
    requires year == 2026 && 0 <= month < 12
    ensures ValidDays(MonthGrid(year, month, today)) &&
      CalculateMonthProgress(MonthGrid(year, month, today), logs).total ==
      DaysInMonth(year, month) - (if month == 0 then 3 else 0)
  {
    GridProgressTotal(year, month, today, logs);
    ActiveDays2026(year, month);
  }

  /** The number of days with a target in each month of 2026. */
  lemma ActiveDays2026(year: int, month: int)
    requires year == 2026 && 0 <= month < 12
    ensures CountPositive(MonthTargets(year, month)) == DaysInMonth(year, month) - (if month == 0 then 3 else 0)
  {
    var ts := MonthTargets(year, month);
    var skip := if month == 0 then 3 else 0;
    forall i | 0 <= i < |ts| ensures ts[i] > 0 <==> skip <= i {
      MonthTarget2026(ts, year, month, i);
    }
    CountAfterZeros(ts, skip);
  }

  /** Which days of a 2026 month have a target: all but January 1 to 3. */
  lemma MonthTarget2026(ts: seq<nat>, year: int, month: int, i: int)
    requires year == 2026 && 0 <= month < 12 && 0 <= i < DaysInMonth(year, month)
    requires ts == MonthTargets(year, month)
    ensures ts[i] > 0 <==> (month > 0 || 3 <= i)
  {
    MonthTargetAt(year, month, i);
    Positive2026(Date(year, month, i + 1));
  }

  /** The YYYY-MM-DD keys of the days of a month, from the 1st to the last. */
  function MonthKeys(year: int, month: int): (ks: seq<string>)
    requires 0 <= month < 12
    ensures |ks| == DaysInMonth(year, month)
  {
    seq(DaysInMonth(year, month), j requires 0 <= j < DaysInMonth(year, month) => ToIsoString(Date(year, month, j + 1)))
  }

  /** Entry `j` of `MonthKeys` is the key of day `j + 1`. */
  lemma MonthKeyAt(year: int, month: int, j: int)
    requires 0 <= month < 12 && 0 <= j < DaysInMonth(year, month)
    ensures MonthKeys(year, month)[j] == ToIsoString(Date(year, month, j + 1))
  {
  }

  /** For each day of the month, from the 1st to the last, whether it has a target and a completed entry under its key. */
  function MonthCompleted(year: int, month: int, logs: Logs): (cs: seq<bool>)
    requires 0 <= month < 12
    ensures |cs| == DaysInMonth(year, month)
  {
    var ts, ks := MonthTargets(year, month), MonthKeys(year, month);
    seq(DaysInMonth(year, month), j requires 0 <= j < DaysInMonth(year, month) => ts[j] > 0 && KeyCompleted(logs, ks[j]))
  }

  /** Day `j + 1` counts as completed exactly when it has a target and its key holds a completed entry. */
  lemma MonthCompletedAt(year: int, month: int, logs: Logs, j: int)
    requires 0 <= month < 12 && 0 <= j < DaysInMonth(year, month)
    ensures MonthCompleted(year, month, logs)[j] <==>
      DayTarget(year, month, j + 1) > 0 && KeyCompleted(logs, ToIsoString(Date(year, month, j + 1)))
  {
    MonthTargetAt(year, month, j);
    MonthKeyAt(year, month, j);
  }

  /** How many entries of `bs` are true. */
  function CountTrue(bs: seq<bool>): (n: nat)
    ensures n <= |bs|
  {
    if |bs| == 0 then 0
    else (if bs[0] then 1 else 0) + CountTrue(bs[1..])
  }

  /** The counter of completed cells agrees with a count over their completion flags. */
  lemma {:induction false} CompletedCountIsCount(s: seq<DayData>, bs: seq<bool>, logs: Logs)
    requires ValidDays(s) && |s| == |bs|
    requires forall j :: 0 <= j < |s| ==> (bs[j] <==> KeyCompleted(logs, s[j].isoString) && CalculateDuration(s[j].date) > 0)
    ensures CompletedCount(s, logs) == CountTrue(bs)
  {
    if |s| > 0 {
      CompletedCountIsCount(s[1..], bs[1..], logs);
    }
  }

  /** The `i`-th current-month cell of a month grid shows day `i + 1` under that day's key. */
  lemma CurrentCellKey(year: int, month: int, today: Date, i: int)
    requires 0 <= month < 12 && 0 <= i < DaysInMonth(year, month)
    ensures var cells := CurrentMonthDays(MonthGrid(year, month, today));
      |cells| == DaysInMonth(year, month) && cells[i].date == Date(year, month, i + 1) &&
      cells[i].isoString == ToIsoString(Date(year, month, i + 1))
  {
    var grid := MonthGrid(year, month, today);
    var lead := LeadingDays(year, month);
    GridCurrentCells(year, month, today);
    GridHasEveryDay(year, month, today, i + 1);
    assert CurrentMonthDays(grid)[i] == grid[lead + i];
  }

  /**
   Over a month grid, the progress's completed figure is the number of the
   month's days that have a target and a completed entry under their key.
   */
  lemma GridProgressCompleted(year: int, month: int, today: Date, logs: Logs)
    requires 0 <= month < 12
    ensures ValidDays(MonthGrid(year, month, today)) &&
      CalculateMonthProgress(MonthGrid(year, month, today), logs).completed == CountTrue(MonthCompleted(year, month, logs))
  {
    var grid := MonthGrid(year, month, today);
    GridValidDays(year, month, today);
    GridMonthDays(year, month, today);
    var cells := CurrentMonthDays(grid);
    var cs := MonthCompleted(year, month, logs);
    assert ValidDays(cells) by {
      forall i | 0 <= i < |cells| ensures cells[i].date.Valid() {
        assert cells[i].date == Date(year, month, i + 1);
      }
    }
    forall j | 0 <= j < |cells|
      ensures cs[j] <==> KeyCompleted(logs, cells[j].isoString) && CalculateDuration(cells[j].date) > 0
    {
      CurrentCellKey(year, month, today, j);
      MonthCompletedAt(year, month, logs, j);
    }
    CompletedCountIsCount(cells, cs, logs);
  }

  /** Toggling a day leaves the completion of every other key as it was. */
  lemma ToggleKeepsOther(logs: Logs, day: DayData, other: DayData)
    requires day.date.Valid() && other.isoString != day.isoString
    ensures KeyCompleted(Toggled(logs, day), other.isoString) == KeyCompleted(logs, other.isoString)
  {
  }

  /** Toggling a day leaves the completed count of cells with other keys alone. */
  lemma {:induction false} ToggleOtherCells(days: seq<DayData>, logs: Logs, day: DayData)
    requires ValidDays(days) && day.date.Valid()
    requires forall i :: 0 <= i < |days| ==> days[i].isoString != day.isoString
    ensures CompletedCount(days, Toggled(logs, day)) == CompletedCount(days, logs)
  {
    if |days| > 0 {
      ToggleKeepsOther(logs, day, days[0]);
      ToggleOtherCells(days[1..], logs, day);
    }
  }

  /**
   Toggling cell `k`, which has a target and a key no other cell shares,
   moves the completed count by one: down if it was completed, up if not.
   */
  lemma {:induction false} ToggleCompletedCount(days: seq<DayData>, logs: Logs, k: int)
    requires ValidDays(days) && 0 <= k < |days| && CalculateDuration(days[k].date) > 0
    requires forall i :: 0 <= i < |days| && i != k ==> days[i].isoString != days[k].isoString
    ensures CompletedCount(days, Toggled(logs, days[k])) ==
      if KeyCompleted(logs, days[k].isoString) then CompletedCount(days, logs) - 1 else CompletedCount(days, logs) + 1
  {
    var day, rest := days[k], days[1..];
    if k == 0 {
      ToggleFlipsCompletion(logs, day);
      assert forall i :: 0 <= i < |rest| ==> rest[i] == days[i + 1];
      ToggleOtherCells(rest, logs, day);
    } else {
      ToggleKeepsOther(logs, day, days[0]);
      assert rest[k - 1] == day;
      assert forall i :: 0 <= i < |rest| ==> rest[i] == days[i + 1];
      ToggleCompletedCount(rest, logs, k - 1);
    }
  }

  /** The current-month cells of a month grid are the block after the leading days. */
  lemma GridCurrentCells(year: int, month: int, today: Date)
    requires 0 <= month < 12
    ensures var grid := MonthGrid(year, month, today);
      var lead := LeadingDays(year, month);
      0 <= lead && lead + DaysInMonth(year, month) <= |grid| &&
      CurrentMonthDays(grid) == grid[lead..lead + DaysInMonth(year, month)]
  {
    var grid := MonthGrid(year, month, today);
    GridFlagBlock(year, month, today);
    FlaggedBlock(grid, LeadingDays(year, month), LeadingDays(year, month) + DaysInMonth(year, month));
  }

  /**
   Clicking a day of the month that has a target moves the month's completed
   figure by exactly one (for the years whose keys have four digits).
   */
  lemma ToggleMovesProgress(year: int, month: int, today: Date, logs: Logs, day: int)
    requires 0 <= month < 12 && 0 <= year <= 9999
    requires 1 <= day <= DaysInMonth(year, month) && DayTarget(year, month, day) > 0
    ensures var grid := MonthGrid(year, month, today);
      var cells := CurrentMonthDays(grid);
      ValidDays(grid) && day - 1 < |cells| && cells[day - 1].date == Date(year, month, day) &&
      CalculateMonthProgress(grid, Toggled(logs, cells[day - 1])).completed ==
        if KeyCompleted(logs, cells[day - 1].isoString) then CalculateMonthProgress(grid, logs).completed - 1
        else CalculateMonthProgress(grid, logs).completed + 1
  {
    GridValidDays(year, month, today);
    CurrentCellKey(year, month, today, day - 1);
    CurrentCellKeyUnique(year, month, today, day - 1);
    ToggleMovesCompleted(MonthGrid(year, month, today), logs, day - 1);
  }

  /**
   Toggling the `k`-th current-month cell, which has a target and a key no
   other current-month cell shares, moves the progress's completed figure by one.
   */
  lemma ToggleMovesCompleted(days: seq<DayData>, logs: Logs, k: int)
    requires ValidDays(days)
    requires 0 <= k < |CurrentMonthDays(days)|
    requires var cells := CurrentMonthDays(days);
      CalculateDuration(cells[k].date) > 0 &&
      forall i :: 0 <= i < |cells| && i != k ==> cells[i].isoString != cells[k].isoString
    ensures var day := CurrentMonthDays(days)[k];
      CalculateMonthProgress(days, Toggled(logs, day)).completed ==
        if KeyCompleted(logs, day.isoString) then CalculateMonthProgress(days, logs).completed - 1
        else CalculateMonthProgress(days, logs).completed + 1
  {
    var cells := CurrentMonthDays(days);
    ToggleCompletedCount(cells, logs, k);
    ProgressCompleted(days, logs);
    ProgressCompleted(days, Toggled(logs, cells[k]));
  }

  /** The completed figure of the progress is the completed count of the current-month cells. */
  lemma ProgressCompleted(days: seq<DayData>, logs: Logs)
    requires ValidDays(days)
    ensures ValidDays(CurrentMonthDays(days)) &&
      CalculateMonthProgress(days, logs).completed == CompletedCount(CurrentMonthDays(days), logs)
  {
  }

  /** The `k`-th current-month cell's key is shared by no other current-month cell. */
  lemma CurrentCellKeyUnique(year: int, month: int, today: Date, k: int)
    requires 0 <= month < 12 && 0 <= year <= 9999 && 0 <= k < DaysInMonth(year, month)
    ensures var cells := CurrentMonthDays(MonthGrid(year, month, today));
      |cells| == DaysInMonth(year, month) &&
      forall i :: 0 <= i < |cells| && i != k ==> cells[i].isoString != cells[k].isoString
  {
    var cells := CurrentMonthDays(MonthGrid(year, month, today));
    CurrentCellKey(year, month, today, k);
    forall i | 0 <= i < |cells| && i != k
      ensures cells[i].isoString != cells[k].isoString
    {
      CurrentCellKey(year, month, today, i);
      IsoKeyInjective(Date(year, month, i + 1), Date(year, month, k + 1));
    }
  }

  // ---------------------------------------------------------------------------
  // getMonthBaseMinutes
  // ---------------------------------------------------------------------------

  /** No day of the month before `day` has a target. */
  predicate NoTargetBefore(year: int, month: int, day: int)
    requires 0 <= month < 12 && day <= DaysInMonth(year, month) + 1
  {
    forall e :: 1 <= e < day ==> CalculateDuration(Date(year, month, e)) == 0
  }

  /** `day` is the first day of the month with a target, and that target is `minutes`. */
  predicate IsFirstTarget(year: int, month: int, day: int, minutes: int)
    requires 0 <= month < 12
  {
    1 <= day <= DaysInMonth(year, month) && NoTargetBefore(year, month, day) &&
    minutes == CalculateDuration(Date(year, month, day)) > 0
  }

  lemma NoTargetStep(year: int, month: int, day: int)
    requires 0 <= month < 12 && 1 <= day <= DaysInMonth(year, month)
    requires NoTargetBefore(year, month, day) && CalculateDuration(Date(year, month, day)) == 0
    ensures NoTargetBefore(year, month, day + 1)
  {
    forall e | 1 <= e < day + 1
      ensures CalculateDuration(Date(year, month, e)) == 0
    {
      if e == day {
        assert Date(year, month, e) == Date(year, month, day);
      }
    }
  }

  /**
   `getMonthBaseMinutes`: the target of the first day of the month that has
   one, or 0 when no day of the month has a target.
   */
  method GetMonthBaseMinutes(currentYear: int, currentMonth: int) returns (minutes: nat)
    requires 0 <= currentMonth < 12
    ensures minutes == 0 <==> NoTargetBefore(currentYear, currentMonth, DaysInMonth(currentYear, currentMonth) + 1)
    ensures minutes > 0 ==> exists d :: IsFirstTarget(currentYear, currentMonth, d, minutes)
  {
    var daysInMonth := MakeDate(currentYear, currentMonth + 1, 0).day;
    MakeDateDayZero(currentYear, currentMonth);
    var day := 1;
    while day <= daysInMonth
      invariant 1 <= day <= daysInMonth + 1
      invariant NoTargetBefore(currentYear, currentMonth, day)
    {
      var date := MakeDate(currentYear, currentMonth, day);
      MakeDateInMonth(currentYear, currentMonth, day);
      var duration := CalculateDuration(date);
      if duration > 0 {
        assert IsFirstTarget(currentYear, currentMonth, day, duration);
        assert !NoTargetBefore(currentYear, currentMonth, daysInMonth + 1);
        return duration;
      }
      NoTargetStep(currentYear, currentMonth, day);
      day := day + 1;
    }
    return 0;
  }

  /** In January 2026 the first day with a target is the 4th, so the month's base target is 5. */
  lemma January2026Base(year: int)
    requires year == 2026
    ensures IsFirstTarget(year, 0, 4, 5)
  {
    forall e | 1 <= e < 4
      ensures CalculateDuration(Date(year, 0, e)) == 0
    {
      Positive2026(Date(year, 0, e));
    }
    FirstWeekTarget(Date(year, 0, 4));
  }

  // ---------------------------------------------------------------------------
  // Month navigation
  // ---------------------------------------------------------------------------

  /** `new Date(currentYear, currentMonth - 1, 1)`: the 1st of the previous month, across a year boundary in January. */
  function MonthBack(d: Date): (r: Date)
    requires 0 <= d.month < 12
    ensures r == Date(MonthBefore(d.year, d.month).0, MonthBefore(d.year, d.month).1, 1)
  {
    MakeDatePrevMonth(d.year, d.month, 1);
    MakeDate(d.year, d.month - 1, 1)
  }

  /** `new Date(currentYear, currentMonth + 1, 1)`: the 1st of the next month, across a year boundary in December. */
  function MonthForward(d: Date): (r: Date)
    requires 0 <= d.month < 12
    ensures r == Date(MonthAfter(d.year, d.month).0, MonthAfter(d.year, d.month).1, 1)
  {
    MakeDateNextMonth(d.year, d.month, 1);
    MakeDate(d.year, d.month + 1, 1)
  }

  /** Going back and then forward, or forward and then back, returns to the 1st of the shown month. */
  lemma NavigationRoundTrip(d: Date)
    requires 0 <= d.month < 12
    ensures MonthForward(MonthBack(d)) == Date(d.year, d.month, 1)
    ensures MonthBack(MonthForward(d)) == Date(d.year, d.month, 1)
  {
  }

  /** Going back lands a whole previous month before the 1st; going forward lands a whole month after it. */
  lemma NavigationSpan(d: Date)
    requires 0 <= d.month < 12
    ensures var (py, pm) := MonthBefore(d.year, d.month);
      DayNumber(MonthBack(d)) + DaysInMonth(py, pm) == DayNumber(Date(d.year, d.month, 1))
    ensures DayNumber(MonthForward(d)) == DayNumber(Date(d.year, d.month, 1)) + DaysInMonth(d.year, d.month)
  {
    var (py, pm) := MonthBefore(d.year, d.month);
    NextMonthStart(py, pm);
    NextMonthStart(d.year, d.month);
  }

  // ---------------------------------------------------------------------------
  // The view's state
  // ---------------------------------------------------------------------------

  /**
   The calendar view's state: the date whose month is shown and the prayer
   log. `today` stands for the clock reading `new Date()`.
   */
  class Calendar {
    var currentDate: Date
    var prayerLogs: Logs

    predicate Valid()
      reads this
    {
      currentDate.Valid() && WellFormedLogs(prayerLogs)
    }

    /** The view opens on today's month with an empty log. */
    constructor(today: Date)
      requires today.Valid()
      ensures Valid() && currentDate == today && prayerLogs == map[]
    {
      currentDate := today;
      prayerLogs := map[];
    }

    /** `toggleDay`: the log becomes a new map with the clicked day's entry removed or written. */
    method ToggleDay(day: DayData)
      requires Valid() && day.date.Valid()
      modifies this
      ensures Valid()
      ensures prayerLogs == Toggled(old(prayerLogs), day) && currentDate == old(currentDate)
    {
      var targetMinutes := CalculateDuration(day.date);
      if targetMinutes == 0 {
        return;
      }
      var newLogs := prayerLogs;
      if day.isoString in newLogs && newLogs[day.isoString].completed {
        newLogs := newLogs - {day.isoString};
      } else {
        newLogs := newLogs[day.isoString := PrayerLog(day.isoString, targetMinutes, true)];
      }
      ToggleKeepsWellFormed(prayerLogs, day);
      prayerLogs := newLogs;
    }

    /** `goToPreviousMonth`. */
    method GoToPreviousMonth()
      requires Valid()
      modifies this
      ensures Valid()
      ensures currentDate == MonthBack(old(currentDate)) && prayerLogs == old(prayerLogs)
    {
      currentDate := MakeDate(currentDate.year, currentDate.month - 1, 1);
    }

    /** `goToNextMonth`. */
    method GoToNextMonth()
      requires Valid()
      modifies this
      ensures Valid()
      ensures currentDate == MonthForward(old(currentDate)) && prayerLogs == old(prayerLogs)
    {
      currentDate := MakeDate(currentDate.year, currentDate.month + 1, 1);
    }

    /** `goToToday`. */
    method GoToToday(today: Date)
      requires Valid() && today.Valid()
      modifies this
      ensures Valid()
      ensures currentDate == today && prayerLogs == old(prayerLogs)
    {
      currentDate := today;
    }
  }
}
