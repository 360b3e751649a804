# Prayer-minutes calendar: a verified model

This project models the logic of a month-view calendar that tracks daily prayer time against a fixed 2026 schedule. It covers:

- **Weekly target (`calculateDuration` and `SCHEDULE_2026`):** every day gets a target in minutes. The target comes from the Sunday that starts the day's week: its month and its ordinal among that month's Sundays index a table of rising targets. Days before the season has begun, and weeks whose Sunday falls after 2026, get 0.
- **Month grid (`getCalendarDays`):** the month is shown as 42 cells, Sunday first. The tail of the previous month comes first, then the month itself, then the head of the next month. Each cell carries its date, a current-month flag, a today flag and its `YYYY-MM-DD` key (`toIsoString`, `isSameDate`).
- **Calendar view (`Calendar.tsx`):**
  - clicking a day ticks it off in the prayer log, or unticks it (`toggleDay`);
  - the month's progress counts completed days against days with a target (`calculateMonthProgress`);
  - the month's base target is the target of its first day that has one (`getMonthBaseMinutes`);
  - the view steps to the previous or next month, or jumps to today.

## Modules

| file | module | contents |
|---|---|---|
| `gregorian.dfy` | `Gregorian` | Proleptic Gregorian dates with a zero-based month, the way JavaScript's `Date` sees a local date. Day numbers, `getDay`, and the normalising constructor `new Date(y, m, d)` (`MakeDate`). |
| `types.dfy` | `Types` | The `DayData` cell and the `PrayerLog` entry. |
| `iso_date.dfy` | `IsoDate` | The `YYYY-MM-DD` key and its inverse. Same-date comparison. |
| `schedule.dfy` | `Schedule` | The 2026 table, the week's Sunday, `CalculateDuration` and its properties. |
| `calendar_grid.dfy` | `CalendarGrid` | The 42-cell grid, built by a method with three loops and specified by `MonthGrid`. |
| `calendar_view.dfy` | `CalendarView` | Toggling, progress, base minutes, navigation, and the view's state as a class. |

**Season boundaries.** The season starts on Sunday 2026-01-04 and ends after Saturday 2027-01-02.
- `DurationPositiveIffInSeason` proves that a date has a positive target exactly on the days in between.
- `DurationNonDecreasing` proves that targets never fall within the season.
- `DurationConstantInWeek` proves that the target is the same on every day of a Sunday-to-Saturday week.

**Weeks that cross a month boundary.** A day's target is looked up by the Sunday that starts its week, never by the day's own month:
- April's row starts at 20, and that entry belongs to April's first Sunday, April 5 (src/utils/calendar.ts:80). April 1 to 4 fall in the week of Sunday March 29, which is March's fifth entry, 19 (src/utils/calendar.ts:79). So they get 19 (`WeekOfMarch29Target`).
- For the same reason, 2026-12-01 to 2026-12-05 get November's fifth entry, 59, not December's 60 (src/utils/calendar.ts:87-88, `WeekOfNovember29Target`).
- January 1 to 3 of 2026 lie before the first scheduled Sunday (src/utils/calendar.ts:108-111) and have no target, so January's progress total is 28 (`ProgressTotal2026`).

**Records and the table.** The source's two records and its schedule constant are data, not operations, so they have no row of their own in the table below:

| Dafny declaration | source | models |
|---|---|---|
| `Types.DayData` (types.dfy) | src/types.ts:1-6 | One grid cell: its date, `isCurrentMonth`, `isToday` and `isoString`. |
| `Types.PrayerLog` (types.dfy) | src/types.ts:8-12 | One stored completion: its key, its minutes and `completed`. |
| `Schedule.Schedule2026` (schedule.dfy) | src/utils/calendar.ts:76-89 | `SCHEDULE_2026`, entry for entry. `ScheduleEntriesPositive`, `ScheduleNonDecreasing` and `RowLengthIsSundayCount` state its properties. |

## Model

| member | source | states |
|---|---|---|
| Schedule.CalculateDuration | src/utils/calendar.ts:98-137 | `calculateDuration`: the target of a date is `WeekTarget` of its week's Sunday. Its behaviour is stated by `DurationBeforeSeason`, `DurationAfterSeason`, `DurationInSeason`, `DurationPositiveIffInSeason`, `DurationConstantInWeek`, `DurationNonDecreasing` and the week examples below. |
| Schedule.WeekTarget | src/utils/calendar.ts:107-136 | The season checks and the table lookup for a week's Sunday. `DurationBeforeSeason` and `DurationAfterSeason` state its two early returns of 0. `DurationInSeason` and `SundayIndexInRow` state that in the season it returns the table entry and never reaches the fallback. |
| Schedule.WeekStart | src/utils/calendar.ts:99-102 | The week's start, found by going back `getDay()` days, is a valid Sunday, 0 to 6 days on or before the date. |
| Schedule.FirstSundayIsFirst | src/utils/calendar.ts:123-125 | `1 + (7 - getDay(1st)) % 7` is a day from 1 to 7 that is a Sunday, and no earlier day of the month is a Sunday. |
| Schedule.SundayIndexInRow | src/utils/calendar.ts:127-132 | For every Sunday of 2026, the week index `floor((day - firstSunday) / 7)` is exact and lies inside its month's row, so the lookup never misses. |
| Schedule.RowLengthIsSundayCount | src/utils/calendar.ts:76-89 | Each 2026 row has exactly as many entries as its month has Sundays. |
| Schedule.ScheduleEntriesPositive | src/utils/calendar.ts:76-89 | Every entry of the table is a positive number of minutes. |
| Schedule.ScheduleNonDecreasing | src/utils/calendar.ts:76-89 | Read in week order (month, then ordinal), the table never decreases. |
| Schedule.DurationBeforeSeason | src/utils/calendar.ts:107-111 | A date before 2026-01-04 has target 0. |
| Schedule.DurationAfterSeason | src/utils/calendar.ts:114-118 | From 2027-01-03 on, the week's Sunday lies past 2026 and the target is 0. |
| Schedule.DurationInSeason | src/utils/calendar.ts:98-137 | From 2026-01-04 to 2027-01-02, the week's Sunday lies in 2026 and its index is inside its month's row. The fallback `return 0` is never reached, and the target is that positive table entry. |
| Schedule.DurationPositiveIffInSeason | src/utils/calendar.ts:98-137 | A date's target is positive if and only if the date lies from 2026-01-04 to 2027-01-02. |
| Schedule.Positive2026 | src/utils/calendar.ts:98-137 | A date of 2026 has a positive target if and only if it is not January 1, 2 or 3. |
| Schedule.DurationConstantInWeek | src/utils/calendar.ts:99-102 | Two days of the same Sunday-to-Saturday week have the same target. |
| Schedule.WeekStartOfSameWeek | src/utils/calendar.ts:99-102 | Two days of the same week have the same week-starting Sunday. |
| Schedule.WeekStartMonotone | src/utils/calendar.ts:99-102 | A later day never has an earlier week-starting Sunday. |
| Schedule.SundayTargetsOrdered | src/utils/calendar.ts:120-133 | Of two Sundays of 2026, the later one gets the larger or equal table entry. |
| Schedule.DurationNonDecreasing | src/utils/calendar.ts:98-137 | Within the season, a later day's target is never smaller than an earlier day's. |
| Schedule.DurationOfWeek | src/utils/calendar.ts:98-137 | Every day of the week that starts on a season Sunday gets that Sunday's table entry. |
| Schedule.FirstWeekTarget | src/utils/calendar.ts:76-77 | 2026-01-04 to 2026-01-10 have target 5. |
| Schedule.SecondWeekTarget | src/utils/calendar.ts:77 | 2026-01-11 to 2026-01-17 have target 6. |
| Schedule.WeekOfMay31Target | src/utils/calendar.ts:81 | 2026-05-31 to 2026-06-06 have target 30. |
| Schedule.WeekOfAugust30Target | src/utils/calendar.ts:84 | 2026-08-30 to 2026-09-05 have target 45. |
| Schedule.DecemberWeeksTarget | src/utils/calendar.ts:88 | 2026-12-06 to 2026-12-26, the weeks of December's first three Sundays, have target 60. |
| Schedule.WeekOfMarch29Target | src/utils/calendar.ts:79 | 2026-03-29 to 2026-04-04 have target 19. |
| Schedule.WeekOfNovember29Target | src/utils/calendar.ts:87-88 | 2026-11-29 to 2026-12-05 have target 59. |
| Schedule.LastWeekTarget | src/utils/calendar.ts:88 | 2026-12-27 to 2027-01-02 have target 60. |
| Gregorian.MakeDate | src/utils/calendar.ts:14-15 | `new Date(y, m, d)`: a valid date whose day number is that of the 1st of month `m`, with `m` brought into 0..11 by whole years, plus `d - 1`. `MakeDateInMonth`, `MakeDateDayZero`, `MakeDatePrevMonthEnd`, `MakeDatePrevMonth`, `MakeDateNextMonth` and `WeekStart` (the `setDate` of calendar.ts:102) state the cases the code uses. |
| Gregorian.Weekday | src/utils/calendar.ts:17 | `getDay()`: a weekday from 0 (Sunday) to 6. `WeekdayShift` states that it advances by one per day. |
| Gregorian.WeekdayShift | src/utils/calendar.ts:102 | `setDate(getDate() + k)` moves the weekday by k modulo 7. |
| Gregorian.MakeDateDayZero | src/utils/calendar.ts:15-18 | `new Date(y, m + 1, 0)` is the last day of month m, so its `getDate()` is the month's length. |
| Gregorian.MakeDatePrevMonthEnd | src/utils/calendar.ts:23 | `new Date(y, m, 0)` is the last day of the previous month, across a year boundary in January. |
| Gregorian.MakeDatePrevMonth | src/utils/calendar.ts:25 | `new Date(y, m - 1, d)` is day d of the previous month, across a year boundary. |
| Gregorian.MakeDateNextMonth | src/utils/calendar.ts:48 | `new Date(y, m + 1, i)` is day i of the next month, across a year boundary. |
| Gregorian.MakeDateInMonth | src/utils/calendar.ts:36 | `new Date(y, m, i)` for a day of the month is that date unchanged. |
| IsoDate.ToIsoString | src/utils/calendar.ts:61-65 | `toIsoString`: the `YYYY-MM-DD` key of a date. `IsoKeyRoundTrip` (format and inverse), `IsoKeyInjective` and `IsoKeyExample` state its behaviour. |
| IsoDate.IsSameDate | src/utils/calendar.ts:67-71 | `isSameDate`: equal year, month and day. `IsoKeyInjective` states that it holds exactly when the two keys are equal, and `GridToday` that it sets `isToday`. |
| IsoDate.IsoKeyRoundTrip | src/utils/calendar.ts:61-65 | For years 0 to 9999, the key is ten characters: dashes at positions 4 and 7, digits everywhere else. It parses back to the same date. |
| IsoDate.IsoKeyInjective | src/utils/calendar.ts:61-71 | For years 0 to 9999, two dates share a key if and only if `isSameDate` holds for them. |
| IsoDate.IsoKeyExample | src/utils/calendar.ts:61-65 | 2026-01-04 (month index 0) is written "2026-01-04". |
| CalendarGrid.MonthGrid | src/utils/calendar.ts:13-58 | The reference grid, cell by cell. `GetCalendarDays` is proved to build it, and `GridWeeks`, `GridFlags`, `GridHasEveryDay`, `GridDatesDistinct`, `GridToday` and `GridYears` state its shape. |
| CalendarGrid.GetCalendarDays | src/utils/calendar.ts:13-58 | The three loops build exactly `MonthGrid`: cell i shows the date i - LeadingDays days from the 1st, is flagged when it lies in the month, is marked today by field comparison, and carries its key. |
| CalendarGrid.GridWeeks | src/utils/calendar.ts:13-58 | The grid has 42 cells of consecutive days. Cell i falls on weekday i % 7, and the previous month fills 0 to 6 cells. |
| CalendarGrid.GridFlags | src/utils/calendar.ts:34-43 | A cell is flagged as the current month if and only if it lies in the block after the leading days. Flagged cells hold the month's days in order. |
| CalendarGrid.GridHasEveryDay | src/utils/calendar.ts:35-43 | Every day of the month appears, flagged, at cell LeadingDays + day - 1. |
| CalendarGrid.GridDatesDistinct | src/utils/calendar.ts:13-58 | No two cells show the same date. |
| CalendarGrid.GridToday | src/utils/calendar.ts:29 | A cell is marked today if and only if it shows today's date, so at most one cell is marked. |
| CalendarGrid.GridYears | src/utils/calendar.ts:25 | Every cell lies in the year before, the year of, or the year after the month shown. |
| CalendarGrid.GridKeysDistinct | src/utils/calendar.ts:30 | For years 1 to 9998, the cells' keys are pairwise different. |
| CalendarGrid.PreviousMonthCell | src/utils/calendar.ts:24-25 | The padding date counted back from the previous month's last day is the grid cell before the 1st, outside the month. |
| CalendarGrid.NextMonthCell | src/utils/calendar.ts:46-48 | Day i of the next month is the grid cell i after the month's end, outside the month. |
| CalendarGrid.February2026Grid | src/utils/calendar.ts:13-58 | February 2026 has no leading cells. Cells 0 to 27 are its days, and cells 28 to 41 are March 1 to 14. |
| CalendarGrid.FourWeekMonthGrid | src/utils/calendar.ts:44-55 | A 28-day month starting on a Sunday fills four rows, and the next month fills the last two. |
| CalendarView.Toggled | src/components/Calendar.tsx:50-71 | A day without a target leaves the log unchanged. Otherwise the day's key is present afterwards if and only if it was not completed before, and the entry written holds the key, the target and `completed`. Other keys are untouched. |
| CalendarView.ToggleFlipsCompletion | src/components/Calendar.tsx:50-71 | Clicking a day that has a target flips whether it counts as completed. |
| CalendarView.ToggleTwice | src/components/Calendar.tsx:50-71 | Clicking twice restores the log if and only if the day has no target, had no entry, or had exactly the entry the click writes. |
| CalendarView.ToggleKeepsWellFormed | src/components/Calendar.tsx:50-71 | Clicking keeps every entry keyed by its own date, completed and positive. |
| CalendarView.Calendar.ToggleDay | src/components/Calendar.tsx:50-71 | The log becomes `Toggled` of the old log, the shown date is unchanged, and the state stays well formed. |
| CalendarView.CurrentMonthDays | src/components/Calendar.tsx:89 | The filter never lengthens the list and keeps only real dates. |
| CalendarView.CurrentMonthDaysMembers | src/components/Calendar.tsx:89 | The filter keeps exactly the cells flagged as the current month. |
| CalendarView.ActiveCount | src/components/Calendar.tsx:94 | `daysInMonth.filter(day => calculateDuration(day.date) > 0).length`: at most the number of cells. `ActiveCountIsCount` and `GridProgressTotal` state which cells it counts. |
| CalendarView.CompletedCount | src/components/Calendar.tsx:90-93 | The `completedDays` filter's length. `CompletedCountIsCount`, `CompletedAtMostActive`, `ToggleCompletedCount` and `GridProgressCompleted` state which cells it counts and how a toggle moves it. |
| CalendarView.CompletedAtMostActive | src/components/Calendar.tsx:90-94 | The completed count never exceeds the total, because a day counts as completed only if it has a target. |
| CalendarView.RoundedPercentage | src/components/Calendar.tsx:99 | 0 when the total is 0. Otherwise it is the nearest integer to 100·c/t with halves rounded up, and it is at most 100. |
| CalendarView.PercentageFullIffAllCompleted | src/components/Calendar.tsx:99 | For totals under 200, the percentage is 100 if and only if every counted day is completed. |
| CalendarView.CalculateMonthProgress | src/components/Calendar.tsx:88-101 | completed ≤ total ≤ number of current-month cells. The percentage is the rounded share and at most 100. `GridProgressCompleted` and `GridProgressTotal` say which days each figure counts. |
| CalendarView.GridProgressCompleted | src/components/Calendar.tsx:89-93 | On a month's grid, the completed figure is the number of the month's days that have a positive target and a completed log entry under their own key. |
| CalendarView.MonthCompletedAt | src/components/Calendar.tsx:90-93 | Day j + 1 is counted as completed if and only if it has a positive target and its key holds a completed entry. |
| CalendarView.CompletedCountIsCount | src/components/Calendar.tsx:90-93 | Counting completed cells agrees with counting their completion flags. |
| CalendarView.ToggleCompletedCount | src/components/Calendar.tsx:50-71 | Over cells with distinct keys, toggling an active cell lowers the completed count by one if it was completed and raises it by one otherwise. |
| CalendarView.ToggleOtherCells | src/components/Calendar.tsx:50-71 | Toggling a day leaves the completed count of cells with other keys unchanged. |
| CalendarView.ToggleMovesCompleted | src/components/Calendar.tsx:88-101 | Toggling an active current-month cell whose key no other current-month cell shares moves the progress's completed figure by exactly one. |
| CalendarView.ToggleMovesProgress | src/components/Calendar.tsx:50-101 | On a month's grid, for years 0 to 9999, clicking a day that has a target moves the completed figure down by one if it was completed and up by one otherwise. |
| CalendarView.CurrentCellKeyUnique | src/utils/calendar.ts:35-43 | For years 0 to 9999, no two current-month cells of the grid share a key. |
| CalendarView.GridProgressTotal | src/components/Calendar.tsx:88-101 | On a month's grid, the progress total is the number of the month's days with a positive target. |
| CalendarView.ActiveCountIsCount | src/components/Calendar.tsx:94 | Counting cells with a target agrees with counting positive targets. |
| CalendarView.CountAfterZeros | src/components/Calendar.tsx:94 | When exactly the entries from index k on are positive, |ts| - k are counted. |
| CalendarView.ActiveDays2026 | src/components/Calendar.tsx:94 | Every month of 2026 has all its days active, except January, which loses the 1st to the 3rd. |
| CalendarView.ProgressTotal2026 | src/components/Calendar.tsx:88-101 | In each month of 2026 the progress total is the month's length, minus 3 in January. |
| CalendarView.GetMonthBaseMinutes | src/components/Calendar.tsx:73-86 | The result is 0 if and only if no day of the month has a target. Otherwise it is the target of the first day that has one. |
| CalendarView.January2026Base | src/components/Calendar.tsx:73-86 | January 2026's first day with a target is the 4th, and its base is 5 minutes. |
| CalendarView.MonthBack | src/components/Calendar.tsx:34-36 | `new Date(y, m - 1, 1)` is the 1st of the previous month, wrapping to December of the year before. |
| CalendarView.MonthForward | src/components/Calendar.tsx:38-40 | `new Date(y, m + 1, 1)` is the 1st of the next month, wrapping to January of the year after. |
| CalendarView.NavigationRoundTrip | src/components/Calendar.tsx:34-40 | Back then forward, or forward then back, returns to the 1st of the shown month. |
| CalendarView.NavigationSpan | src/components/Calendar.tsx:34-40 | Back lands a whole previous month before the 1st, and forward lands a whole month after it. |
| CalendarView.Calendar.GoToPreviousMonth | src/components/Calendar.tsx:34-36 | The shown date becomes `MonthBack` of the old one, and the log is unchanged. |
| CalendarView.Calendar.GoToNextMonth | src/components/Calendar.tsx:38-40 | The shown date becomes `MonthForward` of the old one, and the log is unchanged. |
| CalendarView.Calendar.GoToToday | src/components/Calendar.tsx:42-44 | The shown date becomes today's date, and the log is unchanged. |
| CalendarView.Calendar.constructor | src/components/Calendar.tsx:11-12 | The view opens on today with an empty log. |

## Left out

- **Persistence:** loading and saving the log in `localStorage` as JSON (src/components/Calendar.tsx:17-30) is I/O and is not modelled. The model starts from an empty log.
- **Rendering:** React rendering, `DAYS_OF_WEEK`, `MONTH_NAMES`, `useImperativeHandle` and the CSS are presentation only.
- **The clock:** `new Date()` (the "today" of the grid and of `goToToday`) is a parameter `today`.
- **Time of day and time zones:** a date is a local calendar date. `setHours(0, 0, 0, 0)` and the timezone correction in `toIsoString` are the identity on that model. Daylight-saving transitions are not modelled.
- **JavaScript's two-digit years:** `new Date(y, …)` maps years 0 to 99 to 1900 to 1999. The model keeps the year as given, which only matters for years below 100.
- **The `Date` range:** the valid range of `Date` (±100,000,000 days from 1970) is not modelled. Years are unbounded integers.
- **IsoDate.IsoKeyRoundTrip:** proved only for years 0 to 9999, where `toISOString` writes a four-digit year. Outside that range the key has a sign and six digits (`YearText`), and the inverse is not proved.
- **CalendarView.ToggleMovesProgress:** proved only for years 0 to 9999, where distinct days of a month have distinct four-digit keys.
- **CalendarGrid.GridKeysDistinct:** proved only for years 1 to 9998, so that every cell's year has a four-digit key.
- **CalendarView.RoundedPercentage:** uses exact integer round-half-up instead of floating-point `Math.round(c / t * 100)`. For the totals a month can have (at most 31) the two agree, but the floating-point computation itself is not modelled.
- **CalendarGrid.GetCalendarDays:** requires a month index 0 to 11, the only values the view passes (`getMonth()`). `new Date` would normalise other indexes, but the 42-cell layout is only specified for a real month.
- **Mutable sharing:** `new Date(date)` copies and the `Map` copy in `toggleDay` are modelled as values. The model has no aliasing to lose.
