/** The two records the calendar passes around. */
module Types {
  import opened Gregorian

  /** One cell of a month grid. */
  datatype DayData = DayData(date: Date, isCurrentMonth: bool, isToday: bool, isoString: string)

  /** A stored completion, keyed in the log by the same `YYYY-MM-DD` string as `date`. */
  datatype PrayerLog = PrayerLog(date: string, minutes: int, completed: bool)
}
