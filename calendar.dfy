/** Calendar dates as day ordinals, the way Python's `date.toordinal()` numbers them. */
module Calendar {

  /** Day 1 is 0001-01-01 of the proleptic Gregorian calendar; `d + 1` is the next day,
      as `current += timedelta(days=1)` is. */
  type Day = int

  /** Python's `date.weekday()`: Monday is 0 and Sunday is 6. Day 1 is a Monday. */
  function Weekday(d: Day): (w: int)
    ensures 0 <= w < 7
  {
    (d + 6) % 7
  }

  /** The numbering agrees with the calendar: day 1 (0001-01-01) is a Monday, each next
      day is the next weekday, and 2024-01-01 (ordinal 738886) is a Monday. */
  lemma WeekdayFollowsCalendar(d: Day)
    ensures Weekday(1) == 0
    ensures Weekday(d + 1) == (Weekday(d) + 1) % 7
    ensures Weekday(738886) == 0
  {
  }

  /** Saturday (5) and Sunday (6). */
  predicate IsWeekend(d: Day)
  {
    Weekday(d) >= 5
  }
}
