/**
 * The eleven units of the period library and their fixed ratios. The unit
 * index follows the duration library's ordering, finest first: nanosecond is
 * 0 and year is 10, so "calendar rank" is an index above 7 (week).
 */
module Units {

  datatype Unit =
    | Nanosecond | Microsecond | Millisecond | Second | Minute | Hour
    | Day | Week | Month | Quarter | Year

  function Index(u: Unit): nat
  {
    match u
    case Nanosecond => 0
    case Microsecond => 1
    case Millisecond => 2
    case Second => 3
    case Minute => 4
    case Hour => 5
    case Day => 6
    case Week => 7
    case Month => 8
    case Quarter => 9
    case Year => 10
  }

  const NanosecondsPerMicrosecond: int := 1000
  const MicrosecondsPerMillisecond: int := 1000
  const MillisecondsPerSecond: int := 1000
  const SecondsPerMinute: int := 60
  const MinutesPerHour: int := 60
  const HoursPerDay: int := 24
  const DaysPerWeek: int := 7
  const MonthsPerQuarter: int := 3
  const MonthsPerYear: int := 12

  const NanosPerMicrosecond: int := 1_000
  const NanosPerMillisecond: int := 1_000_000
  const NanosPerSecond: int := 1_000_000_000
  const NanosPerMinute: int := 60_000_000_000
  const NanosPerHour: int := 3_600_000_000_000
  const NanosPerDay: int := 86_400_000_000_000
  const NanosPerWeek: int := 604_800_000_000_000

  /** Quarter, month and year: the units with no fixed length in nanoseconds. */
  predicate IsCalendar(u: Unit)
  {
    Index(u) > 7
  }

  /** Length of a calendar unit in months. */
  function UnitMonths(u: Unit): int
    requires IsCalendar(u)
  {
    match u
    case Month => 1
    case Quarter => MonthsPerQuarter
    case Year => MonthsPerYear
  }

  /** Length of a clock unit (week down to nanosecond) in nanoseconds. */
  function UnitNanos(u: Unit): (n: int)
    requires !IsCalendar(u)
    ensures n > 0
  {
    match u
    case Nanosecond => 1
    case Microsecond => NanosPerMicrosecond
    case Millisecond => NanosPerMillisecond
    case Second => NanosPerSecond
    case Minute => NanosPerMinute
    case Hour => NanosPerHour
    case Day => NanosPerDay
    case Week => NanosPerWeek
  }
}
