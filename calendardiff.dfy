/**
 * `between`: the period from one instant to another, computed on their
 * calendar fields. The two instants are put in order, the earlier one's
 * fields are subtracted from the later one's, and negative fields borrow from
 * the next coarser one, finest first; the day borrow takes the length of a
 * month from the timestamp library. If the instants came in reverse order,
 * every field is negated.
 */
module CalendarDiff {
  import opened Arith
  import opened Units
  import opened Clock
  import opened Normalize
  import opened PeriodOps

  /** The calendar fields of an instant, as the timestamp library reports them. */
  datatype Fields = Fields(
    year: int, month: int, day: int, hour: int, minute: int, second: int,
    millisecond: int, microsecond: int, nanosecond: int)

  /**
   * `getDaysInMonth(year, month)` of the timestamp library; its month
   * numbering is the library's business, so any function is accepted.
   */
  type DaysInMonth = (int, int) -> int

  /** Fields as the timestamp library reports them: each within its range. */
  predicate Valid(f: Fields)
  {
    && 1 <= f.month <= MonthsPerYear
    && 1 <= f.day <= 31
    && 0 <= f.hour < HoursPerDay
    && 0 <= f.minute < MinutesPerHour
    && 0 <= f.second < SecondsPerMinute
    && 0 <= f.millisecond < MillisecondsPerSecond
    && 0 <= f.microsecond < MicrosecondsPerMillisecond
    && 0 <= f.nanosecond < NanosecondsPerMicrosecond
  }

  /** The time of day as a clock breakdown with no days. */
  function TimeOfDay(f: Fields): Breakdown
  {
    Breakdown(0, f.hour, f.minute, f.second, f.millisecond, f.microsecond, f.nanosecond)
  }

  /** Nanoseconds since midnight. */
  function DayNanos(f: Fields): int
  {
    Total(TimeOfDay(f))
  }

  /** A non-negative in-range breakdown without days is shorter than a day. */
  lemma SubDayBound(b: Breakdown)
    requires InRange(b) && NonNegative(b) && b.days == 0
    ensures 0 <= Total(b) < NanosPerDay
  {
  }

  /**
   * The timestamp library's `compare`: -1, 0 or 1 as `a` is before, at or
   * after `b`. For valid fields that is year, then month, then day, then time
   * of day.
   */
  function Compare(a: Fields, b: Fields): (c: int)
  {
    if a.year != b.year then Sgn(a.year - b.year)
    else if a.month != b.month then Sgn(a.month - b.month)
    else if a.day != b.day then Sgn(a.day - b.day)
    else Sgn(DayNanos(a) - DayNanos(b))
  }

  /** Comparing is antisymmetric, and only equal valid fields compare equal. */
  lemma CompareAntisymmetric(a: Fields, b: Fields)
    requires Valid(a) && Valid(b)
    ensures Compare(b, a) == -Compare(a, b)
    ensures Compare(a, b) == 0 <==> a == b
  {
    if Compare(a, b) == 0 {
      BalancedUnique(TimeOfDay(a), TimeOfDay(b));
    }
  }

  /**
   * The later instant's day and time of day fall before the earlier one's:
   * the day difference needs a month borrowed.
   */
  predicate DayTimeBefore(later: Fields, earlier: Fields)
  {
    later.day < earlier.day || (later.day == earlier.day && DayNanos(later) < DayNanos(earlier))
  }

  /**
   * The length of the borrowed month: the month before the later instant's,
   * or the earlier instant's day of month when that is longer.
   */
  function BorrowedDays(earlier: Fields, later: Fields, daysInMonth: DaysInMonth): int
  {
    Max(daysInMonth(later.year, later.month - 1), earlier.day)
  }

  /** The clock fields of a slot record without the days. */
  function TimePart(s: Slots): Breakdown
  {
    ClockOf(s).(days := 0)
  }

  /**
   * The period from `earlier` to `later`, a reference for the borrow chain
   * written with totals: the time fields split the time-of-day difference
   * taken modulo a day; a day is borrowed when that difference is negative
   * and a month when the day difference then is; a borrowed month counts
   * `BorrowedDays`. Every field is non-negative and below its base.
   */
  function OrderedDiff(earlier: Fields, later: Fields, daysInMonth: DaysInMonth): (r: Period)
    requires Valid(earlier) && Valid(later) && Compare(earlier, later) <= 0
    ensures r.years >= 0 && 0 <= r.months < MonthsPerYear && NonNegative(ClockOf(r))
  {
    SubDayBound(TimeOfDay(earlier));
    SubDayBound(TimeOfDay(later));
    var delta := DayNanos(later) - DayNanos(earlier);
    var time := SplitMagnitude(delta % NanosPerDay);
    assert time.days == 0;
    var days := later.day - earlier.day - (if delta < 0 then 1 else 0);
    var monthBorrow := days < 0;
    var months := later.month - earlier.month - (if monthBorrow then 1 else 0);
    var yearBorrow := months < 0;
    Slots(
      later.year - earlier.year - (if yearBorrow then 1 else 0),
      if yearBorrow then months + MonthsPerYear else months,
      if monthBorrow then days + BorrowedDays(earlier, later, daysInMonth) else days,
      time.hours, time.minutes, time.seconds, time.milliseconds, time.microseconds, time.nanoseconds)
  }

  /** The time fields of the difference are the time-of-day difference modulo a day. */
  lemma OrderedDiffTime(earlier: Fields, later: Fields, daysInMonth: DaysInMonth)
    requires Valid(earlier) && Valid(later) && Compare(earlier, later) <= 0
    ensures Total(TimePart(OrderedDiff(earlier, later, daysInMonth)))
      == (DayNanos(later) - DayNanos(earlier)) % NanosPerDay
  {
  }

  /**
   * A month is borrowed exactly when the later instant's day and time of day
   * fall before the earlier one's.
   */
  lemma OrderedDiffMonths(earlier: Fields, later: Fields, daysInMonth: DaysInMonth)
    requires Valid(earlier) && Valid(later) && Compare(earlier, later) <= 0
    ensures TotalMonths(OrderedDiff(earlier, later, daysInMonth))
      == (later.year - earlier.year) * MonthsPerYear + later.month - earlier.month
         - (if DayTimeBefore(later, earlier) then 1 else 0)
  {
    SubDayBound(TimeOfDay(earlier));
    SubDayBound(TimeOfDay(later));
  }

  /**
   * Days and time add up to the time elapsed within the month, a borrowed
   * month counting `BorrowedDays`.
   */
  lemma OrderedDiffClock(earlier: Fields, later: Fields, daysInMonth: DaysInMonth)
    requires Valid(earlier) && Valid(later) && Compare(earlier, later) <= 0
    ensures ClockNanos(OrderedDiff(earlier, later, daysInMonth))
      == (later.day - earlier.day
          + (if DayTimeBefore(later, earlier) then BorrowedDays(earlier, later, daysInMonth) else 0))
         * NanosPerDay + DayNanos(later) - DayNanos(earlier)
  {
    var r := OrderedDiff(earlier, later, daysInMonth);
    SubDayBound(TimeOfDay(earlier));
    SubDayBound(TimeOfDay(later));
    var delta := DayNanos(later) - DayNanos(earlier);
    var dayBorrow := if delta < 0 then 1 else 0;
    DivUnique(delta, NanosPerDay, -dayBorrow, delta + dayBorrow * NanosPerDay);
    OrderedDiffTime(earlier, later, daysInMonth);
    var days := later.day - earlier.day
      + (if DayTimeBefore(later, earlier) then BorrowedDays(earlier, later, daysInMonth) else 0);
    assert r.days == days - dayBorrow;
    assert ClockNanos(r) == r.days * NanosPerDay + Total(TimePart(r));
    assert r.days * NanosPerDay == days * NanosPerDay - dayBorrow * NanosPerDay;
  }

  /** The elapsed time from `earlier` to `later` within the month, as the borrow chain sums it. */
  function ElapsedInMonth(earlier: Fields, later: Fields): int
  {
    (later.day - earlier.day) * 86_400_000_000_000 + (later.hour - earlier.hour) * 3_600_000_000_000
    + (later.minute - earlier.minute) * 60_000_000_000 + (later.second - earlier.second) * 1_000_000_000
    + (later.millisecond - earlier.millisecond) * 1_000_000
    + (later.microsecond - earlier.microsecond) * 1_000 + (later.nanosecond - earlier.nanosecond)
  }

  /**
   * The time fields left by the borrow chain are those of the reference, and
   * the day difference it leaves has had a day borrowed exactly when the time
   * of day went backwards.
   */
  lemma TimeBorrowed(earlier: Fields, later: Fields, daysInMonth: DaysInMonth, days: int, time: Breakdown)
    requires Valid(earlier) && Valid(later) && Compare(earlier, later) <= 0
    requires time.days == 0 && InRange(time) && NonNegative(time)
    requires days * 86_400_000_000_000 + time.hours * 3_600_000_000_000 + time.minutes * 60_000_000_000
      + time.seconds * 1_000_000_000 + time.milliseconds * 1_000_000 + time.microseconds * 1_000
      + time.nanoseconds == ElapsedInMonth(earlier, later)
    ensures TimePart(OrderedDiff(earlier, later, daysInMonth)) == time
    ensures days == later.day - earlier.day - (if DayNanos(later) < DayNanos(earlier) then 1 else 0)
  {
    DayRemainder(earlier, later, days, time);
    SplitMagnitudeTotal(time);
    assert SplitMagnitude((DayNanos(later) - DayNanos(earlier)) % NanosPerDay) == time;
  }

  /** The time-of-day difference taken modulo a day is the total of the sub-day fields. */
  lemma DayRemainder(earlier: Fields, later: Fields, days: int, time: Breakdown)
    requires Valid(earlier) && Valid(later)
    requires time.days == 0 && InRange(time) && NonNegative(time)
    requires days * 86_400_000_000_000 + time.hours * 3_600_000_000_000 + time.minutes * 60_000_000_000
      + time.seconds * 1_000_000_000 + time.milliseconds * 1_000_000 + time.microseconds * 1_000
      + time.nanoseconds == ElapsedInMonth(earlier, later)
    ensures (DayNanos(later) - DayNanos(earlier)) % NanosPerDay == Total(time)
    ensures days == later.day - earlier.day - (if DayNanos(later) < DayNanos(earlier) then 1 else 0)
  {
    assert Total(time) + days * NanosPerDay
      == (later.day - earlier.day) * NanosPerDay + DayNanos(later) - DayNanos(earlier);
    SubDayBound(time);
    SubDayBound(TimeOfDay(earlier));
    SubDayBound(TimeOfDay(later));
    var delta := DayNanos(later) - DayNanos(earlier);
    DivUnique(delta, NanosPerDay, days - later.day + earlier.day, Total(time));
  }

  /**
   * What `between` returns: the zero period for the same instant, the
   * ordered difference when the first comes first, and its negation when the
   * instants come in reverse order.
   */
  function Diff(a: Fields, b: Fields, daysInMonth: DaysInMonth): Period
    requires Valid(a) && Valid(b)
  {
    var c := Compare(a, b);
    if c == 0 then Zero
    else if c < 0 then OrderedDiff(a, b, daysInMonth)
    else Negated(OrderedDiff(b, a, daysInMonth))
  }

  /**
   * The clock half of `between`'s borrow chain: subtracts the day and time
   * fields, then lets each negative field borrow one unit of the next coarser
   * one, nanoseconds to hours and hours from days. The elapsed time is kept
   * and every time field ends within its range.
   */
  method BorrowTime(fields1: Fields, fields2: Fields)
    returns (days: int, hours: int, minutes: int, seconds: int,
             milliseconds: int, microseconds: int, nanoseconds: int)
    requires Valid(fields1) && Valid(fields2)
    ensures 0 <= hours < 24 && 0 <= minutes < 60 && 0 <= seconds < 60
    ensures 0 <= milliseconds < 1_000 && 0 <= microseconds < 1_000 && 0 <= nanoseconds < 1_000
    ensures days * 86_400_000_000_000 + hours * 3_600_000_000_000 + minutes * 60_000_000_000
      + seconds * 1_000_000_000 + milliseconds * 1_000_000 + microseconds * 1_000 + nanoseconds
      == (fields2.day - fields1.day) * 86_400_000_000_000 + (fields2.hour - fields1.hour) * 3_600_000_000_000
         + (fields2.minute - fields1.minute) * 60_000_000_000 + (fields2.second - fields1.second) * 1_000_000_000
         + (fields2.millisecond - fields1.millisecond) * 1_000_000
         + (fields2.microsecond - fields1.microsecond) * 1_000 + (fields2.nanosecond - fields1.nanosecond)
  {
    days := fields2.day - fields1.day;
    hours := fields2.hour - fields1.hour;
    minutes := fields2.minute - fields1.minute;
    seconds := fields2.second - fields1.second;
    milliseconds := fields2.millisecond - fields1.millisecond;
    microseconds := fields2.microsecond - fields1.microsecond;
    nanoseconds := fields2.nanosecond - fields1.nanosecond;
    if nanoseconds < 0 {
      nanoseconds := NanosecondsPerMicrosecond + nanoseconds;
      microseconds := microseconds - 1;
    }
    assert microseconds * 1_000 + nanoseconds
      == (fields2.microsecond - fields1.microsecond) * 1_000 + fields2.nanosecond - fields1.nanosecond;
    if microseconds < 0 {
      microseconds := MicrosecondsPerMillisecond + microseconds;
      milliseconds := milliseconds - 1;
    }
    assert milliseconds * 1_000_000 + microseconds * 1_000 + nanoseconds
      == (fields2.millisecond - fields1.millisecond) * 1_000_000
         + (fields2.microsecond - fields1.microsecond) * 1_000 + fields2.nanosecond - fields1.nanosecond;
    if milliseconds < 0 {
      milliseconds := MillisecondsPerSecond + milliseconds;
      seconds := seconds - 1;
    }
    if seconds < 0 {
      seconds := SecondsPerMinute + seconds;
      minutes := minutes - 1;
    }
    if minutes < 0 {
      minutes := MinutesPerHour + minutes;
      hours := hours - 1;
    }
    if hours < 0 {
      hours := HoursPerDay + hours;
      days := days - 1;
    }
  }

  /**
   * The period constructor as `between` uses it: the slots are normalised,
   * which keeps both tier totals and leaves canonical slots as they are.
   */
  method NewPeriod(s: Slots) returns (p: Period)
    ensures TotalMonths(p) == TotalMonths(s) && ClockNanos(p) == ClockNanos(s)
    ensures Canonical(s) ==> p == s
  {
    p := WrapSlots(s);
    WrapFixesExactlyCanonical(s);
  }

  /**
   * The subtraction in `between` once the instants are in order: field
   * differences, the clock borrow chain, then the day borrow, which adds the
   * length of the month before the later instant's and the shortfall when
   * the earlier day of month does not exist in it, and the month borrow.
   */
  method BorrowFields(fields1: Fields, fields2: Fields, daysInMonth: DaysInMonth) returns (s: Slots)
    requires Valid(fields1) && Valid(fields2) && Compare(fields1, fields2) <= 0
    ensures s == OrderedDiff(fields1, fields2, daysInMonth)
  {
    var day := fields1.day;
    var year, month := fields2.year, fields2.month;
    var years := year - fields1.year;
    var months := month - fields1.month;
    var days, hours, minutes, seconds, milliseconds, microseconds, nanoseconds
      := BorrowTime(fields1, fields2);
    ghost var time := Breakdown(0, hours, minutes, seconds, milliseconds, microseconds, nanoseconds);
    TimeBorrowed(fields1, fields2, daysInMonth, days, time);
    if days < 0 {
      var dim := daysInMonth(year, month - 1);
      days := days + dim;
      if dim < day {
        days := days + (day - dim);
      }
      months := months - 1;
    }
    if months < 0 {
      months := MonthsPerYear + months;
      years := years - 1;
    }
    s := Slots(years, months, days, hours, minutes, seconds, milliseconds, microseconds, nanoseconds);
  }

  /**
   * `between`: the zero period for the same instant; otherwise the borrowed
   * difference of the instants in order, negated field by field when they
   * came in reverse order, passed to the period constructor.
   */
  method Between(timestamp1: Fields, timestamp2: Fields, daysInMonth: DaysInMonth)
    returns (r: Period)
    requires Valid(timestamp1) && Valid(timestamp2)
    ensures r == Diff(timestamp1, timestamp2, daysInMonth)
  {
    var sign := Compare(timestamp1, timestamp2);
    if sign == 0 {
      return Zero;
    }
    var isNegative := sign > 0;
    var fields1, fields2 := timestamp1, timestamp2;
    if isNegative {
      fields1, fields2 := timestamp2, timestamp1;
      CompareAntisymmetric(timestamp1, timestamp2);
    }
    var d := BorrowFields(fields1, fields2, daysInMonth);
    var slots := if isNegative
      then Slots(-d.years, -d.months, -d.days, -d.hours, -d.minutes, -d.seconds,
        -d.milliseconds, -d.microseconds, -d.nanoseconds)
      else d;
    assert slots == if isNegative then Negated(d) else d;
    r := NewPeriod(slots);
  }

  /** The ordered difference is zero exactly for the same instant. */
  lemma OrderedDiffZero(earlier: Fields, later: Fields, daysInMonth: DaysInMonth)
    requires Valid(earlier) && Valid(later) && Compare(earlier, later) <= 0
    ensures OrderedDiff(earlier, later, daysInMonth) == Zero <==> earlier == later
  {
    var r := OrderedDiff(earlier, later, daysInMonth);
    if earlier == later {
      OrderedDiffMonths(earlier, later, daysInMonth);
      OrderedDiffClock(earlier, later, daysInMonth);
      CanonicalUnique(r, Zero);
    }
    if r == Zero {
      ZeroDiffSameInstant(earlier, later, daysInMonth);
    }
  }

  /** No months and no time between two ordered instants means the same instant. */
  lemma ZeroDiffSameInstant(earlier: Fields, later: Fields, daysInMonth: DaysInMonth)
    requires Valid(earlier) && Valid(later) && Compare(earlier, later) <= 0
    requires OrderedDiff(earlier, later, daysInMonth) == Zero
    ensures earlier == later
  {
    OrderedDiffMonths(earlier, later, daysInMonth);
    OrderedDiffClock(earlier, later, daysInMonth);
    SubDayBound(TimeOfDay(earlier));
    SubDayBound(TimeOfDay(later));
    var borrowed := if DayTimeBefore(later, earlier) then BorrowedDays(earlier, later, daysInMonth) else 0;
    assert (later.day - earlier.day + borrowed) * NanosPerDay + DayNanos(later) - DayNanos(earlier) == 0;
    assert DayTimeBefore(later, earlier) ==> later.day - earlier.day + borrowed >= 1;
    assert later.day == earlier.day && DayNanos(later) == DayNanos(earlier);
    assert later.year == earlier.year && later.month == earlier.month;
    BalancedUnique(TimeOfDay(earlier), TimeOfDay(later));
  }

  /** `between(a, b)` is the zero period exactly when `a` and `b` are the same instant. */
  lemma DiffZero(a: Fields, b: Fields, daysInMonth: DaysInMonth)
    requires Valid(a) && Valid(b)
    ensures Diff(a, b, daysInMonth) == Zero <==> a == b
  {
    CompareAntisymmetric(a, b);
    if Compare(a, b) < 0 {
      OrderedDiffZero(a, b, daysInMonth);
    } else if Compare(a, b) > 0 {
      OrderedDiffZero(b, a, daysInMonth);
      NegatedInvolutive(OrderedDiff(b, a, daysInMonth));
      assert Negated(Zero) == Zero;
    }
  }

  /**
   * `between(b, a)` is `between(a, b)` with every field negated: both come
   * from the same ordered pair of instants.
   */
  lemma DiffAntisymmetric(a: Fields, b: Fields, daysInMonth: DaysInMonth)
    requires Valid(a) && Valid(b)
    ensures Diff(b, a, daysInMonth) == Negated(Diff(a, b, daysInMonth))
  {
    CompareAntisymmetric(a, b);
    if Compare(a, b) == 0 {
      assert Negated(Zero) == Zero;
    } else if Compare(a, b) > 0 {
      NegatedInvolutive(OrderedDiff(b, a, daysInMonth));
    }
  }

  /**
   * The period from an earlier to a later instant is positive, from a later
   * to an earlier one negative, and zero between the same instant.
   */
  lemma DiffSign(a: Fields, b: Fields, daysInMonth: DaysInMonth)
    requires Valid(a) && Valid(b)
    ensures Sign(Diff(a, b, daysInMonth)) == -Compare(a, b)
  {
    CompareAntisymmetric(a, b);
    DiffZero(a, b, daysInMonth);
    var r := Diff(a, b, daysInMonth);
    if Compare(a, b) < 0 {
      assert r != Zero;
    } else if Compare(a, b) > 0 {
      assert r != Zero;
    }
  }

  /**
   * The day borrow: when the later instant's day and time fall before the
   * earlier one's, the days get the length of the month before the later
   * instant's month added, plus the earlier day of month's excess over it
   * when that month is shorter, and exactly one month is borrowed;
   * otherwise the days are the plain difference, less a day when the time
   * of day went backwards.
   */
  lemma OrderedDiffDays(earlier: Fields, later: Fields, daysInMonth: DaysInMonth)
    requires Valid(earlier) && Valid(later) && Compare(earlier, later) <= 0
    ensures var dim := daysInMonth(later.year, later.month - 1);
      OrderedDiff(earlier, later, daysInMonth).days
      == later.day - earlier.day - (if DayNanos(later) < DayNanos(earlier) then 1 else 0)
         + (if DayTimeBefore(later, earlier)
            then dim + (if dim < earlier.day then earlier.day - dim else 0)
            else 0)
  {
    SubDayBound(TimeOfDay(earlier));
    SubDayBound(TimeOfDay(later));
  }

  /**
   * From 31 January to 1 March of a common year the period is one month and
   * one day, whatever month length up to 31 the borrow looks up: a borrowed
   * month never counts fewer days than the earlier instant's day of month,
   * so it counts 31 here.
   */
  lemma JanuaryLastToMarchFirst(january: Fields, march: Fields, daysInMonth: DaysInMonth)
    requires january == Fields(2023, 1, 31, 0, 0, 0, 0, 0, 0)
    requires march == Fields(2023, 3, 1, 0, 0, 0, 0, 0, 0)
    requires daysInMonth(2023, 2) <= 31
    ensures Diff(january, march, daysInMonth) == Slots(0, 1, 1, 0, 0, 0, 0, 0, 0)
  {
    assert Compare(january, march) < 0;
    OrderedDiffMonths(january, march, daysInMonth);
    OrderedDiffClock(january, march, daysInMonth);
    CanonicalUnique(OrderedDiff(january, march, daysInMonth), Slots(0, 1, 1, 0, 0, 0, 0, 0, 0));
  }
}
