/**
 * The slot normaliser, the unit converter and the part projector: the nine
 * canonical slots a period stores, how raw amounts become canonical slots, and
 * how canonical slots are re-expressed as parts at a chosen granularity.
 */
module Normalize {
  import opened Wrappers
  import opened Arith
  import opened Units
  import opened Clock

  /** The nine slots of a period, possibly not yet normalised. */
  datatype Slots = Slots(
    years: int, months: int, days: int, hours: int, minutes: int, seconds: int,
    milliseconds: int, microseconds: int, nanoseconds: int)

  function ClockOf(s: Slots): Breakdown
  {
    Breakdown(s.days, s.hours, s.minutes, s.seconds, s.milliseconds, s.microseconds, s.nanoseconds)
  }

  function Join(years: int, months: int, b: Breakdown): (s: Slots)
    ensures ClockOf(s) == b && s.years == years && s.months == months
  {
    Slots(years, months, b.days, b.hours, b.minutes, b.seconds, b.milliseconds, b.microseconds, b.nanoseconds)
  }

  /** The calendar tier as one month count. */
  function TotalMonths(s: Slots): int
  {
    s.years * MonthsPerYear + s.months
  }

  /** The clock tier as one nanosecond count. */
  function ClockNanos(s: Slots): int
  {
    Total(ClockOf(s))
  }

  /** Years and months in calendar-normal form: |months| < 12, one shared sign. */
  predicate CalendarBalanced(years: int, months: int)
  {
    && -MonthsPerYear < months < MonthsPerYear
    && ((years >= 0 && months >= 0) || (years <= 0 && months <= 0))
  }

  predicate Canonical(s: Slots)
  {
    CalendarBalanced(s.years, s.months) && Balanced(ClockOf(s))
  }

  /** What a period stores: canonical slots. */
  type Period = s: Slots | Canonical(s) witness Slots(0, 0, 0, 0, 0, 0, 0, 0, 0)

  const Zero: Period := Slots(0, 0, 0, 0, 0, 0, 0, 0, 0)

  /**
   * `_wrapSlots`: folds years into the month count and splits it again with
   * truncation, and hands the clock fields to the day-largest breakdown.
   * Both tiers keep their totals, and the result is canonical.
   */
  function WrapSlots(s: Slots): (p: Period)
    ensures TotalMonths(p) == TotalMonths(s)
    ensures ClockNanos(p) == ClockNanos(s)
    ensures TotalMonths(s) == 0 ==> p.years == 0 && p.months == 0
  {
    var totalMonths := s.years * MonthsPerYear + s.months;
    var years := if totalMonths != 0 then Quot(totalMonths, MonthsPerYear) else 0;
    var months := if totalMonths != 0 then Rem(totalMonths, MonthsPerYear) else 0;
    var b := Split(ClockNanos(s));
    assert CalendarBalanced(years, months);
    Join(years, months, b)
  }

  lemma CalendarUnique(y1: int, m1: int, y2: int, m2: int)
    requires CalendarBalanced(y1, m1) && CalendarBalanced(y2, m2)
    requires y1 * MonthsPerYear + m1 == y2 * MonthsPerYear + m2
    ensures y1 == y2 && m1 == m2
  {
    var total := y1 * MonthsPerYear + m1;
    QuotRemUnique(total, MonthsPerYear, y1, m1);
    QuotRemUnique(total, MonthsPerYear, y2, m2);
  }

  /**
   * The canonical form is unique: two periods with the same month count and
   * the same nanosecond count are the same period.
   */
  lemma CanonicalUnique(p: Period, q: Period)
    requires TotalMonths(p) == TotalMonths(q) && ClockNanos(p) == ClockNanos(q)
    ensures p == q
  {
    CalendarUnique(p.years, p.months, q.years, q.months);
    BalancedUnique(ClockOf(p), ClockOf(q));
  }

  /** Normalising leaves exactly the canonical slots unchanged. */
  lemma WrapFixesExactlyCanonical(s: Slots)
    ensures WrapSlots(s) == s <==> Canonical(s)
  {
    if Canonical(s) {
      CanonicalUnique(WrapSlots(s), s);
    }
  }

  /**
   * `_convertToSlots`: a calendar-rank amount becomes a month count split into
   * years and months with the clock tier zero; a clock amount becomes the
   * day-largest breakdown of its nanoseconds with the calendar tier zero.
   */
  function ConvertToSlots(amount: int, unit: Unit): (p: Period)
    ensures IsCalendar(unit) ==>
      TotalMonths(p) == amount * UnitMonths(unit) && ClockOf(p) == ZeroBreakdown
    ensures !IsCalendar(unit) ==>
      p.years == 0 && p.months == 0 && ClockNanos(p) == amount * UnitNanos(unit)
  {
    if Index(unit) > 7 then
      var totalMonths := amount * UnitMonths(unit);
      var years, months := Quot(totalMonths, MonthsPerYear), Rem(totalMonths, MonthsPerYear);
      assert CalendarBalanced(years, months);
      assert Balanced(ZeroBreakdown);
      Join(years, months, ZeroBreakdown)
    else
      var b := Split(amount * UnitNanos(unit));
      assert CalendarBalanced(0, 0);
      Join(0, 0, b)
  }

  /** Ninety minutes normalise to one hour and thirty minutes. */
  lemma NinetyMinutes()
    ensures ConvertToSlots(90, Minute) == Slots(0, 0, 0, 1, 30, 0, 0, 0, 0)
  {
    var expected: Period := Slots(0, 0, 0, 1, 30, 0, 0, 0, 0);
    CanonicalUnique(ConvertToSlots(90, Minute), expected);
  }

  /** Raw parts: the extended unit set, any field possibly absent. */
  datatype Parts = Parts(
    years: Option<int>, quarters: Option<int>, months: Option<int>,
    weeks: Option<int>, days: Option<int>, hours: Option<int>,
    minutes: Option<int>, seconds: Option<int>, milliseconds: Option<int>,
    microseconds: Option<int>, nanoseconds: Option<int>)

  /** The month count raw parts stand for (absent fields count as zero). */
  function PartsMonths(parts: Parts): int
  {
    OrZero(parts.years) * MonthsPerYear + OrZero(parts.quarters) * MonthsPerQuarter
    + OrZero(parts.months)
  }

  /** The nanosecond count raw parts stand for (absent fields count as zero). */
  function PartsNanos(parts: Parts): int
  {
    OrZero(parts.weeks) * NanosPerWeek + OrZero(parts.days) * NanosPerDay
    + OrZero(parts.hours) * NanosPerHour + OrZero(parts.minutes) * NanosPerMinute
    + OrZero(parts.seconds) * NanosPerSecond
    + OrZero(parts.milliseconds) * NanosPerMillisecond
    + OrZero(parts.microseconds) * NanosPerMicrosecond + OrZero(parts.nanoseconds)
  }

  /**
   * The breakdown the clock parts stand for: weeks counted as seven days each,
   * absent fields as zero.
   */
  function ClockOfParts(parts: Parts): Breakdown
  {
    Breakdown(
      OrZero(parts.weeks) * DaysPerWeek + OrZero(parts.days), OrZero(parts.hours),
      OrZero(parts.minutes), OrZero(parts.seconds), OrZero(parts.milliseconds),
      OrZero(parts.microseconds), OrZero(parts.nanoseconds))
  }

  /**
   * `_partsToSlots`: quarters fold into three months each and weeks into seven
   * days each, then everything is normalised.
   */
  function PartsToSlots(parts: Parts): (p: Period)
    ensures TotalMonths(p) == PartsMonths(parts)
    ensures ClockNanos(p) == PartsNanos(parts)
  {
    var months :=
      if parts.quarters.Some? && parts.quarters.value != 0
      then Some(OrZero(parts.months) + parts.quarters.value * MonthsPerQuarter)
      else parts.months;
    var days :=
      if parts.weeks.Some? && parts.weeks.value != 0
      then Some(OrZero(parts.days) + parts.weeks.value * DaysPerWeek)
      else parts.days;
    assert OrZero(months) == OrZero(parts.months) + OrZero(parts.quarters) * MonthsPerQuarter;
    assert OrZero(days) == OrZero(parts.days) + OrZero(parts.weeks) * DaysPerWeek;
    WrapSlots(Slots(
      OrZero(parts.years), OrZero(months), OrZero(days), OrZero(parts.hours),
      OrZero(parts.minutes), OrZero(parts.seconds), OrZero(parts.milliseconds),
      OrZero(parts.microseconds), OrZero(parts.nanoseconds)))
  }

  /** Options of the projection; the rounding mode is truncation. */
  datatype Options = Options(
    largestUnit: Unit, smallestUnit: Unit, withQuarters: bool, withWeeks: bool)

  const DefaultOptions := Options(Year, Nanosecond, false, false)

  /** A smallest unit above day is treated as day. */
  function EffectiveSmallest(u: Unit): (e: Unit)
    ensures Index(e) <= 6
    ensures Index(u) <= 6 ==> e == u
    ensures Index(u) > 6 ==> e == Day
  {
    if Index(u) > 6 then Day else u
  }

  /** A clock field is reported only when it is not finer than the smallest unit. */
  function Requested(smallest: Unit, field: Unit, value: int): Option<int>
  {
    if Index(smallest) <= Index(field) then Some(value) else None
  }

  /** The fields of `b` finer than `u` set to zero. */
  function Truncated(b: Breakdown, u: Unit): Breakdown
  {
    Breakdown(
      b.days,
      if Index(u) <= 5 then b.hours else 0,
      if Index(u) <= 4 then b.minutes else 0,
      if Index(u) <= 3 then b.seconds else 0,
      if Index(u) <= 2 then b.milliseconds else 0,
      if Index(u) <= 1 then b.microseconds else 0,
      if Index(u) <= 0 then b.nanoseconds else 0)
  }

  /**
   * Rounding toward zero at a unit keeps exactly the fields not finer than it:
   * `t` is balanced, a whole number `q` of units, and differs from `n` by less
   * than one unit, on the side of zero.
   */
  lemma TruncStep(n: int, unit: int, q: int, t: Breakdown)
    requires unit > 0 && Balanced(t) && Total(t) == unit * q
    requires -unit < n - Total(t) < unit
    requires 0 <= n ==> 0 <= n - Total(t)
    requires n <= 0 ==> n - Total(t) <= 0
    ensures Split(TruncTo(n, unit)) == t
  {
    QuotRemUnique(n, unit, q, n - Total(t));
    SplitTotal(t);
  }

  /** `SplitTruncTo` for the units below a second. */
  lemma SplitTruncToSubsecond(n: int, u: Unit)
    requires Index(u) <= 2
    ensures Split(TruncTo(n, UnitNanos(u))) == Truncated(Split(n), u)
  {
    var b := Split(n);
    var t := Truncated(b, u);
    match u
    case Nanosecond =>
      TruncStep(n, 1, n, t);
    case Microsecond =>
      TruncStep(n, NanosPerMicrosecond, b.days * 86_400_000_000 + b.hours * 3_600_000_000
        + b.minutes * 60_000_000 + b.seconds * 1_000_000 + b.milliseconds * 1_000 + b.microseconds, t);
    case Millisecond =>
      TruncStep(n, NanosPerMillisecond, b.days * 86_400_000 + b.hours * 3_600_000 + b.minutes * 60_000
        + b.seconds * 1_000 + b.milliseconds, t);
  }

  /** `SplitTruncTo` for the units from a second to a day. */
  lemma SplitTruncToWhole(n: int, u: Unit)
    requires 3 <= Index(u) <= 6
    ensures Split(TruncTo(n, UnitNanos(u))) == Truncated(Split(n), u)
  {
    var b := Split(n);
    var t := Truncated(b, u);
    match u
    case Second =>
      TruncStep(n, NanosPerSecond, b.days * 86_400 + b.hours * 3_600 + b.minutes * 60 + b.seconds, t);
    case Minute =>
      TruncStep(n, NanosPerMinute, b.days * 1_440 + b.hours * 60 + b.minutes, t);
    case Hour =>
      TruncStep(n, NanosPerHour, b.days * 24 + b.hours, t);
    case Day =>
      TruncStep(n, NanosPerDay, b.days, t);
  }

  /**
   * Rounding a count toward zero at a unit and then splitting it is the same
   * as splitting it and dropping the fields finer than that unit.
   */
  lemma SplitTruncTo(n: int, u: Unit)
    requires Index(u) <= 6
    ensures Split(TruncTo(n, UnitNanos(u))) == Truncated(Split(n), u)
  {
    if Index(u) <= 2 {
      SplitTruncToSubsecond(n, u);
    } else {
      SplitTruncToWhole(n, u);
    }
  }

  /**
   * The calendar half of `_slotsToParts`: the month count split into years
   * (when the largest unit is year), quarters (when asked for) and the
   * remaining months, each step truncating toward zero.
   */
  function MonthFields(totalMonths: int, byYear: bool, withQuarters: bool): (r: (Option<int>, Option<int>, int))
    ensures OrZero(r.0) * MonthsPerYear + OrZero(r.1) * MonthsPerQuarter + r.2 == totalMonths
    ensures r.0.Some? <==> byYear
    ensures r.1.Some? <==> withQuarters
    ensures withQuarters ==> -MonthsPerQuarter < r.2 < MonthsPerQuarter
    ensures !withQuarters && byYear ==> -MonthsPerYear < r.2 < MonthsPerYear
    ensures byYear && withQuarters ==> -4 < r.1.value < 4
    ensures 0 <= totalMonths ==> 0 <= OrZero(r.0) && 0 <= OrZero(r.1) && 0 <= r.2
    ensures totalMonths <= 0 ==> OrZero(r.0) <= 0 && OrZero(r.1) <= 0 && r.2 <= 0
  {
    var years := if byYear then Some(Quot(totalMonths, MonthsPerYear)) else None;
    var m := if byYear then Rem(totalMonths, MonthsPerYear) else totalMonths;
    var quarters := if withQuarters then Some(Quot(m, MonthsPerQuarter)) else None;
    var months := if withQuarters then Rem(m, MonthsPerQuarter) else m;
    (years, quarters, months)
  }

  /**
   * The parts a balanced breakdown is reported as: weeks split off the days
   * when asked for, and only the clock fields not finer than `smallest`.
   * When those finer fields are already zero, nothing is lost.
   */
  function BreakdownParts(b: Breakdown, smallest: Unit, withWeeks: bool): (parts: Parts)
    ensures parts.years.None? && parts.quarters.None? && parts.months.None?
    ensures Truncated(b, smallest) == b ==> PartsNanos(parts) == Total(b)
    ensures parts.days.Some?
    ensures parts.weeks.Some? <==> withWeeks
    ensures withWeeks ==> -DaysPerWeek < parts.days.value < DaysPerWeek
    ensures parts.hours.Some? <==> Index(smallest) <= 5
    ensures parts.minutes.Some? <==> Index(smallest) <= 4
    ensures parts.seconds.Some? <==> Index(smallest) <= 3
    ensures parts.milliseconds.Some? <==> Index(smallest) <= 2
    ensures parts.microseconds.Some? <==> Index(smallest) <= 1
    ensures parts.nanoseconds.Some? <==> Index(smallest) <= 0
    ensures OrZero(parts.weeks) * DaysPerWeek + parts.days.value == b.days
    ensures 0 <= b.days ==> 0 <= OrZero(parts.weeks) && 0 <= parts.days.value
    ensures b.days <= 0 ==> OrZero(parts.weeks) <= 0 && parts.days.value <= 0
    ensures parts.hours.Some? ==> parts.hours.value == b.hours
    ensures parts.minutes.Some? ==> parts.minutes.value == b.minutes
    ensures parts.seconds.Some? ==> parts.seconds.value == b.seconds
    ensures parts.milliseconds.Some? ==> parts.milliseconds.value == b.milliseconds
    ensures parts.microseconds.Some? ==> parts.microseconds.value == b.microseconds
    ensures parts.nanoseconds.Some? ==> parts.nanoseconds.value == b.nanoseconds
    ensures Truncated(b, smallest) == b ==> ClockOfParts(parts) == b
  {
    var weeks := if withWeeks then Some(Quot(b.days, DaysPerWeek)) else None;
    var days := if withWeeks then Rem(b.days, DaysPerWeek) else b.days;
    assert OrZero(weeks) * DaysPerWeek + days == b.days;
    Parts(
      None, None, None, weeks, Some(days),
      Requested(smallest, Hour, b.hours), Requested(smallest, Minute, b.minutes),
      Requested(smallest, Second, b.seconds), Requested(smallest, Millisecond, b.milliseconds),
      Requested(smallest, Microsecond, b.microseconds), Requested(smallest, Nanosecond, b.nanoseconds))
  }

  /**
   * The clock half of `_slotsToParts`: the nanosecond count rounded toward
   * zero at the smallest unit (day when a calendar unit is given) and split
   * day-largest.
   */
  function ClockFields(n: int, o: Options): (parts: Parts)
    ensures PartsNanos(parts) == TruncTo(n, UnitNanos(EffectiveSmallest(o.smallestUnit)))
    ensures ClockOfParts(parts) == Split(TruncTo(n, UnitNanos(EffectiveSmallest(o.smallestUnit))))
    ensures parts.weeks.Some? <==> o.withWeeks
    ensures parts.days.Some?
    ensures o.withWeeks ==> -DaysPerWeek < parts.days.value < DaysPerWeek
    ensures 0 <= n ==> 0 <= OrZero(parts.weeks) && 0 <= parts.days.value
    ensures n <= 0 ==> OrZero(parts.weeks) <= 0 && parts.days.value <= 0
  {
    var smallest := EffectiveSmallest(o.smallestUnit);
    var t := TruncTo(n, UnitNanos(smallest));
    var b := Split(t);
    SplitTruncTo(n, smallest);
    assert Truncated(b, smallest) == b;
    assert 0 <= n ==> 0 <= b.days by { assert 0 <= n ==> 0 <= t; }
    assert n <= 0 ==> b.days <= 0 by { assert n <= 0 ==> t <= 0; }
    BreakdownParts(b, smallest, o.withWeeks)
  }

  /**
   * The numeric half of `_slotsToParts`: the calendar fields of the period
   * with its clock fields; nothing is lost but what rounding drops.
   */
  function Projection(p: Period, o: Options): (parts: Parts)
    ensures PartsMonths(parts) == TotalMonths(p)
    ensures PartsNanos(parts) == TruncTo(ClockNanos(p), UnitNanos(EffectiveSmallest(o.smallestUnit)))
    ensures parts.months.Some? && parts.days.Some?
    ensures (parts.years, parts.quarters, parts.months.value)
      == MonthFields(TotalMonths(p), o.largestUnit == Year, o.withQuarters)
    ensures ClockOfParts(parts) == Split(TruncTo(ClockNanos(p), UnitNanos(EffectiveSmallest(o.smallestUnit))))
    ensures parts.weeks.Some? <==> o.withWeeks
    ensures o.withWeeks ==> -DaysPerWeek < parts.days.value < DaysPerWeek
    ensures 0 <= ClockNanos(p) ==> 0 <= OrZero(parts.weeks) && 0 <= parts.days.value
    ensures ClockNanos(p) <= 0 ==> OrZero(parts.weeks) <= 0 && parts.days.value <= 0
  {
    var (years, quarters, months) := MonthFields(TotalMonths(p), o.largestUnit == Year, o.withQuarters);
    ClockFields(ClockNanos(p), o).(years := years, quarters := quarters, months := Some(months))
  }

  /**
   * Splitting undoes folding: at nanosecond granularity, folding the projected
   * parts back gives the period itself, whatever the largest unit and whether
   * quarters and weeks are extracted.
   */
  lemma ProjectionRoundTrip(p: Period, o: Options)
    requires o.smallestUnit == Nanosecond
    ensures PartsToSlots(Projection(p, o)) == p
  {
    CanonicalUnique(PartsToSlots(Projection(p, o)), p);
  }

  /** The projection assembled from its calendar and clock halves. */
  lemma ProjectionOf(p: Period, o: Options, years: Option<int>, quarters: Option<int>, months: int, b: Breakdown)
    requires (years, quarters, months) == MonthFields(TotalMonths(p), o.largestUnit == Year, o.withQuarters)
    requires b == Split(TruncTo(ClockNanos(p), UnitNanos(EffectiveSmallest(o.smallestUnit))))
    ensures Projection(p, o) == BreakdownParts(b, EffectiveSmallest(o.smallestUnit), o.withWeeks)
      .(years := years, quarters := quarters, months := Some(months))
  {
  }

  /**
   * The calendar half of `_slotsToParts` as the source computes it, with the
   * largest unit already clamped to month or year.
   */
  method SplitMonths(totalMonths: int, largestUnit: Unit, withQuarters: bool)
    returns (years: Option<int>, quarters: Option<int>, months: int)
    requires largestUnit == Year || largestUnit == Month
    ensures (years, quarters, months)
      == MonthFields(totalMonths, largestUnit == Year, withQuarters)
  {
    years, quarters := None, None;
    if largestUnit == Year {
      years := Some(Quot(totalMonths, MonthsPerYear));
      months := Rem(totalMonths, MonthsPerYear);
    } else {
      months := totalMonths;
    }
    if withQuarters {
      quarters := Some(Quot(months, MonthsPerQuarter));
      months := Rem(months, MonthsPerQuarter);
    }
  }

  /**
   * `_slotsToParts`: fills the parts record field by field, as the source
   * does; the result is the projection.
   */
  method SlotsToParts(p: Period, o: Options) returns (parts: Parts)
    ensures parts == Projection(p, o)
  {
    var largestUnit := o.largestUnit;
    var smallestUnit := o.smallestUnit;
    if Index(largestUnit) < 10 {
      largestUnit := Month;
    }
    if Index(smallestUnit) > 6 {
      smallestUnit := Day;
    }
    var totalMonths := p.years * MonthsPerYear + p.months;
    assert totalMonths == TotalMonths(p) && (largestUnit == Year <==> o.largestUnit == Year);
    var years, quarters, months := SplitMonths(totalMonths, largestUnit, o.withQuarters);
    var weeks: Option<int> := None;
    var b := Split(TruncTo(ClockNanos(p), UnitNanos(smallestUnit)));
    var days := b.days;
    if o.withWeeks {
      weeks := Some(Quot(days, DaysPerWeek));
      days := Rem(days, DaysPerWeek);
    }
    assert smallestUnit == EffectiveSmallest(o.smallestUnit);
    ghost var clock := BreakdownParts(b, smallestUnit, o.withWeeks);
    assert weeks == clock.weeks && days == clock.days.value;
    parts := Parts(None, None, None, None, None, None, None, None, None, None, None);
    if years.Some? {
      parts := parts.(years := years);
    }
    if quarters.Some? {
      parts := parts.(quarters := quarters);
    }
    parts := parts.(months := Some(months));
    if weeks.Some? {
      parts := parts.(weeks := weeks);
    }
    parts := parts.(days := Some(days));
    assert parts.weeks == clock.weeks && parts.days == clock.days;
    if Index(smallestUnit) <= 5 {
      parts := parts.(hours := Some(b.hours));
    }
    assert parts.hours == clock.hours;
    if Index(smallestUnit) <= 4 {
      parts := parts.(minutes := Some(b.minutes));
    }
    assert parts.minutes == clock.minutes;
    if Index(smallestUnit) <= 3 {
      parts := parts.(seconds := Some(b.seconds));
    }
    assert parts.seconds == clock.seconds;
    if Index(smallestUnit) <= 2 {
      parts := parts.(milliseconds := Some(b.milliseconds));
    }
    assert parts.milliseconds == clock.milliseconds;
    if Index(smallestUnit) <= 1 {
      parts := parts.(microseconds := Some(b.microseconds));
    }
    assert parts.microseconds == clock.microseconds;
    if Index(smallestUnit) <= 0 {
      parts := parts.(nanoseconds := Some(b.nanoseconds));
    }
    assert parts.nanoseconds == clock.nanoseconds;
    assert parts == clock.(years := years, quarters := quarters, months := Some(months));
    ProjectionOf(p, o, years, quarters, months, b);
  }

  /**
   * What `parse`, `parseUnits`, `parseTime` and `parsePeriod` do with the
   * parts the grammar recognised: fold them into a period and project it
   * again. The month count is kept, and at nanosecond granularity so is the
   * nanosecond count.
   */
  function ReprojectParsed(parsed: Parts, o: Options): (parts: Parts)
    ensures PartsMonths(parts) == PartsMonths(parsed)
    ensures o.smallestUnit == Nanosecond ==> PartsNanos(parts) == PartsNanos(parsed)
  {
    Projection(PartsToSlots(parsed), o)
  }
}
