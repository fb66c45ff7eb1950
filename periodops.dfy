/**
 * The value operations of a period: its sign, negation, scaling by a whole
 * multiplier, rounding, and field-wise addition and subtraction followed by
 * normalisation. Every operation builds a new period; none changes its
 * operands.
 */
module PeriodOps {
  import opened Wrappers
  import opened Arith
  import opened Units
  import opened Clock
  import opened Normalize

  /** The nine stored fields, coarsest first. */
  function Fields(s: Slots): seq<int>
  {
    [s.years, s.months, s.days, s.hours, s.minutes, s.seconds,
     s.milliseconds, s.microseconds, s.nanoseconds]
  }

  /**
   * The `sign` getter: -1 when some field is negative, otherwise 1 when some
   * field is positive, otherwise 0.
   */
  function Sign(p: Period): (r: int)
    ensures r == -1 <==> exists i :: 0 <= i < |Fields(p)| && Fields(p)[i] < 0
    ensures r == 1 <==>
      (forall i :: 0 <= i < |Fields(p)| ==> Fields(p)[i] >= 0)
      && (exists i :: 0 <= i < |Fields(p)| && Fields(p)[i] > 0)
    ensures r == 0 <==> p == Zero
  {
    if p.years < 0 || p.months < 0 || p.days < 0 || p.hours < 0 || p.minutes < 0
      || p.seconds < 0 || p.milliseconds < 0 || p.microseconds < 0 || p.nanoseconds < 0
    then
      assert Fields(p)[0] < 0 || Fields(p)[1] < 0 || Fields(p)[2] < 0 || Fields(p)[3] < 0
        || Fields(p)[4] < 0 || Fields(p)[5] < 0 || Fields(p)[6] < 0 || Fields(p)[7] < 0
        || Fields(p)[8] < 0;
      -1
    else if p.years > 0 || p.months > 0 || p.days > 0 || p.hours > 0 || p.minutes > 0
      || p.seconds > 0 || p.milliseconds > 0 || p.microseconds > 0 || p.nanoseconds > 0
    then
      assert Fields(p)[0] > 0 || Fields(p)[1] > 0 || Fields(p)[2] > 0 || Fields(p)[3] > 0
        || Fields(p)[4] > 0 || Fields(p)[5] > 0 || Fields(p)[6] > 0 || Fields(p)[7] > 0
        || Fields(p)[8] > 0;
      1
    else
      0
  }

  /** The `isNegative` getter: some field is negative. */
  function IsNegative(p: Period): (r: bool)
    ensures r <==> Sign(p) == -1
  {
    p.years < 0 || p.months < 0 || p.days < 0 || p.hours < 0 || p.minutes < 0
    || p.seconds < 0 || p.milliseconds < 0 || p.microseconds < 0 || p.nanoseconds < 0
  }

  /**
   * Because each tier of a period shares one sign, the sign can be read off
   * the two totals: negative when either tier is negative, positive when
   * neither is negative and one is positive.
   */
  lemma SignByTiers(p: Period)
    ensures Sign(p) == -1 <==> TotalMonths(p) < 0 || ClockNanos(p) < 0
    ensures Sign(p) == 1 <==>
      TotalMonths(p) >= 0 && ClockNanos(p) >= 0 && (TotalMonths(p) > 0 || ClockNanos(p) > 0)
  {
    TotalSign(ClockOf(p));
    var f := Fields(p);
    if Sign(p) == -1 {
      var i :| 0 <= i < |f| && f[i] < 0;
      if i >= 2 {
        assert ClockOf(p) != ZeroBreakdown;
      }
    }
    if Sign(p) == 1 {
      var i :| 0 <= i < |f| && f[i] > 0;
      assert f[0] >= 0 && f[1] >= 0;
      if i >= 2 {
        assert NonNegative(ClockOf(p)) && ClockOf(p) != ZeroBreakdown;
      }
    }
  }

  /** Negating every slot of a canonical period leaves it canonical. */
  lemma NegCanonical(p: Period)
    ensures Canonical(Slots(-p.years, -p.months, -p.days, -p.hours, -p.minutes, -p.seconds,
      -p.milliseconds, -p.microseconds, -p.nanoseconds))
  {
    NegBalanced(ClockOf(p));
    assert ClockOf(Slots(-p.years, -p.months, -p.days, -p.hours, -p.minutes, -p.seconds,
      -p.milliseconds, -p.microseconds, -p.nanoseconds)) == Neg(ClockOf(p));
  }

  /**
   * `negated`: the period built from every field negated. Negating keeps the
   * slots canonical, so the constructor's normalisation has nothing to do
   * (`NegatedIsWrapped`) and every field of the result is the negated field.
   */
  function Negated(p: Period): (r: Period)
    ensures r.years == -p.years && r.months == -p.months && r.days == -p.days
    ensures r.hours == -p.hours && r.minutes == -p.minutes && r.seconds == -p.seconds
    ensures r.milliseconds == -p.milliseconds && r.microseconds == -p.microseconds
    ensures r.nanoseconds == -p.nanoseconds
  {
    NegCanonical(p);
    Slots(-p.years, -p.months, -p.days, -p.hours, -p.minutes, -p.seconds,
      -p.milliseconds, -p.microseconds, -p.nanoseconds)
  }

  /** The negated period is what the constructor makes of the negated fields. */
  lemma NegatedIsWrapped(p: Period)
    ensures Negated(p) == WrapSlots(Slots(-p.years, -p.months, -p.days, -p.hours, -p.minutes,
      -p.seconds, -p.milliseconds, -p.microseconds, -p.nanoseconds))
  {
    var s := Slots(-p.years, -p.months, -p.days, -p.hours, -p.minutes, -p.seconds,
      -p.milliseconds, -p.microseconds, -p.nanoseconds);
    NegCanonical(p);
    WrapFixesExactlyCanonical(s);
    assert Negated(p) == s;
  }

  /** Negation negates both tier totals. */
  lemma NegatedTotals(p: Period)
    ensures TotalMonths(Negated(p)) == -TotalMonths(p)
    ensures ClockNanos(Negated(p)) == -ClockNanos(p)
  {
    NegBalanced(ClockOf(p));
    assert ClockOf(Negated(p)) == Neg(ClockOf(p));
  }

  /** Negating twice gives the period back. */
  lemma NegatedInvolutive(p: Period)
    ensures Negated(Negated(p)) == p
  {
  }

  /** The tiers of a period point in opposite directions. */
  predicate MixedTiers(p: Period)
  {
    (TotalMonths(p) > 0 && ClockNanos(p) < 0) || (TotalMonths(p) < 0 && ClockNanos(p) > 0)
  }

  /**
   * Negation flips the sign exactly when the tiers do not point in opposite
   * directions; a mixed period is negative both before and after.
   */
  lemma SignNegated(p: Period)
    ensures Sign(Negated(p)) == -Sign(p) <==> !MixedTiers(p)
    ensures MixedTiers(p) ==> Sign(p) == -1 && Sign(Negated(p)) == -1
  {
    SignByTiers(p);
    SignByTiers(Negated(p));
  }

  /** A multiplier after `TypesToNumber`: a finite number or NaN/an infinity. */
  datatype Multiplier = Finite(value: real) | NonFinite

  datatype MultiplyError =
    | NotFinite        // "The multiplier must be a finite number"
    | TruncatesToZero  // "The multiplier must be greater or less than zero"

  /** `MathTrunc` on a finite number: the integer part, rounded toward zero. */
  function TruncReal(x: real): (k: int)
    ensures 0.0 <= x ==> 0 <= k && k as real <= x < k as real + 1.0
    ensures x <= 0.0 ==> k <= 0 && k as real - 1.0 < x <= k as real
  {
    if x >= 0.0 then x.Floor else -((-x).Floor)
  }

  /** Every slot multiplied by `k`. */
  function Scaled(s: Slots, k: int): Slots
  {
    Slots(s.years * k, s.months * k, s.days * k, s.hours * k, s.minutes * k,
      s.seconds * k, s.milliseconds * k, s.microseconds * k, s.nanoseconds * k)
  }

  lemma ScaledTotals(s: Slots, k: int)
    ensures TotalMonths(Scaled(s, k)) == TotalMonths(s) * k
    ensures ClockNanos(Scaled(s, k)) == ClockNanos(s) * k
  {
    calc {
      TotalMonths(Scaled(s, k));
      s.years * k * MonthsPerYear + s.months * k;
      (s.years * MonthsPerYear + s.months) * k;
    }
    calc {
      ClockNanos(Scaled(s, k));
      s.days * k * NanosPerDay + s.hours * k * NanosPerHour + s.minutes * k * NanosPerMinute
      + s.seconds * k * NanosPerSecond + s.milliseconds * k * NanosPerMillisecond
      + s.microseconds * k * NanosPerMicrosecond + s.nanoseconds * k;
      (s.days * NanosPerDay + s.hours * NanosPerHour + s.minutes * NanosPerMinute
      + s.seconds * NanosPerSecond + s.milliseconds * NanosPerMillisecond
      + s.microseconds * NanosPerMicrosecond + s.nanoseconds) * k;
    }
  }

  /**
   * `multiply`: a non-finite multiplier and one whose integer part is zero
   * are rejected; otherwise every field is scaled by the integer part and the
   * result normalised, so both tier totals are scaled.
   */
  function Multiply(p: Period, m: Multiplier): (r: Result<Period, MultiplyError>)
    ensures r == Failure(NotFinite) <==> m.NonFinite?
    ensures r == Failure(TruncatesToZero) <==> m.Finite? && -1.0 < m.value < 1.0
    ensures r.Success? ==>
      var k := TruncReal(m.value);
      TotalMonths(r.value) == TotalMonths(p) * k && ClockNanos(r.value) == ClockNanos(p) * k
  {
    if m.NonFinite? then Failure(NotFinite)
    else
      var k := TruncReal(m.value);
      if k == 0 then Failure(TruncatesToZero)
      else
        ScaledTotals(p, k);
        Success(WrapSlots(Scaled(p, k)))
  }

  /** Multiplying by minus one is negation. */
  lemma MultiplyByMinusOne(p: Period)
    ensures Multiply(p, Finite(-1.0)) == Success(Negated(p))
  {
    assert TruncReal(-1.0) == -1;
    NegatedTotals(p);
    CanonicalUnique(Multiply(p, Finite(-1.0)).value, Negated(p));
  }

  /** Multiplying by one changes nothing; a fraction is cut to its integer part. */
  lemma MultiplyByOne(p: Period)
    ensures Multiply(p, Finite(1.0)) == Success(p)
    ensures Multiply(p, Finite(2.5)) == Multiply(p, Finite(2.0))
  {
    assert TruncReal(1.0) == 1;
    assert TruncReal(2.5) == 2 == TruncReal(2.0);
    CanonicalUnique(Multiply(p, Finite(1.0)).value, p);
  }

  lemma TruncWhole(a: int)
    ensures TruncReal(a as real) == a
  {
    if a < 0 {
      assert (-(a as real)).Floor == -a;
    }
  }

  /** A whole non-zero multiplier is accepted and scales both tier totals by itself. */
  lemma MultiplyWhole(p: Period, k: int)
    requires k != 0
    ensures Multiply(p, Finite(k as real)).Success?
    ensures TotalMonths(Multiply(p, Finite(k as real)).value) == TotalMonths(p) * k
    ensures ClockNanos(Multiply(p, Finite(k as real)).value) == ClockNanos(p) * k
  {
    TruncWhole(k);
  }

  /**
   * `round`: the period projected at the given granularity and folded back.
   * The calendar tier is kept and the clock tier is rounded toward zero at
   * the smallest unit (day for a calendar unit).
   */
  function Round(p: Period, o: Options): (r: Period)
    ensures TotalMonths(r) == TotalMonths(p)
    ensures ClockNanos(r) == TruncTo(ClockNanos(p), UnitNanos(EffectiveSmallest(o.smallestUnit)))
  {
    PartsToSlots(Projection(p, o))
  }

  /** Rounding at nanosecond granularity, or rounding twice, changes nothing more. */
  lemma RoundIdempotent(p: Period, o: Options)
    ensures Round(Round(p, o), o) == Round(p, o)
    ensures o.smallestUnit == Nanosecond ==> Round(p, o) == p
  {
    var unit := UnitNanos(EffectiveSmallest(o.smallestUnit));
    var r := Round(p, o);
    TruncToExact(ClockNanos(r), unit);
    CanonicalUnique(Round(r, o), r);
    if o.smallestUnit == Nanosecond {
      TruncToExact(ClockNanos(p), 1);
      CanonicalUnique(r, p);
    }
  }

  /** `[addSymbol]` with a period operand: field-wise sum, then normalised. */
  function Add(p: Period, q: Period): (r: Period)
    ensures TotalMonths(r) == TotalMonths(p) + TotalMonths(q)
    ensures ClockNanos(r) == ClockNanos(p) + ClockNanos(q)
  {
    WrapSlots(Slots(p.years + q.years, p.months + q.months, p.days + q.days,
      p.hours + q.hours, p.minutes + q.minutes, p.seconds + q.seconds,
      p.milliseconds + q.milliseconds, p.microseconds + q.microseconds,
      p.nanoseconds + q.nanoseconds))
  }

  /** `[subtractSymbol]` with a period operand: field-wise difference, then normalised. */
  function Subtract(p: Period, q: Period): (r: Period)
    ensures TotalMonths(r) == TotalMonths(p) - TotalMonths(q)
    ensures ClockNanos(r) == ClockNanos(p) - ClockNanos(q)
  {
    WrapSlots(Slots(p.years - q.years, p.months - q.months, p.days - q.days,
      p.hours - q.hours, p.minutes - q.minutes, p.seconds - q.seconds,
      p.milliseconds - q.milliseconds, p.microseconds - q.microseconds,
      p.nanoseconds - q.nanoseconds))
  }

  /**
   * `[addSymbol]` with an amount and a unit, as behind `addDays`,
   * `addMonths` and the rest: the amount lands in one tier only.
   */
  function AddAmount(p: Period, amount: int, unit: Unit): (r: Period)
    ensures TotalMonths(r) == TotalMonths(p) + (if IsCalendar(unit) then amount * UnitMonths(unit) else 0)
    ensures ClockNanos(r) == ClockNanos(p) + (if IsCalendar(unit) then 0 else amount * UnitNanos(unit))
  {
    Add(p, ConvertToSlots(amount, unit))
  }

  /** `[subtractSymbol]` with an amount and a unit. */
  function SubtractAmount(p: Period, amount: int, unit: Unit): (r: Period)
    ensures TotalMonths(r) == TotalMonths(p) - (if IsCalendar(unit) then amount * UnitMonths(unit) else 0)
    ensures ClockNanos(r) == ClockNanos(p) - (if IsCalendar(unit) then 0 else amount * UnitNanos(unit))
  {
    Subtract(p, ConvertToSlots(amount, unit))
  }

  /** Adding a calendar amount leaves every clock field as it was. */
  lemma AddCalendarKeepsClock(p: Period, amount: int, unit: Unit)
    requires IsCalendar(unit)
    ensures ClockOf(AddAmount(p, amount, unit)) == ClockOf(p)
  {
    BalancedUnique(ClockOf(AddAmount(p, amount, unit)), ClockOf(p));
  }

  /** Adding a clock amount leaves years and months as they were. */
  lemma AddClockKeepsCalendar(p: Period, amount: int, unit: Unit)
    requires !IsCalendar(unit)
    ensures AddAmount(p, amount, unit).years == p.years
    ensures AddAmount(p, amount, unit).months == p.months
  {
    var r := AddAmount(p, amount, unit);
    CalendarUnique(r.years, r.months, p.years, p.months);
  }

  /** Subtracting an amount is adding its negation. */
  lemma SubtractAmountIsAddNegated(p: Period, amount: int, unit: Unit)
    ensures SubtractAmount(p, amount, unit) == AddAmount(p, -amount, unit)
  {
    CanonicalUnique(SubtractAmount(p, amount, unit), AddAmount(p, -amount, unit));
  }

  lemma AddCommutative(p: Period, q: Period)
    ensures Add(p, q) == Add(q, p)
  {
    CanonicalUnique(Add(p, q), Add(q, p));
  }

  lemma AddAssociative(p: Period, q: Period, r: Period)
    ensures Add(Add(p, q), r) == Add(p, Add(q, r))
  {
    CanonicalUnique(Add(Add(p, q), r), Add(p, Add(q, r)));
  }

  lemma AddZero(p: Period)
    ensures Add(p, Zero) == p
  {
    CanonicalUnique(Add(p, Zero), p);
  }

  /** Subtracting is adding the negation. */
  lemma SubtractIsAddNegated(p: Period, q: Period)
    ensures Subtract(p, q) == Add(p, Negated(q))
  {
    NegatedTotals(q);
    CanonicalUnique(Subtract(p, q), Add(p, Negated(q)));
  }

  /** Subtracting undoes adding. */
  lemma SubtractUndoesAdd(p: Period, q: Period)
    ensures Subtract(Add(p, q), q) == p
  {
    CanonicalUnique(Subtract(Add(p, q), q), p);
  }

  lemma SubtractSelf(p: Period)
    ensures Subtract(p, p) == Zero
  {
    CanonicalUnique(Subtract(p, p), Zero);
  }

  /** Adding `12 * k` months is adding `k` years. */
  lemma TwelveMonthsMakeAYear(p: Period, k: int)
    ensures AddAmount(p, k * MonthsPerYear, Month) == AddAmount(p, k, Year)
  {
    CanonicalUnique(AddAmount(p, k * MonthsPerYear, Month), AddAmount(p, k, Year));
  }

  /** Adding `3 * k` months is adding `k` quarters. */
  lemma ThreeMonthsMakeAQuarter(p: Period, k: int)
    ensures AddAmount(p, k * MonthsPerQuarter, Month) == AddAmount(p, k, Quarter)
  {
    CanonicalUnique(AddAmount(p, k * MonthsPerQuarter, Month), AddAmount(p, k, Quarter));
  }
}
