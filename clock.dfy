/**
 * The clock tier of a period: days down to nanoseconds, all of fixed length.
 * The duration library the period code delegates to merges these fields into
 * one signed nanosecond count and splits that count again, day-largest, with
 * truncation. Its internals are not modelled; this module states that contract
 * over a single integer.
 */
module Clock {
  import opened Arith
  import opened Units

  /** The day-largest breakdown of a clock amount. */
  datatype Breakdown = Breakdown(
    days: int, hours: int, minutes: int, seconds: int,
    milliseconds: int, microseconds: int, nanoseconds: int)

  /** The nanosecond count a breakdown stands for. */
  function Total(b: Breakdown): int
  {
    b.days * NanosPerDay + b.hours * NanosPerHour + b.minutes * NanosPerMinute
    + b.seconds * NanosPerSecond + b.milliseconds * NanosPerMillisecond
    + b.microseconds * NanosPerMicrosecond + b.nanoseconds
  }

  /** Every field below days is smaller in magnitude than its base. */
  predicate InRange(b: Breakdown)
  {
    && -HoursPerDay < b.hours < HoursPerDay
    && -MinutesPerHour < b.minutes < MinutesPerHour
    && -SecondsPerMinute < b.seconds < SecondsPerMinute
    && -MillisecondsPerSecond < b.milliseconds < MillisecondsPerSecond
    && -MicrosecondsPerMillisecond < b.microseconds < MicrosecondsPerMillisecond
    && -NanosecondsPerMicrosecond < b.nanoseconds < NanosecondsPerMicrosecond
  }

  predicate NonNegative(b: Breakdown)
  {
    b.days >= 0 && b.hours >= 0 && b.minutes >= 0 && b.seconds >= 0
    && b.milliseconds >= 0 && b.microseconds >= 0 && b.nanoseconds >= 0
  }

  predicate NonPositive(b: Breakdown)
  {
    b.days <= 0 && b.hours <= 0 && b.minutes <= 0 && b.seconds <= 0
    && b.milliseconds <= 0 && b.microseconds <= 0 && b.nanoseconds <= 0
  }

  /** The canonical form: fields in range and never of opposite signs. */
  predicate Balanced(b: Breakdown)
  {
    InRange(b) && (NonNegative(b) || NonPositive(b))
  }

  function Neg(b: Breakdown): Breakdown
  {
    Breakdown(-b.days, -b.hours, -b.minutes, -b.seconds,
              -b.milliseconds, -b.microseconds, -b.nanoseconds)
  }

  const ZeroBreakdown := Breakdown(0, 0, 0, 0, 0, 0, 0)

  /** Splits a non-negative count at the fixed ratios, largest unit first. */
  function SplitMagnitude(n: nat): (b: Breakdown)
    ensures Total(b) == n && InRange(b) && NonNegative(b)
  {
    var r1 := n % NanosPerDay;
    var r2 := r1 % NanosPerHour;
    var r3 := r2 % NanosPerMinute;
    var r4 := r3 % NanosPerSecond;
    var r5 := r4 % NanosPerMillisecond;
    Breakdown(
      n / NanosPerDay, r1 / NanosPerHour, r2 / NanosPerMinute, r3 / NanosPerSecond,
      r4 / NanosPerMillisecond, r5 / NanosPerMicrosecond, r5 % NanosPerMicrosecond)
  }

  /**
   * Splits a nanosecond count at the fixed ratios 24/60/60/1000/1000/1000,
   * truncating toward zero, so that every field carries the sign of `n`.
   */
  function Split(n: int): (b: Breakdown)
    ensures Total(b) == n && Balanced(b)
    ensures 0 <= n ==> NonNegative(b)
    ensures n <= 0 ==> NonPositive(b)
  {
    if n >= 0 then SplitMagnitude(n) else Neg(SplitMagnitude(-n))
  }

  /** A balanced breakdown's total has the sign of its fields. */
  lemma TotalSign(b: Breakdown)
    requires Balanced(b)
    ensures NonNegative(b) ==> Total(b) >= 0
    ensures Total(b) < 0 <==> NonPositive(b) && b != ZeroBreakdown
    ensures Total(b) == 0 <==> b == ZeroBreakdown
  {
  }

  lemma NegBalanced(b: Breakdown)
    requires Balanced(b)
    ensures Balanced(Neg(b)) && Total(Neg(b)) == -Total(b)
  {
  }

  /** A non-negative in-range breakdown is what its total splits into. */
  lemma SplitMagnitudeTotal(b: Breakdown)
    requires InRange(b) && NonNegative(b)
    ensures SplitMagnitude(Total(b)) == b
  {
    var n := Total(b);
    var r1 := Total(b.(days := 0));
    var r2 := Total(b.(days := 0, hours := 0));
    var r3 := Total(b.(days := 0, hours := 0, minutes := 0));
    var r4 := Total(b.(days := 0, hours := 0, minutes := 0, seconds := 0));
    var r5 := b.microseconds * NanosPerMicrosecond + b.nanoseconds;
    DivUnique(n, NanosPerDay, b.days, r1);
    DivUnique(r1, NanosPerHour, b.hours, r2);
    DivUnique(r2, NanosPerMinute, b.minutes, r3);
    DivUnique(r3, NanosPerSecond, b.seconds, r4);
    DivUnique(r4, NanosPerMillisecond, b.milliseconds, r5);
    DivUnique(r5, NanosPerMicrosecond, b.microseconds, b.nanoseconds);
  }

  /**
   * The balanced breakdown of a count is unique: splitting the total of a
   * balanced breakdown gives that breakdown back.
   */
  lemma SplitTotal(b: Breakdown)
    requires Balanced(b)
    ensures Split(Total(b)) == b
  {
    if Total(b) >= 0 {
      assert NonNegative(b);
      SplitMagnitudeTotal(b);
    } else {
      assert NonPositive(b);
      NegBalanced(b);
      var c := Neg(b);
      assert InRange(c) && NonNegative(c);
      SplitMagnitudeTotal(c);
      assert Split(Total(b)) == Neg(SplitMagnitude(Total(c)));
      assert Neg(c) == b;
    }
  }

  /** Two balanced breakdowns with the same total are the same. */
  lemma BalancedUnique(b: Breakdown, c: Breakdown)
    requires Balanced(b) && Balanced(c) && Total(b) == Total(c)
    ensures b == c
  {
    SplitTotal(b);
    SplitTotal(c);
  }

  /** Splitting is odd: the split of `-n` is the negated split of `n`. */
  lemma SplitNeg(n: int)
    ensures Split(-n) == Neg(Split(n))
  {
    NegBalanced(Split(n));
    BalancedUnique(Split(-n), Neg(Split(n)));
  }

  /** Rounds `n` toward zero to a multiple of `unit`. */
  function TruncTo(n: int, unit: int): (t: int)
    requires unit > 0
    ensures -unit < n - t < unit
    ensures 0 <= n ==> 0 <= t <= n
    ensures n <= 0 ==> n <= t <= 0
    ensures Rem(t, unit) == 0
  {
    var q := Quot(n, unit);
    QuotRemUnique(q * unit, unit, q, 0);
    q * unit
  }

  /** A multiple of `unit` is left as it is. */
  lemma TruncToExact(t: int, unit: int)
    requires unit > 0 && Rem(t, unit) == 0
    ensures TruncTo(t, unit) == t
  {
    assert t == unit * Quot(t, unit);
  }
}
