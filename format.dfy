/**
 * `[toStringSymbol]`: the ISO 8601 text of a period. The projected fields
 * are written largest first with their designators, the clock fields after a
 * single time designator `T`, the seconds and their fractions as one decimal
 * number; a period that shows nothing is written as a zero in its finest
 * requested unit, and a period whose tiers do not conflict carries one
 * leading minus sign instead of signs on its fields.
 */
module Format {
  import opened Wrappers
  import opened Arith
  import opened Units
  import opened Clock
  import opened Normalize
  import opened Text
  import PeriodOps

  /** The count of `c` in `s`. */
  function Occurrences(c: char, s: string): nat
  {
    if |s| == 0 then 0 else Occurrences(c, s[..|s| - 1]) + (if s[|s| - 1] == c then 1 else 0)
  }

  lemma {:induction false} OccurrencesConcat(c: char, a: string, b: string)
    ensures Occurrences(c, a + b) == Occurrences(c, a) + Occurrences(c, b)
  {
    if |b| > 0 {
      assert (a + b)[..|a + b| - 1] == a + b[..|b| - 1];
      OccurrencesConcat(c, a, b[..|b| - 1]);
    } else {
      assert a + b == a;
    }
  }

  lemma Regroup(a: string, b: string, c: string, d: string)
    ensures a + b + c + d == a + (b + c + d)
  {
  }

  lemma RegroupFive(a: string, b: string, c: string, d: string, e: string, f: string)
    ensures a + b + c + d + e + f == a + (b + c + d + e + f)
  {
    assert a + b + c + d + e + f == a + b + c + (d + e + f);
    assert a + b + c + (d + e + f) == a + (b + c + (d + e + f));
  }

  lemma RegroupTwo(a: string, b: string, c: string)
    ensures a + b + c == a + (b + c)
  {
  }

  /** A field as the text shows it: its magnitude, unless its tier keeps its own sign. */
  function Shown(v: int, keepSign: bool): (r: int)
    ensures keepSign ==> r == v
    ensures !keepSign ==> r >= 0 && (r == v || r == -v)
  {
    if !keepSign && v < 0 then -v else v
  }

  /** A calendar, week or day field with its designator; nothing when it is absent or zero. */
  function FieldText(v: Option<int>, designator: char, keepSign: bool): string
  {
    if OrZero(v) == 0 then [] else IntToString(Shown(OrZero(v), keepSign)) + [designator]
  }

  /** The seconds and their fractions, in nanoseconds. */
  function SecondsNanos(parts: Parts): int
  {
    OrZero(parts.seconds) * NanosPerSecond + OrZero(parts.milliseconds) * NanosPerMillisecond
    + OrZero(parts.microseconds) * NanosPerMicrosecond + OrZero(parts.nanoseconds)
  }

  /** Whether any of the seconds and their fractions is non-zero. */
  predicate HasSeconds(parts: Parts)
  {
    OrZero(parts.seconds) != 0 || OrZero(parts.milliseconds) != 0
    || OrZero(parts.microseconds) != 0 || OrZero(parts.nanoseconds) != 0
  }

  function HoursText(parts: Parts, keepSign: bool): string
  {
    var h := OrZero(parts.hours);
    if h == 0 then [] else ['T'] + IntToString(Shown(h, keepSign)) + ['H']
  }

  function MinutesText(parts: Parts, keepSign: bool): string
  {
    var m := OrZero(parts.minutes);
    if m == 0 then []
    else (if OrZero(parts.hours) == 0 then ['T'] else []) + IntToString(Shown(m, keepSign)) + ['M']
  }

  function SecondsText(parts: Parts, keepSign: bool): string
  {
    if !HasSeconds(parts) then []
    else
      (if OrZero(parts.hours) == 0 && OrZero(parts.minutes) == 0 then ['T'] else [])
      + SecondsNumberText(parts, keepSign) + ['S']
  }

  /** The seconds and their fractions as one decimal number of seconds. */
  function SecondsNumberText(parts: Parts, keepSign: bool): string
  {
    Trimmed(FixedSeconds(Shown(SecondsNanos(parts), keepSign)))
  }

  /**
   * Everything after the `P`: the calendar fields keep their signs only when
   * the months are negative against a positive clock, the clock fields only
   * when the clock is negative against positive months.
   */
  function Body(parts: Parts, negativeMonths: bool, negativeDuration: bool): string
  {
    DateText(parts, negativeMonths, negativeDuration) + TimeText(parts, negativeDuration)
  }

  /** The calendar, week and day fields. */
  function DateText(parts: Parts, negativeMonths: bool, negativeDuration: bool): string
  {
    FieldText(parts.years, 'Y', negativeMonths)
    + FieldText(parts.quarters, 'Q', negativeMonths)
    + FieldText(parts.months, 'M', negativeMonths)
    + FieldText(parts.weeks, 'W', negativeDuration)
    + FieldText(parts.days, 'D', negativeDuration)
  }

  /** The clock fields below a day, behind one time designator. */
  function TimeText(parts: Parts, negativeDuration: bool): string
  {
    HoursText(parts, negativeDuration) + MinutesText(parts, negativeDuration)
    + SecondsText(parts, negativeDuration)
  }

  /** The zero written when nothing shows: in the finest field that is reported. */
  function ZeroText(parts: Parts): string
  {
    if parts.seconds.Some? || parts.milliseconds.Some? || parts.microseconds.Some?
      || parts.nanoseconds.Some? then "T0S"
    else if parts.minutes.Some? then "T0M"
    else if parts.hours.Some? then "T0H"
    else if parts.days.Some? then "0D"
    else ""
  }

  /** `toString`'s sign rule: negative when one tier is negative and the other is not positive. */
  predicate NegativeText(totalMonths: int, sign: int)
  {
    (totalMonths < 0 && sign <= 0) || (totalMonths <= 0 && sign < 0)
  }

  /** The text of projected parts, given the month count and the sign of the clock tier. */
  function Render(parts: Parts, totalMonths: int, sign: int): string
  {
    Assemble(Body(parts, totalMonths < 0 && sign > 0, totalMonths > 0 && sign < 0), parts,
      NegativeText(totalMonths, sign))
  }

  /** The period designator around a body, or the zero text when the body is empty. */
  function Assemble(body: string, parts: Parts, negative: bool): string
  {
    if body == [] then "P" + ZeroText(parts)
    else (if negative then [Minus] else []) + "P" + body
  }

  /** The text of a period under the given options. */
  function PeriodText(p: Period, o: Options): string
  {
    Render(Projection(p, o), TotalMonths(p), Sgn(ClockNanos(p)))
  }

  /**
   * One `if (field) result += ...` step of `toString`: a non-zero field is
   * appended with its designator, as its magnitude unless its sign is kept.
   */
  method AppendField(result: string, v: Option<int>, designator: char, keepSign: bool) returns (r: string)
    ensures r == result + FieldText(v, designator, keepSign)
  {
    var value := OrZero(v);
    r := result;
    if value != 0 {
      r := r + IntToString(if !keepSign && value < 0 then -value else value) + [designator];
    }
  }

  /** Appends the calendar, week and day fields that are non-zero. */
  method WriteDate(parts: Parts, isNegativeMonths: bool, isNegativeDuration: bool) returns (result: string)
    ensures result == "P" + DateText(parts, isNegativeMonths, isNegativeDuration)
  {
    result := AppendField("P", parts.years, 'Y', isNegativeMonths);
    result := AppendField(result, parts.quarters, 'Q', isNegativeMonths);
    result := AppendField(result, parts.months, 'M', isNegativeMonths);
    result := AppendField(result, parts.weeks, 'W', isNegativeDuration);
    result := AppendField(result, parts.days, 'D', isNegativeDuration);
    RegroupFive("P", FieldText(parts.years, 'Y', isNegativeMonths), FieldText(parts.quarters, 'Q', isNegativeMonths),
      FieldText(parts.months, 'M', isNegativeMonths), FieldText(parts.weeks, 'W', isNegativeDuration),
      FieldText(parts.days, 'D', isNegativeDuration));
  }

  /** Appends the hours, the minutes and the seconds group. */
  method WriteTime(prefix: string, parts: Parts, isNegativeDuration: bool) returns (result: string)
    ensures result == prefix + TimeText(parts, isNegativeDuration)
  {
    result := AppendHours(prefix, parts, isNegativeDuration);
    result := AppendMinutes(result, parts, isNegativeDuration);
    result := AppendSeconds(result, parts, isNegativeDuration);
    Regroup(prefix, HoursText(parts, isNegativeDuration), MinutesText(parts, isNegativeDuration),
      SecondsText(parts, isNegativeDuration));
  }

  /** The hours step: the time designator and the hours when they are non-zero. */
  method AppendHours(result: string, parts: Parts, isNegativeDuration: bool) returns (r: string)
    ensures r == result + HoursText(parts, isNegativeDuration)
  {
    var hours := OrZero(parts.hours);
    r := result;
    if hours != 0 {
      r := r + ['T'] + IntToString(if !isNegativeDuration && hours < 0 then -hours else hours) + ['H'];
    }
  }

  /** The minutes step: the time designator unless the hours wrote it, then the minutes. */
  method AppendMinutes(result: string, parts: Parts, isNegativeDuration: bool) returns (r: string)
    ensures r == result + MinutesText(parts, isNegativeDuration)
  {
    var hours, minutes := OrZero(parts.hours), OrZero(parts.minutes);
    r := result;
    if minutes != 0 {
      if hours == 0 {
        r := r + ['T'];
      }
      r := r + IntToString(if !isNegativeDuration && minutes < 0 then -minutes else minutes) + ['M'];
    }
  }

  /**
   * The seconds step: the time designator unless an earlier field wrote it,
   * then the seconds and their fractions as one decimal number of seconds.
   */
  method AppendSeconds(result: string, parts: Parts, isNegativeDuration: bool) returns (r: string)
    ensures r == result + SecondsText(parts, isNegativeDuration)
  {
    var hours, minutes := OrZero(parts.hours), OrZero(parts.minutes);
    var seconds, milliseconds := OrZero(parts.seconds), OrZero(parts.milliseconds);
    var microseconds, nanoseconds := OrZero(parts.microseconds), OrZero(parts.nanoseconds);
    r := result;
    if seconds != 0 || milliseconds != 0 || microseconds != 0 || nanoseconds != 0 {
      ghost var designator: string := [];
      if hours == 0 && minutes == 0 {
        r := r + ['T'];
        designator := ['T'];
      } else {
        assert r == result + designator;
      }
      var text := SecondsNumber(parts, isNegativeDuration);
      r := r + text + ['S'];
      assert r == result + designator + text + ['S'];
      assert SecondsText(parts, isNegativeDuration) == designator + text + ['S'];
      Regroup(result, designator, text, ['S']);
    } else {
      assert SecondsText(parts, isNegativeDuration) == [];
      assert r == result + [];
    }
  }

  /** The seconds and their fractions summed in nanoseconds and written as seconds. */
  method SecondsNumber(parts: Parts, isNegativeDuration: bool) returns (text: string)
    ensures text == SecondsNumberText(parts, isNegativeDuration)
  {
    var duration := OrZero(parts.seconds) * NanosPerSecond + OrZero(parts.milliseconds) * NanosPerMillisecond
      + OrZero(parts.microseconds) * NanosPerMicrosecond + OrZero(parts.nanoseconds);
    assert duration == SecondsNanos(parts);
    var shown := if !isNegativeDuration && duration < 0 then -duration else duration;
    assert shown == Shown(SecondsNanos(parts), isNegativeDuration);
    text := NumberToString(shown);
  }

  /** All non-zero fields behind the period designator. */
  method WriteBody(parts: Parts, isNegativeMonths: bool, isNegativeDuration: bool) returns (result: string)
    ensures result == "P" + Body(parts, isNegativeMonths, isNegativeDuration)
  {
    result := WriteDate(parts, isNegativeMonths, isNegativeDuration);
    result := WriteTime(result, parts, isNegativeDuration);
    RegroupTwo("P", DateText(parts, isNegativeMonths, isNegativeDuration), TimeText(parts, isNegativeDuration));
  }

  /**
   * The last step of `toString`: a text that is only the designator gets the
   * zero of the finest reported field, any other gets the sign when negative.
   */
  method Finish(parts: Parts, totalMonths: int, sign: int) returns (result: string)
    ensures result == Render(parts, totalMonths, sign)
  {
    var isNegative := (totalMonths < 0 && sign <= 0) || (totalMonths <= 0 && sign < 0);
    var isNegativeMonths := totalMonths < 0 && sign > 0;
    var isNegativeDuration := totalMonths > 0 && sign < 0;
    result := WriteBody(parts, isNegativeMonths, isNegativeDuration);
    ghost var body := Body(parts, isNegativeMonths, isNegativeDuration);
    assert isNegative == NegativeText(totalMonths, sign);
    result := Enclose(result, body, parts, isNegative);
  }

  /** Closes the written body: the zero text when it is empty, else the minus sign when negative. */
  method Enclose(written: string, ghost body: string, parts: Parts, isNegative: bool) returns (result: string)
    requires written == "P" + body
    ensures result == Assemble(body, parts, isNegative)
  {
    result := written;
    if |result| == 1 {
      assert body == [] && result == "P";
      result := AppendZero(result, parts);
    } else if isNegative {
      result := [Minus] + result;
      RegroupTwo([Minus], "P", body);
    } else {
      ghost var unsigned: string := [];
      assert result == unsigned + "P" + body;
    }
  }

  /** The zero in the finest reported field, appended to a text that shows nothing. */
  method AppendZero(result: string, parts: Parts) returns (r: string)
    ensures r == result + ZeroText(parts)
  {
    r := result;
    if parts.seconds.Some? || parts.milliseconds.Some? || parts.microseconds.Some?
      || parts.nanoseconds.Some? {
      r := r + "T0S";
    } else if parts.minutes.Some? {
      r := r + "T0M";
    } else if parts.hours.Some? {
      r := r + "T0H";
    } else if parts.days.Some? {
      r := r + "0D";
    } else {
      assert r == result + "";
    }
  }

  /**
   * `[toStringSymbol]`: projects the period as `_slotsToParts` does, reads
   * the sign of each tier, appends the fields that are non-zero, then writes
   * the zero text or prefixes the minus sign.
   */
  method ToString(p: Period, o: Options) returns (result: string)
    ensures result == PeriodText(p, o)
  {
    var parts := SlotsToParts(p, o);
    var totalMonths := p.years * MonthsPerYear + p.months;
    assert totalMonths == TotalMonths(p);
    result := Finish(parts, totalMonths, Sgn(ClockNanos(p)));
  }

  /** Nothing shows: every field is absent or zero. */
  predicate AllZero(parts: Parts)
  {
    OrZero(parts.years) == 0 && OrZero(parts.quarters) == 0 && OrZero(parts.months) == 0
    && OrZero(parts.weeks) == 0 && OrZero(parts.days) == 0 && OrZero(parts.hours) == 0
    && OrZero(parts.minutes) == 0 && !HasSeconds(parts)
  }

  /** A calendar field is negative. */
  predicate NegativeCalendarField(parts: Parts)
  {
    OrZero(parts.years) < 0 || OrZero(parts.quarters) < 0 || OrZero(parts.months) < 0
  }

  /** A clock field, or the seconds group taken as one number, is negative. */
  predicate NegativeClockField(parts: Parts)
  {
    OrZero(parts.weeks) < 0 || OrZero(parts.days) < 0 || OrZero(parts.hours) < 0
    || OrZero(parts.minutes) < 0 || (HasSeconds(parts) && SecondsNanos(parts) < 0)
  }

  /** The zero `toString` writes for a period that shows nothing, by its smallest unit. */
  function ZeroFor(smallest: Unit): string
  {
    if Index(smallest) <= 3 then "T0S"
    else if Index(smallest) == 4 then "T0M"
    else if Index(smallest) == 5 then "T0H"
    else "0D"
  }

  lemma {:induction false} OccurrencesAbsent(c: char, s: string)
    requires c !in s
    ensures Occurrences(c, s) == 0
  {
    if |s| > 0 {
      assert c !in s[..|s| - 1];
      OccurrencesAbsent(c, s[..|s| - 1]);
    }
  }

  /**
   * A number behind an optional time designator and before its own
   * designator: the time designator occurs only where it was put, and a minus
   * only as the number's sign.
   */
  lemma DesignatedNumber(lead: string, number: string, designator: char)
    requires lead == [] || lead == ['T']
    requires |number| >= 1 && NumberChars(number)
    requires designator != 'T' && designator != Minus
    ensures Occurrences('T', lead + number + [designator]) == |lead|
    ensures Minus in lead + number + [designator] <==> number[0] == Minus
  {
    assert 'T' !in number + [designator];
    OccurrencesAbsent('T', number + [designator]);
    assert lead + number + [designator] == lead + (number + [designator]);
    OccurrencesConcat('T', lead, number + [designator]);
    if lead != [] {
      assert Occurrences('T', lead) == Occurrences('T', []) + 1;
    }
  }

  lemma FieldTextChars(v: Option<int>, designator: char, keepSign: bool)
    requires designator != 'T' && designator != Minus
    ensures FieldText(v, designator, keepSign) == [] <==> OrZero(v) == 0
    ensures 'T' !in FieldText(v, designator, keepSign)
    ensures Minus in FieldText(v, designator, keepSign) <==> keepSign && OrZero(v) < 0
  {
    if OrZero(v) != 0 {
      var n := Shown(OrZero(v), keepSign);
      IntToStringChars(n);
      DesignatedNumber([], IntToString(n), designator);
      assert [] + IntToString(n) + [designator] == FieldText(v, designator, keepSign);
      OccurrencesCount('T', FieldText(v, designator, keepSign));
    }
  }

  /** A character that does not occur is absent; one that occurs is present. */
  lemma {:induction false} OccurrencesCount(c: char, s: string)
    ensures c in s <==> Occurrences(c, s) > 0
  {
    if |s| > 0 {
      assert s == s[..|s| - 1] + [s[|s| - 1]];
      OccurrencesCount(c, s[..|s| - 1]);
    }
  }

  /**
   * The calendar, week and day fields never carry the time designator; a
   * field shows a minus exactly when its tier keeps its sign and it is negative.
   */
  lemma DateTextChars(parts: Parts, negativeMonths: bool, negativeDuration: bool)
    ensures DateText(parts, negativeMonths, negativeDuration) == []
      <==> (OrZero(parts.years) == 0 && OrZero(parts.quarters) == 0 && OrZero(parts.months) == 0
            && OrZero(parts.weeks) == 0 && OrZero(parts.days) == 0)
    ensures 'T' !in DateText(parts, negativeMonths, negativeDuration)
    ensures Minus in DateText(parts, negativeMonths, negativeDuration)
      <==> ((negativeMonths && NegativeCalendarField(parts))
            || (negativeDuration && (OrZero(parts.weeks) < 0 || OrZero(parts.days) < 0)))
  {
    FieldTextChars(parts.years, 'Y', negativeMonths);
    FieldTextChars(parts.quarters, 'Q', negativeMonths);
    FieldTextChars(parts.months, 'M', negativeMonths);
    FieldTextChars(parts.weeks, 'W', negativeDuration);
    FieldTextChars(parts.days, 'D', negativeDuration);
  }

  lemma HoursTextChars(parts: Parts, keepSign: bool)
    ensures HoursText(parts, keepSign) == [] <==> OrZero(parts.hours) == 0
    ensures Occurrences('T', HoursText(parts, keepSign)) == if OrZero(parts.hours) == 0 then 0 else 1
    ensures Minus in HoursText(parts, keepSign) <==> keepSign && OrZero(parts.hours) < 0
  {
    var h := OrZero(parts.hours);
    if h != 0 {
      IntToStringChars(Shown(h, keepSign));
      DesignatedNumber(['T'], IntToString(Shown(h, keepSign)), 'H');
    }
  }

  lemma MinutesTextChars(parts: Parts, keepSign: bool)
    ensures MinutesText(parts, keepSign) == [] <==> OrZero(parts.minutes) == 0
    ensures Occurrences('T', MinutesText(parts, keepSign))
      == if OrZero(parts.minutes) != 0 && OrZero(parts.hours) == 0 then 1 else 0
    ensures Minus in MinutesText(parts, keepSign) <==> keepSign && OrZero(parts.minutes) < 0
  {
    var m := OrZero(parts.minutes);
    if m != 0 {
      IntToStringChars(Shown(m, keepSign));
      DesignatedNumber(if OrZero(parts.hours) == 0 then ['T'] else [], IntToString(Shown(m, keepSign)), 'M');
    }
  }

  lemma SecondsTextChars(parts: Parts, keepSign: bool)
    ensures SecondsText(parts, keepSign) == [] <==> !HasSeconds(parts)
    ensures Occurrences('T', SecondsText(parts, keepSign))
      == if HasSeconds(parts) && OrZero(parts.hours) == 0 && OrZero(parts.minutes) == 0 then 1 else 0
    ensures Minus in SecondsText(parts, keepSign) <==> keepSign && HasSeconds(parts) && SecondsNanos(parts) < 0
  {
    if HasSeconds(parts) {
      var n := Shown(SecondsNanos(parts), keepSign);
      SecondsTextShape(n);
      assert SecondsNumberText(parts, keepSign) == Trimmed(FixedSeconds(n));
      DesignatedNumber(if OrZero(parts.hours) == 0 && OrZero(parts.minutes) == 0 then ['T'] else [],
        Trimmed(FixedSeconds(n)), 'S');
    }
  }

  /** The clock text carries the time designator exactly once when it shows anything. */
  lemma TimeTextChars(parts: Parts, keepSign: bool)
    ensures TimeText(parts, keepSign) == []
      <==> OrZero(parts.hours) == 0 && OrZero(parts.minutes) == 0 && !HasSeconds(parts)
    ensures Occurrences('T', TimeText(parts, keepSign)) == if TimeText(parts, keepSign) == [] then 0 else 1
    ensures Minus in TimeText(parts, keepSign)
      <==> (keepSign && (OrZero(parts.hours) < 0 || OrZero(parts.minutes) < 0
            || (HasSeconds(parts) && SecondsNanos(parts) < 0)))
  {
    var h, m, sec := HoursText(parts, keepSign), MinutesText(parts, keepSign), SecondsText(parts, keepSign);
    HoursTextChars(parts, keepSign);
    MinutesTextChars(parts, keepSign);
    SecondsTextChars(parts, keepSign);
    OccurrencesConcat('T', h, m);
    OccurrencesConcat('T', h + m, sec);
  }

  /**
   * The text after the period designator: empty exactly when nothing shows,
   * with at most one time designator, and a minus exactly where a tier that
   * keeps its signs has a negative field.
   */
  lemma BodyChars(parts: Parts, negativeMonths: bool, negativeDuration: bool)
    ensures Body(parts, negativeMonths, negativeDuration) == [] <==> AllZero(parts)
    ensures Occurrences('T', Body(parts, negativeMonths, negativeDuration)) <= 1
    ensures Minus in Body(parts, negativeMonths, negativeDuration)
      <==> (negativeMonths && NegativeCalendarField(parts)) || (negativeDuration && NegativeClockField(parts))
  {
    var date, time := DateText(parts, negativeMonths, negativeDuration), TimeText(parts, negativeDuration);
    DateTextChars(parts, negativeMonths, negativeDuration);
    TimeTextChars(parts, negativeDuration);
    OccurrencesAbsent('T', date);
    OccurrencesConcat('T', date, time);
  }

  /**
   * The first character of `toString`'s text: a minus exactly when something
   * shows and the sign rule holds, and otherwise the period designator.
   */
  lemma RenderLead(parts: Parts, totalMonths: int, sign: int)
    ensures |Render(parts, totalMonths, sign)| >= 1
    ensures Render(parts, totalMonths, sign)[0] == Minus <==> !AllZero(parts) && NegativeText(totalMonths, sign)
    ensures Render(parts, totalMonths, sign)[0] != Minus ==> Render(parts, totalMonths, sign)[0] == 'P'
  {
    BodyChars(parts, totalMonths < 0 && sign > 0, totalMonths > 0 && sign < 0);
  }

  /**
   * A minus after the first character appears exactly when a tier keeps its
   * signs against the other and has a negative field.
   */
  lemma RenderInnerMinus(parts: Parts, totalMonths: int, sign: int)
    ensures |Render(parts, totalMonths, sign)| >= 1
    ensures Minus in Render(parts, totalMonths, sign)[1..]
      <==> ((totalMonths < 0 && sign > 0 && NegativeCalendarField(parts))
            || (totalMonths > 0 && sign < 0 && NegativeClockField(parts)))
  {
    RenderRest(parts, totalMonths, sign);
    BodyChars(parts, totalMonths < 0 && sign > 0, totalMonths > 0 && sign < 0);
  }

  /** After the first character, the text holds a minus exactly when its body does. */
  lemma RenderRest(parts: Parts, totalMonths: int, sign: int)
    ensures |Render(parts, totalMonths, sign)| >= 1
    ensures Minus in Render(parts, totalMonths, sign)[1..]
      <==> Minus in Body(parts, totalMonths < 0 && sign > 0, totalMonths > 0 && sign < 0)
  {
    AssembleRest(Body(parts, totalMonths < 0 && sign > 0, totalMonths > 0 && sign < 0), parts,
      NegativeText(totalMonths, sign));
  }

  lemma AssembleRest(body: string, parts: Parts, negative: bool)
    ensures |Assemble(body, parts, negative)| >= 1
    ensures Minus in Assemble(body, parts, negative)[1..] <==> Minus in body
  {
    var r := Assemble(body, parts, negative);
    if body == [] {
      ZeroTextChars(parts);
      assert r[1..] == ZeroText(parts);
    } else if negative {
      assert r[1..] == "P" + body;
    } else {
      assert r[1..] == body;
    }
  }

  /** The time designator occurs at most once in `toString`'s text. */
  lemma RenderDesignators(parts: Parts, totalMonths: int, sign: int)
    ensures Occurrences('T', Render(parts, totalMonths, sign)) <= 1
  {
    var body := Body(parts, totalMonths < 0 && sign > 0, totalMonths > 0 && sign < 0);
    BodyChars(parts, totalMonths < 0 && sign > 0, totalMonths > 0 && sign < 0);
    AssembleDesignators(body, parts, NegativeText(totalMonths, sign));
  }

  lemma AssembleDesignators(body: string, parts: Parts, negative: bool)
    requires Occurrences('T', body) <= 1
    ensures Occurrences('T', Assemble(body, parts, negative)) <= 1
  {
    if body == [] {
      ZeroTextChars(parts);
      OccurrencesConcat('T', "P", ZeroText(parts));
      OccurrencesAbsent('T', "P");
    } else {
      var lead: string := if negative then [Minus] else [];
      OccurrencesConcat('T', lead + "P", body);
      OccurrencesAbsent('T', lead + "P");
    }
  }

  /** The zero text holds no minus and at most one time designator. */
  lemma ZeroTextChars(parts: Parts)
    ensures Minus !in ZeroText(parts)
    ensures Occurrences('T', ZeroText(parts)) <= 1
  {
    var z := ZeroText(parts);
    if z == "T0S" {
      DesignatedZero(['T'], 'S');
      assert z == ['T'] + "0" + ['S'];
    } else if z == "T0M" {
      DesignatedZero(['T'], 'M');
      assert z == ['T'] + "0" + ['M'];
    } else if z == "T0H" {
      DesignatedZero(['T'], 'H');
      assert z == ['T'] + "0" + ['H'];
    } else if z == "0D" {
      DesignatedZero([], 'D');
      assert z == [] + "0" + ['D'];
    }
  }

  /** A designated zero holds no minus and only the time designator it is led by. */
  lemma DesignatedZero(lead: string, designator: char)
    requires lead == [] || lead == ['T']
    requires designator != 'T' && designator != Minus
    ensures Occurrences('T', lead + "0" + [designator]) == |lead|
    ensures Minus !in lead + "0" + [designator]
  {
    DesignatedNumber(lead, "0", designator);
  }

  /** Parts that show nothing stand for no months and no nanoseconds. */
  lemma AllZeroValue(parts: Parts)
    requires AllZero(parts)
    ensures PartsMonths(parts) == 0 && PartsNanos(parts) == 0
  {
  }

  /** Zero months split into zero years, quarters and months. */
  lemma MonthFieldsZero(byYear: bool, withQuarters: bool)
    ensures MonthFields(0, byYear, withQuarters)
      == (if byYear then Some(0) else None, if withQuarters then Some(0) else None, 0)
  {
  }

  /** Zero days are reported as absent or zero weeks. */
  lemma BreakdownPartsZeroWeeks(b: Breakdown, smallest: Unit, withWeeks: bool)
    requires b.days == 0
    ensures OrZero(BreakdownParts(b, smallest, withWeeks).weeks) == 0
  {
    assert Quot(0, DaysPerWeek) == 0;
  }

  /** Zero days are reported as zero days, with or without weeks. */
  lemma BreakdownPartsZeroDays(b: Breakdown, smallest: Unit, withWeeks: bool)
    requires b.days == 0
    ensures OrZero(BreakdownParts(b, smallest, withWeeks).days) == 0
  {
    assert Rem(0, DaysPerWeek) == 0;
  }

  /** Zero hours and minutes are reported as absent or zero. */
  lemma BreakdownPartsZeroHours(b: Breakdown, smallest: Unit, withWeeks: bool)
    requires b.hours == 0 && b.minutes == 0
    ensures OrZero(BreakdownParts(b, smallest, withWeeks).hours) == 0
    ensures OrZero(BreakdownParts(b, smallest, withWeeks).minutes) == 0
  {
  }

  /** Zero seconds and fractions are reported as absent or zero. */
  lemma BreakdownPartsZeroSeconds(b: Breakdown, smallest: Unit, withWeeks: bool)
    requires b.seconds == 0 && b.milliseconds == 0 && b.microseconds == 0 && b.nanoseconds == 0
    ensures !HasSeconds(BreakdownParts(b, smallest, withWeeks))
  {
  }

  /** Clock parts that show nothing, with zero calendar fields added, show nothing. */
  lemma ZeroAssembled(clock: Parts, parts: Parts, years: Option<int>, quarters: Option<int>, months: int)
    requires OrZero(clock.weeks) == 0 && OrZero(clock.days) == 0
    requires OrZero(clock.hours) == 0 && OrZero(clock.minutes) == 0 && !HasSeconds(clock)
    requires OrZero(years) == 0 && OrZero(quarters) == 0 && months == 0
    requires parts == clock.(years := years, quarters := quarters, months := Some(months))
    ensures AllZero(parts)
  {
  }

  /** The projection shows nothing exactly when the months and the rounded clock are zero. */
  lemma ProjectionZero(p: Period, o: Options)
    ensures AllZero(Projection(p, o))
      <==> TotalMonths(p) == 0 && TruncTo(ClockNanos(p), UnitNanos(EffectiveSmallest(o.smallestUnit))) == 0
  {
    if AllZero(Projection(p, o)) {
      AllZeroValue(Projection(p, o));
    }
    var n := TruncTo(ClockNanos(p), UnitNanos(EffectiveSmallest(o.smallestUnit)));
    if TotalMonths(p) == 0 && n == 0 {
      ZeroProjected(p, o, n);
    }
  }

  lemma ZeroProjected(p: Period, o: Options, n: int)
    requires n == TruncTo(ClockNanos(p), UnitNanos(EffectiveSmallest(o.smallestUnit)))
    requires TotalMonths(p) == 0 && n == 0
    ensures AllZero(Projection(p, o))
  {
    var fields := MonthFields(TotalMonths(p), o.largestUnit == Year, o.withQuarters);
    MonthFieldsOfZero(p, o);
    ClockFieldsZero(ClockNanos(p), o);
    ProjectionAssembled(p, o);
    ZeroAssembled(ClockFields(ClockNanos(p), o), Projection(p, o), fields.0, fields.1, fields.2);
  }

  lemma MonthFieldsOfZero(p: Period, o: Options)
    requires TotalMonths(p) == 0
    ensures OrZero(MonthFields(TotalMonths(p), o.largestUnit == Year, o.withQuarters).0) == 0
    ensures OrZero(MonthFields(TotalMonths(p), o.largestUnit == Year, o.withQuarters).1) == 0
    ensures MonthFields(TotalMonths(p), o.largestUnit == Year, o.withQuarters).2 == 0
  {
    MonthFieldsAtZero(TotalMonths(p), o.largestUnit == Year, o.withQuarters);
  }

  lemma MonthFieldsAtZero(totalMonths: int, byYear: bool, withQuarters: bool)
    requires totalMonths == 0
    ensures MonthFields(totalMonths, byYear, withQuarters)
      == (if byYear then Some(0) else None, if withQuarters then Some(0) else None, 0)
  {
    MonthFieldsZero(byYear, withQuarters);
  }

  /** The projection is the clock fields with the calendar fields filled in. */
  lemma ProjectionAssembled(p: Period, o: Options)
    ensures var fields := MonthFields(TotalMonths(p), o.largestUnit == Year, o.withQuarters);
      Projection(p, o)
      == ClockFields(ClockNanos(p), o).(years := fields.0, quarters := fields.1, months := Some(fields.2))
  {
  }

  /** A clock that rounds to zero is reported with every clock field absent or zero. */
  lemma ClockFieldsZero(n: int, o: Options)
    requires TruncTo(n, UnitNanos(EffectiveSmallest(o.smallestUnit))) == 0
    ensures OrZero(ClockFields(n, o).weeks) == 0 && OrZero(ClockFields(n, o).days) == 0
    ensures OrZero(ClockFields(n, o).hours) == 0 && OrZero(ClockFields(n, o).minutes) == 0
    ensures !HasSeconds(ClockFields(n, o))
  {
    var smallest := EffectiveSmallest(o.smallestUnit);
    var b := Split(TruncTo(n, UnitNanos(smallest)));
    assert NonNegative(b) && NonPositive(b);
    BreakdownPartsZeroWeeks(b, smallest, o.withWeeks);
    BreakdownPartsZeroDays(b, smallest, o.withWeeks);
    BreakdownPartsZeroHours(b, smallest, o.withWeeks);
    BreakdownPartsZeroSeconds(b, smallest, o.withWeeks);
  }

  /** A period that shows nothing is written as zero in its smallest reported unit. */
  lemma ZeroTextByUnit(p: Period, o: Options)
    ensures ZeroText(Projection(p, o)) == ZeroFor(EffectiveSmallest(o.smallestUnit))
  {
    var smallest := EffectiveSmallest(o.smallestUnit);
    var (years, quarters, months) := MonthFields(TotalMonths(p), o.largestUnit == Year, o.withQuarters);
    var b := Split(TruncTo(ClockNanos(p), UnitNanos(smallest)));
    ProjectionOf(p, o, years, quarters, months, b);
    var parts := BreakdownParts(b, smallest, o.withWeeks);
    assert ZeroText(Projection(p, o)) == ZeroText(parts);
    ZeroTextOfBreakdown(b, smallest, o.withWeeks);
  }

  /** The zero text of the clock fields depends on the smallest unit alone. */
  lemma ZeroTextOfBreakdown(b: Breakdown, smallest: Unit, withWeeks: bool)
    requires Index(smallest) <= 6
    ensures ZeroText(BreakdownParts(b, smallest, withWeeks)) == ZeroFor(smallest)
  {
  }

  /** Nothing shows at the requested precision: no months and a clock that rounds to zero. */
  predicate Vanishes(p: Period, o: Options)
  {
    TotalMonths(p) == 0 && TruncTo(ClockNanos(p), UnitNanos(EffectiveSmallest(o.smallestUnit))) == 0
  }

  /** Negative months leave a negative calendar field. */
  lemma NegativeMonthsField(parts: Parts)
    requires PartsMonths(parts) < 0
    ensures NegativeCalendarField(parts)
  {
  }

  /** A negative clock leaves a negative clock field or a negative seconds group. */
  lemma NegativeNanosField(parts: Parts)
    requires PartsNanos(parts) < 0
    ensures NegativeClockField(parts)
  {
    if !HasSeconds(parts) {
      assert SecondsNanos(parts) == 0;
    }
    assert PartsNanos(parts) == OrZero(parts.weeks) * NanosPerWeek + OrZero(parts.days) * NanosPerDay
      + OrZero(parts.hours) * NanosPerHour + OrZero(parts.minutes) * NanosPerMinute + SecondsNanos(parts);
  }

  /**
   * The leading sign of `toString`'s text: a minus exactly when the period is
   * negative, its two tiers do not point in opposite directions, and
   * something shows at the requested precision; otherwise the period designator.
   */
  lemma TextSign(p: Period, o: Options)
    ensures |PeriodText(p, o)| >= 1
    ensures PeriodText(p, o)[0] == Minus
      <==> PeriodOps.Sign(p) == -1 && !PeriodOps.MixedTiers(p) && !Vanishes(p, o)
    ensures PeriodText(p, o)[0] != Minus ==> PeriodText(p, o)[0] == 'P'
  {
    RenderLead(Projection(p, o), TotalMonths(p), Sgn(ClockNanos(p)));
    ProjectionZero(p, o);
    PeriodOps.SignByTiers(p);
  }

  /**
   * The signs inside `toString`'s text: none when the tiers agree; a minus
   * on a calendar field when negative months meet a positive clock, and on a
   * clock field when a clock that is still negative after rounding meets
   * positive months.
   */
  lemma TextInnerSigns(p: Period, o: Options)
    ensures |PeriodText(p, o)| >= 1
    ensures !PeriodOps.MixedTiers(p) ==> Minus !in PeriodText(p, o)[1..]
    ensures TotalMonths(p) < 0 && ClockNanos(p) > 0 ==> Minus in PeriodText(p, o)[1..]
    ensures TotalMonths(p) > 0 && TruncTo(ClockNanos(p), UnitNanos(EffectiveSmallest(o.smallestUnit))) < 0
      ==> Minus in PeriodText(p, o)[1..]
  {
    var parts := Projection(p, o);
    RenderInnerMinus(parts, TotalMonths(p), Sgn(ClockNanos(p)));
    if TotalMonths(p) < 0 {
      NegativeMonthsField(parts);
    }
    if TruncTo(ClockNanos(p), UnitNanos(EffectiveSmallest(o.smallestUnit))) < 0 {
      NegativeNanosField(parts);
    }
  }

  /** `toString` writes the time designator at most once. */
  lemma TextDesignator(p: Period, o: Options)
    ensures Occurrences('T', PeriodText(p, o)) <= 1
  {
    RenderDesignators(Projection(p, o), TotalMonths(p), Sgn(ClockNanos(p)));
  }

  /**
   * A period that shows nothing at the requested precision is written as
   * `P` and a zero in the smallest reported unit: `PT0S` down to seconds,
   * `PT0M`, `PT0H`, and `P0D` for days or any calendar unit.
   */
  lemma ZeroPeriodText(p: Period, o: Options)
    requires Vanishes(p, o)
    ensures PeriodText(p, o) == "P" + ZeroFor(EffectiveSmallest(o.smallestUnit))
  {
    var parts := Projection(p, o);
    var sign := Sgn(ClockNanos(p));
    ProjectionZero(p, o);
    BodyChars(parts, TotalMonths(p) < 0 && sign > 0, TotalMonths(p) > 0 && sign < 0);
    ZeroTextByUnit(p, o);
  }
}
