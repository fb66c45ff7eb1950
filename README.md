# node-period in Dafny

A model of the engine behind `Period` in node-period (`lib/index.cjs`).
A period is an immutable record of nine integer fields, from years down to
nanoseconds. It has two tiers that never mix: a calendar tier (years and
months, folded into a month count) and a clock tier (days to nanoseconds,
one signed nanosecond count at fixed ratios). The model covers:

- **Normalisation** (`_wrapSlots`, the constructor): the month count is
  split back into years and months with truncating division. The clock count
  is split day-largest, so every field shares the sign of its tier. The
  result is the `Period` subset type, whose invariant is this canonical form.
- **Conversion and projection** (`_convertToSlots`, `_partsToSlots`,
  `_slotsToParts`):
  - units become slots;
  - quarters and weeks fold into months and days;
  - a period is projected back onto the requested largest and smallest units.
  `_slotsToParts` fills its parts record step by step and is written as a
  method proved equal to a projection function.
- **Value operations**: `sign`, `isNegative`, `negated`, `multiply`,
  `round`, and `add`/`subtract`, both for another period and for an
  amount of a unit.
- **`between`**: the calendar difference of two instants. It orders them,
  subtracts field by field, borrows from the finest field to the coarsest
  (the day borrow depends on the length of a month) and negates when the
  instants came in reverse. The borrow chain is a method proved equal to a
  closed-form reference written with totals.
- **`[toStringSymbol]`** and **`numberToString`**: the ISO 8601 duration
  text. These cover the two-tier sign rule, the suppressed zero fields, the
  single `T` designator, the fallback zero text, and the trimmed decimal
  seconds. The string is built by methods that append step by step, each
  proved equal to a text function. The properties of the text are lemmas
  about that function.

Modules: `Wrappers` (Option, Result), `Arith` (JavaScript's truncating `/`
and `%`), `Units` (the unit ladder and the fixed ratios), `Clock` (the
nanosecond breakdown), `Normalize` (slots, parts, projection), `PeriodOps`
(the value operations), `CalendarDiff` (`between`), `Text`
(`numberToString`) and `Format` (`toString`).

From 31 January to 1 March of a common year the borrow chain gives
1 month and 1 day (`CalendarDiff.JanuaryLastToMarchFirst`).

## Model

| member | source | states |
|---|---|---|
| Arith.Quot | lib/index.cjs:309 | `MathTrunc(a / b)`: the quotient has the dividend's sign and `b * q` never passes `a` |
| Arith.Rem | lib/index.cjs:310 | `a % b`: `a == b * Quot(a, b) + r`, `|r| < b`, and `r` takes the dividend's sign |
| Arith.QuotRemUnique | lib/index.cjs:309-310 | a quotient and remainder meeting the defining equation, the bound and the sign rule are the truncating ones |
| Arith.Sgn | lib/index.cjs:1246 | the clock sign is -1 exactly for a negative count and 1 exactly for a positive one |
| Clock.Split | lib/index.cjs:195-206 | the day-largest breakdown keeps the nanosecond total, every field is within its base, and all fields share the sign of the total |
| Clock.TotalSign | lib/index.cjs:195-206 | a balanced breakdown has a negative total exactly when it is non-positive and not zero, and a zero total exactly when it is all zeros |
| Clock.SplitTotal | lib/index.cjs:195-206 | splitting the total of a balanced breakdown gives it back |
| Clock.BalancedUnique | lib/index.cjs:195-206 | two balanced breakdowns with the same total are equal |
| Clock.SplitNeg | lib/index.cjs:1142-1154 | the breakdown of a negated count is the field-wise negated breakdown |
| Clock.TruncTo | lib/index.cjs:335-340 | rounding toward zero at a unit: moves less than one unit, toward zero, to a multiple of the unit |
| Normalize.WrapSlots | lib/index.cjs:168-212 | normalisation keeps the month total and the nanosecond total, gives a canonical period, and zero months become 0 years and 0 months |
| Normalize.CalendarUnique | lib/index.cjs:188-190 | years and months that share a sign with |months| < 12 are determined by their month total |
| Normalize.CanonicalUnique | lib/index.cjs:168-212 | two canonical periods with the same month total and nanosecond total are equal |
| Normalize.WrapFixesExactlyCanonical | lib/index.cjs:168-212 | normalisation leaves a record unchanged exactly when it is already canonical |
| Normalize.ConvertToSlots | lib/index.cjs:250-280 | a calendar unit becomes `amount * months-per-unit` months and no clock; a clock unit becomes `amount * nanos-per-unit` and no months |
| Normalize.NinetyMinutes | lib/index.cjs:270-278 | 90 minutes convert to 1 hour 30 minutes |
| Normalize.PartsToSlots | lib/index.cjs:383-420 | the period's month total is `years*12 + quarters*3 + months` and its nanosecond total counts weeks as 7 days |
| Normalize.EffectiveSmallest | lib/index.cjs:300-302 | a smallest unit of day or finer is kept, and one above day (week, month, quarter, year) is replaced by day |
| Normalize.SplitTruncTo | lib/index.cjs:335-340 | breaking down the rounded count equals dropping the fields finer than the smallest unit from the breakdown |
| Normalize.MonthFields | lib/index.cjs:303-317 | years, quarters and months sum back to the month total; years and quarters are present exactly when asked for; the months are below 3 with quarters and below 12 by year, and the quarters below 4 when both years and quarters are asked for; years, quarters and months all share the total's sign, so the split is the unique one |
| Normalize.BreakdownParts | lib/index.cjs:341-375 | weeks are present exactly with `withWeeks`; weeks times 7 plus days is the breakdown's days, both with its sign, leaving days strictly between -7 and 7; each clock field is present exactly when it is not finer than the smallest unit, and a present field is the breakdown's field; an untruncated breakdown is given back whole by the parts (`ClockOfParts`) and keeps its total |
| Normalize.ClockFields | lib/index.cjs:318-344 | the clock parts add up to the nanosecond count rounded toward zero at the smallest unit, and stand for exactly the balanced day-largest split of that rounded count (`ClockOfParts` equals `Clock.Split` of it); weeks are present exactly with `withWeeks`, leave days strictly between -7 and 7, and weeks and days share the count's sign |
| Normalize.Projection | lib/index.cjs:287-376 | the projected parts keep the month total and the rounded nanosecond total, and always report months and days; the calendar fields are the `MonthFields` split of the month total; the clock fields are the balanced day-largest split of the rounded nanosecond count, with weeks as in `ClockFields` |
| Normalize.ProjectionRoundTrip | lib/index.cjs:287-420 | folding the projection back at nanosecond precision gives the period again |
| Normalize.SplitMonths | lib/index.cjs:308-317 | the imperative year and quarter split equals `MonthFields` |
| Normalize.SlotsToParts | lib/index.cjs:287-376 | the parts record filled field by field equals the projection |
| Normalize.ReprojectParsed | lib/index.cjs:456-464 | re-projecting parsed parts keeps their month total, and keeps their nanosecond total at nanosecond precision |
| PeriodOps.Sign | lib/index.cjs:794-825 | -1 exactly when some field is negative, 1 exactly when none is negative and some is positive, 0 exactly for the zero period |
| PeriodOps.IsNegative | lib/index.cjs:780-792 | holds exactly when the sign is -1 |
| PeriodOps.SignByTiers | lib/index.cjs:794-825 | the sign is -1 exactly when a tier total is negative, and 1 exactly when neither is negative and one is positive |
| PeriodOps.Negated | lib/index.cjs:1142-1154 | every field is negated |
| PeriodOps.NegatedIsWrapped | lib/index.cjs:1142-1154 | the negated fields are already canonical, so the constructor's normalisation leaves them as they are |
| PeriodOps.NegatedTotals | lib/index.cjs:1142-1154 | negation negates both tier totals |
| PeriodOps.NegatedInvolutive | lib/index.cjs:1142-1154 | negating twice gives the period back |
| PeriodOps.SignNegated | lib/index.cjs:794-825 | negation negates the sign exactly when the tiers do not have opposite signs; with mixed tiers both the period and its negation have sign -1 |
| PeriodOps.TruncReal | lib/index.cjs:1116 | `MathTrunc` of a finite multiplier: the integer within one of it, toward zero |
| PeriodOps.ScaledTotals | lib/index.cjs:1120-1128 | scaling every field by k scales both tier totals by k |
| PeriodOps.Multiply | lib/index.cjs:1111-1140 | a non-finite multiplier fails, one truncating to 0 fails, and otherwise both tier totals are scaled by the truncated multiplier |
| PeriodOps.MultiplyByMinusOne | lib/index.cjs:1111-1154 | multiplying by -1 is negation |
| PeriodOps.MultiplyByOne | lib/index.cjs:1116 | multiplying by 1 is the identity, and 2.5 acts as 2 |
| PeriodOps.MultiplyWhole | lib/index.cjs:1111-1140 | every non-zero integer multiplier succeeds and scales both totals |
| PeriodOps.Round | lib/index.cjs:1156-1170 | rounding keeps the month total and rounds the nanosecond total toward zero at the smallest unit |
| PeriodOps.RoundIdempotent | lib/index.cjs:1156-1170 | rounding twice is rounding once, and rounding at nanoseconds changes nothing |
| PeriodOps.Add | lib/index.cjs:953-982 | both tier totals add |
| PeriodOps.Subtract | lib/index.cjs:1032-1061 | both tier totals subtract |
| PeriodOps.AddAmount | lib/index.cjs:953-982 | adding an amount of a calendar unit adds to the month total only; a clock unit adds to the nanosecond total only |
| PeriodOps.SubtractAmount | lib/index.cjs:1032-1061 | subtracting an amount of a unit takes it from the matching tier only |
| PeriodOps.AddCalendarKeepsClock | lib/index.cjs:953-982 | adding a calendar amount leaves every clock field unchanged |
| PeriodOps.AddClockKeepsCalendar | lib/index.cjs:953-982 | adding a clock amount leaves years and months unchanged |
| PeriodOps.SubtractAmountIsAddNegated | lib/index.cjs:1032-1061 | subtracting an amount is adding its opposite |
| PeriodOps.AddCommutative | lib/index.cjs:953-982 | addition commutes |
| PeriodOps.AddAssociative | lib/index.cjs:953-982 | addition associates |
| PeriodOps.AddZero | lib/index.cjs:953-982 | the zero period is neutral |
| PeriodOps.SubtractIsAddNegated | lib/index.cjs:1032-1061 | subtracting a period is adding its negation |
| PeriodOps.SubtractUndoesAdd | lib/index.cjs:1032-1061 | subtracting what was added gives the period back |
| PeriodOps.SubtractSelf | lib/index.cjs:1032-1061 | a period minus itself is zero |
| PeriodOps.TwelveMonthsMakeAYear | lib/index.cjs:1020-1030 | adding 12k months equals adding k years |
| PeriodOps.ThreeMonthsMakeAQuarter | lib/index.cjs:1020-1026 | adding 3k months equals adding k quarters |
| CalendarDiff.CompareAntisymmetric | lib/index.cjs:518 | swapping the instants negates the comparison, which is 0 exactly for equal instants |
| CalendarDiff.OrderedDiff | lib/index.cjs:539-583 | for ordered instants the years are non-negative, the months are in 0..11, and every clock field is non-negative and below its base |
| CalendarDiff.OrderedDiffTime | lib/index.cjs:541-571 | the sub-day fields add up to the time-of-day difference taken modulo a day |
| CalendarDiff.OrderedDiffMonths | lib/index.cjs:539-583 | the month total is the calendar month difference, less one exactly when the later day and time fall before the earlier ones |
| CalendarDiff.OrderedDiffClock | lib/index.cjs:541-579 | the nanosecond total is the day and time difference, plus a borrowed month's days exactly when a month was borrowed |
| CalendarDiff.OrderedDiffDays | lib/index.cjs:572-579 | the day field borrows one day when the time went backwards, and a month of `daysInMonth(later.year, later.month - 1)` days, raised to the earlier day of month when that is longer, when the days went negative |
| CalendarDiff.TimeBorrowed | lib/index.cjs:548-571 | the clock borrow chain yields the reference's time fields and a day difference reduced by one exactly when the time of day went backwards |
| CalendarDiff.DayRemainder | lib/index.cjs:548-571 | borrowed sub-day fields total the time-of-day difference modulo a day |
| CalendarDiff.BorrowTime | lib/index.cjs:541-571 | after the borrows, hours < 24, minutes and seconds < 60 and the sub-second fields < 1000, all non-negative, with the elapsed day and time unchanged |
| CalendarDiff.NewPeriod | lib/index.cjs:721-740 | the constructor keeps both tier totals and leaves a canonical record unchanged |
| CalendarDiff.BorrowFields | lib/index.cjs:532-583 | the whole borrow chain on ordered fields equals the reference difference |
| CalendarDiff.Between | lib/index.cjs:515-595 | `between` is zero for equal instants, the ordered difference when the first comes first, and its negation otherwise |
| CalendarDiff.OrderedDiffZero | lib/index.cjs:519-521 | the ordered difference is zero exactly for equal instants |
| CalendarDiff.ZeroDiffSameInstant | lib/index.cjs:539-583 | a zero ordered difference means the instants are equal |
| CalendarDiff.DiffZero | lib/index.cjs:518-521 | `between(a, b)` is zero exactly when `a == b` |
| CalendarDiff.DiffAntisymmetric | lib/index.cjs:522-531 | `between(b, a)` is `between(a, b)` with every field negated |
| CalendarDiff.DiffSign | lib/index.cjs:518-522 | the sign of `between(a, b)` is the opposite of the comparison of `a` with `b` |
| CalendarDiff.JanuaryLastToMarchFirst | lib/index.cjs:572-579 | 31 January to 1 March of 2023 is 1 month and 1 day |
| Text.IntToString | lib/index.cjs:1270 | an integer's decimal text starts with a minus exactly when it is negative |
| Text.NatToStringValue | lib/index.cjs:1270 | the decimal digits of n read back as n |
| Text.PadDigitsValue | lib/index.cjs:150 | the fixed-width fraction digits read back as the fraction |
| Text.TrimZeros | lib/index.cjs:154-157 | the trimmed text is a prefix of the input, only zeros were removed, and it does not end in zero |
| Text.TrimZerosValue | lib/index.cjs:154-157 | trailing zeros scale the value by a power of ten and nothing else |
| Text.TrimFraction | lib/index.cjs:151-165 | the loop that counts trailing zeros produces the trimmed text |
| Text.NumberToString | lib/index.cjs:149-166 | the seconds text is the nine-digit fixed text with trailing zeros and a bare separator removed |
| Text.FractionKept | lib/index.cjs:158-163 | a fraction that is not all zeros keeps its separator and loses only its trailing zeros |
| Text.UnsignedRoundTrip | lib/index.cjs:149-166 | reading the trimmed text of a non-negative count of nanoseconds as seconds gives the count back |
| Text.TrimmedSigned | lib/index.cjs:149-166 | trimming a negative number's text trims its digits and keeps the minus |
| Text.SecondsTextRoundTrip | lib/index.cjs:149-166 | reading the trimmed text of any nanosecond count as seconds gives the count back: trimming loses nothing |
| Text.SecondsTextShape | lib/index.cjs:149-166 | the seconds text is non-empty, starts with a minus exactly for a negative count, and holds only digits, the separator and that leading minus |
| Format.Shown | lib/index.cjs:1270-1303 | a field keeps its sign in the tier that carries the minus sign, and is otherwise shown as its magnitude |
| Format.AppendField | lib/index.cjs:1269-1283 | appends a date field's text: its number and designator, or nothing when zero |
| Format.WriteDate | lib/index.cjs:1268-1283 | the date fields written in order after `P` equal the date text |
| Format.AppendHours | lib/index.cjs:1284-1286 | appends the hours with the time designator, or nothing when zero |
| Format.AppendMinutes | lib/index.cjs:1287-1292 | appends the minutes, with the time designator only when no hours were written |
| Format.AppendSeconds | lib/index.cjs:1293-1304 | appends the seconds as one decimal number, with the time designator only when no hours or minutes were written |
| Format.SecondsNumber | lib/index.cjs:1297-1303 | the seconds and their fractions summed as nanoseconds and written by `numberToString` |
| Format.WriteTime | lib/index.cjs:1284-1304 | the clock fields appended in order equal the time text |
| Format.WriteBody | lib/index.cjs:1268-1304 | the body written step by step is `P` followed by the date and time texts |
| Format.AppendZero | lib/index.cjs:1306-1319 | appends the zero in the finest reported field: seconds, minutes, hours, then days |
| Format.Enclose | lib/index.cjs:1305-1322 | a body that shows nothing gets the zero text, and otherwise a negative period gets the leading minus |
| Format.Finish | lib/index.cjs:1246-1322 | the tier signs pick which tier keeps its minus signs, and the text produced is the rendering of the parts under those signs |
| Format.ToString | lib/index.cjs:1201-1324 | the text produced step by step equals the specified text of the projected period |
| Format.FieldTextChars | lib/index.cjs:1269-1283 | a date field shows nothing exactly when zero, never a `T`, and a minus exactly when its tier keeps its sign and it is negative |
| Format.DateTextChars | lib/index.cjs:1269-1283 | the date text is empty exactly when all date fields are zero, has no `T`, and has a minus exactly when a negative field is in the tier that keeps its sign |
| Format.HoursTextChars | lib/index.cjs:1284-1286 | the hours text is empty exactly for zero hours and otherwise holds one `T` |
| Format.MinutesTextChars | lib/index.cjs:1287-1292 | the minutes text holds a `T` exactly when minutes show and hours do not |
| Format.SecondsTextChars | lib/index.cjs:1293-1304 | the seconds text is empty exactly when all second fields are zero, holds a `T` exactly when nothing coarser in the clock showed, and a minus exactly for negative seconds in the tier that keeps its sign |
| Format.TimeTextChars | lib/index.cjs:1284-1304 | the time text is empty exactly when the clock fields are zero, and otherwise holds exactly one `T` |
| Format.BodyChars | lib/index.cjs:1268-1304 | the body is empty exactly when every field is zero, holds at most one `T`, and holds a minus exactly when a negative field is in the tier that keeps its sign |
| Format.RenderLead | lib/index.cjs:1305-1322 | the text starts with a minus exactly when something shows and the period is negative by the two-tier rule, and otherwise starts with `P` |
| Format.RenderInnerMinus | lib/index.cjs:1247-1303 | after the first character a minus appears exactly when the tiers have opposite signs and the tier that keeps its sign has a negative field |
| Format.RenderDesignators | lib/index.cjs:1284-1319 | the text holds at most one `T` |
| Format.ZeroTextChars | lib/index.cjs:1305-1319 | the zero text holds no minus and at most one `T` |
| Format.ProjectionZero | lib/index.cjs:1218-1267 | the projected fields are all zero exactly when the month total and the rounded nanosecond count are zero |
| Format.ZeroTextByUnit | lib/index.cjs:1305-1319 | the zero text is `T0S` down to seconds, `T0M` at minutes, `T0H` at hours and `0D` at day or coarser |
| Format.TextSign | lib/index.cjs:1246-1322 | the text starts with a minus exactly when the period is negative, its tiers are not of opposite signs, and it does not round to zero; otherwise it starts with `P` |
| Format.TextInnerSigns | lib/index.cjs:1246-1303 | with same-signed tiers no minus appears after the first character; with negative months and a positive clock, or positive months and a negative rounded clock, one does |
| Format.TextDesignator | lib/index.cjs:1284-1319 | the text of a period holds the time designator at most once |
| Format.ZeroPeriodText | lib/index.cjs:1305-1319 | a period that rounds to nothing is written `P` followed by the zero of its smallest unit |

## Left out

- Floating point. Every field and amount is an integer, so fractional amounts, `MathRound` on a fractional month total, `-0` normalisation by `|| 0`, and precision above 2^53 are not modelled.
- Text.NumberToString: `toFixed(9)` is modelled on an exact integer count of nanoseconds, so binary rounding of the double is not captured.
- Normalize.Projection: rounds toward zero only, and so do `PeriodOps.Round` and `Format.ToString`. The `roundingMode` option goes to the duration library unchanged, and that library's rounding code, including its default mode, is not part of this model.
- The internals of the duration library (`DurationPartsToSlots`, `DurationSlotsToParts`, `DurationConvert`, `DurationConvertToParts`, `DurationPartsToDuration`) are replaced by one signed nanosecond count, split at fixed ratios with truncation.
- The duration library is taken to report exactly the clock fields that are not finer than the effective smallest unit and to leave the finer ones undefined (`Normalize.Requested`). Which fields `toParts` reports rests on this, and so does the zero text `T0S`/`T0M`/`T0H`/`0D` that `toString` picks by testing which fields are defined (`Format.ZeroTextByUnit`, `Format.ZeroPeriodText`).
- `SEPARATOR_CHAR` and `NEGATIVE_CHAR` come from the duration library and are taken as `.` and `-`.
- The timestamp library (`TimestampFrom`, `compare`, `toFields`, `getDaysInMonth`) is not part of this model:
  - instants are given as calendar fields within their ranges;
  - their comparison is the lexicographic order of those fields;
  - the month length is any function of year and month, since its month numbering belongs to that library.
- The parsing grammars behind `parse`, `parseUnits`, `parseTime` and `parsePeriod` belong to the duration library. Only their composition of folding and projection is modelled (`Normalize.ReprojectParsed`).
- The dispatch of `toSlots` and `periodToSlots` over Duration, Timestamp, Date and string inputs is not modelled.
- Argument coercion and shape checks (`toAmount`, `TypesToNumber`, `toParts`, `toPartsOptions`) are not modelled.
- Options are given explicitly: largest unit, smallest unit, quarters, weeks.
- The constructor's one- and two-argument forms are not modelled separately. They reduce to the same normalisation (`Normalize.WrapSlots`).
- The `with*` setters only call the constructor again; they are not modelled.
- Alias tables, property definitions, symbol-keyed storage, `toJSON`, `valueOf` and the primitive conversion are not modelled.
