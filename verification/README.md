# Mathematical change calculations

A model of MathChangeCalculations. Four quantities are tied by compound
change over a number of periods: a start value, an end value, a number of periods
and a percent change per period:

    end = start * factor ^ periods,   factor = percent / 100 + 1

index.js derives each quantity from the other three (`percentChangeByPeriod`,
`start`, `end`, `periods`, with the helper `changeFactorOnPercent`).
wrapper.js supplies `calc`. A caller passes all four quantities and leaves
exactly one `undefined`. `chkValues` checks the inputs and names the missing
one, or throws one of the two `ERRS` errors, and `calc` routes to the
calculation that derives it.

The model has three modules.

- `Numbers` (numbers.dfy) models JavaScript numbers as a real, a signed
  infinity or NaN. It defines the `+ - * /` that index.js uses, including
  division by zero (an infinity, or NaN for 0 / 0) and NaN propagation.
- `ChangeMath` (change_math.dfy) models the five functions of index.js.
  `Math.pow` and `Math.log` are part of the JavaScript runtime, so they are
  a parameter `m: Math`. Each lemma names, as a `requires`, the laws of
  `Math.pow` and `Math.log` it relies on:
  - `NatPowers`: exact powers at natural exponents.
  - `Roots`: exact n-th roots.
  - `LogLaws`: the logarithm laws.
  - `IeeePow` and `IeeeLog`: the IEEE 754 special cases the tests reach.
- `Wrapper` (wrapper.dfy) models `chkValues` as a loop method. The method is
  proved equal to the declarative check `Validate`. `calc` is a method that
  is proved equal to `Resolve`, which applies the check and then the
  dispatch table.

index.js computes the start as `Math.pow(change, periods) / end`, and that
is not the inverse of `end` (see Findings). `ChangeMath.Start` models the code
as written, and `calc` in `Wrapper` dispatches to it, as wrapper.js does. The
corrected start, `end / Math.pow(change, periods)`, is
`ChangeMath.StartFromEnd`, with its round trips proved beside it. On the
repository's own test values (end 8, 3 periods, 100%) the two agree.

test/index.test.js:57-59 expects `periods(1, 0, -100)` to be 1. The code
computes `Math.log(0) / Math.log(0)`, which is -Infinity / -Infinity, so NaN.
The model follows the code (`ChangeMath.PeriodsTotalLoss`). Every number
of periods from 1 up takes 1 to 0 at -100% (`ChangeMath.EndTotalLoss`), so
no single answer exists.

## Model

| member | source | states |
|---|---|---|
| Numbers.Negate | index.js:32 | exact negation of a finite number; NaN stays NaN; an infinity changes sign |
| Numbers.Add | index.js:94 | exact sum of two finite numbers; NaN exactly when an operand is NaN or the operands are opposite infinities; otherwise an infinity exactly when an operand is one, and it is that operand |
| Numbers.Sub | index.js:32 | exact difference of two finite numbers; NaN when an operand is NaN; an infinity minus a finite number is that infinity; a finite number minus an infinity is the opposite infinity; infinity minus infinity is NaN for equal signs and the first operand otherwise |
| Numbers.Mul | index.js:58 | exact product of two finite numbers; NaN exactly when an operand is NaN or an infinity is multiplied by zero; otherwise a product with an infinity is an infinity whose sign is the product of the operands' signs |
| Numbers.Div | index.js:29 | exact quotient for a nonzero finite divisor; a nonzero number over zero is an infinity of the dividend's sign; an infinity over a finite number is an infinity of the quotient's sign; a finite number over an infinity is 0; NaN exactly when an operand is NaN, both are infinite, or both are zero |
| ChangeMath.ChangeFactorOnPercent | index.js:88-96 | for a finite percent, the factor is finite and (factor - 1) * 100 is the percent; Infinity and NaN pass through unchanged |
| ChangeMath.PercentChangeByPeriod | index.js:28-34 | when `Math.pow(end / start, 1 / periods)` is a finite c, the rate is finite and its change factor rate / 100 + 1 is c; a NaN root gives a NaN rate |
| ChangeMath.Start | index.js:43-47 | as written: for a finite nonzero end and a finite factor^periods, start * end is factor^periods (not start * factor^periods = end); a NaN end gives NaN |
| ChangeMath.StartFromEnd | index.js:43-47 | corrected: for a finite end and a finite nonzero factor^periods, start * factor^periods is end; a NaN end gives NaN |
| ChangeMath.End | index.js:56-60 | a compound factor of 1 keeps the start as it is; a NaN start gives NaN |
| ChangeMath.EndOverFactor | index.js:56-60 | for a finite start and a finite nonzero factor^periods, end / factor^periods is the start |
| ChangeMath.Periods | index.js:70-79 | when ln(factor) is finite and nonzero and ln(end / start) is finite, the result n is finite and n * ln(factor) = ln(end / start); ln(factor) = ln(end / start) = 0 gives NaN |
| ChangeMath.FactorLandmarks | index.js:81-93 | 0% is factor 1 (no change), -100% is factor 0, 100% is factor 2 (doubling), 200% is factor 3 (tripling) |
| ChangeMath.EndClosedForm | index.js:56-60 | with exact natural powers, end(s, n, p) is (p / 100 + 1)^n * s |
| ChangeMath.EndOfNoPeriods | index.js:56-60 | zero periods leave the start value unchanged, at any percent |
| ChangeMath.EndOfNoChange | index.js:81-84 | a 0% change leaves the start value unchanged for any number of periods |
| ChangeMath.EndTotalLoss | index.js:56-60 | -100% for one period or more ends at 0, whatever the start |
| ChangeMath.EndCompounds | index.js:56-60 | compounding for a periods and then for b periods equals compounding for a + b periods |
| ChangeMath.EndExampleDoubling | test/index.test.js:29-31 | end(1, 3, 100) is 8 |
| ChangeMath.EndExampleTotalLoss | test/index.test.js:53-55 | end(1, 1, -100) is 0 |
| ChangeMath.StartClosedForm | index.js:43-47 | start as written is factor^n / end; a zero end gives an infinity of factor^n's sign, or NaN when factor^n is 0 too |
| ChangeMath.StartOfEnd | index.js:43-47 | start as written, applied to the end reached from s != 0, gives 1 / s, not s (factor nonzero) |
| ChangeMath.StartOfEndRoundTrip | index.js:43-47 | start as written undoes end if and only if the true start is 1 or -1 (start nonzero, percent not -100) |
| ChangeMath.StartIsNotInverse | index.js:45 | end(2, 1, 0) is 2, but start(2, 1, 0) as written is 0.5 |
| ChangeMath.StartFromEndOfEnd | index.js:43-47 | corrected start (end / factor^n) recovers any start from the end it reaches, whenever the percent is not -100 |
| ChangeMath.EndOfStartFromEnd | index.js:56-60 | end applied to the corrected start recovers any end, whenever the percent is not -100 |
| ChangeMath.StartExamples | test/index.test.js:25-27 | start(8, 3, 100) is 1, both as written and corrected |
| ChangeMath.LogOfPower | index.js:73-74 | under the logarithm laws, ln(x^n) is n * ln(x) for x > 0 |
| ChangeMath.PeriodsOfEnd | index.js:70-79 | periods recovers n from the start s != 0 and the end reached after n periods, for any percent above -100 other than 0 |
| ChangeMath.PeriodsNoNetChange | index.js:70-79 | equal nonzero start and end take 0 periods, for every percent above -100 other than 0 |
| ChangeMath.PeriodsIndeterminate | test/index.test.js:83-87 | equal start and end at 0% give 0 / 0, so NaN |
| ChangeMath.PeriodsTotalLoss | test/index.test.js:57-59 | an end of 0 at -100% gives -Infinity / -Infinity, so NaN |
| ChangeMath.PeriodsExampleDoubling | test/index.test.js:33-35 | periods(1, 8, 100) is 3 |
| ChangeMath.PeriodsExamplesNoNetChange | test/index.test.js:49-93 | periods(4, 4, 99999999) and periods(4, 4, 500) are 0; periods(1, 1, 0) is NaN |
| ChangeMath.PercentChangeOfPow | index.js:31-33 | once `Math.pow` gives the per-period factor c, the rate is (c - 1) * 100 |
| ChangeMath.PercentChangeOfPower | index.js:28-34 | when end / start is f^n with f >= 0 and n >= 1, the rate is (f - 1) * 100 |
| ChangeMath.PercentChangeOfEnd | index.js:28-34 | the rate recovers the percent p >= -100 from the start s != 0 and the end reached after n >= 1 periods |
| ChangeMath.EndOfPercentChange | index.js:28-34 | compounding at the derived rate leads back to the end, when end / start is an exact n-th power of a factor >= 0 |
| ChangeMath.PercentChangeTotalLoss | test/index.test.js:45-47 | an end of 0 from a nonzero start is -100% for any positive number of periods |
| ChangeMath.PercentChangeZeroPeriods | test/index.test.js:64-67 | zero periods with end / start > 1 give +Infinity |
| ChangeMath.PercentChangeZeroStart | test/index.test.js:69-77 | a zero start gives +Infinity for a positive end and NaN for a zero end |
| ChangeMath.PercentChangeOfNaN | test/index.test.js:79-81 | a start that is not a number gives NaN for any end, when the periods are a nonzero number or NaN |
| ChangeMath.PercentChangeExamplesOfPowers | test/index.test.js:21-43 | (1, 8, 3) gives 100, (4, 1, 2) gives -50, (1/3, 4/3, 2) gives 100 |
| ChangeMath.PercentChangeExamplesIeee | test/index.test.js:45-77 | (1, 0, 50) gives -100, (1, 2, 0) and (0, 1, 1) give +Infinity, (0, 0, 1) gives NaN |
| Wrapper.EverySlotVisited | wrapper.js:69 | the `for...in` pass visits every one of the four inputs |
| Wrapper.UndefinedAmong | wrapper.js:67-76 | the names collected after k steps are at most k, and every one names an undefined input |
| Wrapper.UndefinedAmongAll | wrapper.js:69-76 | the full pass collects the undefined inputs in the order start, end, period, percent change |
| Wrapper.IsNaN | wrapper.js:73 | `isNaN(val)` for a defined input: true for a non-numeric value or NaN, false for every other number, Infinity included; it has no ensures of its own, and Known (defined as neither undefined nor IsNaN) states its meaning |
| Wrapper.Known | wrapper.js:73 | a defined input passes the `isNaN` check exactly when it holds a number other than NaN; Infinity passes, a non-numeric value fails |
| Wrapper.Validate | wrapper.js:66-84 | a named slot is undefined, and every other input is a number |
| Wrapper.ChkValues | wrapper.js:66-84 | the loop returns exactly what Validate decides, including the early throw on a non-number |
| Wrapper.ValidateOk | wrapper.js:78-80 | a slot is named if and only if that input alone is undefined and the other three are numbers |
| Wrapper.ValidateNotANumber | wrapper.js:73-75 | IsUndefinedOrANumber is thrown if and only if some input is defined but not a number, however many are undefined |
| Wrapper.ValidateCount | wrapper.js:78-83 | with no non-number input, no undefined input or two or more undefined inputs give ExactlyOneUndefined |
| Wrapper.ZeroIsKnown | wrapper.js:71-75 | a zero is a value, not a missing input: its slot is never named and it never causes IsUndefinedOrANumber |
| Wrapper.Message | wrapper.js:23-26 | the two ERRS strings, character for character; MessagesDistinct proves they differ |
| Wrapper.MessagesDistinct | wrapper.js:23-26 | the two error messages are different strings, so the message identifies the error |
| Wrapper.Dispatch | wrapper.js:41-54 | the `switch` of calc; its table is stated by ResolveTable, and DispatchIgnoresMissing states that the missing input is never read |
| Wrapper.DispatchIgnoresMissing | wrapper.js:41-54 | whatever the missing slot holds, the dispatched calculation gives the same result |
| Wrapper.Resolve | wrapper.js:36-58 | calc throws exactly when the check throws, and with the check's error |
| Wrapper.Calc | wrapper.js:36-58 | calc returns Resolve: the check's error, or the chosen calculation's result, including Infinity and NaN |
| Wrapper.ResolveTable | wrapper.js:41-54 | a failed check passes its error through; each named slot goes to its calculation of index.js (start as written for a missing start) with the other three inputs in that calculation's order |
| Wrapper.ResolveNamed | wrapper.js:38-54 | when exactly one input is undefined and the rest are numbers, calc dispatches on that slot |
| Wrapper.CalcExampleEnd | test/wrapper.test.js:13-15 | calc(1, undefined, 3, 100) is 8 |
| Wrapper.CalcExampleStart | test/wrapper.test.js:9-11 | calc(undefined, 8, 3, 100) is 1 |
| Wrapper.CalcExampleStartNotInverse | wrapper.js:42-44 | calc(undefined, 2, 1, 0) is 0.5, although a start of 2 is what reaches an end of 2 |
| Wrapper.CalcExamplePeriods | test/wrapper.test.js:17-19 | calc(1, 8, undefined, 100) is 3 |
| Wrapper.CalcExamplePercentChange | test/wrapper.test.js:21-23 | calc(1, 8, 3, undefined) is 100 |
| Wrapper.CalcExampleZeroStart | test/wrapper.test.js:25-27 | calc(0, 8, 3, undefined) is +Infinity |
| Wrapper.CalcExampleErrors | test/wrapper.test.js:32-42 | four numbers, or two undefined inputs, throw ExactlyOneUndefined; a string throws IsUndefinedOrANumber |

## Left out

- Floating point: the model has no rounding, no overflow to Infinity for large finite results, and a single zero (no -0). A finite result is the exact real result. The tests' values (1/3, 4/3) rely on how rounding happens to fall, and the model does not follow that.
- `Math.pow` and `Math.log` are runtime functions. They are a parameter, and what each lemma needs of them is a stated hypothesis. The model does not show that the runtime satisfies these hypotheses. The floating-point runtime satisfies NatPowers, Roots and LogLaws only approximately.
- JavaScript's `isNaN` coerces its argument, so `null`, booleans and numeric strings pass the check as numbers. The model's inputs are `undefined`, a number, or a value that coerces to NaN. A caller that passes a coercible value is modelled by passing the number it coerces to.
- The `console.log` at wrapper.js:56 is output only and is not modelled.
- The default `periods = 1` of `percentChangeByPeriod` (index.js:28) applies when that argument is missing or `undefined`. `calc` reaches this function only when the period is a number, so the default never applies there. A direct call that leaves the period out is not modelled.
- Fractional period counts: `periods` returns ln(end / start) / ln(factor), in general not a whole number, and `end` and `start` accept such counts through `Math.pow`. The lemmas about End, Start, StartFromEnd and Periods cover natural period counts only, because NatPowers fixes `Math.pow` only at natural exponents.
- Thrown `Error` objects are modelled as the `Err` case of a result carrying the error kind. The message strings are `Wrapper.Message`. Stack traces and the Error class are not modelled.
- Property visiting order is fixed to the object literal's insertion order (start, end, period, percent change), which JavaScript guarantees for these keys.
- sand.js and test/test.js (an older test file for functions the module no longer exports) are not part of this model.

## Findings

| source | as written | input that shows it | evidently intended | confidence | as-written member | corrected member |
|---|---|---|---|---|---|---|
| index.js:45 | `Math.pow(change, periods) / end` | start 2, 1 period, 0%: `end(2, 1, 0)` is 2, but `start(2, 1, 0)` is 0.5, not 2 | `end / Math.pow(change, periods)`, the start that leads to `end`; the repository's test uses a start of 1, where both agree | not executed | ChangeMath.StartIsNotInverse | ChangeMath.StartFromEndOfEnd |
