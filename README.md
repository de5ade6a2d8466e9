# drug.py — a verified model of the concentration monitor

`drug.py` estimates how much of a substance is in the body over time. It
prints a live, in-place value to the terminal. The user gives a dose, the
time to peak (tmax), an absorption half-life and an elimination half-life,
in hours, minutes or seconds. Every quarter second the program reads the
clock, decides whether the absorption phase is over, and prints either a
concentration or, in probability mode, the percentage of the dose still
present. Three modes exist: exponential (the default), linear
(`--linear`), and probability (`--probability`).

This project models that core in Dafny and proves properties of it.

- `outcomes.dfy` (module `Outcomes`): `Option`, `Result`, and `Fault`.
  `Fault` lists the ways the program stops: the explicit exit when both
  mode flags are set, and the Python exceptions that end the program.
- `units.dfy` (module `Units`): `convert_to_seconds`.
- `precision.dfy` (module `Precision`): how the `-p` flag is clamped, and
  `get_precision`. Precision 0 truncates toward zero with `int()`; any other
  precision rounds down with `floor`.
- `kinetics.dfy` (module `Kinetics`): `get_constant` and the formulas in
  `elimination_functions` and `absorption_functions`.
- `startup.dfy` (module `Startup`): mode selection, filling in missing
  parameters from prompt answers (the `for i in input_values` loop, as a
  method over a map with a loop), and converting the times to seconds.
- `monitoring.dfy` (module `Monitoring`): one loop iteration as a pure
  `Step`, finite runs of iterations as `Run`, and the class `Monitor`. Its
  fields `tmaxed` and `tmaxEpoch` are updated by `Tick` and `RunTicks`,
  whose contracts tie them to `Step` and `Run`.

Numbers are Dafny `real`s, an idealisation of Python floats. `0.5 ** x` is a
function parameter `halfPow`. The lemmas assume only the laws in
`Kinetics.IsHalfPow`: the value is 1 at 0 and 1/2 at 1, always positive,
and strictly decreasing. `math.log(2)` is a parameter `ln2`, positive where
a lemma needs it.

A tick takes the three clock readings that one loop iteration makes, in
order: the reading for the time since the dose (drug.py:105), the reading
for the time since tmax (drug.py:106), and the reading that becomes the new
tmax epoch (drug.py:111, 123 and 134). Both elapsed times are computed
before the phase check. On the tick that ends absorption, the elimination
value is therefore computed from the old epoch, which is 0. The lemma
`TransitionTickUsesStaleEpoch` states this. Every later tick measures from
the epoch read on the transition tick (`LaterTicksMeasureFromTransitionEpoch`). The `concentration = dose`
assignment on that tick is never printed.

Where the code does something a reader might not expect, the model
follows the code:
- Precision 0 truncates toward zero (`int()`), not toward minus infinity.
- The `-p` help text (drug.py:9) calls the precision ineffective with the
  probability flag, but in probability mode the absorption-phase value is
  still truncated to the given precision (drug.py:136). Only the
  elimination-phase percentage ignores it.
- An unrecognised unit is not refused at start-up. `convert_to_seconds`
  returns None. The first tick then compares the elapsed time with None and
  raises a `TypeError`. An empty unit string raises an `IndexError` at
  drug.py:57, after the prompts.
- A zero half-life, a zero absorption half-life in default mode, or a zero
  tmax in the linear modes raises a `ZeroDivisionError` on the first tick
  that divides by it.

## Model

| member | source | states |
|---|---|---|
| Units.ConvertToSeconds | drug.py:55-66 | only the unit's first character matters; 'h', 'm' and 's' give 3600·x, 60·x and x; any other character gives None, and there is no case in which a first character is None |
| Units.ConvertIsLinear | drug.py:55-66 | whether the unit is recognised does not depend on the magnitude; conversion is linear and monotone in the magnitude |
| Units.ConvertOneOfEach | drug.py:57-64 | one hour, minute and second, in long or short spelling, give 3600, 60 and 1 seconds; "days" and "Hours" give None |
| Precision.EffectivePrecision | drug.py:74-79 | the effective precision is p when 0 ≤ p ≤ 6, and 0 when p is missing or out of range |
| Precision.TruncateTowardZero | drug.py:30-31 | `int()` keeps the sign and drops less than 1: n ≤ x < n+1 for x ≥ 0, and n−1 < x ≤ n for x < 0 |
| Precision.GetPrecision | drug.py:29-32 | precision 0 truncates toward zero; for p > 0 the result y has at most p decimals (y·10^p is an integer) and y ≤ x < y + 10^−p |
| Precision.GetPrecisionIsUnique | drug.py:32 | for p > 0, the only value with at most p decimals that lies at or below x and less than 10^−p below it is the displayed one, so the contract of GetPrecision determines floor(x·10^p)/10^p |
| Precision.GetPrecisionIsGreatestGridPoint | drug.py:32 | for p > 0, no multiple of 10^−p between the result and x is skipped |
| Precision.GetPrecisionMonotone | drug.py:29-32 | a larger value is never displayed as a smaller one, at any precision |
| Precision.NegativeValuesSplitByPrecision | drug.py:29-32 | for a negative value not on the grid, precision 0 rounds up and any other precision rounds down |
| Precision.Examples | drug.py:29-32 | 1.23456789 at precision 2 is 1.23; 1.999 at precision 0 is 1; −1.5 at precision 0 is −1; −1.55 at precision 1 is −1.6 |
| Kinetics.GetConstant | drug.py:25-27 | ke · half-life = ln 2, and ke > 0 for a positive half-life |
| Kinetics.EliminationConcentration | drug.py:36-38 | the displayed value is dose·0.5^(t/h) cut by get_precision: truncated toward zero at precision 0, and otherwise the value with at most p decimals that lies at or below it and less than 10^−p below it |
| Kinetics.LinearEliminationConcentration | drug.py:42-45 | the displayed value is dose − dose·t·ke cut by get_precision: truncated toward zero at precision 0, and otherwise the value with at most p decimals that lies at or below it and less than 10^−p below it |
| Kinetics.AbsorptionConcentration | drug.py:47-49 | the displayed value is dose − dose·0.5^(t/ha) cut by get_precision: truncated toward zero at precision 0, and otherwise the value with at most p decimals that lies at or below it and less than 10^−p below it |
| Kinetics.LinearAbsorptionConcentration | drug.py:50-52 | the displayed value is (t/peak)·dose cut by get_precision: truncated toward zero at precision 0, and otherwise the value with at most p decimals that lies at or below it and less than 10^−p below it |
| Kinetics.Probability | drug.py:39-41 | the result is 100 times the decay factor rounded down to a whole percentage (floor); a factor within [0, 1] gives 0..100, and a factor of one half gives exactly 50 |
| Kinetics.EliminationEndpoints | drug.py:36-38 | exponential elimination is the dose at t = 0 and half the dose at t = half-life |
| Kinetics.AbsorptionEndpoints | drug.py:47-49 | exponential absorption is 0 at t = 0 and half the dose at t = absorption half-life |
| Kinetics.ProbabilityEndpoints | drug.py:39-41 | the probability is 100 at t = 0 and 50 at t = half-life, whatever the dose |
| Kinetics.LinearEliminationStartsAtDose | drug.py:42-45 | linear elimination equals the dose at t = 0 |
| Kinetics.LinearAbsorptionEndpoints | drug.py:50-52 | linear absorption is 0 at t = 0 and the whole dose at t = peak |
| Kinetics.EliminationDecreasing | drug.py:36-37 | for a positive dose and half-life, exponential elimination strictly falls as t grows |
| Kinetics.EliminationDisplayNeverRises | drug.py:36-38 | the displayed exponential elimination never rises as t grows |
| Kinetics.EliminationBounded | drug.py:36-37 | from t = 0 on, exponential elimination stays within (0, dose] |
| Kinetics.AbsorptionIncreasing | drug.py:47-48 | for a positive dose and absorption half-life, exponential absorption strictly rises as t grows |
| Kinetics.AbsorptionDisplayNeverFalls | drug.py:47-49 | the displayed exponential absorption never falls as t grows |
| Kinetics.AbsorptionBounded | drug.py:47-48 | from t = 0 on, exponential absorption stays within [0, dose) |
| Kinetics.ProbabilityIsFallingPercentage | drug.py:39-41 | from t = 0 on, the probability lies in 0..100 and never rises as t grows |
| Kinetics.LinearEliminationCrossesZero | drug.py:42-45 | linear elimination is exactly 0 at t = half-life / ln 2, and it is negative after that because nothing clamps it |
| Kinetics.LinearEliminationDecreasing | drug.py:42-44 | for a positive dose, half-life and ln 2, linear elimination strictly falls as t grows |
| Kinetics.LinearEliminationDisplayNeverRises | drug.py:42-45 | the displayed linear elimination never rises as t grows |
| Kinetics.LinearAbsorptionProportional | drug.py:50-51 | linear absorption is proportional to the time since the dose |
| Startup.SelectMode | drug.py:81-83 | setting both flags is refused with the conflict exit (drug.py:22-23); otherwise the mode is linear exactly when --linear is set, and probability exactly when --probability is set |
| Startup.ResolveFrom | drug.py:84-92 | resolution fails only at the end of the input, and on success every listed parameter has a value |
| Startup.ResolveInputs | drug.py:84-92 | the in-place loop over the argument dictionary computes exactly the resolution that ResolveFrom specifies |
| Startup.PromptsAreExactlyTheMissing | drug.py:84-92 | exactly the missing parameters are prompted for, each once, except the absorption half-life outside the default mode |
| Startup.ResolveSucceedsIffEnoughReplies | drug.py:84-92 | resolution succeeds exactly when there is an answer for every prompt |
| Startup.ResolveKeepsGiven | drug.py:85 | a value given on the command line is never replaced |
| Startup.ResolveZeroesAbsorption | drug.py:86-89 | outside the default mode, a missing absorption half-life becomes 0 without a prompt |
| Startup.ResolveAnswersInOrder | drug.py:90-92 | the k-th prompted parameter gets the k-th answer |
| Startup.DoseIsAskedFirst | drug.py:20 | the dose is first in the parameter list, so when it is prompted for, its prompt is the first one |
| Startup.InputOrderFacts | drug.py:20 | the parameter list has no repeats, and outside the default mode the absorption half-life is never prompted for |
| Startup.Configure | drug.py:72-96 | start-up fails with the conflict exactly when both flags are set, and otherwise only at the end of the input or on an empty unit; the mode follows the flags; the precision is the effective precision of -p, at most 6 |
| Startup.ConflictBeforeAnyPrompt | drug.py:22-23 | with both flags set, the result is the conflict whatever the answers, so no prompt is issued |
| Startup.ConfigureErrors | drug.py:84-96 | the end of the input is hit exactly when there are more prompts than answers; an empty unit fails only after all prompts are answered |
| Startup.ConfigureGivenValues | drug.py:93-96 | without the conflict, with an answer for every prompt and a non-empty unit, start-up succeeds; the unit defaults to "h"; all three times are None exactly when the unit's first character is not h/m/s; given values are used as given and converted; outside the default mode a missing absorption half-life becomes 0 seconds |
| Startup.ConfigurePromptedValues | drug.py:84-96 | under the same conditions, the k-th answer becomes the k-th prompted parameter, converted to seconds for times; a missing dose is always the first prompt |
| Monitoring.AbsorptionReading | drug.py:113-136 | the absorption-phase value is the exponential absorption concentration in default mode and the linear ramp to tmax in the linear and probability modes; it raises exactly when the mode's divisor (the absorption half-life in default mode, tmax otherwise) is None (TypeError) or zero (ZeroDivisionError) |
| Monitoring.EliminationReading | drug.py:116-140 | the elimination-phase value is the exponential concentration in default mode, the linear concentration in linear mode, and the percentage of get_probability in probability mode; it raises exactly when the half-life is None (TypeError) or zero (ZeroDivisionError) |
| Monitoring.EliminationReadingNeverRises | drug.py:116-140 | for a positive dose, half-life and ln 2, the value shown during elimination never rises as the time since tmax grows, in every mode; in probability mode it stays within 0..100 |
| Monitoring.AbsorptionReadingNeverFalls | drug.py:112-136 | for a positive dose and a positive divisor, the value shown during absorption never falls as the time since the dose grows, in every mode |
| Monitoring.Step | drug.py:103-140 | a tick never leaves elimination or moves the epoch once tmax is passed; without a fault, the phase changes exactly when time since the start ≥ tmax, and the epoch becomes that tick's third reading; an absorbing tick prints the absorption value for the time since the start, an eliminating tick prints the elimination value for its second reading minus the recorded epoch, and the transition tick prints both, the second measured from the epoch it started with; each case raises exactly when one of its readings does |
| Monitoring.Run | drug.py:103-140 | a run produces at most one outcome per tick |
| Monitoring.StepPrints | drug.py:107-140 | when no time is None and no divisor is zero, a tick never raises and prints two values on the transition tick, one otherwise |
| Monitoring.UnrecognisedUnitFailsFirstTick | drug.py:107-109 | when the unit fell through, the first tick raises TypeError before printing anything |
| Monitoring.TransitionTickUsesStaleEpoch | drug.py:105-118 | the transition tick prints the absorption value and then the elimination value computed from the raw second clock reading, because the epoch was still 0 |
| Monitoring.TransitionPercentageFromClock | drug.py:130-140 | in probability mode the transition tick therefore shows at most 50% once the clock reading is at least one half-life |
| Monitoring.RunNeverReverts | drug.py:108-111 | once tmax is passed, no later tick goes back to absorbing or changes the epoch |
| Monitoring.RunFromAbsorbing | drug.py:103-111 | a run from absorbing prints on every tick; it ends in elimination exactly when some tick found tmax passed, with the epoch read on the first such tick |
| Monitoring.RunNoRaise | drug.py:103-140 | when no time is None and no divisor is zero, no tick of a run raises |
| Monitoring.TransitionExactlyOnce | drug.py:108-118 | in a run from absorbing, the one tick that prints two values is the first tick that finds tmax passed |
| Monitoring.EliminatingPrintsOne | drug.py:116-140 | every tick after tmax prints exactly one value |
| Monitoring.EliminatingMeasuresFromEpoch | drug.py:106-140 | after tmax, each tick of a run prints the elimination value for its second reading minus the recorded epoch |
| Monitoring.LaterTicksMeasureFromTransitionEpoch | drug.py:106-140 | in a run from the start, every tick after the first due tick k prints the elimination value for its second reading minus the epoch read on tick k |
| Monitoring.Monitor.constructor | drug.py:72-80 | the loop starts absorbing, with the tmax epoch at 0 |
| Monitoring.Monitor.Tick | drug.py:103-140 | one loop iteration updates tmaxed and tmax_epoch and returns what it prints, exactly as Step describes |
| Monitoring.Monitor.RunTicks | drug.py:103-140 | a sequence of iterations, stopping at the first one that raises, is exactly what Run describes |

## Left out

- Command-line parsing and interactive prompting (drug.py:8-20, 90-92) are not modelled. The parsed flags (`Startup.Args`) and the prompt answers are inputs. The prompt labels are not modelled. An answer that `float()` rejects (a `ValueError`) is not modelled either: every answer is a number.
- The clock (`get_epoch`, drug.py:68-69) and `time.sleep(0.25)` are not modelled. Each tick receives its three clock readings as a `Monitoring.Clock`. The endless `while True` loop is modelled as finite runs (`Run`, `RunTicks`).
- Terminal output is not modelled: the ANSI escapes, the start banner with the local date (drug.py:100-102), and the text around each value. Only the sequence of printed values is kept. Python prints `int()` results without a decimal point, but the model keeps every concentration as a `real`.
- The top-level exception handlers (drug.py:142-147) are not modelled. Exceptions are `Outcomes.Fault` values. The generic handler calls `exit("\n", e)` with two arguments, which `exit` does not accept, so in Python it raises a further `TypeError` and the program ends with a traceback rather than a message; the model stops at the `Fault`.
- IEEE floating point is not modelled: rounding of products and quotients, `OverflowError` from `0.5 ** x` or `int()` of an infinity, and NaN. `0.5 ** x` and `math.log(2)` are parameters, constrained by `Kinetics.IsHalfPow` and by `0 < ln2` where needed.
- Limits are not stated: that exponential absorption approaches the dose as time grows is covered only by AbsorptionBounded and AbsorptionIncreasing (below the dose, strictly rising).
