# Land area converter: a Dafny model of the conversion core

The converter of `script.js` takes a value and a source unit and fills ten
result slots, one per unit. Every value is routed through square feet. A
length source (inch, feet, yard) is read as the side of a square: its value
in feet is squared. A length target is read back the same way: the square
root of the square-feet value, divided by the unit's factor in feet. An area
source or target just multiplies or divides by its factor in square feet.
Each number is then written as text: `0` for zero, exponential text below
one millionth, and otherwise six fixed fraction digits with trailing zeros
removed and commas between groups of three integer digits. A display rule
hides the square-feet and square-yard slots for a length source and all
length slots for an area source.

The model is pure, as the source is:

- `units.dfy` (module `Units`): the ten units as an enumeration with a
  total factor function, the length/area split, the slot order and the
  hide rule `Hidden`.
- `conversion.dfy` (module `Conversion`): `ToSquareFeet` and
  `FromSquareFeet` on exact `real`s. No value is `None`, and the slot
  content is `Shown` (dash, number or not-a-number). The square root is
  `Sqrt`, and `UpdateResults` gives the content and visibility of every
  slot.
- `digits.dfy`, `trim.dfy`, `separators.dfy`, `format.dfy` (modules
  `Digits`, `Trim`, `Separators`, `Format`): `formatNumber` over
  `seq<char>`. The fixed-point text (`toFixed(6)`) and the exponential text
  (`toExponential(4)`) that the runtime produces are inputs. Both regular
  expressions are modelled on arbitrary text by their matching rule:
  - `TrimZeros` removes the leftmost match of `\.?0+$`.
  - `Separate` puts a comma at every position where
    `\B(?=(\d{3})+(?!\d))` matches.
  - For text of the shape `['-'] digits '.' digits`, each is proved equal
    to a simpler reference: `Sign + integer + FractionTail(fraction)`, and
    `Sign + Group(integer)`, where `Group` groups the digits in threes from
    the right.

Converting a value to its own unit does not always give it back. The code
squares a length and takes the root again, so a length unit gives back
|v|, not v (`LinearToLinear`). A negative area read into a length slot
gives not-a-number (`AreaToLinear`).

## Model

| member | source | states |
|---|---|---|
| `Units.Factor` | script.js:2-16 | every unit has a factor, and every factor is strictly positive |
| `Units.IsLinear` | script.js:19-21 | inch, feet and yard are the length units, all others are areas; `LinearSlots` and `AreaSlots` prove the two sets |
| `Units.Hidden` | script.js:101 | the hide rule; `AreaSourceShowsAreaSlots` and `LinearSourceShowsAllButSqFeetSqYard` prove which slots stay visible for each kind of source |
| `Units.LinearSlots` | script.js:19-21 | the length units among the slots are exactly inch, feet and yard (three of them) |
| `Units.AreaSlots` | script.js:19-21 | the area units among the slots are exactly the other seven |
| `Units.UnitHasSlot` | script.js:93 | every unit appears in the slot list |
| `Units.SlotsListEveryUnitOnce` | script.js:93 | the slot list has ten entries, lists every unit (each with a positive factor) and repeats none |
| `Units.AreaSourceShowsAreaSlots` | script.js:101-105 | for an area source the visible slots are exactly the seven area units |
| `Units.LinearSourceShowsAllButSqFeetSqYard` | script.js:101-105 | for a length source the visible slots are the three length units plus gunta, cent, ankanam, acre and hectare: every slot but square feet and square yard |
| `Conversion.Sqrt` | script.js:54 | the root is never negative, and its square is the argument whenever a root exists |
| `Conversion.SqrtOfSquare` | script.js:54 | the root of a square is the absolute value of the squared number |
| `Conversion.ToSquareFeet` | script.js:29-44 | no value exactly when no input value; a length source never gives a negative base; an area source's base divided by its factor is the input value |
| `Conversion.FromSquareFeet` | script.js:47-62 | the dash exactly for no value; not-a-number exactly for a negative base in a length slot; an area result times its factor is the base; a length result is non-negative and its square in feet is the base |
| `Conversion.Convert` | script.js:90-98 | the slot content for a value and a source and target unit: the dash exactly when there is no value, and not-a-number exactly for a negative value from an area source into a length slot |
| `Conversion.NoValueGivesDashEverywhere` | script.js:29-50 | input with no value gives the dash in every slot, and the dash arises from nothing else |
| `Conversion.AreaToArea` | script.js:42-61 | area to area is v times the source factor over the target factor, and v itself for the same unit |
| `Conversion.LinearToLinear` | script.js:36-56 | length to length is abs(v) times the source factor over the target factor, and abs(v) for the same unit |
| `Conversion.LinearToArea` | script.js:36-61 | length to area is the square of the side in feet over the target factor, never negative |
| `Conversion.AreaToLinear` | script.js:42-56 | area to length is not-a-number exactly for a negative value, otherwise the root of the base over the target factor |
| `Conversion.FixedExamples` | script.js:4-14 | 1 foot is 1 sq ft, 1 yard is 9 sq ft, 12 inches are 1 sq ft, 1 acre is 100 cents |
| `Conversion.UpdateResults` | script.js:85-115 | one slot per unit, in slot order |
| `Conversion.NoValueAllSlotsDash` | script.js:90-98 | with no value every slot shows the dash |
| `Conversion.VisibleSlotsShowNumbers` | script.js:95-105 | with a value every visible slot shows a number; not-a-number occurs only in hidden slots |
| `Conversion.UpdateResultsVisibility` | script.js:100-105 | the visible slots are exactly the units the hide rule leaves visible |
| `Digits.FirstDot` | script.js:78 | an index no greater than the length, holding a point whenever it is less |
| `Digits.FirstDotIsFirst` | script.js:78 | no point comes before the index `FirstDot` returns, so it is the first point, where `split('.')` makes its first cut |
| `Trim.KeptLength` | script.js:75 | the length left once the trailing run of '0' goes: every removed character is '0' and the kept text does not end in '0' |
| `Trim.TrimZeros` | script.js:75 | the replacement of `\.?0+$` by nothing; `TrimZerosIsLeftmostMatch` proves it cuts at the leftmost match, and `TrimFixedText` what it leaves of fixed-point text |
| `Trim.TrimZerosIsLeftmostMatch` | script.js:75 | the trim cuts the text at the leftmost position where `\.?0+$` matches, and leaves it whole when there is no match |
| `Trim.TrimFixedText` | script.js:73-75 | on fixed-point text the result is the sign, the integer digits and the fraction up to its last nonzero digit, without the point when no fraction digit is left |
| `Trim.TrimFixedTextRemovesOnlyFractionZeros` | script.js:73-75 | integer digits are never removed; only fraction zeros and the point go; the result ends neither in the point nor in a fraction zero |
| `Trim.TrimFraction` | script.js:73-75 | the corrected trim: never cuts into the text before the first point, and on fixed-point text agrees with the regular expression |
| `Trim.TrimFractionOnFixedText` | script.js:74-75 | on fixed-point text the corrected trim equals the source's trim |
| `Separators.WholeGroupsIsMultipleOfThree` | script.js:79 | `(\d{3})+` matches a run of digits exactly when its length is a positive multiple of three |
| `Separators.CommaAtInDigits` | script.js:79 | in a digit string the regular expression matches exactly before the inner positions that are followed by one or more whole groups of three digits |
| `Separators.Separate` | script.js:79 | a comma before every position where `\B(?=(\d{3})+(?!\d))` matches; `SeparateDigits` and `SeparateSigned` prove it groups digits in threes from the right |
| `Separators.SeparateDigits` | script.js:79 | on a digit string the regular-expression replacement equals grouping in threes from the right |
| `Separators.SeparateSigned` | script.js:79 | a leading minus is kept and the digits after it are grouped in threes |
| `Separators.GroupRemoveCommas` | script.js:79 | deleting the commas gives back the digits |
| `Separators.GroupLayout` | script.js:79 | counting from the right every fourth character is a comma and all others are digits; the length is the digit count plus (count-1)/3 |
| `Separators.CommasBetweenDigits` | script.js:79 | every comma stands between two digits |
| `Separators.GroupFirstGroup` | script.js:79 | the first group has one to three digits and is followed by the end or a comma |
| `Separators.GroupCommaFollowers` | script.js:79 | each comma is followed by exactly three digits and then the end or another comma |
| `Format.SplitDots` | script.js:78 | `split('.')`: at least one part; `SplitDotsParts` proves no part contains a point |
| `Format.JoinDots` | script.js:81 | `join('.')`; `JoinSplit` proves it undoes `SplitDots` |
| `Format.SplitDotsParts` | script.js:78 | no part of `split('.')` contains a point |
| `Format.JoinSplit` | script.js:78-81 | joining the split parts with points gives back the text |
| `Format.AddSeparators` | script.js:78-81 | split at the points, separators put into the first part, joined again; `AddSeparatorsToIntegerPart` proves only the text before the first point changes |
| `Format.AddSeparatorsToIntegerPart` | script.js:77-81 | only the text before the first point gets separators; the point and what follows are unchanged |
| `Format.FormatNumberAsWritten` | script.js:65-82 | `formatNumber` as written; `FormatFixedText` proves it gives sign, grouped integer digits and trimmed fraction for fixed-point text, and `LargeNumberLosesExponentZero` that it turns "1e+30" into "1e+3" |
| `Format.FormatNumber` | script.js:65-82 | `formatNumber` with the trim of `Trim.TrimFraction`; `FormatSmallExamples`, `FormatFixedText` and `FormatGroupedExample` prove its branches and its text |
| `Format.FormatSmallExamples` | script.js:66-71 | 0 is "0" and 0.0000001 is written in exponential text |
| `Format.FormatFixedText` | script.js:65-82 | for fixed-point text the result is the sign, the grouped integer digits and the trimmed fraction, and the source's trim gives the same |
| `Format.FormatGroupedExample` | script.js:65-82 | 1234567.5 is written "1,234,567.5" |
| `Format.LargeNumberLosesExponentZero` | script.js:74-75 | for 10^30 the source's trim turns "1e+30" into "1e+3", while the corrected trim keeps "1e+30" |
| `Format.LargeAreaIsShown` | script.js:74-75 | 10^30 entered in square feet is shown in the visible square-feet slot; the source writes it "1e+3", the corrected formatting "1e+30" |
| `Format.Render` | script.js:48-61 | the text of a slot: "-" for no value, "NaN" for not-a-number, and the number text otherwise; `NoValueRendersDash` proves the dash case |
| `Format.NoValueRendersDash` | script.js:47-50 | with no value every slot reads "-" |

## Left out

- Reading the input field. `value === ''`, `null` and `isNaN(value)` become `None`, and a numeric text becomes `Some(v)`. `parseFloat` itself is not modelled. So these cases are missing: text of blanks only, which `isNaN` accepts but `parseFloat` reads as NaN (the slots then show "NaN"), and hexadecimal, binary or octal text such as "0x10", "0b101" or "0o17", which `isNaN` accepts and `parseFloat` reads as 0 (the slots then show the conversions of 0).
- IEEE-754 arithmetic. Numbers are exact reals, so 1/12, 435.6 and 107639.1 are exact, and there is no rounding, infinity or negative zero.
- Conversion.Sqrt: `HasRoot(x)` is plain existence of a non-negative root, which holds for every `x >= 0` over the reals, so `Sqrt` is the true root there. The contract states `r * r == x` only under `HasRoot(x)` because the verifier cannot prove `HasRoot` for an irrational root. It proves it for every base that comes from a length source, since that base is a square. The rounding of `Math.sqrt` is not modelled.
- Conversion.FromSquareFeet: for a length target, the square of the result equals the base only under `HasRoot`, for the same reason. The gap only concerns length slots filled from an area source, and those slots are hidden.
- The digits of `toFixed(6)` and `toExponential(4)`. These texts are inputs of `FormatNumber`, so the model does not check that they denote the number.
- Format.Render: it writes numbers with `FormatNumber`, the corrected trim of the finding below, so when the runtime's exponential text for a magnitude of 10^21 or more ends in a zero (10^30, 10^40, 1.5·10^30, …) it shows the exponent whole ("1e+30") where the page shows "1e+3"; for other such magnitudes ("1e+21") the two agree; the page's text is `FormatNumberAsWritten`.
- `formatNumber(NaN)`: `Render` writes "NaN" directly, which is what the fixed-point branch yields for it.
- DOM glue: element lookup, `addEventListener`, the initial `updateResults()` call, the `style.display` writes, the `updated` animation class and its `setTimeout`. Only the hide condition is kept, as `Hidden`, and the values and visibility of each slot, as `UpdateResults`.
- The calculator is not part of this model: no calculator code appears in `script.js`.

## Findings

| source | as written | input that shows it | evidently intended | confidence | as-written member | corrected member |
|---|---|---|---|---|---|---|
| script.js:74-75 | `toFixed(6)` of a magnitude of 10^21 or more is exponential text (ECMAScript `Number.prototype.toFixed`), and when that text ends in a zero (10^30, 10^40, 1.5·10^30, …) `/\.?0+$/` strips the last zero of the exponent | 10^30 entered in square feet: an area source, so the square-feet slot is visible and holds 10^30, whose fixed text "1e+30" is shown as "1e+3" | remove trailing zeros from the fraction only | not executed | `Format.LargeNumberLosesExponentZero` | `Trim.TrimFraction` |

`Format.FormatNumberAsWritten` keeps the source's trim. `Format.FormatNumber`, which `Render` uses, applies `Trim.TrimFraction`. The two agree on all fixed-point text (`Format.FormatFixedText`).
