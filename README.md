# OCD Recovery Response Simulator — verified model of the calculator helpers

The simulator is a single React page (`src/App.tsx`). Five sliders set the
struggle, duration and frequency of an exposure exercise (each 1–10), the
number of days it is applied (1–365) and a daily learning multiplier in
percent (1–10). From these values the page computes two figures and one
caption with four small helpers, and this project models those four:

- `calculateResponse`: the daily response, `struggle * duration * frequency`.
- `calculateCumulativeEffect`: the daily response summed over the days
  applied, each day's response growing by the factor
  `r = 1 + learningMultiplier / 100`. The code uses the closed form
  `response * (r^days - 1) / (r - 1)` of that geometric series.
- `addNumberSeparator`: writes a number with a `,` between groups of three
  digits, using the regular expression `\B(?=(\d{3})+(?!\d))`.
- `convertDaysAppliedToDaysMonthsAndYears`: the caption
  `"<Y> years, <M> months, and <D> days"` for the days applied.

The model consists of four modules:

- `Decimal` (`decimal.dfy`): the exact decimal numeral of a non-negative
  integer, and the reading of a numeral back into its value. For integers up
  to 2^53 this is what `toString` and a template literal produce.
- `Separator` (`separator.dfy`): the comma insertion. It is defined as a
  left-to-right scan that puts a comma before each inner position with a
  positive multiple of three digits to its right. That is where the pattern
  matches. The scan is proved equal to an independent definition that splits
  off groups of three from the right.
- `Breakdown` (`breakdown.dfy`): the years/months/days decomposition exactly as
  the code computes it, and the caption template.
- `Recovery` (`recovery.dfy`): the slider state as a value (`Sliders`, with
  `InRange` for the slider bounds), the daily response, and the cumulative
  effect over Dafny's exact `real` numbers. The closed form is proved equal to
  the day-by-day sum. This module also defines the figures the page shows.

Every helper is a pure expression in the source, so every operation here is
a function with lemmas about it. Running a helper twice on the same inputs
gives the same result, which follows from its being a function.

The caption follows the code, not the usual wording of such a caption. All
three parts are always printed, zero parts included. The words are always
plural ("1 years"). The remaining days are `days % 30`, not
`(days % 365) % 30`; see Findings.

## Model

| member | source | states |
|---|---|---|
| Decimal.Digits | src/App.tsx:22 | the numeral `toString` (and `${n}` at src/App.tsx:29) writes for a whole number up to 2^53: non-empty, all digits, no leading zero except in "0", and it starts with '0' exactly when the number is 0; that it reads back as the number is ValueOfDigits |
| Decimal.ValueOfDigits | src/App.tsx:22 | reading back the numeral of `n` gives `n` |
| Decimal.DigitsOfValue | src/App.tsx:22 | every numeral without a leading zero is the numeral of its value, so numerals and naturals correspond one to one |
| Decimal.DigitsInjective | src/App.tsx:22 | distinct numbers have distinct numerals |
| Decimal.DigitsLength | src/App.tsx:22 | a number has at most `k` digits exactly when it is below 10^k |
| Separator.SeparatedFrom | src/App.tsx:22 | no contract of its own; the regex replacement scanned from an index, a comma before each position the pattern matches; its meaning is stated by SeparatedIsGrouped |
| Separator.AddNumberSeparator | src/App.tsx:21-23 | no contract of its own; round trip, injectivity, comma positions and group shape are SeparatorRoundTrip, SeparatorInjective, SeparatorCommaPositions and SeparatorGroups |
| Separator.SeparatedIsGrouped | src/App.tsx:21-23 | the pattern's replacement, position by position, equals grouping the digits in threes from the right |
| Separator.SeparatorRoundTrip | src/App.tsx:21-23 | deleting every comma from `addNumberSeparator(n)` gives exactly the digits of `n`, which read back as `n` |
| Separator.SeparatorInjective | src/App.tsx:21-23 | distinct numbers are displayed differently |
| Separator.SeparatorCommaPositions | src/App.tsx:22 | every character of the output is a digit or a comma; commas stand exactly at the non-zero indices a multiple of four from the end |
| Separator.SeparatorGroups | src/App.tsx:22 | the output is non-empty, never starts or ends with a comma, and never has two commas in a row; the first group has 1–3 digits and every later group exactly 3 |
| Separator.SeparatorUnchangedBelowThousand | src/App.tsx:22 | the output equals the plain numeral if and only if `n < 1000` |
| Separator.SeparatorThousand | src/App.tsx:22 | 1000, the largest daily response, is shown as "1,000" |
| Breakdown.Decompose | src/App.tsx:26-28 | no contract of its own; the three parts as the code computes them, pinned down by DecomposeBounds and compared with the exact decomposition in DecomposeAgreesWithExact |
| Breakdown.Render | src/App.tsx:29 | no contract of its own; the template literal, shown to determine its three numbers by RenderInjective |
| Breakdown.BreakdownText | src/App.tsx:25-30 | no contract of its own; `convertDaysAppliedToDaysMonthsAndYears`, whose captions are told apart by BreakdownTextInjective and shown at 1 and 365 days by BreakdownOneDay and DecomposeOneYear |
| Breakdown.DecomposeBounds | src/App.tsx:26-28 | years are whole 365-day periods, months are at most 12 and lie within what is left of the year, and remaining days are below 30 |
| Breakdown.DecomposeWithinYear | src/App.tsx:26-28 | below 365 days there are no years, months times 30 plus days is the day count, and the code agrees with the exact decomposition |
| Breakdown.DecomposeAgreesWithExact | src/App.tsx:26-28 | the code's decomposition equals the exact one if and only if the number of years is a multiple of 6 |
| Breakdown.DecomposeOneYear | src/App.tsx:26-29 | 365 days decompose to 1 year, 0 months, 5 days, which add up to 370 days; the caption reads "1 years, 0 months, and 5 days" |
| Breakdown.DecomposeExactSound | src/App.tsx:26-28 | the corrected decomposition adds up to the day count, with months at most 12 and days below 30 |
| Breakdown.ExactBreakdownOneYear | src/App.tsx:25-30 | with the corrected remaining days, 365 days would be captioned "1 years, 0 months, and 0 days" |
| Breakdown.DecomposeExactUnique | src/App.tsx:26-28 | any decomposition that adds up, with days below 30 and months and days below a year, is the corrected one |
| Breakdown.RenderInjective | src/App.tsx:29 | the caption template determines the years, months and days it was filled with |
| Breakdown.BreakdownTextInjective | src/App.tsx:25-30 | different day counts give different captions, for every day count and not only the slider range 1–365 |
| Breakdown.ExactBreakdownTextInjective | src/App.tsx:25-30 | with the corrected remaining days, different day counts always give different captions |
| Breakdown.BreakdownOneDay | src/App.tsx:29 | 1 day is captioned "0 years, 0 months, and 1 days": zero parts are printed and the words stay plural |
| Recovery.CalculateResponse | src/App.tsx:11-13 | no contract of its own; the product of the three sliders, with its bounds and monotonicity in ResponseBounds and ResponseIncreasing |
| Recovery.ResponseBounds | src/App.tsx:11-13 | within the slider ranges the daily response lies in [1, 1000], and it is 1000 exactly when all three sliders are at 10 |
| Recovery.ResponseIncreasing | src/App.tsx:11-13 | raising struggle, duration or frequency never lowers the response, and raising any of them strictly raises it |
| Recovery.GrowthRatio | src/App.tsx:17 | the daily ratio exceeds 1 exactly when the learning multiplier is positive, and equals 1 exactly when it is 0, so the divisor `r - 1` is non-zero on the whole slider range |
| Recovery.GeometricIdentity | src/App.tsx:18 | (r − 1) times the day-by-day sum equals response × (r^days − 1) |
| Recovery.ClosedForm | src/App.tsx:18 | for r ≠ 1 the closed form equals the day-by-day sum of response × r^k for k below the day count |
| Recovery.CalculateCumulativeEffect | src/App.tsx:15-19 | the cumulative effect equals the sum over the days applied of the daily response grown by the ratio once per earlier day |
| Recovery.CumulativeOneDay | src/App.tsx:15-19 | after one day the cumulative effect is the daily response |
| Recovery.CumulativeIncreasingInDays | src/App.tsx:15-19 | within the slider ranges, more days give a strictly larger cumulative effect |
| Recovery.CumulativeMonotone | src/App.tsx:15-19 | raising any of the five sliders never lowers the cumulative effect |
| Recovery.CumulativeAtLeastLinear | src/App.tsx:15-19 | the cumulative effect is at least response × days, the value it would have without learning, and so at least 1 |
| Recovery.RoundHalfUp | src/App.tsx:78 | `Math.round` gives the integer within one half of its argument, with halves rounded up |
| Recovery.DailyResponseText | src/App.tsx:77 | no contract of its own; the "Daily Response" figure, whose reading is DailyResponseTextValue |
| Recovery.CumulativeEffectText | src/App.tsx:78 | no contract of its own; the "Cumulative Effect" figure, `addNumberSeparator(Math.round(cumulativeEffect))`, whose reading is CumulativeEffectTextValue |
| Recovery.CumulativeEffectCaption | src/App.tsx:78 | no contract of its own; the caption `convertDaysAppliedToDaysMonthsAndYears(daysApplied)`, which determines the days applied by CaptionDeterminesDays |
| Recovery.CumulativeEffectTextValue | src/App.tsx:78 | the displayed cumulative effect, with its commas removed, is a numeral without leading zeros whose value is within one half of the exact effect |
| Recovery.CaptionDeterminesDays | src/App.tsx:25-30 | within the slider ranges the caption under the cumulative effect determines the days applied; at 365 days it reads "1 years, 0 months, and 5 days" |
| Recovery.DailyResponseTextValue | src/App.tsx:77 | the displayed daily response, with its commas removed, is the numeral of the response; it has no comma below 1000 and reads "1,000" at 1000 |

## Left out

- The React component tree, the `useState` pairs, the `Slider` component, `parseInt` of the input's value and the layout and styling are not modelled. They are user-interface plumbing. The slider bounds enter as `Sliders.InRange`, or the weaker conditions it implies (a non-zero learning multiplier and a non-negative day count), in `requires` clauses of functions and lemmas.
- Floating point is not modelled: `Math.pow`, the division and `Math.round` run on IEEE-754 doubles in the browser. Here they are computed on exact rationals, and `Math.round` is `floor(x + 0.5)` on them. Rounding errors are not modelled, and neither is the exact displayed value for particular inputs, such as 125 at 3% over 180 days.
- Recovery.CalculateCumulativeEffect: requires a non-zero learning multiplier and a non-negative day count. In the browser a multiplier of 0 divides 0 by 0 and gives `NaN`, and a negative day count uses a negative power. The sliders keep both values at 1 or more, so neither case arises on the page.
- Separator.AddNumberSeparator is defined on natural numbers only, written with all their digits. `toString` of negative numbers and of fractions is not modelled; the page passes only non-negative whole numbers.
- Recovery.CumulativeEffectText: above 2^53 the browser shows the rounded cumulative effect with at most 17 significant digits followed by zeros (for example 2^64 is printed as 18446744073709552000). The model prints every digit of the exact value instead. The page reaches this range: with a learning multiplier of 10 over 365 days the effect is about 1.28e16 times the daily response.
- The regular-expression engine is not modelled. The positions where the pattern matches are stated directly.
- Other iterations of this page in the repository are not part of this model. They are near-duplicates of the same component.

## Findings

| source | as written | input that shows it | evidently intended | confidence | as-written member | corrected member |
|---|---|---|---|---|---|---|
| src/App.tsx:28 | `remainingDays = days % 30` takes the whole day count modulo 30 | `days = 365` (the slider's maximum) gives 1 year, 0 months and 5 days, which add up to 370 days | `(days % 365) % 30`, which gives 1 year, 0 months, 0 days and always adds up to `days` | medium, not executed | Breakdown.DecomposeOneYear | Breakdown.DecomposeExactSound |

`Breakdown.DecomposeAgreesWithExact` shows that the two decompositions differ
exactly when the number of years is not a multiple of 6. On the slider range
this happens only at 365. The page's caption (`BreakdownText`,
`Recovery.CumulativeEffectCaption`) keeps the code's `Decompose`, because the
model reproduces what the page shows. The corrected decomposition is
`DecomposeExact`, and `ExactBreakdownText` is its caption, which reads
"1 years, 0 months, and 0 days" at 365 (`ExactBreakdownOneYear`) and tells
every day count apart (`ExactBreakdownTextInjective`).
