# Investment visualizer: the yearly portfolio projection

This project models the computational core of the investment visualizer, a small Streamlit page. The page projects a portfolio year by year. Its inputs are a start capital, a monthly or yearly income, a growth rate net of inflation, and an optional yearly takeout. The takeout starts in a given year and may be indexed to inflation.

The projection builds three parallel series over the years `0..duration`:

- `invested`: the start capital plus the income paid in so far.
- `capital`: the compounding portfolio value.
- `takeout`: the amount withdrawn that year.

Year 0 is `(start capital, start capital, 0)`. Every later year is one of two kinds:

- An accumulation year: grow the capital, then add the yearly income.
- A withdrawal year: subtract the takeout, then grow. The invested amount is frozen.

The takeout is carried forward from the year before. When indexing is on, it is multiplied by one year of inflation.

Files:

- `inputs.dfy` (module `Inputs`): the configuration that the page's widgets supply, gathered into one `Config` value instead of module-level globals. It also holds the derived net rate and yearly income, the growth step `AddYearlyGains`, the invested amount after `k` years of income (`InvestedAfter`), and the unused helper `InvestedForYears`.
- `projection.dfy` (module `Projection`): the projection. The loop is the method `Project`, which appends to sequences year by year and reads back their last elements. It is proved against `EntryAt`, a recursive definition of year `y`'s entry. The lemmas about `EntryAt` state the rules listed above, plus closed forms for the takeout, the invested amount and (without a takeout) the capital.

Amounts and percentages are exact `real`s.

The loop takes the takeout choice of main.py:58-60 (carry forward or fall back, then index) from the function `NextTakeout`. It does not spell that choice out inline; the branches are the same.

With indexing on, the code already inflates the very first withdrawal (`takeout * (1 + inflation/100)`). The model follows the code. `IndexedTakeoutExample` shows the consequence: with a configured takeout of 2000 and 3 percent inflation, year 1 withdraws 2060, not 2000.

## Model

| member | source | states |
|---|---|---|
| `Inputs.TotalPercentage` | main.py:36 | the net rate plus inflation gives back the increase; it lies in [-10, 50] for valid inputs, and is at most the increase exactly when inflation is non-negative |
| `Inputs.IncomePerYear` | main.py:45 | twelve times the income for a monthly income, the income itself for a yearly one, never below a non-negative income |
| `Inputs.GrowthFactor` | main.py:17 | for valid inputs one year of net growth multiplies a capital by a factor between 0.9 and 1.5 |
| `Inputs.AddYearlyGains` | main.py:16-17 | the gain added is the capital times the net percentage over 100; for valid inputs the grown capital has the sign of the capital (a debt stays a debt) |
| `Inputs.GainsMonotone` | main.py:16-17 | for valid inputs growth preserves the order of two capitals |
| `Inputs.InvestedForYears` | main.py:12-13 | exactly `duration` values, one fewer than the projected series; entry `y` exceeds the start capital by `y` years of income, and entry 0 is the start capital |
| `Inputs.InvestedForYearsNonDecreasing` | main.py:12-13 | with a non-negative income the values never decrease |
| `Projection.InflationFactor` | main.py:60 | with non-negative inflation the indexing factor is at least 1 |
| `Projection.NextTakeout` | main.py:58-60 | the previous takeout is carried forward when positive, else the configured takeout is used; either is multiplied by one year of inflation when adjusting; the result is positive for a positive takeout and non-negative inflation |
| `Projection.IsWithdrawalYear` | main.py:57 | a year withdraws if and only if it has reached the takeout start year and the configured takeout is positive |
| `Projection.Step` | main.py:55-70 | one loop iteration: a withdrawal year keeps the previous invested amount; any other year withdraws 0 and counts the start capital plus `year` years of income as invested |
| `Projection.EntryAt` | main.py:47-70 | the recursive definition of a year's entry (year 0, then `Step` from the year before); year 0 is (start, start, 0) |
| `Projection.Project` | main.py:47-70 | the year axis is `0..duration`; all three series have length `duration + 1`; year 0 is (start, start, 0); every year's entry equals `EntryAt` of that year |
| `Projection.EntryRecurrence` | main.py:54-70 | withdrawal year: takeout is the carried-forward takeout, capital is (previous − takeout) grown, invested unchanged; other years: takeout 0, capital is previous grown plus the yearly income, invested is start + income × year |
| `Projection.FirstWithdrawalYear` | main.py:57 | the first year that can withdraw is at least 1 and at least the start year; with a positive takeout it withdraws, and no earlier year from 1 on does |
| `Projection.WithdrawalYearsAreSuffix` | main.py:57 | once a year is a withdrawal year every later year is one, so the withdrawal years form a suffix |
| `Projection.TakeoutPositiveExactlyInWithdrawalYears` | main.py:57-66 | from year 1 on, a year's takeout is positive if and only if it is a withdrawal year; it is 0 in year 0, in every other year, and in every year when the takeout is 0 |
| `Projection.FirstTakeout` | main.py:58-60 | the first withdrawal year takes the configured takeout, already multiplied by one year of inflation when adjusting |
| `Projection.TakeoutCarriedForward` | main.py:58-60 | after a withdrawal year the next takeout is the previous one (flat) or the previous one times one year of inflation (adjusting); the fallback never fires again |
| `Projection.IndexedTakeoutStep` | main.py:58-60 | carrying the closed-form takeout of the k-th withdrawal year forward gives the closed form of the (k+1)-th |
| `Projection.TakeoutClosedForm` | main.py:57-62 | in the k-th withdrawal year the takeout is the configured takeout times the inflation factor to the power k when adjusting, and the configured takeout when flat |
| `Projection.InvestedClosedForm` | main.py:55-69 | the invested amount is the start capital plus the income of every year before the first withdrawal year |
| `Projection.InvestedFrozen` | main.py:64 | in every withdrawal year the invested amount equals its value in the last year before withdrawals began |
| `Projection.InvestedNonDecreasing` | main.py:55-69 | with a non-negative income the invested series never decreases |
| `Projection.InvestedForYearsAgrees` | main.py:12-13 | the unused helper agrees with the projection's invested series in every year before the withdrawals, up to `duration - 1` |
| `Projection.AccumulatedCapitalStep` | main.py:67 | the compound-interest closed form satisfies the accumulation step: grow, then add the yearly income |
| `Projection.NoTakeoutIsPureAccumulation` | main.py:65-67 | with a takeout of 0 no year withdraws, invested is start + income × year, and the capital is start × g^y plus the income times the sum of g^i for i < y |
| `Projection.CapitalNonNegativeWithoutTakeout` | main.py:67 | without a takeout, valid inputs keep the capital non-negative in every year |
| `Projection.CapitalMayGoNegative` | main.py:63 | no floor is applied: in a withdrawal year the capital is negative exactly when the takeout exceeds the previous year's capital |
| `Projection.MonthlyIncomeExample` | main.py:45-70 | a monthly income of 1000 from 0 gives invested and capital of 12000 after one year |
| `Projection.FlatTakeoutExample` | main.py:54-70 | a flat takeout of 2000 from 10000 at 5 percent gives capital 8400 and then 6720, with invested frozen at 10000 |
| `Projection.IndexedTakeoutExample` | main.py:54-70 | with 3 percent indexing the takeouts are 2060 and 2121.8, and the capital is 8337 and then 6525.96 |

## Left out

- The Streamlit page setup and input widgets (main.py:20-43) are user interface. The ranges they enforce are the predicate `Inputs.ValidConfig`. It is a hypothesis only of the lemmas that need it; the projection itself runs on any configuration.
- The slider's behaviour when `duration` is 0 or 1 (main.py:41) is a widget concern and is not modelled.
- The takeout start slider (main.py:41) also bounds the start year by `duration`. `ValidConfig` omits that bound. No lemma needs it: a start year past the duration only means that no year of the run withdraws.
- The widgets hand back integers for the start capital, the income and the takeout (main.py:23, 31, 42). The model takes every amount as a `real` and does not restrict it to whole numbers. The lemmas hold for whole and fractional amounts alike.
- `income_per_year` (main.py:45) tests only for `MONTH`. The model's `Year` constructor stands for every other value the income type can take.
- The Plotly figure and its rendering (main.py:72-97) are presentation in a foreign library.
- IEEE floating-point rounding: all amounts and percentages are exact reals. The worked examples hold exactly in the model, not necessarily bit-for-bit in floats.
- The `IncomeType` StrEnum machinery (main.py:7-9) is a two-constructor datatype. The widget's string values are not modelled.
- The module-level globals the code reads are the fields of one `Config` value passed explicitly.
