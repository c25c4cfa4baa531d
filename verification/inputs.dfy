/** The raw inputs of the investment visualizer, the two scalars derived from
    them, and the two small pure helpers of main.py (add_yearly_gains and the
    unused invested_for_years). Amounts and percentages are exact reals. */
module Inputs {

  /** How often the income is paid in (main.py:7-9). */
  datatype IncomeType = Month | Year

  /** Everything the projection reads from the page's widgets, gathered into
      one value instead of module-level globals. */
  datatype Config = Config(
    startCapital: real,
    income: real,
    incomeType: IncomeType,
    duration: nat,
    increasePercentage: real,
    inflationPercentage: real,
    startYearTakeout: int,
    takeout: real,
    adjustTakeout: bool)

  /** The ranges the input widgets let through: non-negative amounts, a
      duration of at most 1000 years, growth in [0, 50] percent, inflation in
      [0, 10] percent and a takeout start year of at least 1. */
  predicate ValidConfig(c: Config)
  {
    && c.startCapital >= 0.0
    && c.income >= 0.0
    && c.duration <= 1000
    && 0.0 <= c.increasePercentage <= 50.0
    && 0.0 <= c.inflationPercentage <= 10.0
    && c.startYearTakeout >= 1
    && c.takeout >= 0.0
  }

  /** The net yearly growth in percent: the increase less inflation. */
  function TotalPercentage(c: Config): (r: real)
    ensures r + c.inflationPercentage == c.increasePercentage
    ensures ValidConfig(c) ==> -10.0 <= r <= 50.0
    ensures r <= c.increasePercentage <==> c.inflationPercentage >= 0.0
  {
    c.increasePercentage - c.inflationPercentage
  }

  /** The income paid in over one year. */
  function IncomePerYear(c: Config): (r: real)
    ensures c.incomeType == Month ==> r == 12.0 * c.income
    ensures c.incomeType == Year ==> r == c.income
    ensures c.income >= 0.0 ==> c.income <= r
  {
    if c.incomeType == Month then c.income * 12.0 else c.income
  }

  /** The factor one year of net growth multiplies a capital by. */
  function GrowthFactor(c: Config): (r: real)
    ensures ValidConfig(c) ==> 0.9 <= r <= 1.5
  {
    1.0 + TotalPercentage(c) / 100.0
  }

  /** One year of net growth: the capital plus its yearly gain, whose sign
      follows the capital's for every valid configuration. */
  function AddYearlyGains(c: Config, capital: real): (r: real)
    ensures r - capital == capital * TotalPercentage(c) / 100.0
    ensures ValidConfig(c) ==> (r > 0.0 <==> capital > 0.0)
    ensures ValidConfig(c) ==> (r < 0.0 <==> capital < 0.0)
  {
    capital * GrowthFactor(c)
  }

  /** Scaling by a non-negative factor preserves order. */
  lemma ScaleMonotone(k: real, a: real, b: real)
    requires k >= 0.0 && a <= b
    ensures k * a <= k * b
  {
    assert k * b - k * a == k * (b - a);
  }

  /** Growth preserves the order of capitals. */
  lemma GainsMonotone(c: Config, a: real, b: real)
    requires ValidConfig(c)
    requires a <= b
    ensures AddYearlyGains(c, a) <= AddYearlyGains(c, b)
  {
    var g := GrowthFactor(c);
    assert (b - a) * g >= 0.0;
    assert b * g - a * g == (b - a) * g;
  }

  /** The start capital plus `k` years of income. */
  function InvestedAfter(c: Config, k: int): real
  {
    c.startCapital + IncomePerYear(c) * k as real
  }

  /** More years of a non-negative income never invest less. */
  lemma InvestedAfterMonotone(c: Config, j: int, k: int)
    requires c.income >= 0.0
    requires j <= k
    ensures InvestedAfter(c, j) <= InvestedAfter(c, k)
  {
    ScaleMonotone(IncomePerYear(c), j as real, k as real);
  }

  /** The invested amount for the first `duration` years, assuming income is
      paid in every year: one entry fewer than the projected series. */
  function InvestedForYears(c: Config): (r: seq<real>)
    ensures |r| == c.duration
    ensures |r| > 0 ==> r[0] == c.startCapital
    ensures forall y :: 0 <= y < |r| ==> r[y] - c.startCapital == IncomePerYear(c) * y as real
  {
    seq(c.duration, y => InvestedAfter(c, y))
  }

  /** With a non-negative income the invested amounts never decrease. */
  lemma InvestedForYearsNonDecreasing(c: Config, i: nat, j: nat)
    requires c.income >= 0.0
    requires i <= j < c.duration
    ensures InvestedForYears(c)[i] <= InvestedForYears(c)[j]
  {
    InvestedAfterMonotone(c, i, j);
  }
}
