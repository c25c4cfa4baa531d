/** The yearly portfolio projection of main.py: year 0 holds the start
    capital; every later year is either an accumulation year (grow, then add
    the yearly income) or a withdrawal year (take out, then grow, with the
    invested amount frozen). */
module Projection {
  import opened Inputs

  /** One year's values of the three parallel series. */
  datatype Entry = Entry(invested: real, capital: real, takeout: real)

  /** The three series (and the year axis) the projection builds. */
  datatype Data = Data(years: seq<int>, invested: seq<real>, capital: seq<real>, takeout: seq<real>)

  /** A year takes money out exactly when it has reached the takeout start
      year and a positive takeout is configured. */
  predicate IsWithdrawalYear(c: Config, year: int): (b: bool)
    ensures b ==> c.takeout > 0.0
    ensures b ==> year >= c.startYearTakeout
    ensures c.takeout > 0.0 && year >= c.startYearTakeout ==> b
  {
    year >= c.startYearTakeout && c.takeout > 0.0
  }

  /** The factor one year of inflation multiplies an indexed takeout by. */
  function InflationFactor(c: Config): (r: real)
    ensures c.inflationPercentage >= 0.0 ==> r >= 1.0
  {
    1.0 + c.inflationPercentage / 100.0
  }

  /** The takeout of a withdrawal year: the previous year's takeout carried
      forward when it is positive, the configured takeout otherwise, indexed
      by one year of inflation when adjusting. */
  function NextTakeout(c: Config, previous: real): (r: real)
    ensures previous > 0.0 && !c.adjustTakeout ==> r == previous
    ensures previous <= 0.0 && !c.adjustTakeout ==> r == c.takeout
    ensures previous > 0.0 && c.adjustTakeout ==> r == previous * InflationFactor(c)
    ensures previous <= 0.0 && c.adjustTakeout ==> r == c.takeout * InflationFactor(c)
    ensures c.takeout > 0.0 && c.inflationPercentage >= 0.0 ==> r > 0.0
  {
    var base := if previous > 0.0 then previous else c.takeout;
    if c.adjustTakeout then base * InflationFactor(c) else base
  }

  /** One iteration of the projection loop: the entry of `year` from the
      entry of the year before. */
  function Step(c: Config, prev: Entry, year: nat): (e: Entry)
    ensures IsWithdrawalYear(c, year) ==> e.invested == prev.invested
    ensures !IsWithdrawalYear(c, year) ==> e.invested == InvestedAfter(c, year) && e.takeout == 0.0
  {
    if IsWithdrawalYear(c, year) then
      var t := NextTakeout(c, prev.takeout);
      Entry(prev.invested, AddYearlyGains(c, prev.capital - t), t)
    else
      Entry(InvestedAfter(c, year), AddYearlyGains(c, prev.capital) + IncomePerYear(c), 0.0)
  }

  /** The entry of year `year` of the projection. It does not depend on the
      duration: a longer run only extends the series. */
  function EntryAt(c: Config, year: nat): (e: Entry)
    ensures year == 0 ==> e.invested == e.capital == c.startCapital
  {
    if year == 0 then Entry(c.startCapital, c.startCapital, 0.0)
    else Step(c, EntryAt(c, year - 1), year)
  }

  /** Builds the year axis and the three series year by year, appending one
      value to each series per year and reading back the last one. */
  method Project(c: Config) returns (data: Data)
    ensures |data.years| == |data.invested| == |data.capital| == |data.takeout| == c.duration + 1
    ensures forall y :: 0 <= y < |data.years| ==> data.years[y] == y
    ensures data.invested[0] == data.capital[0] == c.startCapital && data.takeout[0] == 0.0
    ensures forall y: nat :: y <= c.duration ==>
              Entry(data.invested[y], data.capital[y], data.takeout[y]) == EntryAt(c, y)
  {
    var years := seq(c.duration + 1, y => y);
    var invested := [c.startCapital];
    var capital := [c.startCapital];
    var takeout := [0.0];
    var incomePerYear := IncomePerYear(c);
    var year := 1;
    while year <= c.duration
      invariant 1 <= year <= c.duration + 1
      invariant |invested| == |capital| == |takeout| == year
      invariant forall y: nat {:trigger invested[y]} :: y < year ==> Entry(invested[y], capital[y], takeout[y]) == EntryAt(c, y)
    {
      ghost var prev := EntryAt(c, year - 1);
      assert prev == Entry(invested[year - 1], capital[year - 1], takeout[year - 1]);
      var newInvested, newCapital;
      if year >= c.startYearTakeout && c.takeout > 0.0 {
        var newTakeout := NextTakeout(c, takeout[|takeout| - 1]);
        takeout := takeout + [newTakeout];
        newCapital := AddYearlyGains(c, capital[|capital| - 1] - newTakeout);
        newInvested := invested[|invested| - 1];
        assert Step(c, prev, year) == Entry(newInvested, newCapital, newTakeout);
      } else {
        takeout := takeout + [0.0];
        newCapital := AddYearlyGains(c, capital[|capital| - 1]) + incomePerYear;
        newInvested := InvestedAfter(c, year);
        assert Step(c, prev, year) == Entry(newInvested, newCapital, 0.0);
      }
      invested := invested + [newInvested];
      capital := capital + [newCapital];
      year := year + 1;
    }
    data := Data(years, invested, capital, takeout);
  }

  /** Each year follows from the year before by the rules of the loop: a
      withdrawal year takes the carried-forward takeout out before growth and
      keeps the invested amount; any other year takes nothing out, grows and
      then adds the yearly income, and counts that income as invested. */
  lemma EntryRecurrence(c: Config, y: nat)
    requires y >= 1
    ensures IsWithdrawalYear(c, y) ==>
              && EntryAt(c, y).takeout == NextTakeout(c, EntryAt(c, y - 1).takeout)
              && EntryAt(c, y).capital == AddYearlyGains(c, EntryAt(c, y - 1).capital - EntryAt(c, y).takeout)
              && EntryAt(c, y).invested == EntryAt(c, y - 1).invested
    ensures !IsWithdrawalYear(c, y) ==>
              && EntryAt(c, y).takeout == 0.0
              && EntryAt(c, y).capital == AddYearlyGains(c, EntryAt(c, y - 1).capital) + IncomePerYear(c)
              && EntryAt(c, y).invested == c.startCapital + IncomePerYear(c) * y as real
  {
  }

  // ---------------------------------------------------------------------------
  // Which years take money out

  /** The first year that can take money out (year 0 never does). */
  function FirstWithdrawalYear(c: Config): (r: nat)
    ensures r >= 1
    ensures r >= c.startYearTakeout
    ensures r > 1 ==> r == c.startYearTakeout
    ensures c.takeout > 0.0 ==> IsWithdrawalYear(c, r)
    ensures forall y :: 1 <= y < r ==> !IsWithdrawalYear(c, y)
  {
    if c.startYearTakeout <= 1 then 1 else c.startYearTakeout
  }

  /** Once a year takes money out, every later year does too: the
      withdrawal years form a suffix of the run. */
  lemma WithdrawalYearsAreSuffix(c: Config, y: int, z: int)
    requires y <= z
    requires IsWithdrawalYear(c, y)
    ensures IsWithdrawalYear(c, z)
  {
  }

  /** A year's takeout is positive exactly in withdrawal years and zero in
      every other year, including every year when no takeout is configured. */
  lemma TakeoutPositiveExactlyInWithdrawalYears(c: Config, y: nat)
    requires c.inflationPercentage >= 0.0
    ensures !IsWithdrawalYear(c, y) || y == 0 ==> EntryAt(c, y).takeout == 0.0
    ensures y >= 1 ==> (EntryAt(c, y).takeout > 0.0 <==> IsWithdrawalYear(c, y))
  {
  }

  /** The first withdrawal already applies the inflation adjustment to the
      configured takeout. */
  lemma FirstTakeout(c: Config)
    requires c.takeout > 0.0
    ensures EntryAt(c, FirstWithdrawalYear(c)).takeout
            == if c.adjustTakeout then c.takeout * InflationFactor(c) else c.takeout
  {
  }

  /** Between consecutive withdrawal years the takeout is carried forward:
      flat, or grown by one year of inflation when adjusting. */
  lemma TakeoutCarriedForward(c: Config, y: nat)
    requires c.inflationPercentage >= 0.0
    requires y >= 2 && IsWithdrawalYear(c, y - 1)
    ensures EntryAt(c, y).takeout
            == if c.adjustTakeout then EntryAt(c, y - 1).takeout * InflationFactor(c) else EntryAt(c, y - 1).takeout
  {
    WithdrawalYearsAreSuffix(c, y - 1, y);
    TakeoutPositiveExactlyInWithdrawalYears(c, y - 1);
  }

  /** `x` to the power `n`. */
  function Pow(x: real, n: nat): (r: real)
    ensures x > 0.0 ==> r > 0.0
  {
    if n == 0 then 1.0 else x * Pow(x, n - 1)
  }

  /** One more factor of the power: if v == t * x^n then v * x == t * x^(n+1). */
  lemma ScaledPowStep(v: real, t: real, x: real, n: nat)
    requires v == t * Pow(x, n)
    ensures v * x == t * Pow(x, n + 1)
  {
    var p := Pow(x, n);
    assert t * (x * p) == (t * p) * x;
  }

  /** The takeout of the k-th withdrawal year (k from 1) in closed form:
      the configured takeout, compounded k times by inflation when adjusting. */
  function IndexedTakeout(c: Config, k: nat): real
  {
    if c.adjustTakeout then c.takeout * Pow(InflationFactor(c), k) else c.takeout
  }

  /** Carrying a takeout of the closed form forward one year moves one step
      along the closed form. */
  lemma IndexedTakeoutStep(c: Config, k: nat)
    requires c.takeout > 0.0 && c.inflationPercentage >= 0.0
    ensures NextTakeout(c, IndexedTakeout(c, k)) == IndexedTakeout(c, k + 1)
  {
    var prev := IndexedTakeout(c, k);
    assert prev > 0.0;
    if c.adjustTakeout {
      ScaledPowStep(prev, c.takeout, InflationFactor(c), k);
    }
  }

  /** In every withdrawal year the takeout follows the closed form: the
      configured takeout, compounded by inflation once per withdrawal year so
      far when adjusting, and flat otherwise. */
  lemma {:induction false} TakeoutClosedForm(c: Config, y: nat)
    requires c.takeout > 0.0 && c.inflationPercentage >= 0.0
    requires y >= FirstWithdrawalYear(c)
    ensures EntryAt(c, y).takeout == IndexedTakeout(c, y - FirstWithdrawalYear(c) + 1)
  {
    var f := FirstWithdrawalYear(c);
    if y == f {
      assert EntryAt(c, y).takeout == IndexedTakeout(c, 1) by {
        FirstTakeout(c);
        ScaledPowStep(c.takeout, c.takeout, InflationFactor(c), 0);
      }
    } else {
      var k := y - f;
      assert EntryAt(c, y - 1).takeout == IndexedTakeout(c, k) by { TakeoutClosedForm(c, y - 1); }
      assert EntryAt(c, y).takeout == NextTakeout(c, EntryAt(c, y - 1).takeout) by { EntryRecurrence(c, y); }
      IndexedTakeoutStep(c, k);
    }
  }

  // ---------------------------------------------------------------------------
  // The invested amount

  /** How many years of income have been paid in by `year`: every year up
      to `year`, but none from the first withdrawal year on. */
  function IncomeYears(c: Config, year: nat): (r: nat)
    ensures r <= year
    ensures c.takeout > 0.0 && year >= FirstWithdrawalYear(c) ==> r < FirstWithdrawalYear(c)
  {
    if c.takeout > 0.0 && year >= FirstWithdrawalYear(c) then FirstWithdrawalYear(c) - 1 else year
  }

  /** The invested amount is the start capital plus the income of every
      year before the withdrawals begin. */
  lemma {:induction false} InvestedClosedForm(c: Config, y: nat)
    ensures EntryAt(c, y).invested == InvestedAfter(c, IncomeYears(c, y))
  {
    if y > 0 {
      EntryRecurrence(c, y);
      if IsWithdrawalYear(c, y) {
        InvestedClosedForm(c, y - 1);
        assert IncomeYears(c, y - 1) == IncomeYears(c, y);
      } else {
        assert EntryAt(c, y).invested == InvestedAfter(c, y);
        assert IncomeYears(c, y) == y;
      }
    }
  }

  /** In a withdrawal year the invested amount stays at its value of the
      last year before withdrawals started. */
  lemma InvestedFrozen(c: Config, y: nat)
    requires y >= 1 && IsWithdrawalYear(c, y)
    ensures EntryAt(c, y).invested == EntryAt(c, FirstWithdrawalYear(c) - 1).invested
  {
    InvestedClosedForm(c, y);
    InvestedClosedForm(c, FirstWithdrawalYear(c) - 1);
  }

  /** With a non-negative income the invested series never decreases. */
  lemma InvestedNonDecreasing(c: Config, y: nat, z: nat)
    requires c.income >= 0.0
    requires y <= z
    ensures EntryAt(c, y).invested <= EntryAt(c, z).invested
  {
    InvestedClosedForm(c, y);
    InvestedClosedForm(c, z);
    InvestedAfterMonotone(c, IncomeYears(c, y), IncomeYears(c, z));
  }

  /** The unused helper invested_for_years agrees with the projection's
      invested series in every year before the withdrawals begin. */
  lemma InvestedForYearsAgrees(c: Config, y: nat)
    requires y < c.duration
    requires !IsWithdrawalYear(c, y)
    ensures InvestedForYears(c)[y] == EntryAt(c, y).invested
  {
    InvestedClosedForm(c, y);
  }

  // ---------------------------------------------------------------------------
  // The capital

  /** The sum of x^i for i < n. */
  function GeometricSum(x: real, n: nat): real
  {
    if n == 0 then 0.0 else GeometricSum(x, n - 1) + Pow(x, n - 1)
  }

  /** Adding one more term at the front: 1 + x * (sum of x^i for i < n). */
  lemma {:induction false} GeometricSumShift(x: real, n: nat)
    ensures GeometricSum(x, n + 1) == 1.0 + x * GeometricSum(x, n)
  {
    if n > 0 {
      GeometricSumShift(x, n - 1);
      var q, p := GeometricSum(x, n - 1), Pow(x, n - 1);
      calc {
        GeometricSum(x, n + 1);
        GeometricSum(x, n) + x * p;
        1.0 + x * q + x * p;
        1.0 + x * (q + p);
        1.0 + x * GeometricSum(x, n);
      }
    }
  }

  /** Pure accumulation in closed form: the start capital compounded `year`
      times plus each year's income compounded for the years since. */
  function AccumulatedCapital(c: Config, year: nat): real
  {
    c.startCapital * Pow(GrowthFactor(c), year) + IncomePerYear(c) * GeometricSum(GrowthFactor(c), year)
  }

  /** The closed form satisfies the accumulation recurrence: one more year
      of growth followed by one more yearly income. */
  lemma AccumulatedCapitalStep(c: Config, y: nat)
    requires y >= 1
    ensures AccumulatedCapital(c, y) == AddYearlyGains(c, AccumulatedCapital(c, y - 1)) + IncomePerYear(c)
  {
    var g, i, s := GrowthFactor(c), IncomePerYear(c), c.startCapital;
    var p, q := Pow(g, y - 1), GeometricSum(g, y - 1);
    GeometricSumShift(g, y - 1);
    calc {
      AccumulatedCapital(c, y);
      s * (g * p) + i * (1.0 + g * q);
      (s * p + i * q) * g + i;
      AddYearlyGains(c, AccumulatedCapital(c, y - 1)) + i;
    }
  }

  /** Without a takeout the run is pure accumulation: no year takes money
      out, the invested amount grows by the yearly income every year and the
      capital is the compound-interest closed form. */
  lemma {:induction false} NoTakeoutIsPureAccumulation(c: Config, y: nat)
    requires c.takeout == 0.0
    ensures EntryAt(c, y).takeout == 0.0
    ensures EntryAt(c, y).invested == c.startCapital + IncomePerYear(c) * y as real
    ensures EntryAt(c, y).capital == AccumulatedCapital(c, y)
  {
    if y > 0 {
      NoTakeoutIsPureAccumulation(c, y - 1);
      EntryRecurrence(c, y);
      AccumulatedCapitalStep(c, y);
    }
  }

  /** Without a takeout, a non-negative start capital and income keep the
      capital non-negative in every year. */
  lemma {:induction false} CapitalNonNegativeWithoutTakeout(c: Config, y: nat)
    requires ValidConfig(c) && c.takeout == 0.0
    ensures EntryAt(c, y).capital >= 0.0
  {
    if y > 0 {
      CapitalNonNegativeWithoutTakeout(c, y - 1);
    }
  }

  /** No floor is applied: in a withdrawal year the capital becomes
      negative exactly when the takeout exceeds the previous capital. */
  lemma CapitalMayGoNegative(c: Config, y: nat)
    requires ValidConfig(c)
    requires y >= 1 && IsWithdrawalYear(c, y)
    ensures EntryAt(c, y).capital < 0.0 <==> EntryAt(c, y - 1).capital < EntryAt(c, y).takeout
  {
  }

  // ---------------------------------------------------------------------------
  // Worked examples

  /** A monthly income of 1000 from nothing, for one year at 4 percent:
      the first year's income is invested and no growth has accrued yet. */
  lemma MonthlyIncomeExample()
    ensures var c := Config(0.0, 1000.0, Month, 1, 4.0, 0.0, 1, 0.0, false);
            && EntryAt(c, 0) == Entry(0.0, 0.0, 0.0)
            && EntryAt(c, 1) == Entry(12000.0, 12000.0, 0.0)
  {
  }

  /** A flat takeout of 2000 a year from 10000 at 5 percent net growth. */
  lemma FlatTakeoutExample()
    ensures var c := Config(10000.0, 0.0, Year, 2, 5.0, 0.0, 1, 2000.0, false);
            && EntryAt(c, 1) == Entry(10000.0, 8400.0, 2000.0)
            && EntryAt(c, 2) == Entry(10000.0, 6720.0, 2000.0)
  {
  }

  /** The same takeout indexed to 3 percent inflation, with 8 percent growth
      so that the net growth stays 5 percent: the first withdrawal is
      already indexed (2060, not 2000). */
  lemma IndexedTakeoutExample()
    ensures var c := Config(10000.0, 0.0, Year, 2, 8.0, 3.0, 1, 2000.0, true);
            && EntryAt(c, 1) == Entry(10000.0, 8337.0, 2060.0)
            && EntryAt(c, 2) == Entry(10000.0, 6525.96, 2121.8)
  {
  }
}
