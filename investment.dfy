/** The investment calculator (runInvestment): a portfolio starts at the
    start amount and, for 20 years, receives each year's contribution and
    grows by the annual return; a running inflation factor turns every
    nominal figure into today's money ("real" values).

    The calculator's order of operations is kept exactly: the portfolio
    grows once before the first year and at the end of every year, and the
    year's contribution is added after that growth, so the value shown for
    year y is the value shown for year y - 1, grown once, plus the year's
    contribution. */
module Investment {
  import opened Projection

  /** Inputs after the form fields have been read and the percentages
      divided by 100: `step`, `rateAPR` and `inflationRate` are fractions. */
  datatype Params = Params(
    startAmount: real,
    annualContrib: real,
    step: real,
    rateAPR: real,
    inflationRate: real)

  /** One emitted year: the label "Year y" as its number, the portfolio
      value, the portfolio and the contributed total in today's money, and
      the contributed total. The chart's five index-aligned arrays (labels,
      investedData, realInvestedData, realContribData, contribData) are the
      five fields of the emitted points. */
  datatype Point = Point(year: nat, invested: real, realInvested: real, realContrib: real, contributed: real)

  /** The three summary figures shown above the chart. */
  datatype Stats = Stats(totalContributed: real, gain: real, inflationTotal: real)

  /** The portfolio value shown for year y: the start amount for year 0;
      afterwards the previous year's value grown by the return, plus the
      year's contribution (which does not grow in the year it is paid). */
  function Invested(start: real, sched: seq<real>, rate: real, y: nat): real
    requires y <= |sched|
  {
    if y == 0 then start else Invested(start, sched, rate, y - 1) * (1.0 + rate) + sched[y - 1]
  }

  /** A value of year y in today's money: divided by the cumulative
      inflation factor (1 + inflation)^y. */
  function Deflate(value: real, inflationRate: real, y: nat): real
    requires inflationRate != -1.0
  {
    PowNonzero(1.0 + inflationRate, y);
    value / Pow(1.0 + inflationRate, y)
  }

  /** The point the calculator emits for year y. */
  function PointAt(p: Params, y: nat): Point
    requires y <= Years && p.inflationRate != -1.0
  {
    var invested := Invested(p.startAmount, Schedule(p.annualContrib, p.step, Years), p.rateAPR, y);
    var contributed := ContributedThrough(p.startAmount, Schedule(p.annualContrib, p.step, Years), y);
    Point(y, invested, Deflate(invested, p.inflationRate, y), Deflate(contributed, p.inflationRate, y), contributed)
  }

  /** The point for year y, with the inflation factor written out. */
  lemma PointAtYear(p: Params, y: nat)
    requires y <= Years && p.inflationRate != -1.0
    ensures Pow(1.0 + p.inflationRate, y) != 0.0
    ensures var invested, contributed := Invested(p.startAmount, Schedule(p.annualContrib, p.step, Years), p.rateAPR, y),
                                         ContributedThrough(p.startAmount, Schedule(p.annualContrib, p.step, Years), y);
      PointAt(p, y) == Point(y, invested, invested / Pow(1.0 + p.inflationRate, y),
                             contributed / Pow(1.0 + p.inflationRate, y), contributed)
  {
    PowNonzero(1.0 + p.inflationRate, y);
  }

  /** Year 0 and the values the loop starts from. */
  lemma Beginning(p: Params)
    ensures Invested(p.startAmount, Schedule(p.annualContrib, p.step, Years), p.rateAPR, 0) == p.startAmount
    ensures ContributedThrough(p.startAmount, Schedule(p.annualContrib, p.step, Years), 0) == p.startAmount
    ensures Pow(1.0 + p.inflationRate, 0) == 1.0
    ensures YearContrib(p.annualContrib, p.step, 1) == p.annualContrib
    ensures Years == 20
  {
  }

  /** One year of the recurrence. */
  lemma InvestedStep(start: real, sched: seq<real>, rate: real, y: nat)
    requires 1 <= y <= |sched|
    ensures Invested(start, sched, rate, y) == Invested(start, sched, rate, y - 1) * (1.0 + rate) + sched[y - 1]
  {
  }

  /** `points` are the first |points| points the calculator emits for p,
      stated point by point from the last one back. */
  ghost predicate EmittedUpTo(p: Params, points: seq<Point>)
    requires p.inflationRate != -1.0
    decreases |points|
  {
    |points| <= Years + 1 &&
    (|points| == 0 ||
     (EmittedUpTo(p, points[..|points| - 1]) && points[|points| - 1] == PointAt(p, |points| - 1)))
  }

  /** Nothing emitted is a correct prefix. */
  lemma NothingEmitted(p: Params)
    requires p.inflationRate != -1.0
    ensures EmittedUpTo(p, [])
  {
  }

  /** Appending the next point keeps the emitted prefix correct. */
  lemma EmitNext(p: Params, points: seq<Point>, next: Point)
    requires p.inflationRate != -1.0
    requires EmittedUpTo(p, points) && |points| <= Years && next == PointAt(p, |points|)
    ensures EmittedUpTo(p, points + [next])
  {
    assert (points + [next])[..|points|] == points;
  }

  /** Every point of a correct prefix is the calculator's point for its year. */
  lemma {:induction false} EmittedAt(p: Params, points: seq<Point>, i: nat)
    requires p.inflationRate != -1.0
    requires EmittedUpTo(p, points) && i < |points|
    ensures i <= Years && points[i] == PointAt(p, i)
  {
    if i < |points| - 1 {
      EmittedAt(p, points[..|points| - 1], i);
    }
  }

  /** The value shown for year y is the value shown for year y - 1, grown
      once by the return, plus year y's contribution. */
  lemma Recurrence(p: Params, y: nat)
    requires 1 <= y <= Years && p.inflationRate != -1.0
    ensures PointAt(p, y).invested
         == PointAt(p, y - 1).invested * (1.0 + p.rateAPR) + YearContrib(p.annualContrib, p.step, y)
    ensures PointAt(p, y).contributed == PointAt(p, y - 1).contributed + YearContrib(p.annualContrib, p.step, y)
  {
    hide *;
    PointAtYear(p, y);
    PointAtYear(p, y - 1);
    InvestedStep(p.startAmount, Schedule(p.annualContrib, p.step, Years), p.rateAPR, y);
    ContributedThroughStep(p.startAmount, Schedule(p.annualContrib, p.step, Years), y);
    ScheduleAt(p.annualContrib, p.step, Years, y - 1);
  }

  /** Year 1 shows the start amount grown once plus the first contribution,
      which has not grown yet. */
  lemma FirstYear(p: Params)
    requires p.inflationRate != -1.0
    ensures PointAt(p, 1).invested == p.startAmount * (1.0 + p.rateAPR) + p.annualContrib
    ensures PointAt(p, 1).contributed == p.startAmount + p.annualContrib
  {
    hide *;
    Beginning(p);
    Recurrence(p, 1);
    PointAtYear(p, 0);
  }

  /** The whole series, once all 21 points are emitted: point by point the
      specification, year 0 all start amount, and the yearly recurrence. */
  lemma AllEmitted(p: Params, points: seq<Point>)
    requires p.inflationRate != -1.0
    requires EmittedUpTo(p, points) && |points| == Years + 1
    ensures forall y :: 0 <= y < |points| ==> points[y] == PointAt(p, y)
    ensures points[0] == Point(0, p.startAmount, p.startAmount, p.startAmount, p.startAmount)
    ensures forall y :: 1 <= y < |points| ==>
      points[y].invested == points[y - 1].invested * (1.0 + p.rateAPR) + YearContrib(p.annualContrib, p.step, y)
    ensures points[Years].contributed == ContributedThrough(p.startAmount, Schedule(p.annualContrib, p.step, Years), Years)
  {
    hide *;
    forall y | 0 <= y < |points|
      ensures points[y] == PointAt(p, y)
    {
      EmittedAt(p, points, y);
    }
    forall y | 1 <= y < |points|
      ensures points[y].invested == points[y - 1].invested * (1.0 + p.rateAPR) + YearContrib(p.annualContrib, p.step, y)
    {
      Recurrence(p, y);
    }
    Beginning(p);
    PointAtYear(p, 0);
    PointAtYear(p, Years);
  }

  /** The portfolio after the growth at the end of year y (for year 0, the
      growth before the loop): the value the year loop carries into year
      y + 1. */
  function Grown(p: Params, y: nat): real
    requires y <= Years
  {
    Invested(p.startAmount, Schedule(p.annualContrib, p.step, Years), p.rateAPR, y) * (1.0 + p.rateAPR)
  }

  /** The grown portfolio, written out. */
  lemma GrownIs(p: Params, y: nat)
    requires y <= Years
    ensures Grown(p, y) == Invested(p.startAmount, Schedule(p.annualContrib, p.step, Years), p.rateAPR, y) * (1.0 + p.rateAPR)
  {
  }

  /** What one pass of the year loop computes, from the values it starts
      with: the grown portfolio, the contributed total and the inflation
      factor of the year before, and the year's contribution. */
  lemma YearPoint(p: Params, y: nat, grown: real, total: real, factor: real, contrib: real)
    requires 1 <= y <= Years && p.inflationRate != -1.0
    requires grown == Grown(p, y - 1)
    requires total == ContributedThrough(p.startAmount, Schedule(p.annualContrib, p.step, Years), y - 1)
    requires factor == Pow(1.0 + p.inflationRate, y - 1)
    requires contrib == YearContrib(p.annualContrib, p.step, y)
    ensures grown + contrib == Invested(p.startAmount, Schedule(p.annualContrib, p.step, Years), p.rateAPR, y)
    ensures total + contrib == ContributedThrough(p.startAmount, Schedule(p.annualContrib, p.step, Years), y)
    ensures factor * (1.0 + p.inflationRate) == Pow(1.0 + p.inflationRate, y) != 0.0
    ensures PointAt(p, y) == Point(y, grown + contrib, (grown + contrib) / (factor * (1.0 + p.inflationRate)),
                                   (total + contrib) / (factor * (1.0 + p.inflationRate)), total + contrib)
    ensures (grown + contrib) * (1.0 + p.rateAPR) == Grown(p, y)
  {
    hide *;
    GrownIs(p, y - 1);
    GrownIs(p, y);
    ScheduleAt(p.annualContrib, p.step, Years, y - 1);
    InvestedStep(p.startAmount, Schedule(p.annualContrib, p.step, Years), p.rateAPR, y);
    ContributedThroughStep(p.startAmount, Schedule(p.annualContrib, p.step, Years), y);
    PowStep(1.0 + p.inflationRate, y);
    PointAtYear(p, y);
  }

  /** runInvestment: the yearly projection, appending the emitted points;
      the summary figures are those of the last year. */
  method RunInvestment(p: Params) returns (points: seq<Point>, stats: Stats)
    requires p.inflationRate != -1.0
    ensures |points| == Years + 1
    ensures forall y :: 0 <= y < |points| ==> points[y] == PointAt(p, y)
    ensures points[0] == Point(0, p.startAmount, p.startAmount, p.startAmount, p.startAmount)
    ensures forall y :: 1 <= y < |points| ==>
      points[y].invested == points[y - 1].invested * (1.0 + p.rateAPR) + YearContrib(p.annualContrib, p.step, y)
    ensures stats.totalContributed == points[Years].contributed
    ensures stats.gain == points[Years].realInvested - points[Years].realContrib
    ensures stats.inflationTotal == points[Years].realContrib
    ensures stats.totalContributed == ContributedThrough(p.startAmount, Schedule(p.annualContrib, p.step, Years), Years)
  {
    hide *;
    Beginning(p);
    NothingEmitted(p);
    PointAtYear(p, 0);
    GrownIs(p, 0);
    var annualContrib := p.annualContrib;
    points := [];

    var currentInvested := p.startAmount;
    var totalContributed := p.startAmount;
    var inflationFactor := 1.0;

    EmitNext(p, points, Point(0, currentInvested, currentInvested, totalContributed, totalContributed));
    points := points + [Point(0, currentInvested, currentInvested, totalContributed, totalContributed)];

    currentInvested := currentInvested * (1.0 + p.rateAPR);
    var realInvested := currentInvested;
    var realContrib := totalContributed;

    var year := 1;
    while year <= Years
      invariant 1 <= year <= Years + 1
      invariant annualContrib == YearContrib(p.annualContrib, p.step, year)
      invariant currentInvested == Grown(p, year - 1)
      invariant totalContributed == ContributedThrough(p.startAmount, Schedule(p.annualContrib, p.step, Years), year - 1)
      invariant inflationFactor == Pow(1.0 + p.inflationRate, year - 1)
      invariant |points| == year && EmittedUpTo(p, points)
      invariant year > 1 ==> realInvested == points[year - 1].realInvested && realContrib == points[year - 1].realContrib
    {
      YearPoint(p, year, currentInvested, totalContributed, inflationFactor, annualContrib);

      currentInvested := currentInvested + annualContrib;
      totalContributed := totalContributed + annualContrib;
      inflationFactor := inflationFactor * (1.0 + p.inflationRate);

      realInvested := currentInvested / inflationFactor;
      realContrib := totalContributed / inflationFactor;

      EmitNext(p, points, Point(year, currentInvested, realInvested, realContrib, totalContributed));
      points := points + [Point(year, currentInvested, realInvested, realContrib, totalContributed)];

      currentInvested := currentInvested * (1.0 + p.rateAPR);
      YearContribNext(p.annualContrib, p.step, year);
      annualContrib := annualContrib * (1.0 + p.step);
      year := year + 1;
    }

    AllEmitted(p, points);
    stats := Stats(totalContributed, realInvested - realContrib, realContrib);
  }

  // ---------------------------------------------------------------------
  // Properties of the projection

  /** The contributions of years 1..y, each grown by (1 + r) once for every
      year after the one it was paid in: entry k onwards of that sum. */
  function GrownFrom(sched: seq<real>, growth: real, y: nat, k: nat): real
    requires k <= y <= |sched|
    decreases y - k
  {
    if k == y then 0.0 else sched[k] * Pow(growth, y - 1 - k) + GrownFrom(sched, growth, y, k + 1)
  }

  /** Adding one more year to the grown sum: every earlier contribution
      grows once more and the new one is added as paid. */
  lemma {:induction false} GrownFromExtend(sched: seq<real>, growth: real, y: nat, k: nat)
    requires 1 <= y <= |sched| && k <= y - 1
    ensures GrownFrom(sched, growth, y, k) == GrownFrom(sched, growth, y - 1, k) * growth + sched[y - 1]
    decreases y - k
  {
    if k == y - 1 {
      assert GrownFrom(sched, growth, y, k + 1) == 0.0;
      assert Pow(growth, y - 1 - k) == 1.0;
    } else {
      GrownFromExtend(sched, growth, y, k + 1);
      PowStep(growth, y - 1 - k);
      Regroup(sched[k], Pow(growth, y - 2 - k), growth, GrownFrom(sched, growth, y - 1, k + 1), sched[y - 1]);
    }
  }

  /** (a * p) * g + b * g + c, regrouped. */
  lemma Regroup(a: real, p: real, g: real, b: real, c: real)
    ensures a * (p * g) + (b * g + c) == (a * p + b) * g + c
  {
  }

  /** The value shown for year y in closed form: the start amount grown
      y times, plus each year's contribution grown once for every later
      year. */
  lemma {:induction false} InvestedClosedForm(start: real, sched: seq<real>, rate: real, y: nat)
    requires y <= |sched|
    ensures Invested(start, sched, rate, y) == start * Pow(1.0 + rate, y) + GrownFrom(sched, 1.0 + rate, y, 0)
  {
    hide *;
    if y == 0 {
      ClosedFormBase(start, sched, rate);
    } else {
      InvestedClosedForm(start, sched, rate, y - 1);
      InvestedStep(start, sched, rate, y);
      PowStep(1.0 + rate, y);
      GrownFromExtend(sched, 1.0 + rate, y, 0);
      Regroup(start, Pow(1.0 + rate, y - 1), 1.0 + rate, GrownFrom(sched, 1.0 + rate, y - 1, 0), sched[y - 1]);
    }
  }

  /** Year 0 of the closed form. */
  lemma ClosedFormBase(start: real, sched: seq<real>, rate: real)
    ensures Invested(start, sched, rate, 0) == start * Pow(1.0 + rate, 0) + GrownFrom(sched, 1.0 + rate, 0, 0)
  {
  }

  /** With no return the portfolio is exactly what was paid in. */
  lemma {:induction false} ZeroReturnInvested(start: real, sched: seq<real>, y: nat)
    requires y <= |sched|
    ensures Invested(start, sched, 0.0, y) == ContributedThrough(start, sched, y)
  {
    if y > 0 {
      ZeroReturnInvested(start, sched, y - 1);
      ContributedThroughStep(start, sched, y);
    }
  }

  /** With a non-negative return and nothing ever withdrawn, the portfolio
      is never worth less than what was paid in. */
  lemma {:induction false} InvestedAtLeastContributed(start: real, sched: seq<real>, rate: real, y: nat)
    requires start >= 0.0 && rate >= 0.0 && AllNonneg(sched) && y <= |sched|
    ensures Invested(start, sched, rate, y) >= ContributedThrough(start, sched, y) >= 0.0
  {
    if y > 0 {
      InvestedAtLeastContributed(start, sched, rate, y - 1);
      ContributedThroughStep(start, sched, y);
      ContributedThroughNonDecreasing(start, sched, 0, y);
      var prev := Invested(start, sched, rate, y - 1);
      MulMonotone(1.0 + rate, 1.0, prev, prev);
      assert prev * (1.0 + rate) >= prev;
    }
  }

  /** Nothing paid in and no start amount: the portfolio stays at zero. */
  lemma {:induction false} InvestedOfZero(sched: seq<real>, rate: real, y: nat)
    requires AllZero(sched) && y <= |sched|
    ensures Invested(0.0, sched, rate, y) == 0.0
  {
    if y > 0 {
      InvestedOfZero(sched, rate, y - 1);
      assert sched[y - 1] == 0.0;
    }
  }

  /** Deflating undoes the inflation factor: a real value times the
      cumulative factor is the nominal value again. */
  lemma DeflateInverse(value: real, inflationRate: real, y: nat)
    requires inflationRate != -1.0
    ensures Deflate(value, inflationRate, y) * Pow(1.0 + inflationRate, y) == value
  {
    PowNonzero(1.0 + inflationRate, y);
  }

  /** With non-negative inflation, today's money is never more than the
      nominal amount, and never negative for a non-negative amount. */
  lemma DeflateBounds(value: real, inflationRate: real, y: nat)
    requires inflationRate >= 0.0 && value >= 0.0
    ensures 0.0 <= Deflate(value, inflationRate, y) <= value
  {
    PowAtLeastOne(1.0 + inflationRate, y);
    var f := Pow(1.0 + inflationRate, y);
    DeflateInverse(value, inflationRate, y);
    var d := Deflate(value, inflationRate, y);
    assert d >= 0.0;
    MulMonotone(f, 1.0, d, d);
  }

  /** When inflation is above -100% the factor is positive, so deflating
      keeps the sign of the amount. */
  lemma DeflateSign(value: real, inflationRate: real, y: nat)
    requires inflationRate > -1.0
    ensures Deflate(value, inflationRate, y) >= 0.0 <==> value >= 0.0
  {
    PowNonneg(1.0 + inflationRate, y);
    PowNonzero(1.0 + inflationRate, y);
  }

  /** The real values of year y times (1 + inflation)^y are the nominal
      ones: the inflation factor after y years is (1 + inflation)^y. */
  lemma RealTimesFactor(p: Params, y: nat)
    requires y <= Years && p.inflationRate != -1.0
    ensures PointAt(p, y).realInvested * Pow(1.0 + p.inflationRate, y) == PointAt(p, y).invested
    ensures PointAt(p, y).realContrib * Pow(1.0 + p.inflationRate, y) == PointAt(p, y).contributed
  {
    DeflateInverse(PointAt(p, y).invested, p.inflationRate, y);
    DeflateInverse(PointAt(p, y).contributed, p.inflationRate, y);
  }

  /** With zero inflation the real values are the nominal ones. */
  lemma ZeroInflationRealIsNominal(p: Params, y: nat)
    requires y <= Years && p.inflationRate == 0.0
    ensures PointAt(p, y).realInvested == PointAt(p, y).invested
    ensures PointAt(p, y).realContrib == PointAt(p, y).contributed
  {
    PowOfOne(y);
  }

  /** The real gain reported for year y is the nominal gain in today's
      money. */
  lemma RealGainIsDeflatedGain(p: Params, y: nat)
    requires y <= Years && p.inflationRate != -1.0
    ensures PointAt(p, y).realInvested - PointAt(p, y).realContrib
         == Deflate(PointAt(p, y).invested - PointAt(p, y).contributed, p.inflationRate, y)
  {
    PowNonzero(1.0 + p.inflationRate, y);
  }

  /** With inflation above -100%, the real gain is non-negative exactly when
      the nominal gain is. */
  lemma RealGainSign(p: Params, y: nat)
    requires y <= Years && p.inflationRate > -1.0
    ensures PointAt(p, y).realInvested >= PointAt(p, y).realContrib
        <==> PointAt(p, y).invested >= PointAt(p, y).contributed
  {
    RealGainIsDeflatedGain(p, y);
    DeflateSign(PointAt(p, y).invested - PointAt(p, y).contributed, p.inflationRate, y);
  }

  /** With a non-negative start amount, contribution and return, and a
      step of at least -100%, no year shows a loss, nominal or real. */
  lemma NeverALoss(p: Params, y: nat)
    requires y <= Years && p.inflationRate > -1.0
    requires p.startAmount >= 0.0 && p.annualContrib >= 0.0 && p.step >= -1.0 && p.rateAPR >= 0.0
    ensures PointAt(p, y).invested >= PointAt(p, y).contributed
    ensures PointAt(p, y).realInvested >= PointAt(p, y).realContrib
  {
    ScheduleNonneg(p.annualContrib, p.step, Years);
    InvestedAtLeastContributed(p.startAmount, Schedule(p.annualContrib, p.step, Years), p.rateAPR, y);
    RealGainSign(p, y);
  }

  /** With no return, every year shows the amount paid in and no gain. */
  lemma ZeroReturnNoGain(p: Params, y: nat)
    requires y <= Years && p.inflationRate != -1.0 && p.rateAPR == 0.0
    ensures PointAt(p, y).invested == PointAt(p, y).contributed
    ensures PointAt(p, y).realInvested == PointAt(p, y).realContrib
  {
    ZeroReturnInvested(p.startAmount, Schedule(p.annualContrib, p.step, Years), y);
  }

  /** Zero start amount and zero contribution: every figure of every year
      is zero. */
  lemma NoMoneyStaysZero(p: Params, y: nat)
    requires y <= Years && p.inflationRate != -1.0
    requires p.startAmount == 0.0 && p.annualContrib == 0.0
    ensures PointAt(p, y) == Point(y, 0.0, 0.0, 0.0, 0.0)
  {
    ScheduleOfZero(p.step, Years);
    InvestedOfZero(Schedule(p.annualContrib, p.step, Years), p.rateAPR, y);
    ContributedThroughOfZero(Schedule(p.annualContrib, p.step, Years), y);
    PowNonzero(1.0 + p.inflationRate, y);
  }
}
