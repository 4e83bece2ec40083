/** The high-yield-savings calculator (runHysa): two balances, a preferred
    one and a normal-bank one, start at the same amount and receive the same
    monthly contribution; each compounds monthly at its own annual rate over
    20 years. The annual contribution grows by a fixed step after each year.
    The view flag only chooses which points are emitted (every month, or
    only each year end); the arithmetic is the same either way.

    The specification functions take the contribution schedule (the annual
    contribution of each year) as a sequence; the calculator's own schedule
    is Schedule(annualContrib, step, 20). */
module Hysa {
  import opened Projection

  /** Inputs after the form fields have been read and the percentages
      divided by 100: `step`, `rateAPR` and `bankRateAPR` are fractions. */
  datatype Params = Params(
    startAmount: real,
    annualContrib: real,
    step: real,
    rateAPR: real,
    bankRateAPR: real,
    showMonthly: bool)

  /** One emitted point: its label and, at that moment, the preferred
      balance, the normal-bank balance and the total contributed. The chart's
      four index-aligned arrays (labels, hysaData, bankData, contribData) are
      the four fields of the emitted points. */
  datatype Point = Point(period: Label, hysa: real, bank: real, contributed: real)

  /** The three summary figures shown above the chart. */
  datatype Stats = Stats(totalContributed: real, gain: real, bankTotal: real)

  /** One month of saving: add the month's contribution, then grow by the
      monthly rate. */
  function Compound(balance: real, contrib: real, rate: real): real
  {
    (balance + contrib) * (1.0 + rate)
  }

  /** Year (from 1) of the n-th month (from 1) of the projection. */
  function YearOfMonth(n: nat): (y: nat)
    requires n >= 1
    ensures 1 <= y && 12 * (y - 1) < n <= 12 * y
  {
    if n <= 12 then 1 else YearOfMonth(n - 12) + 1
  }

  /** Position (1..12) of the n-th month (from 1) within its year. */
  function MonthOfYear(n: nat): (m: nat)
    requires n >= 1
    ensures 1 <= m <= 12
  {
    n - 12 * (YearOfMonth(n) - 1)
  }

  /** Month `month` of year `year` is month 12*(year-1)+month of the projection. */
  lemma MonthPosition(n: nat, year: nat, month: nat)
    requires year >= 1 && 1 <= month <= 12 && n == 12 * (year - 1) + month
    ensures YearOfMonth(n) == year && MonthOfYear(n) == month
  {
  }

  /** The balance after n months at annual rate `apr`: each month first adds
      a twelfth of the current year's contribution, then compounds by apr/12. */
  function Balance(start: real, sched: seq<real>, apr: real, n: nat): real
    requires n <= 12 * |sched|
  {
    if n == 0 then start
    else Compound(Balance(start, sched, apr, n - 1), sched[YearOfMonth(n) - 1] / 12.0, apr / 12.0)
  }

  /** The total contributed after n months. */
  function Contributed(start: real, sched: seq<real>, n: nat): real
    requires n <= 12 * |sched|
  {
    if n == 0 then start
    else Contributed(start, sched, n - 1) + sched[YearOfMonth(n) - 1] / 12.0
  }

  /** Number of emitted points: the starting point and one per month or one per year. */
  function PointCount(showMonthly: bool): nat
  {
    if showMonthly then 1 + Years * 12 else 1 + Years
  }

  /** Months elapsed at the i-th emitted point. */
  function MonthsAt(showMonthly: bool, i: nat): nat
  {
    if showMonthly then i else 12 * i
  }

  /** Label of the i-th emitted point. */
  function LabelAt(showMonthly: bool, i: nat): Label
  {
    if !showMonthly then YearLabel(i)
    else if i == 0 then MonthLabel(0, 0)
    else MonthLabel(YearOfMonth(i), MonthOfYear(i))
  }

  /** One month of the simulation, the n-th: add a twelfth of the current
      year's contribution, then compound. */
  lemma MonthStep(start: real, sched: seq<real>, apr: real, n: nat)
    requires 1 <= n <= 12 * |sched|
    ensures Balance(start, sched, apr, n)
         == Compound(Balance(start, sched, apr, n - 1), sched[YearOfMonth(n) - 1] / 12.0, apr / 12.0)
    ensures Contributed(start, sched, n) == Contributed(start, sched, n - 1) + sched[YearOfMonth(n) - 1] / 12.0
  {
  }

  /** The balance after `months` months of one year that started at
      `balance`: each month adds `monthlyContrib`, then compounds by
      `monthlyRate` (the inner loop of the calculator). */
  function Accrue(balance: real, monthlyContrib: real, monthlyRate: real, months: nat): real
  {
    if months == 0 then balance
    else Compound(Accrue(balance, monthlyContrib, monthlyRate, months - 1), monthlyContrib, monthlyRate)
  }

  /** The contributed total after `months` months of one year that started at `total`. */
  function AddMonths(total: real, monthlyContrib: real, months: nat): real
  {
    if months == 0 then total else AddMonths(total, monthlyContrib, months - 1) + monthlyContrib
  }

  /** The balance at the end of year y, year by year (the outer loop). */
  function YearEndBalance(start: real, sched: seq<real>, apr: real, y: nat): real
    requires y <= |sched|
  {
    if y == 0 then start
    else Accrue(YearEndBalance(start, sched, apr, y - 1), sched[y - 1] / 12.0, apr / 12.0, 12)
  }

  /** The contributed total at the end of year y, year by year. */
  function YearEndContributed(start: real, sched: seq<real>, y: nat): real
    requires y <= |sched|
  {
    if y == 0 then start else AddMonths(YearEndContributed(start, sched, y - 1), sched[y - 1] / 12.0, 12)
  }

  /** One more month of a year, as a step from the previous month's values. */
  lemma AccrueStep(balance: real, monthlyContrib: real, monthlyRate: real, months: nat, prev: real)
    requires months >= 1 && prev == Accrue(balance, monthlyContrib, monthlyRate, months - 1)
    ensures Accrue(balance, monthlyContrib, monthlyRate, months) == Compound(prev, monthlyContrib, monthlyRate)
  {
  }

  lemma AddMonthsStep(total: real, monthlyContrib: real, months: nat, prev: real)
    requires months >= 1 && prev == AddMonths(total, monthlyContrib, months - 1)
    ensures AddMonths(total, monthlyContrib, months) == prev + monthlyContrib
  {
  }

  /** Before the first month, every figure is the start amount. */
  lemma NothingYet(start: real, sched: seq<real>, apr: real)
    ensures Balance(start, sched, apr, 0) == start && Contributed(start, sched, 0) == start
    ensures YearEndBalance(start, sched, apr, 0) == start && YearEndContributed(start, sched, 0) == start
  {
  }

  /** A year's computation starts from the previous year end's values. */
  lemma YearStart(balance: real, total: real, monthlyContrib: real, monthlyRate: real)
    ensures Accrue(balance, monthlyContrib, monthlyRate, 0) == balance
    ensures AddMonths(total, monthlyContrib, 0) == total
  {
  }

  /** Year y ends after the 12 months of year y. */
  lemma YearEndStep(start: real, sched: seq<real>, apr: real, y: nat)
    requires 1 <= y <= |sched|
    ensures YearEndBalance(start, sched, apr, y)
         == Accrue(YearEndBalance(start, sched, apr, y - 1), sched[y - 1] / 12.0, apr / 12.0, 12)
    ensures YearEndContributed(start, sched, y)
         == AddMonths(YearEndContributed(start, sched, y - 1), sched[y - 1] / 12.0, 12)
  {
  }

  /** The month-by-month balance at month `month` of year `year` is the
      year-by-year computation: that many months of the year, from the
      previous year-end balance. */
  lemma {:induction false} BalanceWithinYear(start: real, sched: seq<real>, apr: real, year: nat, month: nat)
    requires 1 <= year <= |sched| && month <= 12
    ensures Balance(start, sched, apr, 12 * (year - 1) + month)
         == Accrue(YearEndBalance(start, sched, apr, year - 1), sched[year - 1] / 12.0, apr / 12.0, month)
  {
    hide *;
    var yearStart := YearEndBalance(start, sched, apr, year - 1);
    if month == 0 {
      if year > 1 {
        BalanceWithinYear(start, sched, apr, year - 1, 12);
        YearEndStep(start, sched, apr, year - 1);
      } else {
        NothingYet(start, sched, apr);
      }
      YearStart(yearStart, start, sched[year - 1] / 12.0, apr / 12.0);
    } else {
      BalanceWithinYear(start, sched, apr, year, month - 1);
      MonthPosition(12 * (year - 1) + month, year, month);
      MonthStep(start, sched, apr, 12 * (year - 1) + month);
      AccrueStep(yearStart, sched[year - 1] / 12.0, apr / 12.0, month, Balance(start, sched, apr, 12 * (year - 1) + month - 1));
    }
  }

  /** The same for the contributed total. */
  lemma {:induction false} ContributedWithinYear(start: real, sched: seq<real>, year: nat, month: nat)
    requires 1 <= year <= |sched| && month <= 12
    ensures Contributed(start, sched, 12 * (year - 1) + month)
         == AddMonths(YearEndContributed(start, sched, year - 1), sched[year - 1] / 12.0, month)
  {
    hide *;
    var yearStart := YearEndContributed(start, sched, year - 1);
    if month == 0 {
      if year > 1 {
        ContributedWithinYear(start, sched, year - 1, 12);
        YearEndStep(start, sched, 0.0, year - 1);
      } else {
        NothingYet(start, sched, 0.0);
      }
      YearStart(start, yearStart, sched[year - 1] / 12.0, 0.0);
    } else {
      ContributedWithinYear(start, sched, year, month - 1);
      MonthPosition(12 * (year - 1) + month, year, month);
      MonthStep(start, sched, 0.0, 12 * (year - 1) + month);
      AddMonthsStep(yearStart, sched[year - 1] / 12.0, month, Contributed(start, sched, 12 * (year - 1) + month - 1));
    }
  }

  /** m months of one year add m twelfths of that year's contribution. */
  lemma {:induction false} AddMonthsClosedForm(total: real, monthlyContrib: real, months: nat)
    ensures AddMonths(total, monthlyContrib, months) == total + (months as real) * monthlyContrib
  {
    if months > 0 {
      AddMonthsClosedForm(total, monthlyContrib, months - 1);
      MulPred(months, monthlyContrib);
    }
  }

  /** At every year end the contributed total is the start amount plus the
      yearly contributions so far. */
  lemma {:induction false} YearEndContributedIsTotal(start: real, sched: seq<real>, y: nat)
    requires y <= |sched|
    ensures YearEndContributed(start, sched, y) == ContributedThrough(start, sched, y)
  {
    if y > 0 {
      YearEndContributedIsTotal(start, sched, y - 1);
      AddMonthsClosedForm(YearEndContributed(start, sched, y - 1), sched[y - 1] / 12.0, 12);
    }
  }

  /** The contribution schedule the calculator uses for inputs p. */
  function ScheduleOf(p: Params): (s: seq<real>)
    ensures |s| == Years
  {
    Schedule(p.annualContrib, p.step, Years)
  }

  /** The i-th point the calculator emits for inputs p. */
  function PointAt(p: Params, i: nat): Point
    requires i < PointCount(p.showMonthly)
  {
    var sched := ScheduleOf(p);
    var n := MonthsAt(p.showMonthly, i);
    Point(LabelAt(p.showMonthly, i), Balance(p.startAmount, sched, p.rateAPR, n),
          Balance(p.startAmount, sched, p.bankRateAPR, n), Contributed(p.startAmount, sched, n))
  }

  /** The monthly view's point for month `month` of year `year`. */
  lemma MonthlyPoint(p: Params, year: nat, month: nat)
    requires p.showMonthly && 1 <= year <= Years && 1 <= month <= 12
    ensures var sched, i := ScheduleOf(p), 12 * (year - 1) + month;
      i < PointCount(true) &&
      PointAt(p, i) == Point(MonthLabel(year, month),
        Accrue(YearEndBalance(p.startAmount, sched, p.rateAPR, year - 1), sched[year - 1] / 12.0, p.rateAPR / 12.0, month),
        Accrue(YearEndBalance(p.startAmount, sched, p.bankRateAPR, year - 1), sched[year - 1] / 12.0, p.bankRateAPR / 12.0, month),
        AddMonths(YearEndContributed(p.startAmount, sched, year - 1), sched[year - 1] / 12.0, month))
  {
    var sched := ScheduleOf(p);
    MonthPosition(12 * (year - 1) + month, year, month);
    BalanceWithinYear(p.startAmount, sched, p.rateAPR, year, month);
    BalanceWithinYear(p.startAmount, sched, p.bankRateAPR, year, month);
    ContributedWithinYear(p.startAmount, sched, year, month);
  }

  /** The yearly view's point for the end of year `year`. */
  lemma YearlyPoint(p: Params, year: nat)
    requires !p.showMonthly && 1 <= year <= Years
    ensures var sched := ScheduleOf(p);
      year < PointCount(false) &&
      PointAt(p, year) == Point(YearLabel(year),
        YearEndBalance(p.startAmount, sched, p.rateAPR, year),
        YearEndBalance(p.startAmount, sched, p.bankRateAPR, year),
        YearEndContributed(p.startAmount, sched, year))
  {
    var sched := ScheduleOf(p);
    BalanceWithinYear(p.startAmount, sched, p.rateAPR, year, 12);
    BalanceWithinYear(p.startAmount, sched, p.bankRateAPR, year, 12);
    ContributedWithinYear(p.startAmount, sched, year, 12);
  }

  /** The yearly and the monthly view agree: for the same inputs, the yearly
      view's point for year y carries the same balances and contributed total
      as the monthly view's point labelled (y, 12), since both sit 12*y
      months into the same month-by-month simulation. */
  lemma YearlyPointIsMonthlyPoint(p: Params, y: nat)
    requires 1 <= y <= Years
    ensures 12 * y < PointCount(true) && y < PointCount(false)
    ensures var yearly, monthly := PointAt(p.(showMonthly := false), y), PointAt(p.(showMonthly := true), 12 * y);
      yearly.period == YearLabel(y) && monthly.period == MonthLabel(y, 12) &&
      yearly.hysa == monthly.hysa && yearly.bank == monthly.bank && yearly.contributed == monthly.contributed
  {
    MonthPosition(12 * y, y, 12);
  }

  /** With non-negative contributions, the contributed total never decreases. */
  lemma {:induction false} ContributedNonDecreasing(start: real, sched: seq<real>, m: nat, n: nat)
    requires AllNonneg(sched) && m <= n <= 12 * |sched|
    ensures Contributed(start, sched, m) <= Contributed(start, sched, n)
  {
    if m < n {
      ContributedNonDecreasing(start, sched, m, n - 1);
    }
  }

  /** Nothing at the start and nothing contributed: every balance and the
      contributed total stay 0, whatever the rate. */
  lemma {:induction false} NoMoneyStaysZero(sched: seq<real>, apr: real, n: nat)
    requires AllZero(sched) && n <= 12 * |sched|
    ensures Balance(0.0, sched, apr, n) == 0.0
    ensures Contributed(0.0, sched, n) == 0.0
  {
    if n > 0 {
      NoMoneyStaysZero(sched, apr, n - 1);
    }
  }

  /** At a zero rate the balance is exactly what was contributed. */
  lemma {:induction false} ZeroRateBalanceIsContributed(start: real, sched: seq<real>, n: nat)
    requires n <= 12 * |sched|
    ensures Balance(start, sched, 0.0, n) == Contributed(start, sched, n)
  {
    if n > 0 {
      ZeroRateBalanceIsContributed(start, sched, n - 1);
    }
  }

  /** One month's update is monotone in the balance and in the rate. */
  lemma CompoundMonotone(bh: real, bl: real, mc: real, hi: real, lo: real)
    requires bh >= bl >= 0.0 && mc >= 0.0 && hi >= lo >= -12.0
    ensures Compound(bh, mc, hi / 12.0) >= Compound(bl, mc, lo / 12.0)
    ensures Compound(bl, mc, lo / 12.0) >= 0.0
  {
    MulMonotone(bh + mc, bl + mc, 1.0 + hi / 12.0, 1.0 + lo / 12.0);
  }

  /** With non-negative money in, a higher rate never gives a lower balance,
      and no balance goes negative (rates down to -100% a month allowed). */
  lemma {:induction false} HigherRateNeverLower(start: real, sched: seq<real>, hi: real, lo: real, n: nat)
    requires start >= 0.0 && AllNonneg(sched) && hi >= lo >= -12.0 && n <= 12 * |sched|
    ensures Balance(start, sched, hi, n) >= Balance(start, sched, lo, n) >= 0.0
  {
    if n > 0 {
      hide Compound, Balance;
      HigherRateNeverLower(start, sched, hi, lo, n - 1);
      MonthStep(start, sched, hi, n);
      MonthStep(start, sched, lo, n);
      CompoundMonotone(Balance(start, sched, hi, n - 1), Balance(start, sched, lo, n - 1),
                       sched[YearOfMonth(n) - 1] / 12.0, hi, lo);
    }
  }

  /** With non-negative money in and a non-negative rate, the gain shown
      (balance minus contributed) is never negative. */
  lemma GainNonneg(start: real, sched: seq<real>, apr: real, n: nat)
    requires start >= 0.0 && AllNonneg(sched) && apr >= 0.0 && n <= 12 * |sched|
    ensures Balance(start, sched, apr, n) - Contributed(start, sched, n) >= 0.0
  {
    HigherRateNeverLower(start, sched, apr, 0.0, n);
    ZeroRateBalanceIsContributed(start, sched, n);
  }

  /** `points` are the first |points| points the calculator emits for p,
      stated point by point from the last one back. */
  ghost predicate EmittedUpTo(p: Params, points: seq<Point>)
    decreases |points|
  {
    |points| <= PointCount(p.showMonthly) &&
    (|points| == 0 ||
     (EmittedUpTo(p, points[..|points| - 1]) && points[|points| - 1] == PointAt(p, |points| - 1)))
  }

  /** Appending the next point keeps the emitted prefix correct. */
  lemma EmitNext(p: Params, points: seq<Point>, next: Point)
    requires EmittedUpTo(p, points) && |points| < PointCount(p.showMonthly) && next == PointAt(p, |points|)
    ensures EmittedUpTo(p, points + [next])
  {
    assert (points + [next])[..|points|] == points;
  }

  /** Every point of a correct prefix is the calculator's point at its index. */
  lemma {:induction false} EmittedAt(p: Params, points: seq<Point>, i: nat)
    requires EmittedUpTo(p, points) && i < |points|
    ensures points[i] == PointAt(p, i)
  {
    if i < |points| - 1 {
      EmittedAt(p, points[..|points| - 1], i);
    }
  }

  /** Entry k of the calculator's schedule is the contribution of year k + 1. */
  lemma ScheduleOfAt(p: Params, k: nat)
    requires k < Years
    ensures ScheduleOf(p)[k] == YearContrib(p.annualContrib, p.step, k + 1)
  {
    ScheduleAt(p.annualContrib, p.step, Years, k);
  }

  /** Over the 20 years: 241 points in the monthly view, 21 in the yearly view. */
  lemma PointCounts()
    ensures Years == 20 && PointCount(true) == 241 && PointCount(false) == 21
  {
  }

  /** The first point: nothing has happened yet, so both balances and the
      contributed total are the start amount. */
  lemma FirstPoint(p: Params)
    ensures EmittedUpTo(p, [])
    ensures PointAt(p, 0) == Point(if p.showMonthly then MonthLabel(0, 0) else YearLabel(0),
                                   p.startAmount, p.startAmount, p.startAmount)
    ensures YearEndBalance(p.startAmount, ScheduleOf(p), p.rateAPR, 0) == p.startAmount
    ensures YearEndBalance(p.startAmount, ScheduleOf(p), p.bankRateAPR, 0) == p.startAmount
    ensures YearEndContributed(p.startAmount, ScheduleOf(p), 0) == p.startAmount
    ensures YearContrib(p.annualContrib, p.step, 1) == p.annualContrib
  {
  }

  /** Equal rates give identical preferred and bank series. */
  lemma EqualRatesEqualSeries(p: Params, i: nat)
    requires p.rateAPR == p.bankRateAPR && i < PointCount(p.showMonthly)
    ensures PointAt(p, i).hysa == PointAt(p, i).bank
  {
  }

  /** runHysa: the projection, month by month, appending the emitted points;
      the summary figures agree with the last point. */
  method RunHysa(p: Params) returns (points: seq<Point>, stats: Stats)
    ensures |points| == PointCount(p.showMonthly)
    ensures forall i :: 0 <= i < |points| ==> points[i] == PointAt(p, i)
    ensures points[0].hysa == points[0].bank == points[0].contributed == p.startAmount
    ensures p.rateAPR == p.bankRateAPR ==> forall i :: 0 <= i < |points| ==> points[i].hysa == points[i].bank
    ensures stats.totalContributed == points[|points| - 1].contributed
    ensures stats.gain == points[|points| - 1].hysa - points[|points| - 1].contributed
    ensures stats.bankTotal == points[|points| - 1].bank
    ensures stats.totalContributed == ContributedThrough(p.startAmount, ScheduleOf(p), Years)
  {
    hide *;
    FirstPoint(p);
    PointCounts();
    var annualContrib := p.annualContrib;
    points := [];

    var currentHysa := p.startAmount;
    var currentBank := p.startAmount;
    var totalContributed := p.startAmount;

    var firstLabel := if p.showMonthly then MonthLabel(0, 0) else YearLabel(0);
    EmitNext(p, points, Point(firstLabel, currentHysa, currentBank, totalContributed));
    points := points + [Point(firstLabel, currentHysa, currentBank, totalContributed)];

    var monthlyRate := p.rateAPR / 12.0;
    var monthlyBankRate := p.bankRateAPR / 12.0;

    var year := 1;
    while year <= Years
      invariant 1 <= year <= Years + 1
      invariant annualContrib == YearContrib(p.annualContrib, p.step, year)
      invariant currentHysa == YearEndBalance(p.startAmount, ScheduleOf(p), p.rateAPR, year - 1)
      invariant currentBank == YearEndBalance(p.startAmount, ScheduleOf(p), p.bankRateAPR, year - 1)
      invariant totalContributed == YearEndContributed(p.startAmount, ScheduleOf(p), year - 1)
      invariant |points| == (if p.showMonthly then 1 + 12 * (year - 1) else year)
      invariant EmittedUpTo(p, points)
    {
      var monthlyContrib := annualContrib / 12.0;
      ScheduleOfAt(p, year - 1);
      currentHysa, currentBank, totalContributed, points :=
        RunYear(p, year, monthlyContrib, monthlyRate, monthlyBankRate, currentHysa, currentBank, totalContributed, points);

      if !p.showMonthly {
        YearlyPoint(p, year);
        EmitNext(p, points, Point(YearLabel(year), currentHysa, currentBank, totalContributed));
        points := points + [Point(YearLabel(year), currentHysa, currentBank, totalContributed)];
      }

      YearContribNext(p.annualContrib, p.step, year);
      annualContrib := annualContrib * (1.0 + p.step);
      year := year + 1;
    }

    YearEndContributedIsTotal(p.startAmount, ScheduleOf(p), Years);
    if p.showMonthly {
      MonthlyPoint(p, Years, 12);
      YearEndStep(p.startAmount, ScheduleOf(p), p.rateAPR, Years);
      YearEndStep(p.startAmount, ScheduleOf(p), p.bankRateAPR, Years);
    } else {
      YearlyPoint(p, Years);
    }
    forall i | 0 <= i < |points|
      ensures points[i] == PointAt(p, i)
      ensures p.rateAPR == p.bankRateAPR ==> points[i].hysa == points[i].bank
    {
      EmittedAt(p, points, i);
      if p.rateAPR == p.bankRateAPR {
        EqualRatesEqualSeries(p, i);
      }
    }
    stats := Stats(totalContributed, currentHysa - totalContributed, currentBank);
  }

  /** The inner loop of runHysa: the twelve months of year `year`, from the
      balances and total at the end of the previous year. In the monthly
      view each month appends its point. */
  method RunYear(p: Params, year: nat, monthlyContrib: real, monthlyRate: real, monthlyBankRate: real,
                 hysa: real, bank: real, contributed: real, emitted: seq<Point>)
    returns (currentHysa: real, currentBank: real, totalContributed: real, points: seq<Point>)
    requires 1 <= year <= Years
    requires monthlyContrib == ScheduleOf(p)[year - 1] / 12.0
    requires monthlyRate == p.rateAPR / 12.0 && monthlyBankRate == p.bankRateAPR / 12.0
    requires hysa == YearEndBalance(p.startAmount, ScheduleOf(p), p.rateAPR, year - 1)
    requires bank == YearEndBalance(p.startAmount, ScheduleOf(p), p.bankRateAPR, year - 1)
    requires contributed == YearEndContributed(p.startAmount, ScheduleOf(p), year - 1)
    requires |emitted| == (if p.showMonthly then 1 + 12 * (year - 1) else year)
    requires EmittedUpTo(p, emitted)
    ensures currentHysa == YearEndBalance(p.startAmount, ScheduleOf(p), p.rateAPR, year)
    ensures currentBank == YearEndBalance(p.startAmount, ScheduleOf(p), p.bankRateAPR, year)
    ensures totalContributed == YearEndContributed(p.startAmount, ScheduleOf(p), year)
    ensures |points| == (if p.showMonthly then 1 + 12 * year else year)
    ensures EmittedUpTo(p, points)
  {
    hide *;
    YearStart(hysa, contributed, monthlyContrib, monthlyRate);
    YearStart(bank, contributed, monthlyContrib, monthlyBankRate);
    currentHysa, currentBank, totalContributed, points := hysa, bank, contributed, emitted;
    var month := 1;
    while month <= 12
      invariant 1 <= month <= 13
      invariant currentHysa == Accrue(hysa, monthlyContrib, monthlyRate, month - 1)
      invariant currentBank == Accrue(bank, monthlyContrib, monthlyBankRate, month - 1)
      invariant totalContributed == AddMonths(contributed, monthlyContrib, month - 1)
      invariant |points| == (if p.showMonthly then 12 * (year - 1) + month else year)
      invariant EmittedUpTo(p, points)
    {
      AccrueStep(hysa, monthlyContrib, monthlyRate, month, currentHysa);
      AccrueStep(bank, monthlyContrib, monthlyBankRate, month, currentBank);
      AddMonthsStep(contributed, monthlyContrib, month, totalContributed);
      currentHysa := Compound(currentHysa, monthlyContrib, monthlyRate);
      currentBank := Compound(currentBank, monthlyContrib, monthlyBankRate);
      totalContributed := totalContributed + monthlyContrib;

      if p.showMonthly {
        MonthlyPoint(p, year, month);
        EmitNext(p, points, Point(MonthLabel(year, month), currentHysa, currentBank, totalContributed));
        points := points + [Point(MonthLabel(year, month), currentHysa, currentBank, totalContributed)];
      }
      month := month + 1;
    }
    YearEndStep(p.startAmount, ScheduleOf(p), p.rateAPR, year);
    YearEndStep(p.startAmount, ScheduleOf(p), p.bankRateAPR, year);
  }
}
