/** Definitions shared by the two projection calculators: the fixed horizon,
    the period labels, powers of a growth factor, the contribution schedule
    (an annual contribution that grows by a fixed step after every year) and
    the running total of contributions at the end of each year. */
module Projection {

  /** Both calculators project over a fixed horizon of 20 years (the HYSA
      one month by month, 12 months a year). */
  const Years: nat := 20

  /** The label of an emitted point: "Year y" in a yearly view, "Y<y> M<m>"
      in the monthly view. Kept as numbers rather than rendered text. */
  datatype Label = YearLabel(year: nat) | MonthLabel(year: nat, month: nat)

  /** x raised to the n-th power, built the way the calculators build it:
      by multiplying a running product by x once per period. */
  function Pow(x: real, n: nat): real
  {
    if n == 0 then 1.0 else Pow(x, n - 1) * x
  }

  /** One more factor. */
  lemma PowStep(x: real, n: nat)
    requires n >= 1
    ensures Pow(x, n) == Pow(x, n - 1) * x
  {
  }

  /** A power of a non-zero base is non-zero. */
  lemma {:induction false} PowNonzero(x: real, n: nat)
    requires x != 0.0
    ensures Pow(x, n) != 0.0
  {
    if n > 0 {
      PowNonzero(x, n - 1);
    }
  }

  /** A power of a non-negative base is non-negative. */
  lemma {:induction false} PowNonneg(x: real, n: nat)
    requires x >= 0.0
    ensures Pow(x, n) >= 0.0
  {
    if n > 0 {
      PowNonneg(x, n - 1);
      MulNonneg(Pow(x, n - 1), x);
    }
  }

  /** A power of a base of at least 1 is at least 1. */
  lemma {:induction false} PowAtLeastOne(x: real, n: nat)
    requires x >= 1.0
    ensures Pow(x, n) >= 1.0
  {
    if n > 0 {
      PowAtLeastOne(x, n - 1);
      MulMonotone(Pow(x, n - 1), 1.0, x, 1.0);
    }
  }

  /** The annual contribution in effect during year `year` (counted from 1):
      the first-year contribution c0, grown by `step` after every completed
      year, as the calculators grow it. */
  function YearContrib(c0: real, step: real, year: nat): real
  {
    if year <= 1 then c0 else YearContrib(c0, step, year - 1) * (1.0 + step)
  }

  /** After a year, the contribution grows by the step. */
  lemma YearContribNext(c0: real, step: real, year: nat)
    requires year >= 1
    ensures YearContrib(c0, step, year + 1) == YearContrib(c0, step, year) * (1.0 + step)
  {
  }

  /** The contribution schedule of the first `years` years, year 1 first. */
  function Schedule(c0: real, step: real, years: nat): (s: seq<real>)
    ensures |s| == years
  {
    if years == 0 then [] else Schedule(c0, step, years - 1) + [YearContrib(c0, step, years)]
  }

  /** Entry k of the schedule is the contribution of year k + 1. */
  lemma {:induction false} ScheduleAt(c0: real, step: real, years: nat, k: nat)
    requires k < years
    ensures Schedule(c0, step, years)[k] == YearContrib(c0, step, k + 1)
  {
    if k < years - 1 {
      ScheduleAt(c0, step, years - 1, k);
    }
  }

  /** The contribution of year y is c0 * (1 + step)^(y - 1). */
  lemma {:induction false} YearContribClosedForm(c0: real, step: real, year: nat)
    requires year >= 1
    ensures YearContrib(c0, step, year) == c0 * Pow(1.0 + step, year - 1)
  {
    if year > 1 {
      YearContribClosedForm(c0, step, year - 1);
      MulAssoc(c0, Pow(1.0 + step, year - 2), 1.0 + step);
    }
  }

  ghost predicate AllNonneg(s: seq<real>)
  {
    forall k :: 0 <= k < |s| ==> s[k] >= 0.0
  }

  ghost predicate AllZero(s: seq<real>)
  {
    forall k :: 0 <= k < |s| ==> s[k] == 0.0
  }

  /** Start amount plus the contributions of years 1..y. */
  function ContributedThrough(start: real, sched: seq<real>, y: nat): real
    requires y <= |sched|
  {
    if y == 0 then start else ContributedThrough(start, sched, y - 1) + sched[y - 1]
  }

  /** Sum of a sequence, front to back. */
  function Sum(s: seq<real>): real
  {
    if s == [] then 0.0 else s[0] + Sum(s[1..])
  }

  lemma {:induction false} SumSnoc(s: seq<real>, x: real)
    ensures Sum(s + [x]) == Sum(s) + x
  {
    if s != [] {
      assert (s + [x])[1..] == s[1..] + [x];
      SumSnoc(s[1..], x);
    }
  }

  /** The running total at the end of year y is the start amount plus the sum
      of the first y annual contributions. */
  lemma {:induction false} ContributedThroughIsSum(start: real, sched: seq<real>, y: nat)
    requires y <= |sched|
    ensures ContributedThrough(start, sched, y) == start + Sum(sched[..y])
  {
    if y > 0 {
      ContributedThroughIsSum(start, sched, y - 1);
      assert sched[..y] == sched[..y - 1] + [sched[y - 1]];
      SumSnoc(sched[..y - 1], sched[y - 1]);
    }
  }

  /** With a flat contribution (no step), y years contribute y times c0. */
  lemma {:induction false} ContributedFlat(start: real, c0: real, y: nat)
    requires y <= Years
    ensures ContributedThrough(start, Schedule(c0, 0.0, Years), y) == start + (y as real) * c0
  {
    if y > 0 {
      ContributedFlat(start, c0, y - 1);
      ScheduleAt(c0, 0.0, Years, y - 1);
      YearContribClosedForm(c0, 0.0, y);
      PowOfOne(y - 1);
      MulPred(y, c0);
    }
  }

  /** With a step, the contributions form a geometric series:
      (total - start) * step == c0 * ((1 + step)^y - 1). */
  lemma {:induction false} ContributedGeometric(start: real, c0: real, step: real, y: nat)
    requires y <= Years
    ensures (ContributedThrough(start, Schedule(c0, step, Years), y) - start) * step == c0 * (Pow(1.0 + step, y) - 1.0)
  {
    hide *;
    var sched := Schedule(c0, step, Years);
    if y == 0 {
      GeometricBase(start, sched, c0, step);
    } else {
      ContributedGeometric(start, c0, step, y - 1);
      PowStep(1.0 + step, y);
      ContributedThroughStep(start, sched, y);
      ScheduleAt(c0, step, Years, y - 1);
      YearContribClosedForm(c0, step, y);
      GeometricStep(ContributedThrough(start, sched, y), ContributedThrough(start, sched, y - 1), start,
                    c0, sched[y - 1], Pow(1.0 + step, y - 1), Pow(1.0 + step, y), step);
    }
  }

  /** Before any year, nothing is contributed and the power is 1. */
  lemma GeometricBase(start: real, sched: seq<real>, c0: real, step: real)
    ensures (ContributedThrough(start, sched, 0) - start) * step == c0 * (Pow(1.0 + step, 0) - 1.0)
  {
  }

  lemma ContributedThroughStep(start: real, sched: seq<real>, y: nat)
    requires 1 <= y <= |sched|
    ensures ContributedThrough(start, sched, y) == ContributedThrough(start, sched, y - 1) + sched[y - 1]
  {
  }

  /** One more term of the geometric series keeps its closed form. */
  lemma GeometricStep(total: real, prevTotal: real, start: real, c0: real, contrib: real, p: real, pNext: real, step: real)
    requires (prevTotal - start) * step == c0 * (p - 1.0)
    requires total == prevTotal + contrib && contrib == c0 * p && pNext == p * (1.0 + step)
    ensures (total - start) * step == c0 * (pNext - 1.0)
  {
  }

  /** A non-negative first contribution with a step of at least -100% keeps
      every year's contribution non-negative. */
  lemma {:induction false} YearContribNonneg(c0: real, step: real, year: nat)
    requires c0 >= 0.0 && step >= -1.0
    ensures YearContrib(c0, step, year) >= 0.0
  {
    if year > 1 {
      YearContribNonneg(c0, step, year - 1);
      MulNonneg(YearContrib(c0, step, year - 1), 1.0 + step);
    }
  }

  /** The same, for every entry of a schedule. */
  lemma ScheduleNonneg(c0: real, step: real, years: nat)
    requires c0 >= 0.0 && step >= -1.0
    ensures AllNonneg(Schedule(c0, step, years))
  {
    forall k | 0 <= k < years
      ensures Schedule(c0, step, years)[k] >= 0.0
    {
      ScheduleAt(c0, step, years, k);
      YearContribNonneg(c0, step, k + 1);
    }
  }

  /** With no first-year contribution, every year contributes nothing. */
  lemma ScheduleOfZero(step: real, years: nat)
    ensures AllZero(Schedule(0.0, step, years))
  {
    forall k | 0 <= k < years
      ensures Schedule(0.0, step, years)[k] == 0.0
    {
      ScheduleAt(0.0, step, years, k);
      YearContribClosedForm(0.0, step, k + 1);
    }
  }

  /** The power of 1 is 1 for every exponent. */
  lemma {:induction false} PowOfOne(n: nat)
    ensures Pow(1.0, n) == 1.0
  {
    if n > 0 {
      PowOfOne(n - 1);
    }
  }

  /** The contributed total never decreases from one year to a later one
      when contributions are non-negative. */
  lemma {:induction false} ContributedThroughNonDecreasing(start: real, sched: seq<real>, m: nat, n: nat)
    requires AllNonneg(sched) && m <= n <= |sched|
    ensures ContributedThrough(start, sched, m) <= ContributedThrough(start, sched, n)
  {
    if m < n {
      ContributedThroughNonDecreasing(start, sched, m, n - 1);
    }
  }

  /** With nothing at the start and nothing contributed, the total stays 0. */
  lemma {:induction false} ContributedThroughOfZero(sched: seq<real>, y: nat)
    requires AllZero(sched) && y <= |sched|
    ensures ContributedThrough(0.0, sched, y) == 0.0
  {
    if y > 0 {
      ContributedThroughOfZero(sched, y - 1);
    }
  }

  /** Product of two non-negative reals is non-negative. */
  lemma MulNonneg(a: real, b: real)
    requires a >= 0.0 && b >= 0.0
    ensures a * b >= 0.0
  {
  }

  lemma MulAssoc(a: real, b: real, c: real)
    ensures a * (b * c) == (a * b) * c
  {
  }

  /** m copies of x are m - 1 copies and one more. */
  lemma MulPred(m: nat, x: real)
    requires m >= 1
    ensures (m as real) * x == ((m - 1) as real) * x + x
  {
  }

  /** Multiplication is monotone in both factors over the non-negative reals. */
  lemma MulMonotone(a: real, b: real, x: real, y: real)
    requires a >= b >= 0.0 && x >= y >= 0.0
    ensures a * x >= b * y >= 0.0
  {
    assert a * x - b * x == (a - b) * x;
    MulNonneg(a - b, x);
    assert b * x - b * y == b * (x - y);
    MulNonneg(b, x - y);
    MulNonneg(b, y);
  }
}
