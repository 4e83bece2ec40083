# Savings and investment projection engine, in Dafny

This project models the projection engine of a browser calculator page
(`js/app.js`). The page has two calculators, and each recomputes a 20-year
series on every input change:

- **HYSA vs bank** (`runHysa`). A start amount and an annual contribution are
  saved month by month into two accounts. Each month, one twelfth of the
  year's contribution goes into each account and the balance compounds at
  the account's monthly rate (APR / 12). The contribution grows by a fixed
  step after every year. The calculator emits the running HYSA balance, the
  bank balance and the total contributed: once per year (21 points,
  "Year 0" to "Year 20") or, in the monthly view, once per month
  (241 points, "Y0 M0" to "Y20 M12").
- **Investment vs inflation** (`runInvestment`). A portfolio receives each
  year's contribution and grows by the annual return. A running inflation
  factor (1 + inflation)^y turns the portfolio value and the contributed
  total into today's money. The calculator emits 21 yearly points, each with
  the nominal value, the real value, the real contributed total and the
  nominal contributed total.

Both calculators are modelled as imperative methods (`Hysa.RunHysa` with
its inner month loop `Hysa.RunYear`, and `Investment.RunInvestment`). They
keep the source's accumulators and loops and append the emitted points to a
sequence. Each method is proved against specification functions:

- HYSA: a month-by-month balance (`Hysa.Balance`) and contributed total
  (`Hysa.Contributed`), plus a year-of-months form (`Hysa.YearEndBalance`,
  `Hysa.Accrue`) that mirrors the two nested loops. `Hysa.BalanceWithinYear`
  proves the two forms equal.
- Investment: the yearly recurrence `Investment.Invested`, deflated by
  `Investment.Deflate`. `Investment.InvestedClosedForm` relates it to an
  independent closed form.

The properties of those functions are then proved as lemmas. The chart's
index-aligned arrays (labels and the numeric series) are the fields of one
sequence of points, so they are aligned by construction.

Files:

- `projection.dfy` (module `Projection`): the 20-year horizon, labels,
  powers, the growing contribution schedule and the yearly contributed
  total.
- `hysa.dfy` (module `Hysa`): the HYSA calculator.
- `investment.dfy` (module `Investment`): the investment calculator.

Inputs are the numbers the calculators compute with. The percentages are
already divided by 100, so `step`, `rateAPR`, `bankRateAPR` and
`inflationRate` are fractions. Reading the form fields is left to the caller.

**Order of operations in the investment calculator.** The usual
annual-compounding convention makes each year's value `(invested +
contribution) * (1 + return)`. The code does something else:

- It grows the portfolio once before the first year (`js/app.js:187`) and at
  the end of every year (`js/app.js:218`).
- It adds the year's contribution in between (`js/app.js:192`).

So the value shown for year y is the value shown for year y − 1, times
(1 + return), plus year y's contribution. The contribution itself does not
grow in the year it is paid. For a start amount of 0, a contribution of
1000 and a return of 7%, year 1 therefore shows 1000, not 1070. The model
follows the code, and `Investment.FirstYear` and `Investment.Recurrence`
state this.

## Model

| member | source | states |
|---|---|---|
| Hysa.RunHysa | js/app.js:54-146 | emits exactly PointCount points (241 in the monthly view, 21 otherwise), point i being `Hysa.PointAt(p, i)` (in the yearly view the year-end point of js/app.js:120-124 is pushed here, after each year's month loop); the first point has balance, bank balance and contributed all equal to the start amount; equal HYSA and bank rates give identical series; the stats are the last point's contributed total, its HYSA balance minus contributed, and its bank balance, and the contributed total is the start amount plus all 20 years' contributions |
| Hysa.RunYear | js/app.js:93-118 | the month loop of one year turns the previous year-end balances and contributed total into this year's; in the monthly view it appends the year's 12 points, each equal to `Hysa.PointAt` at its index, and in the yearly view it appends nothing |
| Hysa.Compound | js/app.js:96-97 | one month of saving: the month's contribution is added to the balance and the sum then grows by the monthly rate |
| Hysa.Balance | js/app.js:69-97 | the balance after n months of the whole run: the start amount, then every month `Compound` with one twelfth of the contribution of the year that month belongs to, at APR/12 |
| Hysa.Contributed | js/app.js:71-98 | the contributed total after n months: the start amount plus, every month, one twelfth of that year's contribution |
| Hysa.PointAt | js/app.js:73-124 | point i of a view: its label and the HYSA balance, bank balance and contributed total after i months (monthly view) or 12·i months (yearly view) |
| Hysa.MonthPosition | js/app.js:92-95 | month m of year y is month 12(y-1)+m of the whole run, and that month maps back to year y, month m |
| Hysa.BalanceWithinYear | js/app.js:92-97 | the balance after month m of year y, computed month by month from the start, equals the previous year-end balance compounded for m months with that year's monthly contribution: the nested loops compute the month-by-month series |
| Hysa.ContributedWithinYear | js/app.js:92-98 | the same for the contributed total |
| Hysa.AddMonthsClosedForm | js/app.js:93-98 | m monthly additions of c/12 add m·c/12 |
| Hysa.YearEndContributedIsTotal | js/app.js:93-98 | twelve monthly twelfths add up to the annual contribution: the contributed total at the end of year y is the start amount plus the contributions of years 1..y |
| Hysa.MonthlyPoint | js/app.js:100-105 | in the monthly view the point after month m of year y is labelled (y, m) and carries the balances and contributed total reached in that month |
| Hysa.YearlyPoint | js/app.js:120-124 | in the yearly view point y is labelled year y and carries the year-end balances and contributed total |
| Hysa.YearlyPointIsMonthlyPoint | js/app.js:100-124 | for the same inputs, the yearly view's point y (labelled year y) and the monthly view's point (y, 12) carry the same HYSA balance, bank balance and contributed total: the two views agree at every year end |
| Hysa.PointCounts | js/app.js:73-124 | the horizon is 20 years; the monthly view emits 241 points, the yearly view 21 |
| Hysa.FirstPoint | js/app.js:69-76 | the first point is labelled period 0 and every series starts at the start amount |
| Hysa.EqualRatesEqualSeries | js/app.js:96-97 | with equal HYSA and bank rates the two balances are equal at every emitted point |
| Hysa.CompoundMonotone | js/app.js:96-97 | one month of saving is monotone in the balance and in the rate, and keeps a non-negative balance non-negative |
| Hysa.HigherRateNeverLower | js/app.js:96-97 | with a non-negative start and contributions, a higher APR never gives a lower balance in any month, and balances stay non-negative |
| Hysa.GainNonneg | js/app.js:142 | with a non-negative start, contributions and APR, the reported gain (balance minus contributed) is never negative |
| Hysa.ZeroRateBalanceIsContributed | js/app.js:96-98 | at APR 0 the balance is exactly the contributed total in every month |
| Hysa.ContributedNonDecreasing | js/app.js:98 | with non-negative contributions the contributed total never decreases from month to month |
| Hysa.NoMoneyStaysZero | js/app.js:69-98 | a zero start amount and zero contributions keep both balances and the contributed total at zero in every month, whatever the rate |
| Hysa.EmittedAt | js/app.js:73-124 | every point of a correctly emitted prefix is `Hysa.PointAt` at its index |
| Hysa.EmitNext | js/app.js:73-124 | appending `Hysa.PointAt` at the next index keeps the emitted prefix correct |
| Investment.Invested | js/app.js:164-218 | the value shown for year y: the start amount for year 0, then the previous year's value grown by (1 + return) plus year y's contribution |
| Investment.Deflate | js/app.js:194-197 | a year-y amount in today's money: divided by the inflation factor (1 + inflation)^y |
| Investment.PointAt | js/app.js:168-203 | the point for year y: year, nominal value, real value, real contributed total and contributed total |
| Investment.RunInvestment | js/app.js:149-227 | emits 21 points, point y being `Investment.PointAt(p, y)`; year 0 has all four values equal to the start amount (real equals nominal); each year's value is the previous year's times (1 + return) plus the year's contribution; the stats are the final contributed total, the final real gain (real value minus real contributed) and the final real contributed total |
| Investment.YearPoint | js/app.js:191-203 | one pass of the year loop turns the grown value, the contributed total and the inflation factor of the year before into exactly `Investment.PointAt` for this year, and the value grown at the end of the year |
| Investment.AllEmitted | js/app.js:164-219 | a complete, correctly emitted series matches `Investment.PointAt` point by point, starts at the start amount and follows the yearly recurrence |
| Investment.Recurrence | js/app.js:187-219 | the value for year y is the value for year y − 1 grown once plus year y's contribution, and the contributed total grows by that contribution |
| Investment.FirstYear | js/app.js:187-192 | year 1 shows the start amount grown once plus the first contribution, ungrown |
| Investment.PointAtYear | js/app.js:194-197 | the real values of year y are the nominal ones divided by (1 + inflation)^y, which is non-zero |
| Investment.InvestedClosedForm | js/app.js:187-218 | the value for year y equals the start amount grown y times plus each year's contribution grown once for every later year |
| Investment.GrownFromExtend | js/app.js:192-218 | one more year grows every earlier contribution once more and adds the new one as paid |
| Investment.ZeroReturnInvested | js/app.js:187-193 | with no return the portfolio equals the contributed total every year |
| Investment.ZeroReturnNoGain | js/app.js:210-213 | with no return every year shows a nominal and a real gain of zero |
| Investment.InvestedAtLeastContributed | js/app.js:187-193 | with a non-negative start, return and contributions, the portfolio is never worth less than the non-negative contributed total |
| Investment.NeverALoss | js/app.js:210-213 | with a non-negative start, contribution and return, a step of at least −100% and inflation above −100%, no year shows a nominal or real loss |
| Investment.InvestedOfZero | js/app.js:164-192 | with nothing paid in, the portfolio stays at zero whatever the return |
| Investment.NoMoneyStaysZero | js/app.js:164-197 | zero start amount and zero contribution make every figure of every year zero |
| Investment.DeflateInverse | js/app.js:194-197 | a real value times the inflation factor (1 + inflation)^y is the nominal value again |
| Investment.RealTimesFactor | js/app.js:166-197 | for every emitted year, real value and real contributed total times (1 + inflation)^y give back the nominal figures: the inflation factor after y years is (1 + inflation)^y |
| Investment.ZeroInflationRealIsNominal | js/app.js:194-197 | with zero inflation the real values equal the nominal ones in every year |
| Investment.DeflateBounds | js/app.js:196-197 | with non-negative inflation, a non-negative amount in today's money lies between 0 and the nominal amount |
| Investment.DeflateSign | js/app.js:196-197 | with inflation above −100%, deflating keeps the sign of an amount |
| Investment.RealGainIsDeflatedGain | js/app.js:213-223 | the real gain (real value minus real contributed) is the nominal gain in today's money |
| Investment.RealGainSign | js/app.js:210-213 | with inflation above −100%, the real gain is non-negative exactly when the nominal gain is |
| Investment.EmittedAt | js/app.js:168-203 | every point of a correctly emitted prefix is `Investment.PointAt` for its year |
| Investment.EmitNext | js/app.js:168-203 | appending `Investment.PointAt` for the next year keeps the emitted prefix correct |
| Projection.YearContrib | js/app.js:138 | the contribution of year y: the annual contribution in year 1, multiplied by (1 + step) after every year |
| Projection.Pow | js/app.js:166-194 | the running product of a growth factor: 1 after no periods, multiplied by the factor once per period |
| Projection.YearContribClosedForm | js/app.js:138 | the contribution of year y is c0·(1 + step)^(y−1) |
| Projection.ScheduleAt | js/app.js:138 | entry k of the contribution schedule is the contribution of year k + 1 |
| Projection.ContributedThrough | js/app.js:165-193 | the contributed total at the end of year y: the start amount plus the contributions of years 1..y |
| Projection.ContributedThroughIsSum | js/app.js:165-193 | the contributed total after y years is the start amount plus the sum of the first y contributions |
| Projection.ContributedFlat | js/app.js:165-219 | with a step of 0 the contributed total after y years is start + y·c0 |
| Projection.ContributedGeometric | js/app.js:191-219 | the contributed total after y years satisfies (total − start)·step = c0·((1 + step)^y − 1), the geometric-series closed form |
| Projection.ContributedThroughNonDecreasing | js/app.js:193 | with non-negative contributions the contributed total never decreases from year to year |
| Projection.ContributedThroughOfZero | js/app.js:165-193 | with a zero start and zero contributions the contributed total stays zero |
| Projection.YearContribNonneg | js/app.js:138 | a non-negative first contribution and a step of at least −100% keep every year's contribution non-negative |
| Projection.ScheduleNonneg | js/app.js:138 | the same, for the whole schedule |
| Projection.ScheduleOfZero | js/app.js:138 | a zero first contribution stays zero every year, whatever the step |
| Projection.PowNonzero | js/app.js:194-197 | when inflation is not −100% the inflation factor is never zero, so the divisions are defined |
| Projection.PowNonneg | js/app.js:194 | a non-negative growth factor gives a non-negative power |
| Projection.PowAtLeastOne | js/app.js:194 | with non-negative inflation the inflation factor is at least 1 |
| Projection.PowOfOne | js/app.js:194 | with zero inflation the inflation factor stays 1 |

## Left out

- Reading the form fields (`Number.parseFloat(...) || 0`) and dividing the percentages by 100: the calculators' parameters are the resulting numbers, with the rates already as fractions.
- Rounding with `toFixed(2)` and formatting with `Intl.NumberFormat`: all values are exact `real` numbers before display formatting.
- IEEE-754 floating point: the arithmetic is over exact reals, so rounding error is not modelled.
- The HTML table rows: their figures (balances, contributed totals and the gain columns) are fields of the emitted points, or differences of them, so only their markup is left out.
- Chart.js (`updateChart`, `updateInvestmentChart`) and the event wiring: calls into a foreign library and the DOM.
- Labels are kept as numbers (`YearLabel(y)`, `MonthLabel(y, m)`), not as rendered strings such as "Y3 M7".
- Investment.RunInvestment: requires inflation not equal to −100%. The code does not guard this case: the factor becomes 0 and the division yields Infinity or NaN, which the model does not represent.
- Investment.RunInvestment: the last `currentInvested *= (1 + rateAPR)`, after the final year, is executed but its result is never shown; the model performs it and does not state anything about it.
