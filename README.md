# GR5260 fixed-income core in Dafny

This project models the numerical core of the GR5260 course library, a header-only
C++ library for fixed-income mathematics. It covers the following parts:

- **Piecewise-flat forward curves** (`fms::pwflat`): the forward rate `value`, its `integral`, `discount`, `spot`, and the cash-flow measures `present_value`, `duration` and `partial_duration`.
- **`bootstrap`**: extends a curve by one segment so that the curve reprices an instrument. It uses the closed forms where the source has them. Otherwise it calls Newton's method (`fms::root1d::newton_solver`).
- **Fixed-income instruments** (`fms::fixed_income`):
  - the instrument interface, with equality and termination;
  - zero coupon bonds, cash deposits and forward rate agreements;
  - interest rate swaps and their par coupon.
- **Polynomials** (`fms::poly`): Bell polynomials, and the index-reversed `Bell2`, from cumulants. Also the probabilists' Hermite polynomials.
- **The binomial measure** (`fms::binomial`): its count iterator, and the probability of `k` ones in `N` fair draws.
- **Correlation matrices** (`fms::correlation`): built as rows of unit vectors from packed or zero-padded input.
- **The driver's numeric helpers**: the running `mean` of a generator, and the arithmetic progression `sequence`.

How the model is written:

- **Doubles**: inputs (knot times and rates, flow times and amounts, query times, prices) are finite `real`s. Results that can be NaN are `Num = Val(x: real) | NaN`. Arithmetic on them is exact, and NaN propagates as in IEEE 754. Division by zero and the logarithm of a non-positive number give NaN.
- **`exp`, `log`, `sqrt` and `nextafter`** are parameters of the functions that use them. The laws the proofs need are stated as predicates: `ExpLaws`, `SqrtLaw` and `NextAfterLaw`.
- **Exceptions** are a `Result` whose `Raised` case names the failure:
  - `EnsureFailed` for a failed `ensure`;
  - `TooManyIterations` for Newton's iteration cap.
- **Loops in the source** are methods with loop invariants, and each is proved equal to a specification function. These methods are:
  - the curve's integral, present value and durations;
  - Bell and Bell2;
  - the swap schedule and par coupon;
  - the correlation constructor and `rho`;
  - `mean` and `sequence`.
- **Objects the source updates in place** are classes: the Newton solver, the binomial iterator and the correlation matrix.

Module layout:

| file | module |
|---|---|
| numeric.dfy | `Numeric`: doubles, NaN arithmetic, laws of `exp`/`log`/`sqrt`/`nextafter` |
| pwflat.dfy | `PwFlat`: the curve and its operations |
| pwflat_facts.dfy | `PwFlatFacts`: properties of the curve operations |
| root1d.dfy | `Root1d`: Newton's method as a solver object |
| bootstrap.dfy | `Bootstrap`: closed forms and the solver fallback |
| bootstrap_facts.dfy | `BootstrapFacts`: the bootstrapped segment reprices the instrument |
| fixed_income.dfy | `FixedIncome`: instruments, swaps and the par coupon |
| combinatorics.dfy | `Combinatorics`: binomial coefficients and powers of two |
| poly.dfy | `Poly`: Bell and Hermite polynomials |
| binomial.dfy | `Binomial`: the iterator and the binomial probabilities |
| correlation.dfy | `Correlation`: correlation matrices |
| helpers.dfy | `Helpers`: `mean` and `sequence` |

## Model

| member | source | states |
|---|---|---|
| PwFlat.StrictlyIncreasing | GR5260/fms_pwflat.h:24-28 | `adjacent_find` with `>=` reaches the end; StrictlyIncreasingIff gives its meaning |
| PwFlat.AdjacentFind | GR5260/fms_pwflat.h:24-28 | the scan returns the end, or an index whose adjacent pair has `t[i] >= t[i+1]` |
| PwFlatFacts.StrictlyIncreasingIff | GR5260/fms_pwflat.h:24-28 | `strictly_increasing` holds iff every adjacent pair increases, iff every pair `i < j` has `t[i] < t[j]`; sequences of length at most 1 pass |
| PwFlatFacts.AdjacentFindScans | GR5260/fms_pwflat.h:27 | `adjacent_find` reaches the end exactly when no adjacent pair from the start index fails to increase |
| PwFlatFacts.KnotsOrdered | GR5260/fms_pwflat.h:24-28 | knots of a strictly increasing curve are ordered pairwise |
| PwFlat.LowerBound | GR5260/fms_pwflat.h:43 | `lower_bound` returns an index at which `u <= t[i]` (or the end) |
| PwFlat.LowerBoundPasses | GR5260/fms_pwflat.h:43 | every knot before `lower_bound` is below `u` |
| PwFlat.LowerBoundIs | GR5260/fms_pwflat.h:43 | an index with all knots before it below `u` and the knot at it `>= u` is the `lower_bound` |
| PwFlat.FirstAfter | GR5260/fms_pwflat.h:60 | the integral's scan stops at the first knot strictly after `u` |
| PwFlat.FirstAfterPasses | GR5260/fms_pwflat.h:60 | every knot the scan passes is at most `u` |
| PwFlat.FirstAfterIs | GR5260/fms_pwflat.h:60 | the scan's stopping index is characterised uniquely |
| PwFlat.Value | GR5260/fms_pwflat.h:31-46 | `value`: NaN on a negative time or unordered knots, the extrapolation on an empty curve or past the end, else `f` at the `lower_bound` index; its properties are the Value lemmas below |
| PwFlatFacts.ValueUndefinedIff | GR5260/fms_pwflat.h:33-46 | `value` is NaN iff `u < 0`, or the knots are not strictly increasing, or `u` is past the knots and the extrapolation is NaN |
| PwFlatFacts.ValueEmpty | GR5260/fms_pwflat.h:40-41 | an empty curve returns the extrapolated rate for `u >= 0` |
| PwFlatFacts.ValueOnSegment | GR5260/fms_pwflat.h:31-45 | for `t[i-1] < u <= t[i]` (or `0 <= u <= t[0]`) the value is `f[i]` |
| PwFlatFacts.ValueAtKnot | GR5260/fms_pwflat.h:31-45 | at a knot `t[i] >= 0` the value is `f[i]` (the segment is closed on the right) |
| PwFlatFacts.ValuePastEnd | GR5260/fms_pwflat.h:45 | past the last knot the value is the extrapolated rate |
| PwFlat.Integral | GR5260/fms_pwflat.h:49-67 | `integral`: the knot sum over the passed knots plus the tail rate times the distance from the last one, with a zero-width tail counted as 0 (see Findings); its properties are the Integral lemmas below |
| PwFlat.IntegralAsWritten | GR5260/fms_pwflat.h:64 | `integral` with the tail `_f*(u - t_)` exactly as written, NaN times 0 included |
| PwFlatFacts.IntegralAsWrittenDiffers | GR5260/fms_pwflat.h:56-64 | the as-written integral differs from `Integral` exactly at time 0 on a curve without knots and with a NaN extrapolation, where it is NaN instead of 0 |
| PwFlat.ComputeIntegral | GR5260/fms_pwflat.h:49-67 | the loop computes `Integral(c, u)` |
| PwFlat.ScanKnots | GR5260/fms_pwflat.h:59-63 | the loop passes exactly the knots `<= u`, summing `f[j] (t[j] - t[j-1])` over them and ending at the last passed knot |
| PwFlat.IntegralAfterScan | GR5260/fms_pwflat.h:64 | the integral is the knot sum plus the tail `rate * (u - t_)`, where the rate is `f[i]` inside the curve and the extrapolation beyond it |
| PwFlatFacts.IntegralUndefinedIff | GR5260/fms_pwflat.h:53-66 | the integral is NaN iff `u < 0`, or the knots are not increasing, or it reaches past the end with a NaN extrapolation |
| PwFlatFacts.IntegralOnSegment | GR5260/fms_pwflat.h:49-67 | on segment `i` the integral is the knot sum up to `i` plus `f[i] (u - t[i-1])` |
| PwFlatFacts.IntegralAtKnot | GR5260/fms_pwflat.h:60-64 | at a knot the same formula holds; the zero-width tail adds nothing |
| PwFlatFacts.IntegralPastEnd | GR5260/fms_pwflat.h:64 | past the end: the whole knot sum plus the extrapolation times the distance past the end |
| PwFlatFacts.IntegralAtZero | GR5260/fms_pwflat.h:56-64 | the integral from 0 to 0 is 0 |
| PwFlatFacts.IntegralIgnoresExtension | GR5260/fms_pwflat.h:64 | up to the last knot the integral does not depend on the extrapolation |
| PwFlatFacts.IntegralAtEnd | GR5260/fms_pwflat.h:59-64 | at the last knot the integral is the full knot sum |
| PwFlatFacts.IntegralBeyondEnd | GR5260/fms_pwflat.h:64 | beyond the end, with a defined extrapolation `e`, the integral is the knot sum plus `e (x - T)` |
| PwFlatFacts.FlatKnotSum | GR5260/fms_pwflat.h:60-63 | a curve flat at `r` accrues `r * t[k-1]` over its first `k` knots |
| PwFlat.Discount | GR5260/fms_pwflat.h:69-75 | `discount`: `exp` of minus the integral, NaN with it |
| PwFlatFacts.DiscountAtZero | GR5260/fms_pwflat.h:69-75 | `D(0) = 1` |
| PwFlatFacts.DiscountUndefinedIff | GR5260/fms_pwflat.h:69-75 | the discount is NaN exactly when the integral is |
| PwFlatFacts.DiscountBeyondEnd | GR5260/fms_pwflat.h:69-75 | beyond the end the discount factors into the discount to the end times `exp(-e (x - T))` |
| PwFlat.Spot | GR5260/fms_pwflat.h:77-83 | `spot`: `f[0]` up to the first knot, else the integral divided by `u` |
| PwFlatFacts.SpotIsAverageRate | GR5260/fms_pwflat.h:77-83 | `spot(u) * u` is the integral to `u`: spot is the average forward rate |
| PwFlatFacts.SpotBeforeFirstKnot | GR5260/fms_pwflat.h:82 | before the first knot the integral is `f[0] u`, so the shortcut `f[0]` agrees with it |
| PwFlat.PresentValue | GR5260/fms_pwflat.h:86-98 | `present_value`: the sum of `c[i] D(u[i])` over the first `m` flows |
| PwFlat.ComputePresentValue | GR5260/fms_pwflat.h:86-98 | the loop computes `sum c[i] D(u[i])` |
| PwFlatFacts.PresentValueDefinedIff | GR5260/fms_pwflat.h:86-98 | the present value is defined iff every discount it uses is |
| PwFlatFacts.PresentValueIgnoresExtension | GR5260/fms_pwflat.h:86-98 | flows up to the last knot are priced without the extrapolation |
| PwFlatFacts.DefinedPresentValueStopsAtEnd | GR5260/fms_pwflat.h:86-98 | with a NaN extrapolation, a defined present value means every flow lies in `[0, end]` on an increasing curve |
| PwFlat.Duration | GR5260/fms_pwflat.h:100-112 | `duration`: minus the sum of `u[i] c[i] D(u[i])` |
| PwFlat.ComputeDuration | GR5260/fms_pwflat.h:100-112 | the loop computes `-sum u[i] c[i] D(u[i])` |
| PwFlatFacts.DurationDefinedIff | GR5260/fms_pwflat.h:100-112 | the duration is defined iff every discount it uses is |
| PwFlat.PartialDuration | GR5260/fms_pwflat.h:114-129 | `partial_duration`: minus the sum of `(u[i] - t0) c[i] D(u[i])` from `PartialStart` on |
| PwFlat.PartialStart | GR5260/fms_pwflat.h:122 | the first flow index at or after the last knot (0 on an empty curve), never past `m` |
| PwFlatFacts.PartialStartOnOrderedFlows | GR5260/fms_pwflat.h:121-122 | on flows in time order a flow precedes `PartialStart` exactly when it is before the last knot, as `lower_bound` promises |
| PwFlat.ComputePartialDuration | GR5260/fms_pwflat.h:114-129 | the loop computes `-sum (u[i] - t0) c[i] D(u[i])` over the flows from the first one at or after the end |
| PwFlatFacts.PartialStartSplits | GR5260/fms_pwflat.h:122 | flows before `i0` are before the end; the flow at `i0` is at or after it |
| PwFlat.EndSensitivityStep | GR5260/fms_pwflat.h:124-126 | one more flow subtracts `(u[k] - t0) c[k] D(u[k])` |
| PwFlatFacts.PartialDurationFlowAtEnd | GR5260/fms_pwflat.h:125 | a flow exactly at the end contributes nothing |
| PwFlatFacts.PartialDurationEmptyCurve | GR5260/fms_pwflat.h:122-123 | on an empty curve the partial duration is the duration |
| PwFlatFacts.SensitivityFromZero | GR5260/fms_pwflat.h:107-108 | the sensitivity from time 0 over all flows is the duration |
| Root1d.NewtonSolver.constructor | GR5260/fms_root1d_newton.h:9-18 | starts at `x0` with no iterations taken, keeping `f`, `df` and the iteration cap (the template's 100 is `DefaultMaxIterations`) |
| Root1d.NewtonSolver.Next | GR5260/fms_root1d_newton.h:23-30 | counts the iteration, records `y = f(x)` and steps `x - y / f'(x)` |
| Root1d.NewtonSolver.Done | GR5260/fms_root1d_newton.h:31-41 | raises iff past the cap; otherwise true iff `f` at both neighbouring doubles is at least `|y|` |
| Root1d.NewtonSolver.Solve | GR5260/fms_root1d.h:21-30 | steps until done: the result is the converged iterate, or the iteration error exactly when the cap is passed; the state is the `k`-th Newton iterate |
| Root1d.FirstStep | GR5260/fms_root1d.h:25-27 | after one step the solver holds the first Newton iterate |
| Root1d.NextStep | GR5260/fms_root1d.h:25-27 | an unconverged solver takes one more Newton step |
| Root1d.RootIsFixedPoint | GR5260/fms_root1d_newton.h:23-30 | a simple root is a fixed point of the step |
| Root1d.StopsAtRoot | GR5260/fms_root1d_newton.h:31-41 | started at a simple root, one step converges |
| Root1d.ProbesBothBelow | GR5260/fms_root1d_newton.h:37-38 | for `x > 1` both probes lie below `x`, since `nextafter` moves toward its second argument |
| Root1d.ProbesStraddle | GR5260/fms_root1d_newton.h:37-38 | for `-1 < x < 1` the probes straddle `x` |
| Bootstrap.LastFlowRate | GR5260/fms_bootstrap.h:18-34 | the closed form `log((p - pv)/(c_ D_))/(t_ - u_)` with `pv` the other flows' value and `D_` the discount to the end |
| Bootstrap.ZeroPriceRate | GR5260/fms_bootstrap.h:45 | the closed form `log(-c0/c1)/(u0 - u1)` |
| Bootstrap.PriceGap | GR5260/fms_bootstrap.h:48-50 | the solver's function: `-p` plus the present value with the extrapolation as argument |
| Bootstrap.PriceSlope | GR5260/fms_bootstrap.h:51-53 | the solver's derivative: `partial_duration` with the extrapolation as argument |
| Bootstrap.ClosedForm | GR5260/fms_bootstrap.h:15-46 | raises iff `m == 0`, or the last flow is not after the curve's end, or the two-flow zero-price case has `u[0] >= u[1]`; otherwise the new knot is at the last flow time |
| Bootstrap.Bootstrap | GR5260/fms_bootstrap.h:10-66 | a failed check raises; a closed form is returned as is; otherwise, starting at `f[n-1]` (or the caller's guess on an empty curve), the rate is the first Newton iterate on `pv - p` that stops within 100 steps, and the iteration error is raised exactly when none of the first 100 stops |
| BootstrapFacts.LastFlowReprices | GR5260/fms_bootstrap.h:28-35 | the closed-form rate makes the extended curve price the instrument at `p` |
| BootstrapFacts.LastFlowRatePrices | GR5260/fms_bootstrap.h:28-35 | the closed form solves `p = pv + c D exp(-f(u - t))` |
| BootstrapFacts.ClosedFormDefined | GR5260/fms_bootstrap.h:34 | a defined closed form implies the logarithm's argument was positive and `t_ != u_` |
| BootstrapFacts.OtherFlowsUnchanged | GR5260/fms_bootstrap.h:32 | extending the curve leaves the value of the earlier flows unchanged |
| BootstrapFacts.ZeroPriceBalances | GR5260/fms_bootstrap.h:37-46 | the two-flow zero-price rate makes the extended curve value the instrument at 0 |
| BootstrapFacts.ZeroPriceRateDefined | GR5260/fms_bootstrap.h:45 | a defined rate implies `-c0/c1 > 0` and `u0 != u1` |
| BootstrapFacts.ZeroLadder | GR5260/GR5260.cpp:510-515 | bootstrapping the zeros with prices `exp(-r u0)`, `u0 = 1, ..., k`, yields the curve flat at `r` with knots `1..k` |
| BootstrapFacts.AsWrittenFirstRateIsNaN | GR5260/fms_bootstrap.h:22-34 | with the source's integral, `D_` on a curve without knots is NaN and so is the closed-form rate of a single flow, for every price, amount and time |
| BootstrapFacts.ZeroLadderStep | GR5260/GR5260.cpp:511-514 | one bootstrap of the zero at `k+1` on the flat ladder adds the knot `(k+1, r)` |
| BootstrapFacts.LadderCurve | GR5260/GR5260.cpp:510-518 | the ladder curve is increasing, ends at `k` and accrues `r k` |
| FixedIncome.Frequency.PerYear | GR5260/fms_fixed_income_instrument.h:6-11 | a frequency is 1, 2, 4 or 12 payments a year |
| FixedIncome.Equal | GR5260/fms_fixed_income_instrument.h:26-31 | `==`: same size, same times, same amounts |
| FixedIncome.NotEqual | GR5260/fms_fixed_income_instrument.h:32-35 | `!=`: the negation of `==` |
| FixedIncome.EqualIff | GR5260/fms_fixed_income_instrument.h:26-31 | `==` (same size, same times, same cash) holds iff the instruments are the same flows |
| FixedIncome.EqualIsEquivalence | GR5260/fms_fixed_income_instrument.h:26-35 | `==` is reflexive and symmetric, and `!=` is its negation |
| FixedIncome.Termination | GR5260/fms_fixed_income_instrument.h:41-48 | `termination`: NaN without flows, else the last flow time |
| FixedIncome.TerminationIsLast | GR5260/fms_fixed_income_instrument.h:41-48 | termination is defined iff there is a flow; it is a flow time, and the latest one for an increasing schedule |
| FixedIncome.Discounts | GR5260/fms_fixed_income_interest_rate_swap.h:57-60 | one discount factor per cash flow: `ds[j] = D(u[j])`, the factors `par_coupon` weights |
| FixedIncome.Zero | GR5260/fms_fixed_income_zero.h:13-15 | `zero(u, c = 1)`: the single flow `c` at `u` |
| FixedIncome.ZeroFacts | GR5260/fms_fixed_income_zero.h:13-28 | a zero has one flow `c` (default 1) at `u`, terminates at `u`, is worth `c D(u)`; two zeros are equal iff time and cash agree |
| FixedIncome.CashDeposit | GR5260/fms_fixed_income_cash_deposit.h:13-15 | `cash_deposit(u, r = 0)`: the single flow `1 + r u` at `u` |
| FixedIncome.CashDepositFacts | GR5260/fms_fixed_income_cash_deposit.h:13-15 | a deposit pays `1 + r u` at `u`; with `r = 0` it is the unit zero; at the rate the curve implies it is worth 1 |
| FixedIncome.ForwardRateAgreementAsWritten | GR5260/fms_fixed_income_foward_rate_agreement.h:14-21 | the constructor as coded: `-1` at `u`, `1 + f (u - v)` at `v` |
| FixedIncome.ForwardRateAgreement | GR5260/fms_fixed_income_foward_rate_agreement.h:2 | the agreement the header describes: `-1` at `u`, `1 + f (v - u)` at `v` |
| FixedIncome.AsWrittenFlipsRate | GR5260/fms_fixed_income_foward_rate_agreement.h:14-21 | the constructor as written is the agreement at rate `-f`; it terminates at `v` |
| FixedIncome.ForwardRateAgreementFair | GR5260/fms_fixed_income_foward_rate_agreement.h:2 | the corrected agreement is worth 0 iff `f` is the forward rate |
| FixedIncome.AsWrittenNotFair | GR5260/fms_fixed_income_foward_rate_agreement.h:20 | for `D(x) = 1 - x/2`, `u = 0`, `v = 1` the forward is 1, yet the as-written agreement at `f = 1` is worth -1 |
| FixedIncome.Periods | GR5260/fms_fixed_income_interest_rate_swap.h:22 | the number of points is `floor(1 + q u)`, at least 1 |
| FixedIncome.InterestRateSwap | GR5260/fms_fixed_income_interest_rate_swap.h:21-33 | the constructor builds the swap schedule with `floor(1 + q u)` points and `dt = 1/q` |
| FixedIncome.FillSchedule | GR5260/fms_fixed_income_interest_rate_swap.h:26-31 | the loop sets `t[j] = j dt`, `c[0] = -1` and `c[j] = r dt` |
| FixedIncome.SameFlows | GR5260/fms_fixed_income_interest_rate_swap.h:32 | adding 1 to the last coupon gives the swap flows |
| FixedIncome.SwapFlows | GR5260/fms_fixed_income_interest_rate_swap.h:1-5 | the `n`-point swap schedule with spacing `dt`; SwapSchedule states its shape |
| FixedIncome.SwapSchedule | GR5260/fms_fixed_income_interest_rate_swap.h:1-5 | `t_j = j/f`, strictly increasing; `C_0 = -1`, `C_j = r/f` in between, `C_n = 1 + r/f`; termination at `(n-1)/f` |
| FixedIncome.ShortSwap | GR5260/fms_fixed_income_interest_rate_swap.h:22-32 | a swap shorter than one period is the single flow 0 at time 0 |
| FixedIncome.ParCoupon | GR5260/fms_fixed_income_interest_rate_swap.h:49-61 | the loop computes `(D(t_0) - D(t_n)) / sum (t_j - t_{j-1}) D(t_j)` |
| FixedIncome.ParCouponIsFair | GR5260/fms_fixed_income_interest_rate_swap.h:49 | the par coupon is `R` iff the annuity is nonzero and the swap with coupon `R` is worth 0 |
| FixedIncome.ParCouponOf | GR5260/fms_fixed_income_interest_rate_swap.h:49-61 | `par_coupon`: `(D(t_0) - D(t_n))` over the annuity `sum (t_j - t_{j-1}) D(t_j)` |
| Combinatorics.Absorb | GR5260/fms_binomial.h:40 | `k C(n, k) = n C(n-1, k-1)` |
| Combinatorics.ChooseStepReal | GR5260/fms_poly.h:23-25 | multiplying `C(m, k)` by `m - k` and dividing by `k + 1` gives `C(m, k+1)` |
| Combinatorics.ChooseSymmetric | GR5260/fms_poly.h:31-33 | `C(n, k) = C(n, n-k)` |
| Combinatorics.RowSumIsPow2 | GR5260/fms_binomial.h:3-4 | a row of Pascal's triangle sums to `2^n` |
| Poly.Bell | GR5260/fms_poly.h:10-29 | the loop computes `B_n = sum C(n-1, k) B_{n-1-k} kappa_k` |
| Poly.NextCoefficient | GR5260/fms_poly.h:23-24 | the running coefficient stays `C(n-1, k)` |
| Poly.Bell2 | GR5260/fms_poly.h:34-53 | the loop computes the reversed sum `sum C(n-1, k) B_k kappa_{n-1-k}` |
| Poly.Bell2IsBell | GR5260/fms_poly.h:30-33 | `Bell2(n) = Bell(n)` for every `n` |
| Poly.BellReadsPrefix | GR5260/fms_poly.h:6-9 | `B_n` reads only `kappa_0..kappa_{n-1}` |
| Poly.BellSmall | GR5260/GR5260.cpp:89-105 | `B_0..B_4` expand as the tests state |
| Poly.Hermite | GR5260/fms_poly.h:95-110 | `He_0 = 1`, `He_1 = x`, `He_n = x He_{n-1} - (n-1) He_{n-2}` |
| Poly.HermiteSmall | GR5260/GR5260.cpp:65-82 | `He_2 = x^2 - 1`, `He_3 = x^3 - 3x`, `He_4 = x^4 - 6x^2 + 3` |
| Poly.HermiteOddAtZero | GR5260/fms_poly.h:95-110 | the odd `He_{2m+1}` vanish at 0 |
| Poly.HermiteEvenAtZero | GR5260/fms_poly.h:95-110 | the even ones alternate in sign at 0: `He_{4m}(0) > 0`, `He_{4m+2}(0) < 0` |
| Binomial.Iterator.Begin | GR5260/fms_binomial.h:28 | begin has count 0 |
| Binomial.Iterator.End | GR5260/fms_binomial.h:29 | end has count `N + 1` |
| Binomial.Iterator.Count | GR5260/fms_binomial.h:30-33 | dereferencing gives the count as a `size_t`: equal for `0 <= k < 2^64`, wrapped for negative `k` |
| Binomial.Iterator.Increment | GR5260/fms_binomial.h:34-37 | `++` adds one to the count |
| Binomial.Iterator.Equal | GR5260/fms_binomial.h:20-23 | `==` compares the counts |
| Binomial.Iterator.NotEqual | GR5260/fms_binomial.h:24-27 | `!=` is the negation of `==` |
| Binomial.EqualIsCount | GR5260/fms_binomial.h:20-27 | `==` compares counts and is symmetric; `!=` is its negation |
| Binomial.Probability | GR5260/fms_binomial.h:40-50 | `probability<N>(k)`: the mirror `N - k` when `2k > N`, `2^-N` at 0, else `N P_{N-1}(k-1)/(2k)` |
| Binomial.ProbabilityIsChoose | GR5260/fms_binomial.h:40-50 | the recursion computes `C(N, k) / 2^N` |
| Binomial.ProbabilityFacts | GR5260/fms_binomial.h:43-47 | `P(0) = 2^-N`, `P(k) = P(N-k)`, every probability is positive |
| Binomial.ProbabilitiesSumToOne | GR5260/fms_binomial.h:40-50 | the probabilities of `0..N` ones add up to 1 |
| Correlation.OffsetsInRange | GR5260/fms_correlation.h:38 | each row's entries fit before the next row's and inside the input |
| Correlation.Correlation.Empty | GR5260/fms_correlation.h:24-25 | the default matrix has no rows |
| Correlation.Correlation.constructor | GR5260/fms_correlation.h:26-45 | builds row 0 as `[1]` and row `i` as its inputs followed by `sqrt(1 - e2)` |
| Correlation.FillRow | GR5260/fms_correlation.h:35-43 | the inner loop copies the inputs at `off` and appends `sqrt(1 - sum of squares)` |
| Correlation.RowsShape | GR5260/fms_correlation.h:32-43 | there are `n` rows; row `i` has `i+1` entries; below the diagonal an entry is input `off + j`; the diagonal is `sqrt(1 - e2)` |
| Correlation.Correlation.Get | GR5260/fms_correlation.h:52-56 | the stored entry on or below the diagonal, 0 above it |
| Correlation.Correlation.Size | GR5260/fms_correlation.h:47-50 | the number of rows |
| Correlation.RhoSymmetric | GR5260/fms_correlation.h:63-65 | `rho(i, j) = rho(j, i)`: the swap makes the order of the indices irrelevant |
| Correlation.Correlation.Rho | GR5260/fms_correlation.h:58-75 | the loop computes the dot product of rows `min(i,j)` and `max(i,j)` |
| Correlation.RhoFirst | GR5260/fms_correlation.h:32 | `rho(0, 0) = 1` and `rho(0, j)` is row `j`'s first input |
| Correlation.RhoDiagonal | GR5260/fms_correlation.h:43 | `rho(i, i) = 1` whenever the row's inputs have squared norm at most 1 |
| Correlation.ThreeFactors | GR5260/GR5260.cpp:741-768 | the packed and zero-padded three-factor inputs give `rho(0,2) = 0.4` and `rho(1,2) = 0.5*0.4 + sqrt(0.75)*0.3` |
| Helpers.Mean | GR5260/GR5260.cpp:32-42 | the running update computes the average of the draws, 0 for none |
| Helpers.MeanOfRamp | GR5260/GR5260.cpp:44-53 | the mean of `1/n, ..., n/n` is `(n+1)/(2n)` |
| Helpers.Sequence | GR5260/GR5260.cpp:168-179 | the result is `start + k step` for exactly the `k` with that term below `stop` |
| Helpers.SequenceIncreasing | GR5260/GR5260.cpp:168-179 | the progression increases strictly; it is empty iff `start >= stop` |

## Left out

- Floating point: all arithmetic is exact real arithmetic. Rounding and the epsilon tolerances of the tests are not modelled. `exp`, `log`, `sqrt` and `nextafter` are parameters constrained only by the laws the proofs use.
- NaN and infinite inputs are not modelled. IEEE ±inf results (`x/0` for `x != 0`, `log(0)`, overflow of `exp`) are modelled as NaN. So the iff lemmas hold over finite real inputs only. Two examples:
  - With `u` NaN, `value` returns `f[0]` on a non-empty ordered curve. PwFlatFacts.ValueUndefinedIff does not cover that case.
  - With `p == pv`, the closed form at fms_bootstrap.h:34 is `log(0)/(t_ - u_) = +inf` in the source. Bootstrap.ClosedForm gives NaN there, and BootstrapFacts.ClosedFormDefined speaks about that NaN.
  - Likewise `strictly_increasing` accepts knots containing NaN, because comparisons with NaN are false. The model's knots are finite.
- `Bell3` (GR5260/fms_poly.h:55-92) is not modelled: it caches results in function-local statics between calls.
- The non-virtual-interface split of the solver (`abstract_solver::next/done/solve` calling `_next/_done`) is folded into one class, `NewtonSolver`. The source's `_done` is declared `const` and so does not override the non-const pure virtual. The model follows the evident intent that it does.
- The solver holds `f` and `df` by reference in the source. The model holds the functions themselves, so dangling references are not modelled. `y` starts as NaN because the source leaves it uninitialised until the first step.
- Bootstrap: the source constructs the solver without an initial point and calls `solve(_f)`, which the solver class does not declare. The model follows the evident intent: Newton's method started at `_f`, which is `f[n-1]` when the curve is non-empty.
- Bootstrap.ClosedForm: the `ensure` macro is modelled as raising `EnsureFailed`. The message it carries is not modelled.
- `partial_duration`'s default argument names an undeclared type `X`. The model passes the extrapolation explicitly.
- PwFlat.Integral: a tail of zero width adds 0 whatever its rate. This is the corrected behaviour recorded under Findings. So PwFlatFacts.IntegralAtZero, PwFlatFacts.IntegralUndefinedIff, PwFlatFacts.DiscountAtZero, Bootstrap.ClosedForm and BootstrapFacts.ZeroLadder describe the corrected curve. On a curve without knots and with the default NaN extrapolation, the source's integral at 0 is NaN instead (PwFlat.IntegralAsWritten).
- PwFlat.SegmentRate: at `u == t[n-1]` the source reads `f[n]`, one past the end of the array, and multiplies it by a zero width. That read is undefined behaviour. The model uses 0 in its place, so the term adds nothing.
- PwFlat.PartialStart: `std::lower_bound` is specified only on flows ordered with respect to the last knot. The model takes the first flow at or after the last knot. That is what `lower_bound` returns on every such range (PwFlatFacts.PartialStartOnOrderedFlows). On unordered flows the source's result is unspecified and the model's may differ.
- `spot` reads `t[0]` and `f[0]` without a check. The model requires a non-empty curve.
- `instrument::termination` calls `quite_NaN`, which is not a member of `numeric_limits`. The model returns NaN as intended.
- Instruments over caller-owned memory (the base constructor with raw pointers) are modelled as value sequences. Aliasing is not modelled.
- FixedIncome.InterestRateSwap: requires `u >= 0`, because every `u < 0` is undefined behaviour. For `u < -1/q` it is the `size_t` conversion of the negative `1 + q u`. Otherwise the conversion gives 0, and the write of `t[0]` into the empty vector is undefined.
- Binomial.Probability: requires `k <= N`.
  - For `k > N` the `size_t` arithmetic wraps, and the source recurses without bound.
  - `ldexp(1, -N)` on an unsigned `N` is modelled as `2^-N`.
  - The compile-time recursion of `probability<N-1>` at `N = 0` is not modelled.
  - The mirror call `probability(N - k)` at fms_binomial.h:44 gives no template argument, and `N` cannot be deduced from it. The model reads it as `probability<N>(N - k)`.
- Binomial.Iterator: the `int` count is unbounded in the model. Overflow of `++` past `INT_MAX` is not modelled. The `size_t` conversion in `operator*` is modelled.
- Correlation.ThreeFactors: the tests call the constructor as `(n, d, e[, layout])` (GR5260.cpp:728-757). The header's constructor takes `(n, e, layout)` (fms_correlation.h:26). The model uses the header's signature with the tests' input arrays.
- Correlation: `rho` and `operator()` do not check their indices in the source. The model requires valid indices. The input array must hold `InputSize` values, as the constructor reads that many.
- Helpers.Mean: the generator `f` is given as the sequence of values it returns. The random-number test is not modelled.
- Helpers.Sequence: requires `step > 0` or `start >= stop`. With `step <= 0` and `start < stop` the source loops forever. `step` defaults to 1, as in the source.
- The Excel add-in glue, timing, `main`, the Black model, Ho–Lee, Brownian motion, swaptions and the analytic-function code are not part of this model.

## Findings

| source | as written | input that shows it | evidently intended | confidence | as-written member | corrected member |
|---|---|---|---|---|---|---|
| GR5260/fms_fixed_income_foward_rate_agreement.h:20 | `c[1] = 1 + f*(u - v)` pays the rate with the wrong sign, so it is the agreement at rate `-f` | `D(x) = 1 - x/2`, `u = 0`, `v = 1`, `f = 1`: the forward rate is 1, but the agreement at `f = 1` is worth -1 | `C_v = 1 + f (v - u)` as the file's header states; it is worth 0 exactly at the forward rate | not executed | FixedIncome.ForwardRateAgreementAsWritten (FixedIncome.AsWrittenNotFair) | FixedIncome.ForwardRateAgreement (FixedIncome.ForwardRateAgreementFair) |
| GR5260/fms_pwflat.h:64 | the tail `_f*(u - t_)` is NaN·0 = NaN at `u = 0` on a curve without knots with the default NaN `_f`. So `discount(0)` is NaN, and so is `D_` in `bootstrap` (fms_bootstrap.h:22), which passes no `_f` | `n = 0`, `u = 0`: the integral is NaN. Bootstrapping a zero-coupon bond on an empty curve gives the rate NaN for every price. The ladder test at GR5260.cpp:510-528 compares NaN, so it cannot notice | the integral from 0 to 0 is 0 and `D(0) = 1`; the first rung of the ladder is the rate `r` | not executed | PwFlat.IntegralAsWritten (PwFlatFacts.IntegralAsWrittenDiffers, BootstrapFacts.AsWrittenFirstRateIsNaN) | PwFlat.Integral (PwFlatFacts.IntegralAtZero, BootstrapFacts.ZeroLadder) |
