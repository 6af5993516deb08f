/** Fixed-income instruments (GR5260/fms_fixed_income_*.h).

    An instrument is a finite schedule of cash flows: amounts `cash[i]` paid at times
    `time[i]`. The source keeps the schedule in unmanaged arrays behind an interface
    whose `size`, `time` and `cash` dispatch to the concrete instrument; none of them
    changes the schedule after construction, so an instrument is a value here. A
    discount function `D`, as `par_coupon` takes it, gives every instrument a value. */
module FixedIncome {
  import opened Numeric

  /** `frequency`: payments per year. */
  datatype Frequency = Annual | Semiannual | Quarterly | Monthly
  {
    function PerYear(): (n: nat)
      ensures n in {1, 2, 4, 12}
    {
      match this
      case Annual => 1
      case Semiannual => 2
      case Quarterly => 4
      case Monthly => 12
    }
  }

  /** A schedule of cash flows: `cash[i]` at `time[i]`. */
  datatype Flows = Flows(time: seq<real>, cash: seq<real>)
  {
    predicate Shaped() {
      |time| == |cash|
    }

    function Size(): nat {
      |time|
    }
  }

  /** `instrument`: one size for both arrays. */
  type Instrument = i: Flows | i.Shaped() witness Flows([], [])

  /** `instrument()`: the default constructor, with no cash flows. */
  const Empty: Instrument := Flows([], [])

  /** `operator==`: equal sizes, then equal times and equal amounts, position by position. */
  predicate Equal(a: Instrument, b: Instrument) {
    && a.Size() == b.Size()
    && (forall k :: 0 <= k < a.Size() ==> a.time[k] == b.time[k])
    && (forall k :: 0 <= k < a.Size() ==> a.cash[k] == b.cash[k])
  }

  /** `operator!=`. */
  predicate NotEqual(a: Instrument, b: Instrument) {
    !Equal(a, b)
  }

  /** `==` on instruments is equality of their schedules. */
  lemma {:induction false} EqualIff(a: Instrument, b: Instrument)
    ensures Equal(a, b) <==> a == b
  {
    if Equal(a, b) {
      assert a.time == b.time;
      assert a.cash == b.cash;
    }
  }

  /** Hence it is reflexive and symmetric, and `!=` is its negation. */
  lemma {:induction false} EqualIsEquivalence(a: Instrument, b: Instrument)
    ensures Equal(a, a)
    ensures Equal(a, b) ==> Equal(b, a)
    ensures NotEqual(a, b) <==> a != b
  {
    EqualIff(a, b);
  }

  /** `termination()`: the time of the last cash flow, NaN when there is none. */
  function Termination(i: Instrument): Num {
    if i.Size() == 0 then NaN else Val(i.time[i.Size() - 1])
  }

  /** The termination is defined exactly when there are cash flows, and then it is
      the latest payment time of an increasing schedule. */
  lemma {:induction false} TerminationIsLast(i: Instrument)
    requires forall j, k :: 0 <= j < k < i.Size() ==> i.time[j] < i.time[k]
    ensures Termination(i).Val? <==> i.Size() > 0
    ensures Termination(i).Val? ==> Termination(i).x in i.time
    ensures Termination(i).Val? ==> forall k :: 0 <= k < i.Size() ==> i.time[k] <= Termination(i).x
  {
  }

  /** The discount factors `D(time[j])` at the payment dates. */
  function Discounts(i: Instrument, D: real -> real): (ds: seq<real>)
    ensures |ds| == i.Size()
    ensures forall j :: 0 <= j < i.Size() ==> ds[j] == D(i.time[j])
  {
    DiscountsAt(i.time, D)
  }

  function DiscountsAt(time: seq<real>, D: real -> real): (ds: seq<real>)
    ensures |ds| == |time| && forall j :: 0 <= j < |time| ==> ds[j] == D(time[j])
  {
    if |time| == 0 then [] else DiscountsAt(time[..|time| - 1], D) + [D(time[|time| - 1])]
  }

  /** `sum_{j < k} cash[j] ds[j]`: the first `k` amounts, discounted. */
  function ValueUpTo(cash: seq<real>, ds: seq<real>, k: nat): real
    requires k <= |cash| && k <= |ds|
  {
    if k == 0 then 0.0 else ValueUpTo(cash, ds, k - 1) + cash[k - 1] * ds[k - 1]
  }

  /** The value of an instrument: its cash flows discounted by `D`. */
  function Value(i: Instrument, D: real -> real): real {
    ValueUpTo(i.cash, Discounts(i, D), i.Size())
  }

  /** `zero(u, c = 1)`: the single amount `c` at `u`. */
  function Zero(u: real, c: real := 1.0): Instrument {
    Flows([u], [c])
  }

  /** A zero-coupon bond pays once, at its maturity, and is worth its face discounted;
      two zeros compare equal exactly when maturity and face agree. */
  lemma {:induction false} ZeroFacts(u: real, c: real, v: real, d: real, D: real -> real)
    ensures Zero(u).cash == [1.0]
    ensures Zero(u, c).Size() == 1 && Termination(Zero(u, c)) == Val(u)
    ensures Value(Zero(u, c), D) == c * D(u)
    ensures Equal(Zero(u, c), Zero(v, d)) <==> u == v && c == d
  {
    EqualIff(Zero(u, c), Zero(v, d));
    SingleFlowValue(Zero(u, c), D);
  }

  /** A single cash flow is worth its amount discounted to its time. */
  lemma {:induction false} SingleFlowValue(i: Instrument, D: real -> real)
    requires i.Size() == 1
    ensures Value(i, D) == i.cash[0] * D(i.time[0])
  {
    assert Value(i, D) == ValueUpTo(i.cash, Discounts(i, D), 0) + i.cash[0] * D(i.time[0]);
  }

  /** `cash_deposit(u, r = 0)`: `1 + r u` paid at `u`. */
  function CashDeposit(u: real, r: real := 0.0): Instrument {
    Flows([u], [1.0 + r * u])
  }

  /** A deposit at the default rate is the unit zero-coupon bond; at a rate `r` whose
      simple-interest growth `1 + r u` the discount `D(u)` undoes, it is worth 1. */
  lemma {:induction false} CashDepositFacts(u: real, r: real, D: real -> real)
    ensures CashDeposit(u) == Zero(u)
    ensures CashDeposit(u, r).Size() == 1 && Termination(CashDeposit(u, r)) == Val(u)
    ensures D(u) * (1.0 + r * u) == 1.0 ==> Value(CashDeposit(u, r), D) == 1.0
  {
    SingleFlowValue(CashDeposit(u, r), D);
  }

  /** The forward rate from `u` to `v` implied by `D`, in simple interest. */
  function Forward(D: real -> real, u: real, v: real): (f: Num)
    ensures D(v) != 0.0 && u != v ==> f == Val((D(u) / D(v) - 1.0) / (v - u))
  {
    Div(Minus(Div(Val(D(u)), Val(D(v))), Val(1.0)), Val(v - u))
  }

  /** `forward_rate_agreement(u, v, f)` as the constructor writes it: pay 1 at `u`,
      receive `1 + f (u - v)` at `v`. */
  function ForwardRateAgreementAsWritten(u: real, v: real, f: real): Instrument {
    Flows([u, v], [-1.0, 1.0 + f * (u - v)])
  }

  /** The agreement its header describes: receive `1 + f (v - u)` at `v`. */
  function ForwardRateAgreement(u: real, v: real, f: real): Instrument {
    Flows([u, v], [-1.0, 1.0 + f * (v - u)])
  }

  /** The coded agreement is the described one with the sign of the rate flipped. */
  lemma {:induction false} AsWrittenFlipsRate(u: real, v: real, f: real)
    ensures ForwardRateAgreementAsWritten(u, v, f) == ForwardRateAgreement(u, v, -f)
    ensures Termination(ForwardRateAgreementAsWritten(u, v, f)) == Val(v)
  {
    assert f * (u - v) == -f * (v - u);
  }

  /** Entered at the forward rate `D` implies, the described agreement is worth
      nothing, and that is the only rate at which it is. */
  lemma {:induction false} ForwardRateAgreementFair(u: real, v: real, f: real, D: real -> real)
    requires D(v) != 0.0 && u != v
    ensures Value(ForwardRateAgreement(u, v, f), D) == 0.0 <==> Forward(D, u, v) == Val(f)
  {
    var a, b := D(u), D(v);
    var fra := ForwardRateAgreement(u, v, f);
    assert Value(fra, D) == -a + (1.0 + f * (v - u)) * b by {
      var ds := Discounts(fra, D);
      assert Value(fra, D) == ValueUpTo(fra.cash, ds, 1) + fra.cash[1] * b;
      assert ValueUpTo(fra.cash, ds, 1) == ValueUpTo(fra.cash, ds, 0) + fra.cash[0] * a;
    }
    FairRate(a, b, u, v, f);
  }

  /** `-a + (1 + f (v - u)) b` vanishes exactly at `f = (a/b - 1)/(v - u)`. */
  lemma FairRate(a: real, b: real, u: real, v: real, f: real)
    requires b != 0.0 && u != v
    ensures -a + (1.0 + f * (v - u)) * b == 0.0 <==> f == (a / b - 1.0) / (v - u)
  {
    var g := (a / b - 1.0) / (v - u);
    var w := -a + (1.0 + f * (v - u)) * b;
    assert a == (1.0 + g * (v - u)) * b by {
      assert g * (v - u) == a / b - 1.0;
      assert (a / b) * b == a;
    }
    var x := (v - u) * b;
    assert w == (f - g) * x;
    assert x != 0.0;
    if w == 0.0 {
      assert f - g == w / x;
    }
  }

  /** The coded agreement is not worth nothing at the forward rate: with `D(x) =
      1 - x/2` from 0 to 1 the forward rate is 1 and the agreement is worth -1. */
  lemma {:induction false} AsWrittenNotFair()
    ensures var D := (x: real) => 1.0 - x / 2.0;
      Forward(D, 0.0, 1.0) == Val(1.0) && Value(ForwardRateAgreementAsWritten(0.0, 1.0, 1.0), D) == -1.0
  {
  }

  /** `static_cast<size_t>(1 + q u)`: the number of payment dates of a swap maturing
      at `u`, the initial date included. */
  function Periods(u: real, q: Frequency): (n: nat)
    requires u >= 0.0
    ensures n >= 1 && n as real <= 1.0 + q.PerYear() as real * u < n as real + 1.0
  {
    var x := 1.0 + q.PerYear() as real * u;
    assert x >= 1.0;
    x.Floor
  }

  /** The `j`-th payment date of a swap with spacing `dt`. */
  function SwapTime(j: int, dt: real): real {
    j as real * dt
  }

  /** The `j`-th amount of a swap with `n` dates, spacing `dt` and coupon `r`, before
      the principal is added to the last: 1 paid at time 0, `r dt` received after. */
  function Coupon(j: int, r: real, dt: real): real {
    if j == 0 then -1.0 else r * dt
  }

  /** The swap schedule with `n` dates, spacing `dt` and coupon `r`: the coupons, with
      the principal 1 added to the last. */
  function SwapFlows(n: nat, r: real, dt: real): Instrument {
    if n == 0 then Empty
    else Flows(SwapTimes(n, dt), SwapCoupons(n - 1, r, dt) + [Coupon(n - 1, r, dt) + 1.0])
  }

  /** The first `k` payment dates. */
  function SwapTimes(k: nat, dt: real): (t: seq<real>)
    ensures |t| == k && forall j :: 0 <= j < k ==> t[j] == SwapTime(j, dt)
  {
    if k == 0 then [] else SwapTimes(k - 1, dt) + [SwapTime(k - 1, dt)]
  }

  /** The first `k` coupons. */
  function SwapCoupons(k: nat, r: real, dt: real): (c: seq<real>)
    ensures |c| == k && forall j :: 0 <= j < k ==> c[j] == Coupon(j, r, dt)
  {
    if k == 0 then [] else SwapCoupons(k - 1, r, dt) + [Coupon(k - 1, r, dt)]
  }

  /** `interest_rate_swap(u, r, q)`: size both arrays, fill them, then add the
      principal to the last amount. */
  method InterestRateSwap(u: real, r: real, q: Frequency) returns (irs: Instrument)
    requires u >= 0.0
    ensures irs == SwapFlows(Periods(u, q), r, 1.0 / q.PerYear() as real)
  {
    var n := Periods(u, q);
    var dt := 1.0 / q.PerYear() as real;
    var t := new real[n];
    var c := new real[n];
    FillSchedule(t, c, r, dt);
    c[n - 1] := c[n - 1] + 1.0;
    irs := Flows(t[..], c[..]);
    SameFlows(t[..], c[..], n, r, dt);
  }

  /** The constructor's loop: date `i dt` and coupon `r dt` at every index, with 1 paid
      at date 0. */
  method FillSchedule(t: array<real>, c: array<real>, r: real, dt: real)
    requires t != c && t.Length == c.Length >= 1
    modifies t, c
    ensures forall j :: 0 <= j < t.Length ==> t[j] == SwapTime(j, dt)
    ensures forall j :: 0 <= j < c.Length ==> c[j] == Coupon(j, r, dt)
  {
    t[0] := 0.0;
    c[0] := -1.0;
    for i := 1 to t.Length
      invariant forall j :: 0 <= j < i ==> t[j] == SwapTime(j, dt)
      invariant forall j :: 0 <= j < i ==> c[j] == Coupon(j, r, dt)
    {
      t[i] := i as real * dt;
      c[i] := r * dt;
    }
  }

  /** Arrays filled as `InterestRateSwap` fills them hold `SwapFlows`. */
  lemma {:induction false} SameFlows(t: seq<real>, c: seq<real>, n: nat, r: real, dt: real)
    requires |t| == |c| == n >= 1
    requires forall j :: 0 <= j < n ==> t[j] == SwapTime(j, dt)
    requires forall j :: 0 <= j < n - 1 ==> c[j] == Coupon(j, r, dt)
    requires c[n - 1] == Coupon(n - 1, r, dt) + 1.0
    ensures Flows(t, c) == SwapFlows(n, r, dt)
  {
    var s := SwapFlows(n, r, dt);
    assert t == s.time;
    assert c == s.cash;
  }

  /** The schedule: dates `j dt` from 0, strictly increasing for a positive spacing, the
      swap terminating at the last; 1 paid at the start and the coupon `r dt` received
      at every other date, the last with the principal added. */
  lemma {:induction false} SwapSchedule(n: nat, r: real, dt: real)
    requires n >= 2
    ensures SwapFlows(n, r, dt).Size() == n
    ensures forall j :: 0 <= j < n ==> SwapFlows(n, r, dt).time[j] == j as real * dt
    ensures dt > 0.0 ==> forall j, k :: 0 <= j < k < n ==> SwapFlows(n, r, dt).time[j] < SwapFlows(n, r, dt).time[k]
    ensures Termination(SwapFlows(n, r, dt)) == Val((n - 1) as real * dt)
    ensures SwapFlows(n, r, dt).cash[0] == -1.0 && SwapFlows(n, r, dt).cash[n - 1] == 1.0 + r * dt
    ensures forall j :: 0 < j < n - 1 ==> SwapFlows(n, r, dt).cash[j] == r * dt
  {
    assert SwapFlows(n, r, dt).time == SwapTimes(n, dt);
    TimesIncreasing(n, dt);
  }

  /** Payment dates `j dt` increase with `j` when `dt > 0`. */
  lemma TimesIncreasing(n: nat, dt: real)
    ensures dt > 0.0 ==> forall j, k :: 0 <= j < k < n ==> SwapTimes(n, dt)[j] < SwapTimes(n, dt)[k]
  {
    if dt > 0.0 {
      forall j, k | 0 <= j < k < n
        ensures SwapTimes(n, dt)[j] < SwapTimes(n, dt)[k]
      {
        assert k as real * dt - j as real * dt == (k - j) as real * dt;
      }
    }
  }

  /** A swap too short for a coupon date has the one flow `-1 + 1 = 0`, at time 0. */
  lemma {:induction false} ShortSwap(u: real, r: real, q: Frequency)
    requires 0.0 <= u < 1.0 / q.PerYear() as real
    ensures SwapFlows(Periods(u, q), r, 1.0 / q.PerYear() as real) == Flows([0.0], [0.0])
  {
    var Q := q.PerYear() as real;
    assert Q * u < Q * (1.0 / Q) == 1.0;
  }

  /** `sum` after the first `k` dates of `par_coupon`'s loop, with discount factors
      `ds`: the annuity `sum_{1 <= j < k} (u_j - u_{j-1}) ds_j`. */
  function Annuity(time: seq<real>, ds: seq<real>, k: nat): real
    requires k <= |time| && k <= |ds|
  {
    if k <= 1 then 0.0 else Annuity(time, ds, k - 1) + (time[k - 1] - time[k - 2]) * ds[k - 1]
  }

  /** `par_coupon(irs, D)`: `(D(u_0) - D(u_last))` over the annuity; NaN when the
      annuity is 0. */
  function ParCouponOf(i: Instrument, D: real -> real): Num
    requires i.Size() >= 1
  {
    var ds := Discounts(i, D);
    Div(Val(ds[0] - ds[i.Size() - 1]), Val(Annuity(i.time, ds, i.Size())))
  }

  /** `par_coupon`: accumulate the annuity over the dates after the first, then divide. */
  method ParCoupon(irs: Instrument, D: real -> real) returns (r: Num)
    requires irs.Size() >= 1
    ensures r == ParCouponOf(irs, D)
  {
    var sum := 0.0;
    var u := irs.time;
    ghost var ds := Discounts(irs, D);
    for j := 1 to irs.Size()
      invariant sum == Annuity(u, ds, j)
    {
      sum := sum + (u[j] - u[j - 1]) * D(u[j]);
    }
    r := Div(Val(D(u[0]) - D(u[irs.Size() - 1])), Val(sum));
  }

  /** Consecutive dates of a swap are `dt` apart, so each annuity term of a swap is
      `dt` times the discount at its date. */
  lemma {:induction false} SwapAnnuityStep(n: nat, R: real, dt: real, ds: seq<real>, k: nat)
    requires 2 <= k <= n == |ds|
    ensures Annuity(SwapFlows(n, R, dt).time, ds, k) == Annuity(SwapFlows(n, R, dt).time, ds, k - 1) + dt * ds[k - 1]
  {
    var s := SwapFlows(n, R, dt);
    assert s.time[k - 1] == SwapTime(k - 1, dt) && s.time[k - 2] == SwapTime(k - 2, dt);
    assert (k - 1) as real * dt - (k - 2) as real * dt == dt;
  }

  /** Up to (not including) the last date, a swap with coupon `R` is worth the initial
      payment plus `R` times the annuity. */
  lemma {:induction false} SwapValueBeforeLast(n: nat, R: real, dt: real, ds: seq<real>, k: nat)
    requires 1 <= k < n == |ds|
    ensures ValueUpTo(SwapFlows(n, R, dt).cash, ds, k) == -ds[0] + R * Annuity(SwapFlows(n, R, dt).time, ds, k)
  {
    var s := SwapFlows(n, R, dt);
    assert s.cash[k - 1] == Coupon(k - 1, R, dt);
    if k > 1 {
      SwapValueBeforeLast(n, R, dt, ds, k - 1);
      SwapAnnuityStep(n, R, dt, ds, k);
      CouponArithmetic(ValueUpTo(s.cash, ds, k - 1), Annuity(s.time, ds, k - 1), Annuity(s.time, ds, k), R, dt, ds[0], ds[k - 1]);
    }
  }

  /** The arithmetic of a coupon date. */
  lemma CouponArithmetic(V1: real, A1: real, A: real, R: real, dt: real, d0: real, d: real)
    requires V1 == -d0 + R * A1 && A == A1 + dt * d
    ensures V1 + R * dt * d == -d0 + R * A
  {
    assert R * (A1 + dt * d) == R * A1 + R * dt * d;
  }

  /** The whole swap with coupon `R` is worth `-D(u_0) + R * annuity + D(u_last)`. */
  lemma {:induction false} SwapValue(n: nat, R: real, dt: real, ds: seq<real>)
    requires 2 <= n == |ds|
    ensures ValueUpTo(SwapFlows(n, R, dt).cash, ds, n) == -ds[0] + R * Annuity(SwapFlows(n, R, dt).time, ds, n) + ds[n - 1]
  {
    var s := SwapFlows(n, R, dt);
    SwapValueBeforeLast(n, R, dt, ds, n - 1);
    SwapAnnuityStep(n, R, dt, ds, n);
    var c := s.cash[n - 1];
    assert c == R * dt + 1.0;
    var V1 := ValueUpTo(s.cash, ds, n - 1);
    assert ValueUpTo(s.cash, ds, n) == V1 + c * ds[n - 1];
    LastFlowArithmetic(V1, Annuity(s.time, ds, n - 1), Annuity(s.time, ds, n), R, dt, ds[0], ds[n - 1], c);
  }

  /** The arithmetic of the last date: coupon and principal on top of the rest. */
  lemma LastFlowArithmetic(V1: real, A1: real, A: real, R: real, dt: real, d0: real, d: real, c: real)
    requires V1 == -d0 + R * A1 && A == A1 + dt * d && c == R * dt + 1.0
    ensures V1 + c * d == -d0 + R * A + d
  {
    assert R * (A1 + dt * d) == R * A1 + R * dt * d;
  }

  /** The par coupon of a swap is the one coupon at which the swap is worth nothing
      (the coupon the swap was built with does not enter `par_coupon`). */
  lemma {:induction false} ParCouponIsFair(n: nat, r: real, R: real, dt: real, D: real -> real)
    requires n >= 2
    ensures ParCouponOf(SwapFlows(n, r, dt), D) == Val(R) <==>
      Annuity(SwapFlows(n, R, dt).time, Discounts(SwapFlows(n, R, dt), D), n) != 0.0 && Value(SwapFlows(n, R, dt), D) == 0.0
  {
    var s, S := SwapFlows(n, r, dt), SwapFlows(n, R, dt);
    var ds := Discounts(S, D);
    assert s.time == S.time;
    SwapValue(n, R, dt, ds);
    var A := Annuity(S.time, ds, n);
    assert ParCouponOf(s, D) == Div(Val(ds[0] - ds[n - 1]), Val(A));
    FairCoupon(R, A, ds[0], ds[n - 1]);
  }

  /** `R = (d0 - d) / A` exactly when `A != 0` and `-d0 + R A + d = 0`. */
  lemma FairCoupon(R: real, A: real, d0: real, d: real)
    ensures Div(Val(d0 - d), Val(A)) == Val(R) <==> A != 0.0 && -d0 + R * A + d == 0.0
  {
    if A != 0.0 {
      assert R * A == d0 - d <==> R == (d0 - d) / A;
    }
  }
}
