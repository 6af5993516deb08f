/** The piecewise-flat forward curve (GR5260/fms_pwflat.h).

    f(u) = f[i]  for t[i-1] < u <= t[i]   (t[-1] = 0)
         = ext   for u > t[n-1]
    and undefined (NaN) for u < 0 or knots that are not strictly increasing.

    The query functions below are the specifications; the loops of `integral`,
    `present_value`, `duration` and `partial_duration` are the methods
    `ComputeIntegral`, `ComputePresentValue`, `ComputeDuration` and
    `ComputePartialDuration`, each proved equal to its specification. */
module PwFlat {
  import opened Numeric

  /** Knot times `t`, one forward rate per knot in `f`, and the extrapolation rate
      `ext` that applies past the last knot (NaN unless the caller supplies one). */
  datatype Curve = Curve(t: seq<real>, f: seq<real>, ext: Num) {
    /** `t` and `f` both hold the `n` knots. */
    predicate Shaped() {
      |t| == |f|
    }

    /** The last knot time, or 0 for a curve without knots. */
    function End(): real {
      if |t| == 0 then 0.0 else t[|t| - 1]
    }
  }

  /** `std::adjacent_find` with `>=` over `t[k..]`: the first `i >= k` with
      `t[i] >= t[i + 1]`, or `|t|` when there is none. */
  function AdjacentFind(t: seq<real>, k: nat): (i: nat)
    requires k <= |t|
    ensures k <= i <= |t|
    ensures i < |t| ==> i + 1 < |t| && t[i] >= t[i + 1]
    decreases |t| - k
  {
    if k + 1 >= |t| then |t|
    else if t[k] >= t[k + 1] then k
    else AdjacentFind(t, k + 1)
  }

  /** `strictly_increasing(n, t)`. */
  predicate StrictlyIncreasing(t: seq<real>) {
    AdjacentFind(t, 0) == |t|
  }

  /** Every knot is smaller than every later knot. */
  ghost predicate Increasing(t: seq<real>) {
    forall i, j :: 0 <= i < j < |t| ==> t[i] < t[j]
  }

  /** `std::lower_bound(t + k, t + n, u)` as an index: the first `i >= k` with
      `u <= t[i]`, or `|t|`. On an increasing range this is what the binary search
      finds. */
  function LowerBound(t: seq<real>, k: nat, u: real): (i: nat)
    requires k <= |t|
    ensures k <= i <= |t|
    ensures i < |t| ==> u <= t[i]
    decreases |t| - k
  {
    if k == |t| || u <= t[k] then k else LowerBound(t, k + 1, u)
  }

  /** Every element that `LowerBound` passes over is below `u`. */
  lemma {:induction false} LowerBoundPasses(t: seq<real>, k: nat, u: real, j: nat)
    requires k <= |t| && k <= j < LowerBound(t, k, u)
    ensures t[j] < u
    decreases |t| - k
  {
    if k < j {
      LowerBoundPasses(t, k + 1, u, j);
    }
  }

  /** An index with everything before it below `u` and `u` at most its element is
      the one `LowerBound` finds. */
  lemma {:induction false} LowerBoundIs(t: seq<real>, k: nat, u: real, i: nat)
    requires k <= i <= |t|
    requires forall j :: k <= j < i ==> t[j] < u
    requires i < |t| ==> u <= t[i]
    ensures LowerBound(t, k, u) == i
    decreases i - k
  {
    if k < i {
      LowerBoundIs(t, k + 1, u, i);
    }
  }

  /** Where the scan `for (i = k; i < n && t[i] <= u; ++i)` stops: the first `i >= k`
      with `u < t[i]`, or `|t|`. */
  function FirstAfter(t: seq<real>, k: nat, u: real): (i: nat)
    requires k <= |t|
    ensures k <= i <= |t|
    ensures i < |t| ==> u < t[i]
    decreases |t| - k
  {
    if k == |t| || u < t[k] then k else FirstAfter(t, k + 1, u)
  }

  /** Every knot the scan passes over is at or before `u`. */
  lemma {:induction false} FirstAfterPasses(t: seq<real>, k: nat, u: real, j: nat)
    requires k <= |t| && k <= j < FirstAfter(t, k, u)
    ensures t[j] <= u
    decreases |t| - k
  {
    if k < j {
      FirstAfterPasses(t, k + 1, u, j);
    }
  }

  /** An index with every knot before it at or before `u` and `u` before its own knot
      is where the scan stops. */
  lemma {:induction false} FirstAfterIs(t: seq<real>, k: nat, u: real, i: nat)
    requires k <= i <= |t|
    requires forall j :: k <= j < i ==> t[j] <= u
    requires i < |t| ==> u < t[i]
    ensures FirstAfter(t, k, u) == i
    decreases i - k
  {
    if k < i {
      FirstAfterIs(t, k + 1, u, i);
    }
  }

  /** The knot before position `k` (`t[k-1]`), or 0 at the start of the curve. */
  function Left(t: seq<real>, k: nat): real
    requires k <= |t|
  {
    if k == 0 then 0.0 else t[k - 1]
  }

  /** f[0]*(t[0] - 0) + f[1]*(t[1] - t[0]) + ... over the first `k` knots. */
  function KnotSum(t: seq<real>, f: seq<real>, k: nat): real
    requires k <= |t| && k <= |f|
  {
    if k == 0 then 0.0 else KnotSum(t, f, k - 1) + f[k - 1] * (t[k - 1] - Left(t, k - 1))
  }

  /** `rate * width`, except that a zero width contributes 0 whatever the rate, so
      that the integral from 0 to 0 is 0 on every curve. The source multiplies the
      NaN extrapolation by 0 there (see `TailAsWritten`). */
  function Tail(rate: Num, width: real): Num {
    if width == 0.0 then Val(0.0)
    else if rate.Val? then Val(rate.x * width)
    else NaN
  }

  /** `rate * width` as the source computes it: NaN whenever the rate is, even over a
      zero width. */
  function TailAsWritten(rate: Num, width: real): Num {
    if rate.Val? then Val(rate.x * width) else NaN
  }

  /** `rate * (to - from)`: what a flat forward rate accrues from `from` to `to`. Named
      so that facts about `exp(-Accrued(..))` match by their arguments. */
  function Accrued(rate: real, from: real, to: real): real {
    rate * (to - from)
  }

  /** `value(u, n, t, f, _f)`: the forward rate at `u`. */
  function Value(c: Curve, u: real): Num
    requires c.Shaped()
  {
    if u < 0.0 || !StrictlyIncreasing(c.t) then NaN
    else if |c.t| == 0 then c.ext
    else
      var i := LowerBound(c.t, 0, u);
      if i == |c.t| then c.ext else Val(c.f[i])
  }

  /** The rate `integral` applies after the last knot at or before `u` (the scan stopped
      at `i`): `_f` past the end of the curve, else `f[i]`. When `i == n` and `u == t[n-1]`
      the source reads `f[n]`; that term has zero width, so 0 stands in for it. */
  function SegmentRate(c: Curve, u: real, i: nat): Num
    requires c.Shaped() && i <= |c.t|
  {
    var n := |c.t|;
    if n == 0 || u > c.t[n - 1] then c.ext
    else if i < n then Val(c.f[i])
    else Val(0.0)
  }

  /** `integral(u, n, t, f, _f)` in closed form: the whole segments of the knots at
      or before `u`, plus the rate of the segment containing `u` times the distance
      from the last such knot. */
  function Integral(c: Curve, u: real): Num
    requires c.Shaped()
  {
    if u < 0.0 || !StrictlyIncreasing(c.t) then NaN
    else
      var i := FirstAfter(c.t, 0, u);
      AddTail(KnotSum(c.t, c.f, i), Tail(SegmentRate(c, u, i), u - Left(c.t, i)))
  }

  /** `integral(u, n, t, f, _f)` exactly as written: the tail is `TailAsWritten`, so on
      a curve without knots and with the default NaN extrapolation even `u = 0`
      gives NaN. */
  function IntegralAsWritten(c: Curve, u: real): Num
    requires c.Shaped()
  {
    if u < 0.0 || !StrictlyIncreasing(c.t) then NaN
    else
      var i := FirstAfter(c.t, 0, u);
      AddTail(KnotSum(c.t, c.f, i), TailAsWritten(SegmentRate(c, u, i), u - Left(c.t, i)))
  }

  /** `sum + tail`: NaN when the tail is. */
  function AddTail(sum: real, tail: Num): Num {
    if tail.Val? then Val(sum + tail.x) else NaN
  }

  /** The loop of `integral`. */
  method ComputeIntegral(c: Curve, u: real) returns (I: Num)
    requires c.Shaped()
    ensures I == Integral(c, u)
  {
    if u < 0.0 || !StrictlyIncreasing(c.t) {
      return NaN;
    }
    var i, sum, t_ := ScanKnots(c, u);
    I := AddTail(sum, Tail(SegmentRate(c, u, i), u - t_));
    IntegralAfterScan(c, u, i);
  }

  /** The scan of `integral` over the knots at or before `u`: where it stops, the
      sum of the whole segments it passed and the last knot it passed. */
  method ScanKnots(c: Curve, u: real) returns (i: nat, sum: real, t_: real)
    requires c.Shaped()
    ensures i <= |c.t| && (i < |c.t| ==> u < c.t[i])
    ensures forall j :: 0 <= j < i ==> c.t[j] <= u
    ensures sum == KnotSum(c.t, c.f, i) && t_ == Left(c.t, i)
  {
    var n := |c.t|;
    sum, t_, i := 0.0, 0.0, 0;
    while i < n && c.t[i] <= u
      invariant 0 <= i <= n
      invariant forall j :: 0 <= j < i ==> c.t[j] <= u
      invariant sum == KnotSum(c.t, c.f, i)
      invariant t_ == Left(c.t, i)
    {
      assert KnotSum(c.t, c.f, i + 1) == KnotSum(c.t, c.f, i) + c.f[i] * (c.t[i] - Left(c.t, i));
      sum := sum + c.f[i] * (c.t[i] - t_);
      t_ := c.t[i];
      i := i + 1;
    }
  }

  /** Where the scan stops, the closed form of `Integral` is what the loop adds up. */
  lemma {:induction false} IntegralAfterScan(c: Curve, u: real, i: nat)
    requires c.Shaped() && 0.0 <= u && StrictlyIncreasing(c.t) && i <= |c.t|
    requires forall j :: 0 <= j < i ==> c.t[j] <= u
    requires i < |c.t| ==> u < c.t[i]
    ensures Integral(c, u) == AddTail(KnotSum(c.t, c.f, i), Tail(SegmentRate(c, u, i), u - Left(c.t, i)))
  {
    FirstAfterIs(c.t, 0, u, i);
  }

  /** `discount(u, n, t, f, _f)`: D(u) = exp(-integral(u)). */
  function Discount(exp: real -> real, c: Curve, u: real): Num
    requires c.Shaped()
  {
    Exp(exp, Neg(Integral(c, u)))
  }

  /** `spot(u, n, t, f, _f)`: flat at `f[0]` up to the first knot, `integral(u)/u`
      after it. The source reads `t[0]`, so the curve must have a knot. */
  function Spot(c: Curve, u: real): Num
    requires c.Shaped() && |c.t| > 0
  {
    if u <= c.t[0] then Val(c.f[0]) else Div(Integral(c, u), Val(u))
  }

  /** `present_value(m, u, cs, n, t, f, _f)`: the sum of `cs[i] * D(u[i])` over the
      first `m` cash flows. */
  function PresentValue(exp: real -> real, m: nat, u: seq<real>, cs: seq<real>, c: Curve): Num
    requires m <= |u| && m <= |cs| && c.Shaped()
  {
    if m == 0 then Val(0.0)
    else Plus(PresentValue(exp, m - 1, u, cs, c), Times(Val(cs[m - 1]), Discount(exp, c, u[m - 1])))
  }

  /** The loop of `present_value`. */
  method ComputePresentValue(exp: real -> real, m: nat, u: seq<real>, cs: seq<real>, c: Curve)
    returns (p: Num)
    requires m <= |u| && m <= |cs| && c.Shaped()
    ensures p == PresentValue(exp, m, u, cs, c)
  {
    p := Val(0.0);
    var i := 0;
    while i < m
      invariant 0 <= i <= m
      invariant p == PresentValue(exp, i, u, cs, c)
    {
      p := Plus(p, Times(Val(cs[i]), Discount(exp, c, u[i])));
      i := i + 1;
    }
  }

  /** `duration(m, u, cs, n, t, f, _f)`: minus the sum of `u[i] * cs[i] * D(u[i])`. */
  function Duration(exp: real -> real, m: nat, u: seq<real>, cs: seq<real>, c: Curve): Num
    requires m <= |u| && m <= |cs| && c.Shaped()
  {
    if m == 0 then Val(0.0)
    else Minus(Duration(exp, m - 1, u, cs, c), Times(Val(u[m - 1] * cs[m - 1]), Discount(exp, c, u[m - 1])))
  }

  /** The loop of `duration`. */
  method ComputeDuration(exp: real -> real, m: nat, u: seq<real>, cs: seq<real>, c: Curve)
    returns (d: Num)
    requires m <= |u| && m <= |cs| && c.Shaped()
    ensures d == Duration(exp, m, u, cs, c)
  {
    d := Val(0.0);
    var i := 0;
    while i < m
      invariant 0 <= i <= m
      invariant d == Duration(exp, i, u, cs, c)
    {
      assert Duration(exp, i + 1, u, cs, c)
        == Minus(Duration(exp, i, u, cs, c), Times(Val(u[i] * cs[i]), Discount(exp, c, u[i])));
      d := Minus(d, Times(Val(u[i] * cs[i]), Discount(exp, c, u[i])));
      i := i + 1;
    }
  }

  /** The first cash flow that `partial_duration` counts:
      `lower_bound(u, u + m, t[n-1])`, or 0 for a curve without knots. */
  function PartialStart(m: nat, u: seq<real>, c: Curve): (i0: nat)
    requires m <= |u|
    ensures i0 <= m
  {
    if |c.t| == 0 then 0 else LowerBound(u[..m], 0, c.End())
  }

  /** Minus the sum of `(u[i] - t0) * cs[i] * D(u[i])` for `i0 <= i < k`. */
  function EndSensitivity(exp: real -> real, i0: nat, t0: real, k: nat, u: seq<real>, cs: seq<real>, c: Curve): Num
    requires k <= |u| && k <= |cs| && c.Shaped()
  {
    if k <= i0 then Val(0.0)
    else Minus(EndSensitivity(exp, i0, t0, k - 1, u, cs, c),
               Times(Val((u[k - 1] - t0) * cs[k - 1]), Discount(exp, c, u[k - 1])))
  }

  /** One more cash flow in `EndSensitivity`. */
  lemma {:induction false} EndSensitivityStep(exp: real -> real, i0: nat, t0: real, k: nat, u: seq<real>, cs: seq<real>, c: Curve)
    requires i0 <= k < |u| && k < |cs| && c.Shaped()
    ensures EndSensitivity(exp, i0, t0, k + 1, u, cs, c)
      == Minus(EndSensitivity(exp, i0, t0, k, u, cs, c), Times(Val((u[k] - t0) * cs[k]), Discount(exp, c, u[k])))
  {
  }

  /** `partial_duration(m, u, cs, n, t, f, _f)`: the sensitivity to the rate past the
      last knot, over the cash flows from `PartialStart` on. */
  function PartialDuration(exp: real -> real, m: nat, u: seq<real>, cs: seq<real>, c: Curve): Num
    requires m <= |u| && m <= |cs| && c.Shaped()
  {
    EndSensitivity(exp, PartialStart(m, u, c), c.End(), m, u, cs, c)
  }

  /** The loop of `partial_duration`. */
  method ComputePartialDuration(exp: real -> real, m: nat, u: seq<real>, cs: seq<real>, c: Curve)
    returns (d: Num)
    requires m <= |u| && m <= |cs| && c.Shaped()
    ensures d == PartialDuration(exp, m, u, cs, c)
  {
    d := Val(0.0);
    var i0 := PartialStart(m, u, c);
    var t0 := c.End();
    var i := i0;
    while i < m
      invariant i0 <= i <= m
      invariant d == EndSensitivity(exp, i0, t0, i, u, cs, c)
    {
      EndSensitivityStep(exp, i0, t0, i, u, cs, c);
      d := Minus(d, Times(Val((u[i] - t0) * cs[i]), Discount(exp, c, u[i])));
      i := i + 1;
    }
  }
}
