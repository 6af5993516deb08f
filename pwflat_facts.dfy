/** What the piecewise-flat curve of `PwFlat` promises: the knot check, the lookup
    of the forward rate, the integral as the area under that step function, and
    the discount, spot and cash-flow sums built on it. */
module PwFlatFacts {
  import opened Numeric
  import opened PwFlat

  /** Each knot is smaller than the next one. */
  ghost predicate AdjacentIncreasing(t: seq<real>) {
    forall i, j {:trigger t[i], t[j]} :: 0 <= i && j == i + 1 && j < |t| ==> t[i] < t[j]
  }

  /** `strictly_increasing` holds exactly when every adjacent pair increases, and
      then every knot is smaller than every later one; one knot or none passes. */
  lemma {:induction false} StrictlyIncreasingIff(t: seq<real>)
    ensures StrictlyIncreasing(t) <==> AdjacentIncreasing(t)
    ensures StrictlyIncreasing(t) <==> Increasing(t)
    ensures |t| <= 1 ==> StrictlyIncreasing(t)
  {
    AdjacentFindScans(t, 0);
    AdjacentIncreasingIsIncreasing(t);
  }

  /** The search from `k` finds nothing exactly when every adjacent pair from `k` on
      increases. */
  lemma {:induction false} AdjacentFindScans(t: seq<real>, k: nat)
    requires k <= |t|
    ensures AdjacentFind(t, k) == |t| <==>
      forall i, j {:trigger t[i], t[j]} :: k <= i && j == i + 1 && j < |t| ==> t[i] < t[j]
    decreases |t| - k
  {
    if k + 1 < |t| && t[k] < t[k + 1] {
      AdjacentFindScans(t, k + 1);
    }
  }

  lemma {:induction false} AdjacentIncreasingIsIncreasing(t: seq<real>)
    ensures AdjacentIncreasing(t) <==> Increasing(t)
  {
    if AdjacentIncreasing(t) {
      forall i, j | 0 <= i < j < |t|
        ensures t[i] < t[j]
      {
        Climb(t, i, j);
      }
    }
  }

  lemma {:induction false} Climb(t: seq<real>, i: nat, j: nat)
    requires AdjacentIncreasing(t) && i < j < |t|
    ensures t[i] < t[j]
    decreases j - i
  {
    if i + 1 < j {
      Climb(t, i + 1, j);
    }
  }

  /** Knots that pass `strictly_increasing` are ordered. */
  lemma {:induction false} Ordered(t: seq<real>)
    requires StrictlyIncreasing(t)
    ensures Increasing(t)
  {
    StrictlyIncreasingIff(t);
  }

  /** Two knots of a curve that passes `strictly_increasing`, in order. */
  lemma {:induction false} KnotsOrdered(t: seq<real>, i: nat, j: nat)
    requires StrictlyIncreasing(t) && i < j < |t|
    ensures t[i] < t[j]
  {
    Ordered(t);
  }

  /** `value` is NaN exactly for a negative time, for knots that are not strictly
      increasing, and where the extrapolation rate applies and is itself NaN. */
  lemma {:induction false} ValueUndefinedIff(c: Curve, u: real)
    requires c.Shaped()
    ensures Value(c, u) == NaN <==>
      (u < 0.0 || !StrictlyIncreasing(c.t) || (c.ext == NaN && (|c.t| == 0 || u > c.End())))
  {
    if 0.0 <= u && StrictlyIncreasing(c.t) && |c.t| > 0 {
      Ordered(c.t);
      var i := LowerBound(c.t, 0, u);
      if i < |c.t| {
        assert c.t[i] <= c.t[|c.t| - 1];
      } else {
        LowerBoundPasses(c.t, 0, u, |c.t| - 1);
      }
    }
  }

  /** On a curve without knots `value` is the extrapolation rate at every time from 0 on. */
  lemma {:induction false} ValueEmpty(c: Curve, u: real)
    requires c.Shaped() && |c.t| == 0 && 0.0 <= u
    ensures Value(c, u) == c.ext
  {
  }

  /** `value(u) == f[i]` on the half-open segment `(t[i-1], t[i]]`, the first one
      running from 0. */
  lemma {:induction false} ValueOnSegment(c: Curve, i: nat, u: real)
    requires c.Shaped() && StrictlyIncreasing(c.t) && i < |c.t|
    requires 0.0 <= u <= c.t[i] && (i == 0 || c.t[i - 1] < u)
    ensures Value(c, u) == Val(c.f[i])
  {
    Ordered(c.t);
    LowerBoundIs(c.t, 0, u, i);
  }

  /** `value(t[i]) == f[i]`. */
  lemma {:induction false} ValueAtKnot(c: Curve, i: nat)
    requires c.Shaped() && StrictlyIncreasing(c.t) && i < |c.t| && 0.0 <= c.t[i]
    ensures Value(c, c.t[i]) == Val(c.f[i])
  {
    Ordered(c.t);
    ValueOnSegment(c, i, c.t[i]);
  }

  /** Past the last knot `value` is the extrapolation rate. */
  lemma {:induction false} ValuePastEnd(c: Curve, u: real)
    requires c.Shaped() && StrictlyIncreasing(c.t) && 0.0 <= u
    requires |c.t| == 0 || u > c.End()
    ensures Value(c, u) == c.ext
  {
    Ordered(c.t);
    LowerBoundIs(c.t, 0, u, |c.t|);
  }

  /** `integral` is NaN exactly for a negative time, for knots that are not strictly
      increasing, and past the last knot when the extrapolation rate is NaN. */
  lemma {:induction false} IntegralUndefinedIff(c: Curve, u: real)
    requires c.Shaped()
    ensures Integral(c, u) == NaN <==>
      (u < 0.0 || !StrictlyIncreasing(c.t) || (c.ext == NaN && u > c.End()))
  {
    if 0.0 <= u && StrictlyIncreasing(c.t) {
      Ordered(c.t);
      var i := FirstAfter(c.t, 0, u);
      if u > c.End() && |c.t| > 0 {
        assert c.t[|c.t| - 1] <= u;
      }
    }
  }

  /** The scan of `integral` stops at `i` for a time inside `[t[i-1], t[i])`. */
  lemma {:induction false} ScanStopsInside(t: seq<real>, i: nat, x: real)
    requires StrictlyIncreasing(t) && i < |t| && Left(t, i) <= x < t[i]
    ensures FirstAfter(t, 0, x) == i
  {
    forall j | 0 <= j < i
      ensures t[j] <= x
    {
      if j < i - 1 {
        KnotsOrdered(t, j, i - 1);
      }
    }
    FirstAfterIs(t, 0, x, i);
  }

  /** The scan of `integral` passes the knot `t[i]` itself. */
  lemma {:induction false} ScanPassesKnot(t: seq<real>, i: nat)
    requires StrictlyIncreasing(t) && i < |t|
    ensures FirstAfter(t, 0, t[i]) == i + 1
  {
    forall j | 0 <= j < i
      ensures t[j] <= t[i]
    {
      KnotsOrdered(t, j, i);
    }
    if i + 1 < |t| {
      KnotsOrdered(t, i, i + 1);
    }
    FirstAfterIs(t, 0, t[i], i + 1);
  }

  /** From the last knot on, the scan of `integral` passes every knot. */
  lemma {:induction false} ScanPastEnd(t: seq<real>, x: real)
    requires StrictlyIncreasing(t) && (|t| == 0 || t[|t| - 1] <= x)
    ensures FirstAfter(t, 0, x) == |t|
  {
    forall j | 0 <= j < |t|
      ensures t[j] <= x
    {
      if j < |t| - 1 {
        KnotsOrdered(t, j, |t| - 1);
      }
    }
    FirstAfterIs(t, 0, x, |t|);
  }

  /** Within the segment `[t[i-1], t[i]]` the integral is the whole segments before
      it plus `f[i]` times the distance into it. */
  lemma {:induction false} IntegralOnSegment(c: Curve, i: nat, x: real)
    requires c.Shaped() && StrictlyIncreasing(c.t) && i < |c.t|
    requires 0.0 <= x && Left(c.t, i) <= x <= c.t[i]
    ensures Integral(c, x) == Val(KnotSum(c.t, c.f, i) + c.f[i] * (x - Left(c.t, i)))
  {
    if x < c.t[i] {
      IntegralInsideSegment(c, i, x);
    } else {
      IntegralAtKnot(c, i, x);
    }
  }

  lemma {:induction false} IntegralInsideSegment(c: Curve, i: nat, x: real)
    requires c.Shaped() && StrictlyIncreasing(c.t) && i < |c.t|
    requires 0.0 <= x && Left(c.t, i) <= x < c.t[i]
    ensures Integral(c, x) == Val(KnotSum(c.t, c.f, i) + c.f[i] * (x - Left(c.t, i)))
  {
    ScanStopsInside(c.t, i, x);
    if x == Left(c.t, i) {
      IntegralSegmentStart(c, i, x);
    } else {
      IntegralSegmentInterior(c, i, x);
    }
  }

  /** `IntegralInsideSegment` at the left end of the segment, where the open
      segment contributes nothing. */
  lemma {:induction false} IntegralSegmentStart(c: Curve, i: nat, x: real)
    requires c.Shaped() && StrictlyIncreasing(c.t) && i < |c.t|
    requires 0.0 <= x && Left(c.t, i) == x < c.t[i] && FirstAfter(c.t, 0, x) == i
    ensures Integral(c, x) == Val(KnotSum(c.t, c.f, i) + c.f[i] * (x - Left(c.t, i)))
  {
    var n := |c.t|;
    if i < n - 1 {
      KnotsOrdered(c.t, i, n - 1);
    }
    SegmentRateInside(c, i, x);
  }

  /** `IntegralInsideSegment` strictly inside the segment. */
  lemma {:induction false} IntegralSegmentInterior(c: Curve, i: nat, x: real)
    requires c.Shaped() && StrictlyIncreasing(c.t) && i < |c.t|
    requires 0.0 <= x && Left(c.t, i) < x < c.t[i] && FirstAfter(c.t, 0, x) == i
    ensures Integral(c, x) == Val(KnotSum(c.t, c.f, i) + c.f[i] * (x - Left(c.t, i)))
  {
    var n := |c.t|;
    if i < n - 1 {
      KnotsOrdered(c.t, i, n - 1);
    }
    SegmentRateInside(c, i, x);
  }

  lemma {:induction false} SegmentRateInside(c: Curve, i: nat, x: real)
    requires c.Shaped() && i < |c.t| && x < c.t[i] <= c.t[|c.t| - 1]
    ensures SegmentRate(c, x, i) == Val(c.f[i])
  {
  }

  lemma {:induction false} IntegralAtKnot(c: Curve, i: nat, x: real)
    requires c.Shaped() && StrictlyIncreasing(c.t) && i < |c.t|
    requires 0.0 <= x == c.t[i]
    ensures Integral(c, x) == Val(KnotSum(c.t, c.f, i) + c.f[i] * (x - Left(c.t, i)))
  {
    ScanPassesKnot(c.t, i);
    KnotSumStep(c.t, c.f, i, x);
    ZeroWidth(SegmentRate(c, x, i + 1), x - Left(c.t, i + 1));
  }

  lemma {:induction false} ZeroWidth(r: Num, w: real)
    requires w == 0.0
    ensures Tail(r, w) == Val(0.0)
  {
  }

  /** One more whole segment in `KnotSum`. */
  lemma {:induction false} KnotSumStep(t: seq<real>, f: seq<real>, k: nat, x: real)
    requires k < |t| && k < |f| && x == t[k]
    ensures KnotSum(t, f, k + 1) == KnotSum(t, f, k) + f[k] * (x - Left(t, k))
  {
  }

  /** A segment of width `w` at a real rate `r` contributes `r * w`. */
  lemma {:induction false} TailOfRate(r: real, w: real)
    ensures Tail(Val(r), w) == Val(r * w)
  {
  }

  /** From the last knot on, the integral is all the whole segments plus the
      extrapolation rate times the distance past the last knot. */
  lemma {:induction false} IntegralPastEnd(c: Curve, x: real)
    requires c.Shaped() && StrictlyIncreasing(c.t)
    requires 0.0 <= x && c.End() <= x
    ensures Integral(c, x) == AddTail(KnotSum(c.t, c.f, |c.t|), Tail(c.ext, x - c.End()))
  {
    ScanPastEnd(c.t, x);
  }

  /** `integral(0) == 0` on a curve whose knots start at 0 or later. */
  lemma {:induction false} IntegralAtZero(c: Curve)
    requires c.Shaped() && StrictlyIncreasing(c.t)
    requires |c.t| == 0 || c.t[0] >= 0.0
    ensures Integral(c, 0.0) == Val(0.0)
  {
    if |c.t| == 0 {
      IntegralPastEnd(c, 0.0);
    } else {
      IntegralOnSegment(c, 0, 0.0);
    }
  }

  /** The source's `integral` differs from `Integral` at one point only: time 0 on a
      curve without knots and with a NaN extrapolation, where the source has NaN and
      `Integral` the integral from 0 to 0, which is 0. */
  lemma {:induction false} IntegralAsWrittenDiffers(c: Curve, u: real)
    requires c.Shaped()
    ensures IntegralAsWritten(c, u) != Integral(c, u) <==> (|c.t| == 0 && u == 0.0 && c.ext == NaN)
    ensures |c.t| == 0 && u == 0.0 && c.ext == NaN ==> IntegralAsWritten(c, u) == NaN && Integral(c, u) == Val(0.0)
  {
    if 0.0 <= u && StrictlyIncreasing(c.t) && |c.t| > 0 {
      var n := |c.t|;
      var i := FirstAfter(c.t, 0, u);
      if u > c.t[n - 1] {
        ScanPastEnd(c.t, u);
        assert u - Left(c.t, i) > 0.0;
      } else {
        assert SegmentRate(c, u, i).Val?;
      }
    }
  }

  /** Up to the last knot the integral does not depend on the extrapolation rate. */
  lemma {:induction false} IntegralIgnoresExtension(c: Curve, e: Num, u: real)
    requires c.Shaped() && u <= c.End()
    ensures Integral(c.(ext := e), u) == Integral(c, u)
  {
    var i := FirstAfter(c.t, 0, u);
    if |c.t| > 0 {
      assert SegmentRate(c.(ext := e), u, i) == SegmentRate(c, u, i);
    } else if 0.0 <= u {
      assert u == 0.0;
      ZeroWidth(SegmentRate(c.(ext := e), u, i), u - Left(c.t, i));
      ZeroWidth(SegmentRate(c, u, i), u - Left(c.t, i));
    }
  }

  /** `discount(0) == 1` on a curve whose knots start at 0 or later. */
  lemma {:induction false} DiscountAtZero(exp: real -> real, log: real -> real, c: Curve)
    requires ExpLaws(exp, log)
    requires c.Shaped() && StrictlyIncreasing(c.t) && (|c.t| == 0 || c.t[0] >= 0.0)
    ensures Discount(exp, c, 0.0) == Val(1.0)
  {
    IntegralAtZero(c);
  }

  /** `discount` is NaN exactly where `integral` is. */
  lemma {:induction false} DiscountUndefinedIff(exp: real -> real, c: Curve, u: real)
    requires c.Shaped()
    ensures Discount(exp, c, u) == NaN <==>
      (u < 0.0 || !StrictlyIncreasing(c.t) || (c.ext == NaN && u > c.End()))
  {
    IntegralUndefinedIff(c, u);
  }

  /** For a positive time, `spot` is the average forward rate: `spot(u) * u == integral(u)`,
      both before the first knot (where `spot` is `f[0]`) and after it. */
  lemma {:induction false} SpotIsAverageRate(c: Curve, u: real)
    requires c.Shaped() && StrictlyIncreasing(c.t) && |c.t| > 0 && c.t[0] >= 0.0
    requires u > 0.0
    ensures Times(Spot(c, u), Val(u)) == Integral(c, u)
  {
    if u <= c.t[0] {
      SpotBeforeFirstKnot(c, u);
    } else {
      SpotAfterFirstKnot(c, u);
    }
  }

  lemma {:induction false} SpotBeforeFirstKnot(c: Curve, u: real)
    requires c.Shaped() && StrictlyIncreasing(c.t) && |c.t| > 0 && 0.0 < u <= c.t[0]
    ensures Integral(c, u) == Val(c.f[0] * u)
  {
    IntegralOnSegment(c, 0, u);
  }

  lemma {:induction false} SpotAfterFirstKnot(c: Curve, u: real)
    requires c.Shaped() && |c.t| > 0 && 0.0 < u && c.t[0] < u
    ensures Times(Div(Integral(c, u), Val(u)), Val(u)) == Integral(c, u)
  {
    var I := Integral(c, u);
    if I.Val? {
      DivTimes(I.x, u);
    }
  }

  lemma {:induction false} DivTimes(x: real, u: real)
    requires u != 0.0
    ensures x / u * u == x
  {
  }

  /** The cash flows that `partial_duration` skips are exactly those before the last
      knot, when the cash-flow times are in order. */
  lemma {:induction false} PartialStartSplits(m: nat, u: seq<real>, c: Curve)
    requires m <= |u| && |c.t| > 0
    ensures PartialStart(m, u, c) <= m
    ensures forall k :: 0 <= k < PartialStart(m, u, c) ==> u[k] < c.End()
    ensures PartialStart(m, u, c) < m ==> c.End() <= u[PartialStart(m, u, c)]
  {
    var v, i0 := u[..m], PartialStart(m, u, c);
    forall k | 0 <= k < i0
      ensures u[k] < c.End()
    {
      LowerBoundPasses(v, 0, c.End(), k);
      assert v[k] == u[k];
    }
  }

  /** On cash flows in time order, `PartialStart` is where `std::lower_bound` lands:
      a flow comes before it exactly when it is before the last knot. */
  lemma {:induction false} PartialStartOnOrderedFlows(m: nat, u: seq<real>, c: Curve)
    requires m <= |u| && |c.t| > 0
    requires forall j, k :: 0 <= j <= k < m ==> u[j] <= u[k]
    ensures forall k :: 0 <= k < m ==> (k < PartialStart(m, u, c) <==> u[k] < c.End())
  {
    var i0 := PartialStart(m, u, c);
    PartialStartSplits(m, u, c);
    forall k | i0 <= k < m
      ensures c.End() <= u[k]
    {
      assert u[i0] <= u[k];
    }
  }

  /** A cash flow exactly at the last knot adds nothing to `partial_duration`. */
  lemma {:induction false} PartialDurationFlowAtEnd(exp: real -> real, i0: nat, k: nat, u: seq<real>, cs: seq<real>, c: Curve)
    requires i0 <= k < |u| && k < |cs| && c.Shaped()
    requires u[k] == c.End() && Discount(exp, c, u[k]).Val?
    ensures EndSensitivity(exp, i0, c.End(), k + 1, u, cs, c) == EndSensitivity(exp, i0, c.End(), k, u, cs, c)
  {
    EndSensitivityStep(exp, i0, c.End(), k, u, cs, c);
  }

  /** On a curve without knots `partial_duration` is `duration`: every flow is counted
      and weighted by its own time. */
  lemma {:induction false} PartialDurationEmptyCurve(exp: real -> real, m: nat, u: seq<real>, cs: seq<real>, c: Curve)
    requires m <= |u| && m <= |cs| && c.Shaped() && |c.t| == 0
    ensures PartialDuration(exp, m, u, cs, c) == Duration(exp, m, u, cs, c)
  {
    SensitivityFromZero(exp, m, u, cs, c);
  }

  lemma {:induction false} SensitivityFromZero(exp: real -> real, k: nat, u: seq<real>, cs: seq<real>, c: Curve)
    requires k <= |u| && k <= |cs| && c.Shaped()
    ensures EndSensitivity(exp, 0, 0.0, k, u, cs, c) == Duration(exp, k, u, cs, c)
  {
    if k > 0 {
      SensitivityFromZero(exp, k - 1, u, cs, c);
      assert (u[k - 1] - 0.0) * cs[k - 1] == u[k - 1] * cs[k - 1];
    }
  }

  /** Every one of the first `m` discount factors is defined. */
  ghost predicate DiscountsDefined(exp: real -> real, m: nat, u: seq<real>, c: Curve)
    requires m <= |u| && c.Shaped()
  {
    forall i :: 0 <= i < m ==> Discount(exp, c, u[i]).Val?
  }

  /** `present_value` is defined exactly when every discount factor it uses is. */
  lemma {:induction false} PresentValueDefinedIff(exp: real -> real, m: nat, u: seq<real>, cs: seq<real>, c: Curve)
    requires m <= |u| && m <= |cs| && c.Shaped()
    ensures PresentValue(exp, m, u, cs, c).Val? <==> DiscountsDefined(exp, m, u, c)
  {
    if m > 0 {
      PresentValueDefinedIff(exp, m - 1, u, cs, c);
      DiscountsDefinedStep(exp, m, u, c);
    }
  }

  /** One more cash flow in `DiscountsDefined`. */
  lemma {:induction false} DiscountsDefinedStep(exp: real -> real, m: nat, u: seq<real>, c: Curve)
    requires 0 < m <= |u| && c.Shaped()
    ensures DiscountsDefined(exp, m, u, c) <==> DiscountsDefined(exp, m - 1, u, c) && Discount(exp, c, u[m - 1]).Val?
  {
  }

  /** `duration` is defined exactly when every discount factor it uses is. */
  lemma {:induction false} DurationDefinedIff(exp: real -> real, m: nat, u: seq<real>, cs: seq<real>, c: Curve)
    requires m <= |u| && m <= |cs| && c.Shaped()
    ensures Duration(exp, m, u, cs, c).Val? <==> DiscountsDefined(exp, m, u, c)
  {
    if m > 0 {
      DurationDefinedIff(exp, m - 1, u, cs, c);
      DiscountsDefinedStep(exp, m, u, c);
    }
  }

  /** At the last knot the integral is the sum of all whole segments. */
  lemma {:induction false} IntegralAtEnd(c: Curve)
    requires c.Shaped() && StrictlyIncreasing(c.t) && 0.0 <= c.End()
    ensures Integral(c, c.End()) == Val(KnotSum(c.t, c.f, |c.t|))
  {
    IntegralPastEnd(c, c.End());
    ZeroWidth(c.ext, c.End() - c.End());
  }

  /** Past the last knot `T`, with a defined extrapolation rate `e`, the integral grows
      linearly at `e`. */
  lemma {:induction false} IntegralBeyondEnd(t: seq<real>, f: seq<real>, e: real, T: real, x: real)
    requires |t| == |f| && StrictlyIncreasing(t) && T == Curve(t, f, Val(e)).End()
    requires 0.0 <= x && T <= x
    ensures Integral(Curve(t, f, Val(e)), x) == Val(KnotSum(t, f, |t|) + Accrued(e, T, x))
  {
    IntegralPastEnd(Curve(t, f, Val(e)), x);
    if x == T {
      assert e * (x - T) == 0.0;
    }
  }

  /** ... and the discount factor is the one at the last knot times `exp(-e (x - T))`. */
  lemma {:induction false} DiscountBeyondEnd(exp: real -> real, log: real -> real,
                                             t: seq<real>, f: seq<real>, e: real, T: real, x: real)
    requires ExpLaws(exp, log)
    requires |t| == |f| && StrictlyIncreasing(t) && T == Curve(t, f, Val(e)).End()
    requires 0.0 <= x && T <= x
    ensures Discount(exp, Curve(t, f, Val(e)), x) == Val(exp(-KnotSum(t, f, |t|)) * exp(-Accrued(e, T, x)))
  {
    var K, w := KnotSum(t, f, |t|), Accrued(e, T, x);
    IntegralBeyondEnd(t, f, e, T, x);
    ExpAdd(exp, log, -K, -w);
    assert -(K + w) == -K + -w;
  }

  /** `present_value` does not depend on the extrapolation rate when no cash flow lies
      past the last knot. */
  lemma {:induction false} PresentValueIgnoresExtension(exp: real -> real, m: nat, u: seq<real>, cs: seq<real>, c: Curve, e: Num)
    requires m <= |u| && m <= |cs| && c.Shaped()
    requires forall i :: 0 <= i < m ==> u[i] <= c.End()
    ensures PresentValue(exp, m, u, cs, c.(ext := e)) == PresentValue(exp, m, u, cs, c)
  {
    if m > 0 {
      PresentValueIgnoresExtension(exp, m - 1, u, cs, c, e);
      IntegralIgnoresExtension(c, e, u[m - 1]);
    }
  }

  /** A defined `present_value` with no extrapolation rate only uses flows up to the
      last knot. */
  lemma {:induction false} DefinedPresentValueStopsAtEnd(exp: real -> real, m: nat, u: seq<real>, cs: seq<real>, c: Curve, i: nat)
    requires m <= |u| && m <= |cs| && c.Shaped() && c.ext == NaN
    requires PresentValue(exp, m, u, cs, c).Val? && i < m
    ensures 0.0 <= u[i] <= c.End() && StrictlyIncreasing(c.t)
  {
    PresentValueDefinedIff(exp, m, u, cs, c);
    DiscountUndefinedIff(exp, c, u[i]);
    assert Discount(exp, c, u[i]).Val?;
  }

  /** On a curve whose rates all equal `r`, the whole segments up to knot `k` sum to
      `r * t[k-1]`. */
  lemma {:induction false} FlatKnotSum(t: seq<real>, f: seq<real>, r: real, k: nat)
    requires |t| == |f| && k <= |t|
    requires forall j :: 0 <= j < |f| ==> f[j] == r
    ensures KnotSum(t, f, k) == r * Left(t, k)
  {
    if k > 0 {
      FlatKnotSum(t, f, r, k - 1);
      assert r * Left(t, k - 1) + r * (t[k - 1] - Left(t, k - 1)) == r * t[k - 1];
    }
  }
}
