/** What the closed-form branches of `bootstrap` achieve: the curve extended at the
    returned rate prices the instrument (GR5260/fms_bootstrap.h), and bootstrapping a
    ladder of zero-coupon bonds priced off a flat rate recovers that rate at every
    knot (GR5260/GR5260.cpp). */
module BootstrapFacts {
  import opened Numeric
  import opened PwFlat
  import opened PwFlatFacts
  import opened Bootstrap

  /** When only the last cash flow lies past the curve and the closed form yields a
      number, extrapolating the curve at that rate reprices the instrument exactly. */
  lemma {:induction false} LastFlowReprices(exp: real -> real, log: real -> real, p: real, m: nat,
                                            u: seq<real>, cs: seq<real>, t: seq<real>, f: seq<real>, rate: real)
    requires ExpLaws(exp, log)
    requires 0 < m <= |u| && m <= |cs| && |t| == |f|
    requires 0.0 <= u[m - 1] && (|t| == 0 || t[|t| - 1] < u[m - 1])
    requires m == 1 || u[m - 2] <= Given(t, f).End()
    requires LastFlowRate(exp, log, p, m, u, cs, Given(t, f)) == Val(rate)
    ensures PresentValue(exp, m, u, cs, Curve(t, f, Val(rate))) == Val(p)
  {
    var c := Given(t, f);
    assert c.Shaped() && c.ext == NaN && 0.0 <= u[m - 1] && c.End() <= u[m - 1];
    var pv, D := LastFlowRatePrices(exp, log, p, m, u, cs, c, rate);
    var d := ExtendedLastFlow(exp, log, p, m, u, cs, c, rate, pv, D);
    OtherFlowsUnchanged(exp, m, u, cs, c, rate);
    PresentValueAdds(exp, m, u, cs, Curve(t, f, Val(rate)), pv, d, p);
  }

  /** On the curve extended at `rate` the last flow is discounted by
      `d = D_ exp(-rate (u_ - t_))`, so `pv + c_ d == p`. */
  lemma {:induction false} ExtendedLastFlow(exp: real -> real, log: real -> real, p: real, m: nat,
                                            u: seq<real>, cs: seq<real>, c: Curve, rate: real, pv: real, D: real)
    returns (d: real)
    requires ExpLaws(exp, log)
    requires 0 < m <= |u| && m <= |cs| && c.Shaped() && StrictlyIncreasing(c.t)
    requires 0.0 <= u[m - 1] && c.End() <= u[m - 1] && D == exp(-KnotSum(c.t, c.f, |c.t|))
    requires pv + cs[m - 1] * (D * exp(-Accrued(rate, c.End(), u[m - 1]))) == p
    ensures Discount(exp, Curve(c.t, c.f, Val(rate)), u[m - 1]) == Val(d)
    ensures pv + cs[m - 1] * d == p
  {
    ExtendedDiscount(exp, log, c, rate, D, u[m - 1]);
    d := D * exp(-Accrued(rate, c.End(), u[m - 1]));
  }

  /** The closed form of the first branch: when it yields a number `rate`, the other
      flows' present value `pv` and the discount factor `D_` to the end of the curve
      are defined, and `p == pv + c_ * D_ * exp(-rate * (u_ - t_))`. */
  lemma {:induction false} LastFlowRatePrices(exp: real -> real, log: real -> real, p: real, m: nat,
                                              u: seq<real>, cs: seq<real>, c: Curve, rate: real)
    returns (pv: real, D: real)
    requires ExpLaws(exp, log)
    requires 0 < m <= |u| && m <= |cs| && c.Shaped() && c.ext == NaN
    requires LastFlowRate(exp, log, p, m, u, cs, c) == Val(rate)
    ensures PresentValue(exp, m - 1, u, cs, c) == Val(pv) && Discount(exp, c, c.End()) == Val(D)
    ensures StrictlyIncreasing(c.t) && D == exp(-KnotSum(c.t, c.f, |c.t|))
    ensures pv + cs[m - 1] * (D * exp(-Accrued(rate, c.End(), u[m - 1]))) == p
  {
    pv, D := LastFlowRateParts(exp, log, p, m, u, cs, c, rate);
    assert Div(Log(log, Div(Minus(Val(p), Val(pv)), Times(Val(cs[m - 1]), Val(D)))), Val(c.End() - u[m - 1])) == Val(rate);
    ClosedFormPrices(exp, log, p, pv, cs[m - 1], D, c.End(), u[m - 1], rate);
  }

  /** A defined present value plus a defined discount factor for the next flow. */
  lemma {:induction false} PresentValueAdds(exp: real -> real, m: nat, u: seq<real>, cs: seq<real>, c: Curve, pv: real, d: real, s: real)
    requires 0 < m <= |u| && m <= |cs| && c.Shaped()
    requires PresentValue(exp, m - 1, u, cs, c) == Val(pv) && Discount(exp, c, u[m - 1]) == Val(d)
    requires pv + cs[m - 1] * d == s
    ensures PresentValue(exp, m, u, cs, c) == Val(s)
  {
    PresentValueStep(exp, m, u, cs, c);
    AddFlow(pv, cs[m - 1], d, s);
  }

  /** Past the end of a curve without extrapolation rate, the curve extended at `rate`
      discounts by `D_` (the discount factor at the end) times `exp(-rate (x - t_))`. */
  lemma {:induction false} ExtendedDiscount(exp: real -> real, log: real -> real, c: Curve, rate: real, D: real, x: real)
    requires ExpLaws(exp, log)
    requires c.Shaped() && StrictlyIncreasing(c.t) && D == exp(-KnotSum(c.t, c.f, |c.t|))
    requires 0.0 <= x && c.End() <= x
    ensures Discount(exp, Curve(c.t, c.f, Val(rate)), x) == Val(D * exp(-Accrued(rate, c.End(), x)))
  {
    DiscountBeyondEnd(exp, log, c.t, c.f, rate, c.End(), x);
  }

  /** `present_value` adds one discounted cash flow at a time. */
  lemma {:induction false} PresentValueStep(exp: real -> real, m: nat, u: seq<real>, cs: seq<real>, c: Curve)
    requires 0 < m <= |u| && m <= |cs| && c.Shaped()
    ensures PresentValue(exp, m, u, cs, c)
      == Plus(PresentValue(exp, m - 1, u, cs, c), Times(Val(cs[m - 1]), Discount(exp, c, u[m - 1])))
  {
  }

  /** `pv + c d` on defined doubles. */
  lemma {:induction false} AddFlow(pv: real, c: real, d: real, s: real)
    requires pv + c * d == s
    ensures Plus(Val(pv), Times(Val(c), Val(d))) == Val(s)
  {
  }

  /** A numeric `LastFlowRate` needs its parts: `pv` and `D_` are defined, the curve
      passes its check and `D_ == exp(-KnotSum)`. */
  lemma {:induction false} LastFlowRateParts(exp: real -> real, log: real -> real, p: real, m: nat,
                                             u: seq<real>, cs: seq<real>, c: Curve, rate: real)
    returns (pv: real, D: real)
    requires 0 < m <= |u| && m <= |cs| && c.Shaped() && c.ext == NaN
    requires LastFlowRate(exp, log, p, m, u, cs, c) == Val(rate)
    ensures PresentValue(exp, m - 1, u, cs, c) == Val(pv) && Discount(exp, c, c.End()) == Val(D)
    ensures StrictlyIncreasing(c.t) && 0.0 <= c.End() && D == exp(-KnotSum(c.t, c.f, |c.t|))
  {
    var Dn := Discount(exp, c, c.End());
    pv, D := PresentValue(exp, m - 1, u, cs, c).x, Dn.x;
    IntegralUndefinedIff(c, c.End());
    IntegralAtEnd(c);
  }

  /** The closed form `log((p - pv)/(c_ * D_)) / (t_ - u_)` on defined doubles: when it
      is a number, the argument of `log` is positive and `t_ != u_`. */
  lemma {:induction false} ClosedFormDefined(log: real -> real, p: real, pv: real, c_: real, D: real,
                                             t_: real, u_: real, rate: real)
    requires Div(Log(log, Div(Minus(Val(p), Val(pv)), Times(Val(c_), Val(D)))), Val(t_ - u_)) == Val(rate)
    ensures c_ * D != 0.0 && (p - pv) / (c_ * D) > 0.0 && t_ != u_
    ensures rate == log((p - pv) / (c_ * D)) / (t_ - u_)
  {
    assert Div(Minus(Val(p), Val(pv)), Times(Val(c_), Val(D))) == Val((p - pv) / (c_ * D));
  }

  /** The flows other than the last one do not see the extrapolation rate. */
  lemma {:induction false} OtherFlowsUnchanged(exp: real -> real, m: nat, u: seq<real>, cs: seq<real>, c: Curve, rate: real)
    requires 0 < m <= |u| && m <= |cs| && c.Shaped() && c.ext == NaN
    requires PresentValue(exp, m - 1, u, cs, c).Val?
    ensures PresentValue(exp, m - 1, u, cs, Curve(c.t, c.f, Val(rate))) == PresentValue(exp, m - 1, u, cs, c)
  {
    forall i | 0 <= i < m - 1
      ensures u[i] <= c.End()
    {
      DefinedPresentValueStopsAtEnd(exp, m - 1, u, cs, c, i);
    }
    PresentValueIgnoresExtension(exp, m - 1, u, cs, c, Val(rate));
  }

  /** The algebra of the first closed form: with `q = (p - pv)/(c_ D)` and
      `rate = log(q)/(t_ - u_)`, `pv + c_ D exp(-rate (u_ - t_)) == p`. */
  lemma {:induction false} ClosedFormPrices(exp: real -> real, log: real -> real,
                                            p: real, pv: real, c_: real, D: real, t_: real, u_: real, rate: real)
    requires ExpLaws(exp, log)
    requires Div(Log(log, Div(Minus(Val(p), Val(pv)), Times(Val(c_), Val(D)))), Val(t_ - u_)) == Val(rate)
    ensures pv + c_ * (D * exp(-Accrued(rate, t_, u_))) == p
  {
    ClosedFormDefined(log, p, pv, c_, D, t_, u_, rate);
    var q := (p - pv) / (c_ * D);
    assert -Accrued(rate, t_, u_) == log(q);
    ExpLog(exp, log, q);
    assert c_ * (D * q) == p - pv;
  }

  /** With two cash flows, price 0 and a numeric result, the curve extrapolated at the
      returned rate gives the instrument a present value of 0:
      `c0 exp(-rate (u0 - t_)) + c1 exp(-rate (u1 - t_)) == 0`. */
  lemma {:induction false} ZeroPriceBalances(exp: real -> real, log: real -> real,
                                             u: seq<real>, cs: seq<real>, t: seq<real>, f: seq<real>, rate: real)
    requires ExpLaws(exp, log)
    requires 2 <= |u| && 2 <= |cs| && |t| == |f|
    requires StrictlyIncreasing(t) && 0.0 <= Given(t, f).End() < u[0] < u[1]
    requires ZeroPriceRate(log, u, cs) == Val(rate)
    ensures PresentValue(exp, 2, u, cs, Curve(t, f, Val(rate))) == Val(0.0)
  {
    var c := Given(t, f);
    ZeroPriceRateIs(log, u, cs, rate);
    var E := exp(-KnotSum(c.t, c.f, |c.t|));
    var d0, d1 := ZeroPriceDiscounts(exp, log, c, rate, E, u[0], u[1]);
    BalanceArithmetic(exp, log, E, cs[0], cs[1], u[0], u[1], c.End(), rate, d0, d1);
    TwoFlows(exp, u, cs, Curve(c.t, c.f, Val(rate)), d0, d1, 0.0);
  }

  /** `ZeroPriceRate` spelled out on its two flows. */
  lemma {:induction false} ZeroPriceRateIs(log: real -> real, u: seq<real>, cs: seq<real>, rate: real)
    requires 2 <= |u| && 2 <= |cs| && ZeroPriceRate(log, u, cs) == Val(rate)
    ensures Div(Log(log, Div(Val(-cs[0]), Val(cs[1]))), Val(u[0] - u[1])) == Val(rate)
  {
  }

  /** The discount factors of both flows on the curve extended at `rate`. */
  lemma {:induction false} ZeroPriceDiscounts(exp: real -> real, log: real -> real, c: Curve, rate: real, E: real,
                                              u0: real, u1: real)
    returns (d0: real, d1: real)
    requires ExpLaws(exp, log)
    requires c.Shaped() && StrictlyIncreasing(c.t) && E == exp(-KnotSum(c.t, c.f, |c.t|))
    requires 0.0 <= c.End() <= u0 && c.End() <= u1
    ensures d0 == E * exp(-Accrued(rate, c.End(), u0)) && Discount(exp, Curve(c.t, c.f, Val(rate)), u0) == Val(d0)
    ensures d1 == E * exp(-Accrued(rate, c.End(), u1)) && Discount(exp, Curve(c.t, c.f, Val(rate)), u1) == Val(d1)
  {
    d0, d1 := E * exp(-Accrued(rate, c.End(), u0)), E * exp(-Accrued(rate, c.End(), u1));
    ExtendedDiscount(exp, log, c, rate, E, u0);
    ExtendedDiscount(exp, log, c, rate, E, u1);
  }

  /** The present value of two flows with defined discount factors. */
  lemma {:induction false} TwoFlows(exp: real -> real, u: seq<real>, cs: seq<real>, c: Curve, d0: real, d1: real, s: real)
    requires 2 <= |u| && 2 <= |cs| && c.Shaped()
    requires Discount(exp, c, u[0]) == Val(d0) && Discount(exp, c, u[1]) == Val(d1)
    requires cs[0] * d0 + cs[1] * d1 == s
    ensures PresentValue(exp, 2, u, cs, c) == Val(s)
  {
    PresentValueAdds(exp, 1, u, cs, c, 0.0, d0, cs[0] * d0);
    PresentValueAdds(exp, 2, u, cs, c, cs[0] * d0, d1, s);
  }

  /** What a numeric closed form `log(-c0/c1) / (u0 - u1)` says: `c1 != 0`,
      `-c0/c1 > 0`, `u0 != u1`, and the rate is that quotient. */
  lemma {:induction false} ZeroPriceRateDefined(log: real -> real, c0: real, c1: real, u0: real, u1: real, rate: real)
    requires Div(Log(log, Div(Val(-c0), Val(c1))), Val(u0 - u1)) == Val(rate)
    ensures c1 != 0.0 && -c0 / c1 > 0.0 && u0 != u1
    ensures rate == log(-c0 / c1) / (u0 - u1)
  {
    assert Div(Val(-c0), Val(c1)) == Val(-c0 / c1);
  }

  /** The algebra of the second closed form: with `q = -c0/c1` and
      `rate = log(q)/(u0 - u1)`, the discount factors `d0 = E exp(-rate (u0 - T))` and
      `d1 = E exp(-rate (u1 - T))` balance: `c0 d0 + c1 d1 == 0`. */
  lemma {:induction false} BalanceArithmetic(exp: real -> real, log: real -> real,
                                             E: real, c0: real, c1: real, u0: real, u1: real, T: real, rate: real,
                                             d0: real, d1: real)
    requires ExpLaws(exp, log)
    requires Div(Log(log, Div(Val(-c0), Val(c1))), Val(u0 - u1)) == Val(rate)
    requires d0 == E * exp(-Accrued(rate, T, u0)) && d1 == E * exp(-Accrued(rate, T, u1))
    ensures c0 * d0 + c1 * d1 == 0.0
  {
    ZeroPriceRateDefined(log, c0, c1, u0, u1, rate);
    var q := -c0 / c1;
    var L := log(q);
    var a0, a1 := -Accrued(rate, T, u0), -Accrued(rate, T, u1);
    assert a0 == a1 + -L by {
      assert rate * (u0 - u1) == L;
    }
    ExpAdd(exp, log, a1, -L);
    InverseOfLog(exp, log, q);
    Balance(E, c0, c1, exp(a0), exp(a1), exp(-L), q);
  }

  /** `exp(-log q) * q == 1` for `q > 0`. */
  lemma {:induction false} InverseOfLog(exp: real -> real, log: real -> real, q: real)
    requires ExpLaws(exp, log) && q > 0.0
    ensures exp(-log(q)) * q == 1.0
  {
    var L := log(q);
    ExpAdd(exp, log, -L, L);
    assert -L + L == 0.0;
    ExpLog(exp, log, q);
  }

  /** Pure algebra: `X0 == X1 y` and `y q == 1` with `q == -c0/c1` make
      `c0 E X0 + c1 E X1` vanish. */
  lemma {:induction false} Balance(E: real, c0: real, c1: real, X0: real, X1: real, y: real, q: real)
    requires c1 != 0.0 && q == -c0 / c1 && X0 == X1 * y && y * q == 1.0
    ensures c0 * (E * X0) + c1 * (E * X1) == 0.0
  {
    assert c0 == -(q * c1);
    assert c0 * y == -c1 by {
      assert c0 * y == -(y * q * c1);
    }
    assert c0 * (E * X0) == E * X1 * (c0 * y);
  }

  /** The knot times `1, 2, ..., k`. */
  function Ladder(k: nat): (t: seq<real>)
    ensures |t| == k && forall i :: 0 <= i < k ==> t[i] == (i + 1) as real
  {
    if k == 0 then [] else Ladder(k - 1) + [k as real]
  }

  /** `k` copies of the rate `r`. */
  function Flat(k: nat, r: real): (f: seq<real>)
    ensures |f| == k && forall i :: 0 <= i < k ==> f[i] == r
  {
    if k == 0 then [] else Flat(k - 1, r) + [r]
  }

  /** Bootstrap `k` zero-coupon bonds of unit face, the `j`-th maturing at `j` with
      price `exp(-r j)`, one after the other, each extending the curve the previous
      ones built. */
  function BuildLadder(exp: real -> real, log: real -> real, r: real, k: nat): Result<Curve>
  {
    if k == 0 then Ok(Curve([], [], NaN))
    else
      var prev := BuildLadder(exp, log, r, k - 1);
      if prev.Raised? then prev else Rung(exp, log, r, prev.value, k)
  }

  /** Bootstrap the zero maturing at `k`, priced `exp(-r k)`, on `c`, and append the
      knot it returns. */
  function Rung(exp: real -> real, log: real -> real, r: real, c: Curve, k: nat): Result<Curve>
  {
    if !c.Shaped() then Raised(EnsureFailed)
    else
      var T := k as real;
      match ClosedForm(exp, log, exp(-Accrued(r, 0.0, T)), 1, [T], [1.0], c.t, c.f)
      case Ok(Solved(Knot(tk, Val(fk)))) => Ok(Curve(c.t + [tk], c.f + [fk], NaN))
      case _ => Raised(EnsureFailed)
  }

  /** The flat curve with knots `1..k` is strictly increasing, ends at `k` and
      accrues `r k` over its knots. */
  lemma {:induction false} LadderCurve(r: real, k: nat)
    ensures StrictlyIncreasing(Ladder(k)) && Given(Ladder(k), Flat(k, r)).End() == k as real
    ensures KnotSum(Ladder(k), Flat(k, r), k) == Accrued(r, 0.0, k as real)
  {
    var t := Ladder(k);
    StrictlyIncreasingIff(t);
    assert Increasing(t);
    FlatKnotSum(t, Flat(k, r), r, k);
    assert Left(t, k) == k as real;
  }

  /** ... so its discount factor at the last knot is `exp(-r k)`. */
  lemma {:induction false} LadderDiscount(exp: real -> real, r: real, k: nat)
    ensures Discount(exp, Given(Ladder(k), Flat(k, r)), k as real) == Val(exp(-Accrued(r, 0.0, k as real)))
  {
    LadderCurve(r, k);
    IntegralAtEnd(Given(Ladder(k), Flat(k, r)));
  }

  /** The closed form for a unit zero-coupon bond maturing at `K1 = K0 + 1`, priced
      `exp(-r K1)`, on a curve whose discount factor at its end `K0` is `exp(-r K0)`. */
  lemma {:induction false} LadderRate(exp: real -> real, log: real -> real, r: real, K0: real, K1: real)
    requires ExpLaws(exp, log) && K1 == K0 + 1.0
    ensures Div(Log(log, Div(Minus(Val(exp(-Accrued(r, 0.0, K1))), Val(0.0)), Times(Val(1.0), Val(exp(-Accrued(r, 0.0, K0)))))),
                Val(K0 - K1)) == Val(r)
  {
    var a, b := -Accrued(r, 0.0, K0), -Accrued(r, 0.0, K1);
    assert b == a + -r;
    ExpAdd(exp, log, a, -r);
    ExpPositive(exp, log, a);
    ExpPositive(exp, log, -r);
    assert (exp(b) - 0.0) / (1.0 * exp(a)) == exp(-r);
    LogExp(exp, log, -r);
  }

  /** One rung: on the flat curve with knots `1..k`, the bond maturing at `k + 1` priced
      at `exp(-r (k + 1))` bootstraps to rate `r`, extending the ladder by one knot. */
  lemma {:induction false} ZeroLadderStep(exp: real -> real, log: real -> real, r: real, k: nat)
    requires ExpLaws(exp, log)
    ensures Rung(exp, log, r, Curve(Ladder(k), Flat(k, r), NaN), k + 1) == Ok(Curve(Ladder(k + 1), Flat(k + 1, r), NaN))
  {
    LadderCurve(r, k);
    LadderDiscount(exp, r, k);
    NextRung(exp, log, r, Ladder(k), Flat(k, r), k as real, (k + 1) as real);
    RungSolved(exp, log, r, Curve(Ladder(k), Flat(k, r), NaN), k + 1, r);
  }

  /** A rung whose closed form returns a numeric rate appends that knot. */
  lemma {:induction false} RungSolved(exp: real -> real, log: real -> real, r: real, c: Curve, k: nat, rate: real)
    requires c.Shaped() && c.ext == NaN
    requires ClosedForm(exp, log, exp(-Accrued(r, 0.0, k as real)), 1, [k as real], [1.0], c.t, c.f)
      == Ok(Solved(Knot(k as real, Val(rate))))
    ensures Rung(exp, log, r, c, k) == Ok(Curve(c.t + [k as real], c.f + [rate], NaN))
  {
  }

  /** The zero maturing one year past the end `K` of a curve that discounts to
      `exp(-r K)` there, priced at `exp(-r (K + 1))`, bootstraps to rate `r`. */
  lemma {:induction false} NextRung(exp: real -> real, log: real -> real, r: real, t: seq<real>, f: seq<real>, K: real, T: real)
    requires ExpLaws(exp, log) && T == K + 1.0
    requires |t| == |f| && StrictlyIncreasing(t) && Given(t, f).End() == K
    requires Discount(exp, Given(t, f), K) == Val(exp(-Accrued(r, 0.0, K)))
    ensures ClosedForm(exp, log, exp(-Accrued(r, 0.0, T)), 1, [T], [1.0], t, f) == Ok(Solved(Knot(T, Val(r))))
  {
    var c := Given(t, f);
    var P := exp(-Accrued(r, 0.0, T));
    LadderRate(exp, log, r, K, T);
    assert LastFlowRate(exp, log, P, 1, [T], [1.0], c)
      == Div(Log(log, Div(Minus(Val(P), Val(0.0)), Times(Val(1.0), Discount(exp, c, K)))), Val(K - T));
  }

  /** Bootstrapping the whole ladder from the empty curve gives knots `1..k`, each with
      rate `r`. */
  lemma {:induction false} ZeroLadder(exp: real -> real, log: real -> real, r: real, k: nat)
    requires ExpLaws(exp, log)
    ensures BuildLadder(exp, log, r, k) == Ok(Curve(Ladder(k), Flat(k, r), NaN))
  {
    if k > 0 {
      ZeroLadder(exp, log, r, k - 1);
      ZeroLadderStep(exp, log, r, k - 1);
    }
  }

  /** As written, `bootstrap` from a curve without knots discounts to its end with the
      source's `integral` at 0, which is NaN; the closed-form rate for a single cash
      flow is then NaN whatever the price, the amount and the time. */
  lemma {:induction false} AsWrittenFirstRateIsNaN(exp: real -> real, log: real -> real, p: real, c0: real, u0: real)
    ensures var D_ := Exp(exp, Neg(IntegralAsWritten(Given([], []), 0.0)));
      var pv := PresentValue(exp, 0, [u0], [c0], Given([], []));
      D_ == NaN && Div(Log(log, Div(Minus(Val(p), pv), Times(Val(c0), D_))), Val(0.0 - u0)) == NaN
  {
    IntegralAsWrittenDiffers(Given([], []), 0.0);
  }
}
