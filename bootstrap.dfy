/** Bootstrapping a piecewise-flat forward curve (GR5260/fms_bootstrap.h).

    Given an instrument (cash flows `cs[i]` at times `u[i]`, `i < m`) with price `p`
    and a curve `(t, f)`, find the rate to extend the curve with, up to the last
    cash-flow time, so that the instrument prices to `p`. Two configurations have a
    closed form; every other one is handed to Newton's method, with the present value
    minus the price as the function and `partial_duration` as its derivative. */
module Bootstrap {
  import opened Numeric
  import opened PwFlat
  import opened PwFlatFacts
  import opened Root1d

  /** The pair the source returns: the new knot time and its forward rate. */
  datatype Knot = Knot(t: real, f: Num)

  /** What the straight-line part of `bootstrap` decides: a closed-form knot, or that
      the rate for the knot at time `t` must come from the solver. */
  datatype Plan = Solved(knot: Knot) | NeedsSolver(t: real)
  {
    function Time(): real {
      if Solved? then knot.t else t
    }
  }

  /** The curve as `bootstrap` reads it: no extrapolation rate (the default NaN). */
  function Given(t: seq<real>, f: seq<real>): Curve {
    Curve(t, f, NaN)
  }

  /** The closed form when only the last cash flow lies past the curve:
      `log((p - pv)/(c_ * D_)) / (t_ - u_)`, with `pv` the present value of the other
      flows and `D_` the discount factor to the end of the curve. */
  function LastFlowRate(exp: real -> real, log: real -> real, p: real, m: nat, u: seq<real>, cs: seq<real>, c: Curve): Num
    requires 0 < m <= |u| && m <= |cs| && c.Shaped()
  {
    var pv := PresentValue(exp, m - 1, u, cs, c);
    var D_ := Discount(exp, c, c.End());
    Div(Log(log, Div(Minus(Val(p), pv), Times(Val(cs[m - 1]), D_))), Val(c.End() - u[m - 1]))
  }

  /** The closed form for two cash flows and price 0: `log(-c0/c1) / (u0 - u1)`. */
  function ZeroPriceRate(log: real -> real, u: seq<real>, cs: seq<real>): Num
    requires 2 <= |u| && 2 <= |cs|
  {
    Div(Log(log, Div(Val(-cs[0]), Val(cs[1]))), Val(u[0] - u[1]))
  }

  /** The checks and the two closed-form branches of `bootstrap`. */
  function ClosedForm(exp: real -> real, log: real -> real, p: real, m: nat, u: seq<real>, cs: seq<real>, t: seq<real>, f: seq<real>): (r: Result<Plan>)
    requires m <= |u| && m <= |cs| && |t| == |f|
    ensures r.Raised? <==>
      || m == 0
      || (|t| > 0 && u[m - 1] <= Given(t, f).End())
      || (m == 2 && p == 0.0 && u[0] > Given(t, f).End() && u[0] >= u[1])
    ensures r.Raised? ==> r.fault == EnsureFailed
    ensures r.Ok? ==> r.value.Time() == u[m - 1]
  {
    var c := Given(t, f);
    if m == 0 || (|t| > 0 && !(u[m - 1] > t[|t| - 1])) then Raised(EnsureFailed)
    else
      var t_ := c.End();
      if m == 1 || u[m - 2] <= t_ then Ok(Solved(Knot(u[m - 1], LastFlowRate(exp, log, p, m, u, cs, c))))
      else if p == 0.0 && m == 2 then
        if !(u[0] > t_) || !(u[0] < u[1]) then Raised(EnsureFailed)
        else Ok(Solved(Knot(u[m - 1], ZeroPriceRate(log, u, cs))))
      else Ok(NeedsSolver(u[m - 1]))
  }

  /** `-p + present_value(m, u, cs, n, t, f, _f)`: the pricing error when the curve is
      extrapolated at `e`. */
  function Gap(exp: real -> real, p: real, m: nat, u: seq<real>, cs: seq<real>, t: seq<real>, f: seq<real>, e: Num): Num
    requires m <= |u| && m <= |cs| && |t| == |f|
  {
    Plus(Val(-p), PresentValue(exp, m, u, cs, Curve(t, f, e)))
  }

  /** `partial_duration(m, u, cs, n, t, f, _f)`: the derivative of `Gap` in `e`. */
  function Slope(exp: real -> real, m: nat, u: seq<real>, cs: seq<real>, t: seq<real>, f: seq<real>, e: Num): Num
    requires m <= |u| && m <= |cs| && |t| == |f|
  {
    PartialDuration(exp, m, u, cs, Curve(t, f, e))
  }

  /** The solver's function, `Gap` as a function of the extrapolation rate. */
  function PriceGap(exp: real -> real, p: real, m: nat, u: seq<real>, cs: seq<real>, t: seq<real>, f: seq<real>): Num -> Num
    requires m <= |u| && m <= |cs| && |t| == |f|
  {
    e => Gap(exp, p, m, u, cs, t, f, e)
  }

  /** The solver's derivative, `Slope` as a function of the extrapolation rate. */
  function PriceSlope(exp: real -> real, m: nat, u: seq<real>, cs: seq<real>, t: seq<real>, f: seq<real>): Num -> Num
    requires m <= |u| && m <= |cs| && |t| == |f|
  {
    e => Slope(exp, m, u, cs, t, f, e)
  }

  /** The solver's starting point: the last forward rate, or the caller's guess `_f`
      on a curve without knots. */
  function Start(t: seq<real>, f: seq<real>, guess: real): real
    requires |t| == |f|
  {
    if |t| > 0 then f[|t| - 1] else guess
  }

  /** `bootstrap(p, m, u, cs, n, t, f, _f)`. The closed-form branches return their knot
      (they do not look at `_f`); otherwise Newton's method runs from `Start` and
      returns the first iterate that passes its convergence test, or raises after
      `DefaultMaxIterations` failed tests. `steps` is a proof device. */
  method Bootstrap(exp: real -> real, log: real -> real, nextafter: (real, real) -> real,
                   p: real, m: nat, u: seq<real>, cs: seq<real>, t: seq<real>, f: seq<real>, guess: real := 0.0)
    returns (r: Result<Knot>, ghost steps: nat)
    requires m <= |u| && m <= |cs| && |t| == |f|
    ensures ClosedForm(exp, log, p, m, u, cs, t, f).Raised? ==> r == Raised(EnsureFailed)
    ensures ClosedForm(exp, log, p, m, u, cs, t, f).Ok? ==> r.Ok? ==> r.value.t == u[m - 1]
    ensures forall k :: ClosedForm(exp, log, p, m, u, cs, t, f) == Ok(Solved(k)) ==> r == Ok(k)
    ensures m > 0 && ClosedForm(exp, log, p, m, u, cs, t, f) == Ok(NeedsSolver(u[m - 1])) ==>
      var gap, slope, x0 := PriceGap(exp, p, m, u, cs, t, f), PriceSlope(exp, m, u, cs, t, f), Val(Start(t, f, guess));
      && (r.Raised? ==> (r.fault == TooManyIterations &&
            forall j :: 1 <= j <= DefaultMaxIterations ==> !StopsAt(gap, slope, nextafter, x0, j)))
      && (r.Ok? ==> (1 <= steps <= DefaultMaxIterations && r.value.f == Iterate(gap, slope, x0, steps)
            && StopsAt(gap, slope, nextafter, x0, steps)
            && forall j :: 1 <= j < steps ==> !StopsAt(gap, slope, nextafter, x0, j)))
  {
    var plan := ClosedForm(exp, log, p, m, u, cs, t, f);
    steps := 0;
    if plan.Raised? {
      r := Raised(plan.fault);
    } else if plan.value.Solved? {
      r := Ok(plan.value.knot);
    } else {
      var gap, slope := PriceGap(exp, p, m, u, cs, t, f), PriceSlope(exp, m, u, cs, t, f);
      var solver := new NewtonSolver(Val(Start(t, f, guess)), gap, slope, nextafter, DefaultMaxIterations);
      var s;
      s, steps := solver.Solve();
      if s.Raised? {
        r := Raised(s.fault);
      } else {
        r := Ok(Knot(plan.value.t, s.value));
      }
    }
  }
}
