/** One-dimensional root finding by Newton's method (GR5260/fms_root1d.h and
    GR5260/fms_root1d_newton.h).

    The abstract solver's non-virtual interface (`next`, `done`, `solve` calling the
    private `_next`, `_done`) is folded into the one concrete solver, `NewtonSolver`.
    The function and its derivative map doubles to doubles, so both are `Num -> Num`;
    `nextafter` is a parameter as everywhere else in the model. */
module Root1d {
  import opened Numeric

  /** The default of the solver's iteration cap, a template parameter in the source. */
  const DefaultMaxIterations: nat := 100

  /** One Newton step: `x - f(x)/df(x)`. */
  function Step(f: Num -> Num, df: Num -> Num, x: Num): Num {
    Minus(x, Div(f(x), df(x)))
  }

  /** The `k`-th Newton iterate from `x0`. */
  function Iterate(f: Num -> Num, df: Num -> Num, x0: Num, k: nat): Num {
    if k == 0 then x0 else Step(f, df, Iterate(f, df, x0, k - 1))
  }

  /** The convergence test of `_done`: `|f|` at the neighbours `nextafter(x, 1)` and
      `nextafter(x, -1)` is no smaller than `|y|`, the value at the previous iterate.
      Any NaN makes the test fail. */
  predicate Converged(f: Num -> Num, nextafter: (real, real) -> real, x: Num, y: Num) {
    && AtLeast(Abs(f(NextAfter(nextafter, x, 1.0))), Abs(y))
    && AtLeast(Abs(f(NextAfter(nextafter, x, -1.0))), Abs(y))
  }

  /** The test passes after the `k`-th step from `x0` (`k >= 1`): at the `k`-th iterate,
      against `f` of the one before. */
  predicate StopsAt(f: Num -> Num, df: Num -> Num, nextafter: (real, real) -> real, x0: Num, k: nat)
    requires k >= 1
  {
    Converged(f, nextafter, Iterate(f, df, x0, k), f(Iterate(f, df, x0, k - 1)))
  }

  /** `newton_solver`: the current iterate `x`, the value `y` of `f` at the previous
      iterate, and the number `n` of steps taken. */
  class NewtonSolver {
    var x: Num
    var y: Num
    var n: nat
    const f: Num -> Num
    const df: Num -> Num
    const nextafter: (real, real) -> real
    const maxIterations: nat

    /** `y` is left uninitialised by the source; here it starts as NaN. */
    constructor (x0: Num, f: Num -> Num, df: Num -> Num, nextafter: (real, real) -> real, maxIterations: nat)
      ensures x == x0 && y == NaN && n == 0
      ensures this.f == f && this.df == df && this.nextafter == nextafter
      ensures this.maxIterations == maxIterations
    {
      x := x0;
      y := NaN;
      n := 0;
      this.f := f;
      this.df := df;
      this.nextafter := nextafter;
      this.maxIterations := maxIterations;
    }

    /** `_next`: count the step, remember `f(x)` and move to the next iterate. */
    method Next() returns (r: Num)
      modifies this
      ensures n == old(n) + 1 && y == f(old(x)) && x == Step(f, df, old(x))
      ensures r == x
    {
      n := n + 1;
      y := f(x);
      x := Minus(x, Div(y, df(x)));
      r := x;
    }

    /** `_done`: raise once more than `maxIterations` steps were taken; otherwise
        whether the convergence test passes. */
    function Done(): (r: Result<bool>)
      reads this
      ensures r.Raised? <==> n > maxIterations
      ensures r.Raised? ==> r.fault == TooManyIterations
      ensures r.Ok? ==> (r.value <==> Converged(f, nextafter, x, y))
    {
      if n > maxIterations then Raised(TooManyIterations)
      else Ok(Converged(f, nextafter, x, y))
    }

    /** `solve`: `do x = next(); while (!done());`. It stops after `k` steps, at the
        first iterate that passes the convergence test, or raises once the step count
        exceeds `maxIterations`; `k` is a proof device. */
    method Solve() returns (r: Result<Num>, ghost k: nat)
      modifies this
      ensures Reached(f, df, nextafter, old(x), old(n), k, x, y, n)
      ensures r.Raised? <==> n > maxIterations
      ensures r.Raised? ==> r.fault == TooManyIterations
      ensures r.Ok? ==> r.value == x && Converged(f, nextafter, x, y)
      ensures old(n) <= maxIterations ==> n <= maxIterations + 1
    {
      ghost var x0, n0 := x, n;
      var x1 := Next();
      k := 1;
      FirstStep(f, df, nextafter, x0, n0);
      var d := Done();
      while d == Ok(false)
        invariant Reached(f, df, nextafter, x0, n0, k, x, y, n)
        invariant x1 == x && d == Done()
        invariant n0 <= maxIterations ==> n <= maxIterations + 1
        decreases maxIterations - n
      {
        ghost var xp, yp, np := x, y, n;
        x1 := Next();
        NextStep(f, df, nextafter, x0, n0, k, xp, yp, np);
        k := k + 1;
        d := Done();
      }
      if d.Raised? {
        r := Raised(d.fault);
      } else {
        r := Ok(x1);
      }
    }
  }

  /** The solver state after `k` steps from `(x0, n0)`: the step count is `n0 + k`, `x`
      is the `k`-th iterate, `y` is `f` at the iterate before it, and the convergence
      test failed after each earlier step. */
  ghost predicate Reached(f: Num -> Num, df: Num -> Num, nextafter: (real, real) -> real,
                          x0: Num, n0: nat, k: nat, x: Num, y: Num, n: nat)
  {
    && 1 <= k && n == n0 + k
    && x == Iterate(f, df, x0, k) && y == f(Iterate(f, df, x0, k - 1))
    && forall j :: 1 <= j < k ==> !StopsAt(f, df, nextafter, x0, j)
  }

  /** The first call of `next`. */
  lemma {:induction false} FirstStep(f: Num -> Num, df: Num -> Num, nextafter: (real, real) -> real, x0: Num, n0: nat)
    ensures Reached(f, df, nextafter, x0, n0, 1, Step(f, df, x0), f(x0), n0 + 1)
  {
  }

  /** A further call of `next` after `done` returned false. */
  lemma {:induction false} NextStep(f: Num -> Num, df: Num -> Num, nextafter: (real, real) -> real,
                                    x0: Num, n0: nat, k: nat, x: Num, y: Num, n: nat)
    requires Reached(f, df, nextafter, x0, n0, k, x, y, n) && !Converged(f, nextafter, x, y)
    ensures Reached(f, df, nextafter, x0, n0, k + 1, Step(f, df, x), f(x), n + 1)
  {
    assert !StopsAt(f, df, nextafter, x0, k);
  }

  /** At a root where the derivative is defined and non-zero, the Newton step stays put. */
  lemma {:induction false} RootIsFixedPoint(f: Num -> Num, df: Num -> Num, x: Num)
    requires x.Val? && f(x) == Val(0.0) && df(x).Val? && df(x).x != 0.0
    ensures Step(f, df, x) == x
  {
  }

  /** Started at such a root, `solve` stops after its first step, at the root, as long
      as `f` is defined at both neighbours. */
  lemma {:induction false} StopsAtRoot(f: Num -> Num, df: Num -> Num, nextafter: (real, real) -> real, x: Num)
    requires x.Val? && f(x) == Val(0.0) && df(x).Val? && df(x).x != 0.0
    requires f(NextAfter(nextafter, x, 1.0)).Val? && f(NextAfter(nextafter, x, -1.0)).Val?
    ensures Iterate(f, df, x, 1) == x && StopsAt(f, df, nextafter, x, 1)
  {
    RootIsFixedPoint(f, df, x);
  }

  /** The neighbours probed by `_done` are taken towards 1 and -1, not on either side of
      `x`: past 1 both lie below `x`, so the test only looks to the left. */
  lemma {:induction false} ProbesBothBelow(nextafter: (real, real) -> real, x: real)
    requires NextAfterLaw(nextafter) && x > 1.0
    ensures nextafter(x, 1.0) < x && nextafter(x, -1.0) < x
  {
  }

  /** Between -1 and 1 the two probes do lie on either side of `x`. */
  lemma {:induction false} ProbesStraddle(nextafter: (real, real) -> real, x: real)
    requires NextAfterLaw(nextafter) && -1.0 < x < 1.0
    ensures x < nextafter(x, 1.0) && nextafter(x, -1.0) < x
  {
  }
}
