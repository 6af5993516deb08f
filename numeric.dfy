/** Floating-point values as the library sees them, and the elementary functions
    it calls.

    Arithmetic is exact (`real`). The only non-finite value kept is the quiet NaN
    that the library returns for an undefined result; it propagates through every
    operation and every comparison with it is false. A division by zero, which IEEE
    arithmetic turns into an infinity or a NaN, is undefined here as well.

    `exp`, `log`, `sqrt` and `nextafter` are not defined by this model: they are
    parameters of the operations that use them, and each lemma requires only the
    laws it needs (`ExpLaws`, `SqrtLaw`, `NextAfterLaw`). */
module Numeric {

  /** A double: either a real value or NaN. */
  datatype Num = Val(x: real) | NaN

  /** The errors the library raises (as opposed to the NaN it returns). */
  datatype Fault =
    | EnsureFailed        // an `ensure (...)` precondition check failed
    | TooManyIterations   // the root finder exceeded its iteration cap

  datatype Result<+T> = Ok(value: T) | Raised(fault: Fault)

  function Plus(a: Num, b: Num): Num {
    if a.Val? && b.Val? then Val(a.x + b.x) else NaN
  }

  function Minus(a: Num, b: Num): Num {
    if a.Val? && b.Val? then Val(a.x - b.x) else NaN
  }

  function Times(a: Num, b: Num): Num {
    if a.Val? && b.Val? then Val(a.x * b.x) else NaN
  }

  function Div(a: Num, b: Num): Num {
    if a.Val? && b.Val? && b.x != 0.0 then Val(a.x / b.x) else NaN
  }

  function Neg(a: Num): Num {
    if a.Val? then Val(-a.x) else NaN
  }

  function Abs(a: Num): Num {
    if a.Val? then Val(if a.x < 0.0 then -a.x else a.x) else NaN
  }

  /** `a >= b`; false as soon as either side is NaN. */
  predicate AtLeast(a: Num, b: Num) {
    a.Val? && b.Val? && a.x >= b.x
  }

  /** `exp` lifted to doubles. */
  function Exp(exp: real -> real, a: Num): Num {
    if a.Val? then Val(exp(a.x)) else NaN
  }

  /** `log` lifted to doubles: NaN for a negative argument, and (as the model has
      no infinities) for zero. */
  function Log(log: real -> real, a: Num): Num {
    if a.Val? && a.x > 0.0 then Val(log(a.x)) else NaN
  }

  /** `exp(a + b)`, named so that the addition law below has a trigger of its own. */
  ghost function ExpSum(exp: real -> real, a: real, b: real): real {
    exp(a + b)
  }

  /** The laws of `exp` and `log` that the proofs use. */
  ghost predicate ExpLaws(exp: real -> real, log: real -> real) {
    && exp(0.0) == 1.0
    && (forall a, b {:trigger ExpSum(exp, a, b)} :: ExpSum(exp, a, b) == exp(a) * exp(b))
    && (forall x {:trigger exp(log(x))} :: x > 0.0 ==> exp(log(x)) == x)
    && (forall x {:trigger log(exp(x))} :: log(exp(x)) == x)
  }

  lemma ExpAdd(exp: real -> real, log: real -> real, a: real, b: real)
    requires ExpLaws(exp, log)
    ensures exp(a + b) == exp(a) * exp(b)
  {
    assert ExpSum(exp, a, b) == exp(a + b);
  }

  lemma ExpLog(exp: real -> real, log: real -> real, x: real)
    requires ExpLaws(exp, log) && x > 0.0
    ensures exp(log(x)) == x
  {
  }

  lemma LogExp(exp: real -> real, log: real -> real, x: real)
    requires ExpLaws(exp, log)
    ensures log(exp(x)) == x
  {
  }

  /** `exp` is positive: it is a square, `exp(a/2)^2`, and `exp(a) * exp(-a) == 1`. */
  lemma ExpPositive(exp: real -> real, log: real -> real, a: real)
    requires ExpLaws(exp, log)
    ensures exp(a) > 0.0
  {
    var h := exp(a / 2.0);
    ExpAdd(exp, log, a / 2.0, a / 2.0);
    assert a / 2.0 + a / 2.0 == a;
    assert exp(a) == h * h;
    assert h * h >= 0.0;
    ExpAdd(exp, log, a, -a);
    assert a + -a == 0.0;
    assert exp(a) * exp(-a) == 1.0;
  }

  /** The law of `sqrt` that the proofs use. */
  ghost predicate SqrtLaw(sqrt: real -> real) {
    forall x {:trigger sqrt(x)} :: x >= 0.0 ==> sqrt(x) * sqrt(x) == x
  }

  /** `sqrt` lifted to doubles: NaN for a negative argument. */
  function Sqrt(sqrt: real -> real, a: Num): Num {
    if a.Val? && a.x >= 0.0 then Val(sqrt(a.x)) else NaN
  }

  /** `nextafter(x, y)`: the next double after `x` in the direction of `y`; in exact
      arithmetic, a point strictly between `x` and `y` (or `y` itself), and `y` when
      `x == y`. */
  ghost predicate NextAfterLaw(nextafter: (real, real) -> real) {
    forall x, y {:trigger nextafter(x, y)} ::
      && (x < y ==> x < nextafter(x, y) <= y)
      && (y < x ==> y <= nextafter(x, y) < x)
      && (x == y ==> nextafter(x, y) == y)
  }

  /** `nextafter` lifted to doubles. */
  function NextAfter(nextafter: (real, real) -> real, a: Num, y: real): Num {
    if a.Val? then Val(nextafter(a.x, y)) else NaN
  }
}
