/** Binomial coefficients and powers of two, the exact integers that the polynomial
    and binomial-measure code computes in floating point. */
module Combinatorics {

  /** `C(n, k)` by Pascal's rule; 0 when `k > n`. */
  function Choose(n: nat, k: nat): nat {
    if k == 0 then 1
    else if n == 0 then 0
    else Choose(n - 1, k - 1) + Choose(n - 1, k)
  }

  function Pow2(n: nat): (p: nat)
    ensures p >= 1
  {
    if n == 0 then 1 else 2 * Pow2(n - 1)
  }

  lemma {:induction false} ChooseZero(n: nat, k: nat)
    requires k > n
    ensures Choose(n, k) == 0
  {
    if n > 0 {
      ChooseZero(n - 1, k - 1);
      ChooseZero(n - 1, k);
    }
  }

  lemma {:induction false} ChooseAll(n: nat)
    ensures Choose(n, n) == 1
  {
    if n > 0 {
      ChooseAll(n - 1);
      ChooseZero(n - 1, n);
    }
  }

  /** The absorption identity `k C(n, k) = n C(n - 1, k - 1)`. */
  lemma {:induction false} Absorb(n: nat, k: nat)
    requires n >= 1 && k >= 1
    ensures k * Choose(n, k) == n * Choose(n - 1, k - 1)
  {
    if k == 1 {
      ChooseOne(n);
    } else if n == 1 {
      ChooseZero(0, k - 1);
      ChooseZero(1, k);
    } else {
      Absorb(n - 1, k - 1);
      Absorb(n - 1, k);
      AbsorbArithmetic(n, k, Choose(n - 1, k - 1), Choose(n - 1, k), Choose(n - 2, k - 2), Choose(n - 2, k - 1));
    }
  }

  /** The algebra of one absorption step, on Pascal's rule for `a` and the two
      smaller absorptions. */
  lemma AbsorbArithmetic(n: int, k: int, a: int, b: int, c: int, d: int)
    requires a == c + d && (k - 1) * a == (n - 1) * c && k * b == (n - 1) * d
    ensures k * (a + b) == n * a
  {
    assert k * (a + b) == (k - 1) * a + a + k * b;
    assert (n - 1) * c + (n - 1) * d == (n - 1) * a;
  }

  lemma {:induction false} ChooseOne(n: nat)
    ensures Choose(n, 1) == n
  {
    if n > 0 {
      ChooseOne(n - 1);
    }
  }

  /** The step of the running coefficient in `Bell`: `C(m, k) (m - k) = (k + 1) C(m, k + 1)`. */
  lemma {:induction false} ChooseStep(m: nat, k: nat)
    ensures Choose(m, k) * (m - k) == (k + 1) * Choose(m, k + 1)
  {
    if k > m {
      ChooseZero(m, k);
      ChooseZero(m, k + 1);
    } else if m == 0 {
      assert k == 0;
    } else if k == 0 {
      ChooseOne(m);
    } else {
      Absorb(m, k + 1);
      Absorb(m, k);
      StepArithmetic(m, k, Choose(m, k), Choose(m, k + 1), Choose(m - 1, k - 1), Choose(m - 1, k));
    }
  }

  /** The algebra of `ChooseStep`: `(k + 1) C(m, k + 1) = m C(m - 1, k) = (m - k) C(m, k)`. */
  lemma StepArithmetic(m: int, k: int, x: int, y: int, a: int, b: int)
    requires x == a + b && (k + 1) * y == m * b && k * x == m * a
    ensures x * (m - k) == (k + 1) * y
  {
    assert x * (m - k) == m * x - k * x;
    assert m * x == m * a + m * b;
  }

  /** The same step in the reals, as the loop computes it: multiply by `m - k`, then
      divide by `k + 1`. */
  lemma {:induction false} ChooseStepReal(m: nat, k: nat)
    ensures Choose(m, k) as real * (m - k) as real / (k + 1) as real == Choose(m, k + 1) as real
  {
    ChooseStep(m, k);
    RealStep(Choose(m, k), m - k, k + 1, Choose(m, k + 1));
  }

  lemma RealStep(a: int, b: int, c: int, d: int)
    requires a * b == c * d && c > 0
    ensures a as real * b as real / c as real == d as real
  {
    assert (a * b) as real == a as real * b as real;
    assert (c * d) as real == c as real * d as real;
  }

  /** Symmetry `C(n, k) = C(n, n - k)`. */
  lemma {:induction false} ChooseSymmetric(n: nat, k: nat)
    requires k <= n
    ensures Choose(n, k) == Choose(n, n - k)
  {
    if k == 0 {
      ChooseAll(n);
    } else if k == n {
      ChooseAll(n);
    } else {
      ChooseSymmetric(n - 1, k - 1);
      ChooseSymmetric(n - 1, k);
      assert n - 1 - (k - 1) == n - k;
      assert Choose(n, n - k) == Choose(n - 1, n - k - 1) + Choose(n - 1, n - k);
    }
  }

  /** `sum_{k < K} C(n, k)`. */
  function RowSum(n: nat, K: nat): nat {
    if K == 0 then 0 else RowSum(n, K - 1) + Choose(n, K - 1)
  }

  /** Pascal's rule, summed. */
  lemma {:induction false} RowSumPascal(n: nat, K: nat)
    ensures RowSum(n + 1, K + 1) == RowSum(n, K) + RowSum(n, K + 1)
  {
    if K > 0 {
      RowSumPascal(n, K - 1);
    }
  }

  /** A row of Pascal's triangle sums to `2^n`. */
  lemma {:induction false} RowSumIsPow2(n: nat)
    ensures RowSum(n, n + 1) == Pow2(n)
  {
    if n > 0 {
      RowSumIsPow2(n - 1);
      RowSumPascal(n - 1, n);
      ChooseZero(n - 1, n);
    }
  }
}
