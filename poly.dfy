/** Bell and Hermite polynomials (GR5260/fms_poly.h).

    The complete Bell polynomial `B_n` of the cumulants `kappa_0, ..., kappa_{n-1}`
    gives the `n`-th moment; it satisfies `B_0 = 1` and
    `B_n = sum_{k<n} C(n-1, k) B_{n-1-k} kappa_k`. `Bell` evaluates that recursion,
    `Bell2` the same sum with its index reversed. The probabilists' Hermite
    polynomials satisfy `He_0 = 1`, `He_1 = x`, `He_n = x He_{n-1} - (n-1) He_{n-2}`. */
module Poly {
  import opened Combinatorics

  /** `B_n(kappa)`, by the recursion. */
  function BellOf(n: nat, kappa: seq<real>): real
    requires n <= |kappa|
    decreases n, n + 1
  {
    if n == 0 then 1.0 else BellSum(n, kappa, n)
  }

  /** `sum_{j<k} C(n-1, j) B_{n-1-j} kappa_j`, the first `k` terms of `B_n`. */
  function BellSum(n: nat, kappa: seq<real>, k: nat): real
    requires 1 <= n <= |kappa| && k <= n
    decreases n, k
  {
    if k == 0 then 0.0
    else BellSum(n, kappa, k - 1) + Choose(n - 1, k - 1) as real * BellOf(n - k, kappa) * kappa[k - 1]
  }

  /** `Bell(n, kappa)`: for `n > 0`, a loop over `k < n` that adds
      `C * Bell(n - 1 - k) * kappa[k]`, keeping the binomial coefficient `C` up to date
      by multiplying by `n_ = n - 1 - k` and dividing by `k + 1`. */
  method Bell(n: nat, kappa: seq<real>) returns (b: real)
    requires n <= |kappa|
    ensures b == BellOf(n, kappa)
    decreases n
  {
    if n == 0 {
      return 1.0;
    }
    var n_ := (n - 1) as real;
    var C := 1.0;
    var B := 0.0;
    for k := 0 to n
      invariant C == Choose(n - 1, k) as real && n_ == (n - 1 - k) as real
      invariant B == BellSum(n, kappa, k)
    {
      var bk := Bell(n - 1 - k, kappa);
      BellSumStep(n, kappa, k, C, bk);
      B := B + C * bk * kappa[k];
      NextCoefficient(n - 1, k, C, n_);
      C := C * n_;
      C := C / (k + 1) as real;
      n_ := n_ - 1.0;
    }
    b := B;
  }

  /** One more term of `B_n`'s sum. */
  lemma {:induction false} BellSumStep(n: nat, kappa: seq<real>, k: nat, C: real, bk: real)
    requires 1 <= n <= |kappa| && k < n
    requires C == Choose(n - 1, k) as real && bk == BellOf(n - 1 - k, kappa)
    ensures BellSum(n, kappa, k + 1) == BellSum(n, kappa, k) + C * bk * kappa[k]
  {
  }

  /** The running coefficient after step `k`: `C(m, k) (m - k) / (k + 1) = C(m, k + 1)`. */
  lemma {:induction false} NextCoefficient(m: nat, k: nat, C: real, n_: real)
    requires C == Choose(m, k) as real && n_ == (m - k) as real
    ensures C * n_ / (k + 1) as real == Choose(m, k + 1) as real
  {
    ChooseStepReal(m, k);
  }

  /** The reversed sum: `sum_{j<k} C(n-1, j) B_j kappa_{n-1-j}`. */
  function Bell2Sum(n: nat, kappa: seq<real>, k: nat): real
    requires 1 <= n <= |kappa| && k <= n
    decreases n, k
  {
    if k == 0 then 0.0
    else Bell2Sum(n, kappa, k - 1) + Choose(n - 1, k - 1) as real * Bell2Of(k - 1, kappa) * kappa[n - k]
  }

  /** One more term of the reversed sum. */
  lemma {:induction false} Bell2SumStep(n: nat, kappa: seq<real>, k: nat, C: real, bk: real)
    requires 1 <= n <= |kappa| && k < n
    requires C == Choose(n - 1, k) as real && bk == Bell2Of(k, kappa)
    ensures Bell2Sum(n, kappa, k + 1) == Bell2Sum(n, kappa, k) + C * bk * kappa[n - 1 - k]
  {
  }

  /** What `Bell2` computes: the recursion with the reversed sum. */
  function Bell2Of(n: nat, kappa: seq<real>): real
    requires n <= |kappa|
    decreases n, n + 1
  {
    if n == 0 then 1.0 else Bell2Sum(n, kappa, n)
  }

  /** `Bell2(n, kappa)`: the loop of `Bell` with the terms taken in reverse order. */
  method Bell2(n: nat, kappa: seq<real>) returns (b: real)
    requires n <= |kappa|
    ensures b == Bell2Of(n, kappa)
    decreases n
  {
    if n == 0 {
      return 1.0;
    }
    var n_ := (n - 1) as real;
    var C := 1.0;
    var B := 0.0;
    for k := 0 to n
      invariant C == Choose(n - 1, k) as real && n_ == (n - 1 - k) as real
      invariant B == Bell2Sum(n, kappa, k)
    {
      var bk := Bell2(k, kappa);
      Bell2SumStep(n, kappa, k, C, bk);
      B := B + C * bk * kappa[n - 1 - k];
      NextCoefficient(n - 1, k, C, n_);
      C := C * n_;
      C := C / (k + 1) as real;
      n_ := n_ - 1.0;
    }
    b := B;
  }

  /** The last `k` terms of the reversed sum are the last `k` terms of `B_n`'s sum,
      given that the two recursions agree below `n`. */
  lemma {:induction false} ReversedTail(n: nat, kappa: seq<real>, k: nat)
    requires 1 <= n <= |kappa| && k <= n
    requires forall j :: 0 <= j < n ==> Bell2Of(j, kappa) == BellOf(j, kappa)
    ensures Bell2Sum(n, kappa, k) + BellSum(n, kappa, n - k) == BellSum(n, kappa, n)
  {
    if k > 0 {
      ReversedTail(n, kappa, k - 1);
      TailStep(n, kappa, k);
    }
  }

  /** The `k`-th term of the reversed sum is the `(n-k)`-th term of `B_n`'s sum. */
  lemma TailStep(n: nat, kappa: seq<real>, k: nat)
    requires 1 <= k <= n <= |kappa|
    requires Bell2Of(k - 1, kappa) == BellOf(k - 1, kappa)
    ensures Bell2Sum(n, kappa, k) - Bell2Sum(n, kappa, k - 1)
         == BellSum(n, kappa, n - k + 1) - BellSum(n, kappa, n - k)
  {
    ChooseSymmetric(n - 1, k - 1);
    var c := Choose(n - 1, k - 1) as real;
    var b := Bell2Of(k - 1, kappa);
    var i := n - k;
    assert n - 1 - (k - 1) == i && n - 1 - i == k - 1;
    Bell2SumStep(n, kappa, k - 1, c, b);
    BellSumStep(n, kappa, i, c, b);
  }

  /** `Bell2(n) == Bell(n)` for every `n`. */
  lemma {:induction false} Bell2IsBell(n: nat, kappa: seq<real>)
    requires n <= |kappa|
    ensures Bell2Of(n, kappa) == BellOf(n, kappa)
    decreases n
  {
    if n > 0 {
      forall j | 0 <= j < n
        ensures Bell2Of(j, kappa) == BellOf(j, kappa)
      {
        Bell2IsBell(j, kappa);
      }
      ReversedTail(n, kappa, n);
    }
  }

  /** `B_n` reads only `kappa_0, ..., kappa_{n-1}`. */
  lemma {:induction false} BellReadsPrefix(n: nat, kappa: seq<real>, other: seq<real>)
    requires n <= |kappa| && n <= |other| && kappa[..n] == other[..n]
    ensures BellOf(n, kappa) == BellOf(n, other)
    decreases n
  {
    if n > 0 {
      BellSumReadsPrefix(n, kappa, other, n);
    }
  }

  lemma {:induction false} BellSumReadsPrefix(n: nat, kappa: seq<real>, other: seq<real>, k: nat)
    requires 1 <= n <= |kappa| && n <= |other| && kappa[..n] == other[..n] && k <= n
    ensures BellSum(n, kappa, k) == BellSum(n, other, k)
    decreases n, k
  {
    if k > 0 {
      BellSumReadsPrefix(n, kappa, other, k - 1);
      assert kappa[..n - k] == other[..n - k] by {
        assert kappa[..n - k] == kappa[..n][..n - k];
        assert other[..n - k] == other[..n][..n - k];
      }
      BellReadsPrefix(n - k, kappa, other);
      assert kappa[k - 1] == kappa[..n][k - 1];
    }
  }

  /** The first Bell polynomials, as the tests expand them. */
  lemma {:induction false} BellSmall(kappa: seq<real>)
    requires |kappa| >= 4
    ensures BellOf(0, kappa) == 1.0
    ensures BellOf(1, kappa) == kappa[0]
    ensures BellOf(2, kappa) == kappa[0] * kappa[0] + kappa[1]
    ensures BellOf(3, kappa) == BellOf(2, kappa) * kappa[0] + 2.0 * BellOf(1, kappa) * kappa[1] + kappa[2]
    ensures BellOf(4, kappa) == BellOf(3, kappa) * kappa[0] + 3.0 * BellOf(2, kappa) * kappa[1]
                                + 3.0 * BellOf(1, kappa) * kappa[2] + kappa[3]
  {
    ChooseOne(1);
    ChooseAll(1);
    assert BellOf(1, kappa) == BellSum(1, kappa, 1);
    assert BellOf(2, kappa) == BellSum(2, kappa, 2);
    BellThree(kappa);
    BellFour(kappa);
  }

  lemma BellThree(kappa: seq<real>)
    requires |kappa| >= 3
    ensures BellOf(3, kappa) == BellOf(2, kappa) * kappa[0] + 2.0 * BellOf(1, kappa) * kappa[1] + kappa[2]
  {
    ChooseOne(2);
    ChooseAll(2);
    assert BellOf(3, kappa) == BellSum(3, kappa, 3);
  }

  lemma BellFour(kappa: seq<real>)
    requires |kappa| >= 4
    ensures BellOf(4, kappa) == BellOf(3, kappa) * kappa[0] + 3.0 * BellOf(2, kappa) * kappa[1]
                                + 3.0 * BellOf(1, kappa) * kappa[2] + kappa[3]
  {
    ChooseRowThree();
    FourTerms(4, kappa, BellOf(3, kappa), BellOf(2, kappa), BellOf(1, kappa));
  }

  /** The row `1 3 3 1` of Pascal's triangle. */
  lemma ChooseRowThree()
    ensures Choose(3, 0) == 1 && Choose(3, 1) == 3 && Choose(3, 2) == 3 && Choose(3, 3) == 1
  {
    ChooseOne(3);
    ChooseAll(3);
    assert Choose(3, 2) == 3;
  }

  /** The four terms of `B_4`'s sum, for `n` not written as a literal. */
  lemma FourTerms(n: nat, kappa: seq<real>, b3: real, b2: real, b1: real)
    requires n == 4 <= |kappa|
    requires Choose(n - 1, 0) == 1 && Choose(n - 1, 1) == 3 && Choose(n - 1, 2) == 3 && Choose(n - 1, 3) == 1
    requires b3 == BellOf(n - 1, kappa) && b2 == BellOf(n - 2, kappa) && b1 == BellOf(n - 3, kappa)
    ensures BellSum(n, kappa, n) == b3 * kappa[0] + 3.0 * b2 * kappa[1] + 3.0 * b1 * kappa[2] + kappa[3]
  {
    BellSumStep(n, kappa, 0, 1.0, b3);
    BellSumStep(n, kappa, 1, 3.0, b2);
    BellSumStep(n, kappa, 2, 3.0, b1);
    BellSumStep(n, kappa, 3, 1.0, BellOf(n - 4, kappa));
  }

  /** `Hermite(n, x)`: `He_n(x)` by its three-term recursion. */
  function Hermite(n: nat, x: real): real {
    if n == 0 then 1.0
    else if n == 1 then x
    else x * Hermite(n - 1, x) - (n - 1) as real * Hermite(n - 2, x)
  }

  /** The first Hermite polynomials, expanded. */
  lemma {:induction false} HermiteSmall(x: real)
    ensures Hermite(0, x) == 1.0 && Hermite(1, x) == x
    ensures Hermite(2, x) == x * x - 1.0
    ensures Hermite(3, x) == x * x * x - 3.0 * x
    ensures Hermite(4, x) == x * x * x * x - 6.0 * x * x + 3.0
  {
    assert Hermite(2, x) == x * x - 1.0;
    assert Hermite(3, x) == x * (x * x - 1.0) - 2.0 * x;
    assert Hermite(4, x) == x * (x * x * x - 3.0 * x) - 3.0 * (x * x - 1.0);
  }

  /** The odd Hermite polynomials vanish at 0: `He_{2m+1}(0) = 0`. */
  lemma {:induction false} HermiteOddAtZero(m: nat)
    ensures Hermite(2 * m + 1, 0.0) == 0.0
  {
    if m > 0 {
      HermiteOddAtZero(m - 1);
      SignStep(2 * m + 1);
    }
  }

  /** The even Hermite polynomials alternate in sign at 0:
      `He_{2m}(0) = (-1)^m (2m - 1)!!`, so `He_{4m}(0) > 0` and `He_{4m+2}(0) < 0`. */
  lemma {:induction false} HermiteEvenAtZero(m: nat)
    ensures Hermite(4 * m, 0.0) > 0.0
    ensures Hermite(4 * m + 2, 0.0) < 0.0
  {
    if m > 0 {
      HermiteEvenAtZero(m - 1);
      SignStep(4 * m);
    }
    SignStep(4 * m + 2);
  }

  /** At 0 the recursion is `He_n(0) = -(n - 1) He_{n-2}(0)`: zero stays zero and
      the sign flips. */
  lemma SignStep(n: nat)
    requires n >= 2
    ensures Hermite(n - 2, 0.0) == 0.0 ==> Hermite(n, 0.0) == 0.0
    ensures Hermite(n - 2, 0.0) > 0.0 ==> Hermite(n, 0.0) < 0.0
    ensures Hermite(n - 2, 0.0) < 0.0 ==> Hermite(n, 0.0) > 0.0
  {
    var b := Hermite(n - 2, 0.0);
    var k := (n - 1) as real;
    assert Hermite(n, 0.0) == 0.0 * Hermite(n - 1, 0.0) - k * b;
    ZeroStep(Hermite(n - 1, 0.0), b, k);
  }

  /** `0 a - k b = -(k b)`, with the sign of `k b` for `k >= 1`. */
  lemma ZeroStep(a: real, b: real, k: real)
    requires k >= 1.0
    ensures 0.0 * a - k * b == -(k * b)
    ensures b == 0.0 ==> k * b == 0.0
    ensures b > 0.0 ==> k * b > 0.0
    ensures b < 0.0 ==> k * b < 0.0
  {
  }
}
