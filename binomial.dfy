/** The binomial measure on `{0,1}^N` (GR5260/fms_binomial.h): an iterator over the
    number `k` of ones, `0 <= k <= N`, and the probability `C(N, k) / 2^N` of
    seeing `k` ones in `N` fair draws. */
module Binomial {
  import opened Combinatorics

  /** `2^64`: `size_t` arithmetic is modulo this. */
  const SizeModulus: nat := 0x1_0000_0000_0000_0000

  /** `iterator<N>`: a count `k` of ones, stepped in place by `++`. */
  class Iterator {
    const N: nat
    var k: int

    /** `iterator<N>::begin()`: no ones yet. */
    constructor Begin(N: nat)
      ensures this.N == N && k == 0
    {
      this.N := N;
      k := 0;
    }

    /** `iterator<N>::end()`: one past the last count, `N + 1`. */
    constructor End(N: nat)
      ensures this.N == N && k == N + 1
    {
      this.N := N;
      k := N + 1;
    }

    /** `operator==`: the counts agree. */
    predicate Equal(i: Iterator)
      reads this, i
    {
      k == i.k
    }

    /** `operator!=`. */
    predicate NotEqual(i: Iterator)
      reads this, i
    {
      !Equal(i)
    }

    /** `operator*`: the count, converted to `size_t` (so modulo `2^64`). */
    function Count(): (r: nat)
      reads this
      ensures r < SizeModulus
      ensures 0 <= k < SizeModulus ==> r == k
      ensures k < 0 ==> r == SizeModulus + k || -k > SizeModulus
    {
      k % SizeModulus
    }

    /** `operator++`: one more one. */
    method Increment()
      modifies this
      ensures k == old(k) + 1
    {
      k := k + 1;
    }
  }

  /** `!=` is the negation of `==`, and `==` reads only the counts. */
  lemma {:induction false} EqualIsCount(i: Iterator, j: Iterator)
    ensures i.NotEqual(j) <==> !i.Equal(j)
    ensures i.Equal(j) <==> i.k == j.k
    ensures i.Equal(j) <==> j.Equal(i)
  {
  }

  /** `probability<N>(k)`: for `2k > N` the mirror count `N - k`; `2^-N` for no ones;
      otherwise `N probability<N-1>(k - 1) / (2k)`. */
  function Probability(N: nat, k: nat): real
    requires k <= N
    decreases N, k
  {
    if 2 * k > N then Probability(N, N - k)
    else if k == 0 then 1.0 / Pow2(N) as real
    else Scale(N, k, Probability(N - 1, k - 1))
  }

  /** `N P / (2k)`: one step of the recursion. */
  function Scale(N: nat, k: nat, P: real): real
    requires k >= 1
  {
    (N as real * P) / (2 * k) as real
  }

  /** The recursion computes `C(N, k) / 2^N`. */
  lemma {:induction false} ProbabilityIsChoose(N: nat, k: nat)
    requires k <= N
    ensures Probability(N, k) == Choose(N, k) as real / Pow2(N) as real
    decreases N, k
  {
    if 2 * k > N {
      ProbabilityIsChoose(N, N - k);
      ChooseSymmetric(N, k);
      assert Probability(N, k) == Probability(N, N - k);
    } else if k == 0 {
      assert Probability(N, k) == 1.0 / Pow2(N) as real;
    } else {
      ProbabilityIsChoose(N - 1, k - 1);
      Absorb(N, k);
      var p1, c1 := Pow2(N - 1), Choose(N - 1, k - 1);
      StepArithmetic(N, k, Choose(N, k), c1, p1, Pow2(N), Probability(N - 1, k - 1));
    }
  }

  /** `N P / (2k) = c / (2 p1)` when `P = c1 / p1` and `k c = N c1`. */
  lemma StepArithmetic(N: nat, k: nat, c: nat, c1: nat, p1: nat, p: nat, P: real)
    requires k >= 1 && p1 >= 1 && k * c == N * c1 && p == 2 * p1 && P == c1 as real / p1 as real
    ensures Scale(N, k, P) == c as real / p as real
  {
    assert (k * c) as real == k as real * c as real;
    assert (N * c1) as real == N as real * c1 as real;
    var x := N as real * P;
    assert x * p1 as real == k as real * c as real;
    assert x / (2 * k) as real * p as real == c as real;
  }

  /** Probabilities of `k` ones, in particular none, and the mirror symmetry. */
  lemma {:induction false} ProbabilityFacts(N: nat, k: nat)
    requires k <= N
    ensures Probability(N, 0) == 1.0 / Pow2(N) as real
    ensures Probability(N, k) == Probability(N, N - k)
    ensures Probability(N, k) > 0.0
  {
    ProbabilityIsChoose(N, 0);
    ProbabilityIsChoose(N, k);
    ProbabilityIsChoose(N, N - k);
    ChooseSymmetric(N, k);
    ChooseZeroOnlyPast(N, k);
    PositiveFraction(Choose(N, k), Pow2(N));
  }

  lemma PositiveFraction(a: nat, b: nat)
    requires a >= 1 && b >= 1
    ensures a as real / b as real > 0.0
  {
  }

  /** `C(N, k) > 0` for `k <= N`. */
  lemma {:induction false} ChooseZeroOnlyPast(N: nat, k: nat)
    requires k <= N
    ensures Choose(N, k) > 0
  {
    if k > 0 {
      ChooseZeroOnlyPast(N - 1, k - 1);
    }
  }

  /** `sum_{k < K} probability<N>(k)`. */
  function ProbabilitySum(N: nat, K: nat): real
    requires K <= N + 1
  {
    if K == 0 then 0.0 else ProbabilitySum(N, K - 1) + Probability(N, K - 1)
  }

  lemma {:induction false} ProbabilitySumIsRowSum(N: nat, K: nat)
    requires K <= N + 1
    ensures ProbabilitySum(N, K) == RowSum(N, K) as real / Pow2(N) as real
  {
    if K > 0 {
      ProbabilitySumIsRowSum(N, K - 1);
      ProbabilityIsChoose(N, K - 1);
      AddFractions(RowSum(N, K - 1), Choose(N, K - 1), Pow2(N));
    }
  }

  lemma AddFractions(a: nat, b: nat, p: nat)
    requires p >= 1
    ensures a as real / p as real + b as real / p as real == (a + b) as real / p as real
  {
  }

  /** The probabilities of `0, ..., N` ones add up to 1. */
  lemma {:induction false} ProbabilitiesSumToOne(N: nat)
    ensures ProbabilitySum(N, N + 1) == 1.0
  {
    ProbabilitySumIsRowSum(N, N + 1);
    RowSumIsPow2(N);
  }
}
