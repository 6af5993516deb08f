/** The numeric helpers of the course driver (GR5260/GR5260.cpp): the running mean
    of `n` draws of a generator, and the arithmetic progression `start, start + step,
    ...` below `stop`. The generator is given as the sequence of values it returns. */
module Helpers {

  /** `x_0 + ... + x_{k-1}`. */
  function Sum(xs: seq<real>, k: nat): real
    requires k <= |xs|
  {
    if k == 0 then 0.0 else Sum(xs, k - 1) + xs[k - 1]
  }

  /** The average of the draws, 0 for none. */
  function Average(xs: seq<real>): real {
    if |xs| == 0 then 0.0 else Sum(xs, |xs|) / |xs| as real
  }

  /** `mean(f, n)`: starting from `m = 0`, the `i`-th draw moves `m` by
      `(f() - m) / i`. The result is the average of the `n` draws. */
  method Mean(draws: seq<real>) returns (m: real)
    ensures m == Average(draws)
  {
    m := 0.0;
    for i := 1 to |draws| + 1
      invariant m == Average(draws[..i - 1])
    {
      ghost var s := Sum(draws, i - 1);
      PrefixSum(draws, i - 1);
      UpdateStep(s, draws[i - 1], i, m);
      m := m + (draws[i - 1] - m) / i as real;
      PrefixSum(draws, i);
    }
    assert draws[..|draws|] == draws;
  }

  /** The average of a prefix sums the draws themselves. */
  lemma {:induction false} PrefixSum(xs: seq<real>, k: nat)
    requires k <= |xs|
    ensures Sum(xs[..k], k) == Sum(xs, k)
    ensures Average(xs[..k]) == if k == 0 then 0.0 else Sum(xs, k) / k as real
  {
    if k > 0 {
      PrefixSum(xs, k - 1);
      assert xs[..k][..k - 1] == xs[..k - 1];
      PrefixOfPrefix(xs, k);
    }
  }

  /** `Sum(ys, j)` only reads `ys[..j]`. */
  lemma {:induction false} SumReadsPrefix(xs: seq<real>, ys: seq<real>, j: nat)
    requires j <= |xs| && j <= |ys| && xs[..j] == ys[..j]
    ensures Sum(xs, j) == Sum(ys, j)
  {
    if j > 0 {
      assert xs[..j - 1] == xs[..j][..j - 1];
      assert ys[..j - 1] == ys[..j][..j - 1];
      SumReadsPrefix(xs, ys, j - 1);
      assert xs[j - 1] == xs[..j][j - 1];
    }
  }

  lemma PrefixOfPrefix(xs: seq<real>, k: nat)
    requires 0 < k <= |xs|
    ensures Sum(xs[..k], k) == Sum(xs[..k], k - 1) + xs[k - 1]
    ensures Sum(xs[..k], k - 1) == Sum(xs, k - 1)
  {
    assert xs[..k][..k - 1] == xs[..k - 1];
    SumReadsPrefix(xs[..k], xs, k - 1);
  }

  /** The update `m + (x - m) / i` turns the average of `i - 1` values into the
      average of `i`. */
  lemma UpdateStep(s: real, x: real, i: nat, m: real)
    requires i >= 1
    requires i == 1 ==> m == 0.0 && s == 0.0
    requires i > 1 ==> m == s / (i - 1) as real
    ensures m + (x - m) / i as real == (s + x) / i as real
  {
    if i > 1 {
      var j := (i - 1) as real;
      assert m * j == s;
      assert (m + (x - m) / i as real) * i as real == m * i as real + (x - m);
      assert m * i as real == m * j + m;
    }
  }

  /** The draws `1/n, 2/n, ..., n/n` of the test. */
  function Ramp(n: nat, k: nat): (r: seq<real>)
    requires n >= 1 && k <= n
    ensures |r| == k && forall j :: 0 <= j < k ==> r[j] == (j + 1) as real / n as real
  {
    if k == 0 then [] else Ramp(n, k - 1) + [k as real / n as real]
  }

  /** `1/n + ... + k/n = k (k + 1) / (2n)`. */
  lemma {:induction false} RampSum(n: nat, k: nat)
    requires n >= 1 && k <= n
    ensures Sum(Ramp(n, n), k) == (k * (k + 1)) as real / (2 * n) as real
  {
    if k > 0 {
      RampSum(n, k - 1);
      var r := Ramp(n, n);
      assert r[k - 1] == k as real / n as real;
      RampArithmetic(n, k);
    }
  }

  lemma RampArithmetic(n: nat, k: nat)
    requires n >= 1 && k >= 1
    ensures ((k - 1) * k) as real / (2 * n) as real + k as real / n as real == (k * (k + 1)) as real / (2 * n) as real
  {
    assert (k * (k + 1)) as real == ((k - 1) * k) as real + 2.0 * k as real;
  }

  /** The mean of `1/n, ..., n/n` is `(n + 1) / (2n)`. */
  lemma {:induction false} MeanOfRamp(n: nat)
    requires n >= 1
    ensures Average(Ramp(n, n)) == (n + 1) as real / (2 * n) as real
  {
    RampSum(n, n);
    var a := (n * (n + 1)) as real;
    var b := (2 * n) as real;
    assert a / b / n as real == (n + 1) as real / b by {
      assert a == n as real * (n + 1) as real;
    }
  }

  /** `sequence(start, stop, step)`: append `start` and advance it by `step` while it
      is below `stop`. The result is the progression `start + k step` over exactly
      those `k` whose term is below `stop`. */
  method Sequence(start: real, stop: real, step: real := 1.0) returns (v: seq<real>)
    requires step > 0.0 || start >= stop
    ensures forall k :: 0 <= k < |v| ==> v[k] == start + k as real * step && v[k] < stop
    ensures start + |v| as real * step >= stop
  {
    v := [];
    var x := start;
    ghost var bound := if start >= stop then 0 else ((stop - start) / step).Floor + 1;
    while x < stop
      invariant x == start + |v| as real * step
      invariant forall k :: 0 <= k < |v| ==> v[k] == start + k as real * step && v[k] < stop
      invariant x < stop ==> |v| < bound
      decreases bound - |v|
    {
      v := v + [x];
      x := x + step;
      BelowBound(start, stop, step, |v|);
    }
  }

  /** A term below `stop` has index at most `(stop - start) / step`. */
  lemma BelowBound(start: real, stop: real, step: real, k: nat)
    requires step > 0.0
    ensures start + k as real * step < stop ==> start < stop && k < ((stop - start) / step).Floor + 1
  {
    if start + k as real * step < stop {
      assert k as real * step < stop - start;
      assert k as real < (stop - start) / step;
    }
  }

  /** The progression is strictly increasing, and it is empty exactly when
      `start >= stop`. */
  lemma {:induction false} SequenceIncreasing(start: real, stop: real, step: real, v: seq<real>)
    requires step > 0.0 || start >= stop
    requires forall k :: 0 <= k < |v| ==> v[k] == start + k as real * step && v[k] < stop
    requires start + |v| as real * step >= stop
    ensures forall j, k :: 0 <= j < k < |v| ==> v[j] < v[k]
    ensures |v| == 0 <==> start >= stop
  {
    if |v| > 0 {
      assert v[0] == start;
      forall j, k | 0 <= j < k < |v|
        ensures v[j] < v[k]
      {
        assert (k - j) as real * step > 0.0;
      }
    }
  }
}
