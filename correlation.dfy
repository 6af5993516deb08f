/** Correlation matrices from unit vectors (GR5260/fms_correlation.h).

    An `n x n` correlation matrix is `rho_{ij} = e_i . e_j` for unit vectors
    `e_0, ..., e_{n-1}`. The class stores them as the rows of a lower-triangular
    (Cholesky) matrix: row `i` has `i + 1` entries, the first `i` taken from the
    caller's array and the last, `e_ii = sqrt(1 - sum_{j<i} e_ij^2)`, making the row
    a unit vector when that sum is at most 1 (NaN otherwise). */
module Correlation {
  import opened Numeric

  /** `correlation::layout`: where the entries of row `i` start in the caller's array. */
  datatype Layout =
    | Lower    // rows of width `n - 1`, zero-padded: row `i` starts at `(i - 1)(n - 1)`
    | Packed   // rows back to back: row `i` starts at `i (i - 1) / 2`

  /** The offset of row `i`'s entries, `i >= 1`. */
  function Offset(layout: Layout, n: nat, i: nat): nat
    requires 1 <= i <= n
  {
    if layout != Packed then (i - 1) * (n - 1) else (i * (i - 1)) / 2
  }

  /** How many inputs the constructor reads: the offset of a row `n` past the last. */
  function InputSize(layout: Layout, n: nat): nat {
    if n <= 1 then 0 else Offset(layout, n, n)
  }

  /** The entries of row `i` lie inside the inputs, and the rows do not overlap. */
  lemma {:induction false} OffsetsInRange(layout: Layout, n: nat, i: nat)
    requires 1 <= i < n
    ensures Offset(layout, n, i) + i <= Offset(layout, n, i + 1) <= InputSize(layout, n)
    decreases n - i
  {
    if layout == Packed {
      PackedStep(i);
    } else {
      LowerStep(n - 1, i);
    }
    if i + 1 < n {
      OffsetsInRange(layout, n, i + 1);
    }
  }

  lemma PackedStep(i: nat)
    requires i >= 1
    ensures (i * (i - 1)) / 2 + i == ((i + 1) * i) / 2
  {
    assert (i + 1) * i == i * (i - 1) + 2 * i;
  }

  lemma LowerStep(w: nat, i: nat)
    requires 1 <= i <= w
    ensures (i - 1) * w + i <= i * w
  {
    assert i * w == (i - 1) * w + w;
  }

  /** The `i` entries of a row read from offset `off`. */
  function Entries(e: seq<real>, off: nat, i: nat): (r: seq<Num>)
    requires off + i <= |e|
    ensures |r| == i && forall j :: 0 <= j < i ==> r[j] == Val(e[off + j])
  {
    if i == 0 then [] else Entries(e, off, i - 1) + [Val(e[off + i - 1])]
  }

  /** `e2`: the sum of the squares of those entries. */
  function SumSq(e: seq<real>, off: nat, i: nat): real
    requires off + i <= |e|
  {
    if i == 0 then 0.0 else SumSq(e, off, i - 1) + e[off + i - 1] * e[off + i - 1]
  }

  /** Row `i >= 1`: its entries, then `sqrt(1 - e2)`. */
  function RowOf(sqrt: real -> real, e: seq<real>, off: nat, i: nat): seq<Num>
    requires off + i <= |e|
  {
    Entries(e, off, i) + [Sqrt(sqrt, Val(1.0 - SumSq(e, off, i)))]
  }

  /** Row `i` of the matrix the constructor builds: `[1]` for the first. */
  function RowAt(sqrt: real -> real, n: nat, e: seq<real>, layout: Layout, i: nat): seq<Num>
    requires i < n && |e| >= InputSize(layout, n)
  {
    if i == 0 then [Val(1.0)]
    else
      OffsetsInRange(layout, n, i);
      RowOf(sqrt, e, Offset(layout, n, i), i)
  }

  /** The first `k` rows. */
  function Rows(sqrt: real -> real, n: nat, e: seq<real>, layout: Layout, k: nat): (rs: seq<seq<Num>>)
    requires k <= n && |e| >= InputSize(layout, n)
    ensures |rs| == k && forall i :: 0 <= i < k ==> rs[i] == RowAt(sqrt, n, e, layout, i)
  {
    if k == 0 then [] else Rows(sqrt, n, e, layout, k - 1) + [RowAt(sqrt, n, e, layout, k - 1)]
  }

  /** Row `i` has `i + 1` entries; the first is `[1]`; below the diagonal, entry `j`
      of row `i` is input `Offset(i) + j`; on it, `sqrt(1 - e2)`. */
  lemma {:induction false} RowsShape(sqrt: real -> real, n: nat, e: seq<real>, layout: Layout, i: nat, j: nat)
    requires i < n && |e| >= InputSize(layout, n)
    ensures |Rows(sqrt, n, e, layout, n)| == n
    ensures |Rows(sqrt, n, e, layout, n)[i]| == i + 1
    ensures i == 0 ==> Rows(sqrt, n, e, layout, n)[i] == [Val(1.0)]
    ensures 1 <= i && j < i ==> Offset(layout, n, i) + j < |e| && Rows(sqrt, n, e, layout, n)[i][j] == Val(e[Offset(layout, n, i) + j])
    ensures 1 <= i ==> (Offset(layout, n, i) + i <= |e| &&
                        Rows(sqrt, n, e, layout, n)[i][i] == Sqrt(sqrt, Val(1.0 - SumSq(e, Offset(layout, n, i), i))))
  {
    if i >= 1 {
      OffsetsInRange(layout, n, i);
    }
  }

  /** Row `i` of the built matrix has `i + 1` entries. */
  lemma RowsValid(sqrt: real -> real, n: nat, e: seq<real>, layout: Layout)
    requires |e| >= InputSize(layout, n)
    ensures forall k :: 0 <= k < n ==> |Rows(sqrt, n, e, layout, n)[k]| == k + 1
  {
    forall k | 0 <= k < n
      ensures |RowAt(sqrt, n, e, layout, k)| == k + 1
    {
    }
  }

  /** `sum_{k<m} a_k b_k`, with NaN propagating, as `rho`'s loop accumulates it. */
  function Dot(a: seq<Num>, b: seq<Num>, m: nat): Num
    requires m <= |a| && m <= |b|
  {
    if m == 0 then Val(0.0) else Plus(Dot(a, b, m - 1), Times(a[m - 1], b[m - 1]))
  }

  /** `rho(i, j)`: the dot product of rows `min(i, j)` and `max(i, j)` over the entries
      of the shorter. */
  function RhoOf(rows: seq<seq<Num>>, i: nat, j: nat): Num
    requires i < |rows| && j < |rows|
    requires forall k :: 0 <= k < |rows| ==> |rows[k]| == k + 1
  {
    if i > j then Dot(rows[j], rows[i], j + 1) else Dot(rows[i], rows[j], i + 1)
  }

  class Correlation {
    /** The rows `e_0, ..., e_{n-1}`. */
    var e_: seq<seq<Num>>

    /** Row `i` has `i + 1` entries. */
    predicate Valid()
      reads this
    {
      forall k :: 0 <= k < |e_| ==> |e_[k]| == k + 1
    }

    /** `correlation()`: no rows. */
    constructor Empty()
      ensures e_ == [] && Valid()
    {
      e_ := [];
    }

    /** `correlation(n, e, type)`: row 0 is `[1]`; every later row is filled from the
        inputs by `FillRow`. */
    constructor (sqrt: real -> real, n: nat, e: seq<real>, layout: Layout := Packed)
      requires |e| >= InputSize(layout, n)
      ensures e_ == Rows(sqrt, n, e, layout, n) && Valid()
    {
      var rows := new seq<Num>[n];
      if n > 0 {
        rows[0] := [Val(1.0)];
        for i := 1 to n
          invariant forall k :: 0 <= k < i ==> rows[k] == RowAt(sqrt, n, e, layout, k)
        {
          OffsetsInRange(layout, n, i);
          var off := Offset(layout, n, i);
          rows[i] := FillRow(sqrt, e, off, i);
        }
      }
      e_ := rows[..];
      new;
      RowsValid(sqrt, n, e, layout);
    }

    /** `size()`. */
    function Size(): nat
      reads this
    {
      |e_|
    }

    /** `operator()(i, j)`: the stored entry on or below the diagonal, 0 above it. */
    function Get(i: nat, j: nat): (r: Num)
      reads this
      requires Valid() && i < Size()
      ensures j > i ==> r == Val(0.0)
      ensures j <= i ==> r == e_[i][j]
    {
      if i >= j then e_[i][j] else Val(0.0)
    }

    /** `rho(i, j)`: swap so that `i <= j`, then sum `e_i[k] e_j[k]` for `k <= i`. */
    method Rho(i: nat, j: nat) returns (r: Num)
      requires Valid() && i < Size() && j < Size()
      ensures r == RhoOf(e_, i, j)
    {
      var a, b := i, j;
      if a > b {
        a, b := b, a;
      }
      r := Val(0.0);
      var ea, eb := e_[a], e_[b];
      for k := 0 to a + 1
        invariant r == Dot(ea, eb, k)
      {
        r := Plus(r, Times(ea[k], eb[k]));
      }
    }
  }

  /** `FillRow`: the inner loop of the constructor for row `i >= 1`, entries read from
      offset `off`, accumulating `e2`, then the diagonal entry. */
  method FillRow(sqrt: real -> real, e: seq<real>, off: nat, i: nat) returns (row: seq<Num>)
    requires off + i <= |e|
    ensures row == RowOf(sqrt, e, off, i)
  {
    var r := new Num[i + 1];
    var e2 := 0.0;
    for j := 0 to i
      invariant forall m :: 0 <= m < j ==> r[m] == Val(e[off + m])
      invariant e2 == SumSq(e, off, j)
    {
      var eij := e[off + j];
      r[j] := Val(eij);
      e2 := e2 + eij * eij;
    }
    r[i] := Sqrt(sqrt, Val(1.0 - e2));
    row := r[..];
    assert row == RowOf(sqrt, e, off, i);
  }

  /** `rho` is symmetric. */
  lemma {:induction false} RhoSymmetric(rows: seq<seq<Num>>, i: nat, j: nat)
    requires i < |rows| && j < |rows|
    requires forall k :: 0 <= k < |rows| ==> |rows[k]| == k + 1
    ensures RhoOf(rows, i, j) == RhoOf(rows, j, i)
  {
  }

  /** Correlation with the first vector, `e_0 = (1, 0, ...)`, is the first coordinate. */
  lemma {:induction false} RhoFirst(sqrt: real -> real, n: nat, e: seq<real>, layout: Layout, j: nat, rows: seq<seq<Num>>)
    requires j < n && |e| >= InputSize(layout, n) && rows == Rows(sqrt, n, e, layout, n)
    ensures forall k :: 0 <= k < n ==> |rows[k]| == k + 1
    ensures j >= 1 ==> Offset(layout, n, j) < |e| && RhoOf(rows, 0, j) == Val(e[Offset(layout, n, j)])
    ensures RhoOf(rows, 0, 0) == Val(1.0)
  {
    RowsValid(sqrt, n, e, layout);
    assert rows[0] == [Val(1.0)];
    assert Dot(rows[0], rows[0], 0) == Val(0.0);
    OneTimes(rows[0][0]);
    if j >= 1 {
      OffsetsInRange(layout, n, j);
      var off := Offset(layout, n, j);
      assert rows[j] == RowOf(sqrt, e, off, j);
      assert rows[j][0] == Entries(e, off, j)[0] == Val(e[off]);
      assert Dot(rows[0], rows[j], 0) == Val(0.0);
      OneTimes(rows[j][0]);
    }
  }

  /** `0 + 1 x == x`, for a defined `x`. */
  lemma OneTimes(x: Num)
    requires x.Val?
    ensures Plus(Val(0.0), Times(Val(1.0), x)) == x
  {
  }

  /** The entries of a row, dotted with themselves, give `e2`. */
  lemma {:induction false} EntriesNorm(e: seq<real>, off: nat, i: nat, row: seq<Num>, m: nat)
    requires off + i <= |e| && m <= i && |row| >= i
    requires forall j :: 0 <= j < i ==> row[j] == Val(e[off + j])
    ensures Dot(row, row, m) == Val(SumSq(e, off, m))
  {
    if m > 0 {
      EntriesNorm(e, off, i, row, m - 1);
    }
  }

  /** Every row is a unit vector, `rho(i, i) == 1`, as long as its inputs have
      `e2 <= 1` (given `sqrt(x)^2 = x`). */
  lemma {:induction false} RhoDiagonal(sqrt: real -> real, n: nat, e: seq<real>, layout: Layout, i: nat, rows: seq<seq<Num>>)
    requires SqrtLaw(sqrt)
    requires i < n && |e| >= InputSize(layout, n) && rows == Rows(sqrt, n, e, layout, n)
    requires i >= 1 ==> Offset(layout, n, i) + i <= |e| && SumSq(e, Offset(layout, n, i), i) <= 1.0
    ensures forall k :: 0 <= k < n ==> |rows[k]| == k + 1
    ensures RhoOf(rows, i, i) == Val(1.0)
  {
    RowsValid(sqrt, n, e, layout);
    if i == 0 {
      assert rows[0] == [Val(1.0)];
      assert Dot(rows[0], rows[0], 0) == Val(0.0);
      OneTimes(Val(1.0));
    } else {
      OffsetsInRange(layout, n, i);
      var off := Offset(layout, n, i);
      assert rows[i] == RowOf(sqrt, e, off, i);
      RowNorm(sqrt, e, off, i);
    }
  }

  /** A row built from inputs with `e2 <= 1` has norm 1. */
  lemma RowNorm(sqrt: real -> real, e: seq<real>, off: nat, i: nat)
    requires SqrtLaw(sqrt)
    requires off + i <= |e| && SumSq(e, off, i) <= 1.0
    ensures Dot(RowOf(sqrt, e, off, i), RowOf(sqrt, e, off, i), i + 1) == Val(1.0)
  {
    var row := RowOf(sqrt, e, off, i);
    EntriesNorm(e, off, i, row, i);
    var s := SumSq(e, off, i);
    var d := sqrt(1.0 - s);
    assert row[i] == Val(d);
    assert d * d == 1.0 - s;
    UnitNorm(s, d);
  }

  /** `s + d^2 == 1` when `d^2 == 1 - s`. */
  lemma UnitNorm(s: real, d: real)
    requires d * d == 1.0 - s
    ensures Plus(Val(s), Times(Val(d), Val(d))) == Val(1.0)
  {
  }

  /** The three-factor example: `e_1 = (0.5, s)`, `e_2 = (0.4, 0.3, ...)` with
      `s = sqrt(1 - 0.25)`, given packed or zero-padded, correlate as
      `0.5 * 0.4 + s * 0.3`. */
  lemma {:induction false} ThreeFactors(sqrt: real -> real, layout: Layout, e: seq<real>)
    requires layout == Packed ==> e == [0.5, 0.4, 0.3]
    requires layout == Lower ==> e == [0.5, 0.0, 0.4, 0.3]
    ensures |e| >= InputSize(layout, 3) && |Rows(sqrt, 3, e, layout, 3)| == 3
    ensures forall k :: 0 <= k < 3 ==> |Rows(sqrt, 3, e, layout, 3)[k]| == k + 1
    ensures RhoOf(Rows(sqrt, 3, e, layout, 3), 0, 2) == Val(0.4)
    ensures RhoOf(Rows(sqrt, 3, e, layout, 3), 1, 2) == Val(0.5 * 0.4 + sqrt(0.75) * 0.3)
  {
    var rows := Rows(sqrt, 3, e, layout, 3);
    RowsValid(sqrt, 3, e, layout);
    var off := if layout == Packed then 1 else 2;
    assert Offset(layout, 3, 2) == off && Offset(layout, 3, 1) == 0;
    assert rows[1] == RowOf(sqrt, e, 0, 1);
    assert rows[2] == RowOf(sqrt, e, off, 2);
    assert SumSq(e, 0, 1) == 0.25;
    var s := sqrt(0.75);
    assert rows[1] == [Val(0.5), Val(s)];
    assert rows[2][..2] == [Val(0.4), Val(0.3)];
    assert rows[0] == [Val(1.0)];
    assert Dot(rows[0], rows[2], 1) == Val(0.4);
    assert Dot(rows[1], rows[2], 1) == Val(0.5 * 0.4);
  }
}
