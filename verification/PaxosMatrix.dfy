/** The Paxos matrix H and products with it.

    The row of a key has ones at its sparse columns, and the powers d, d^2, d^3, ... of its dense part d in the
    dense columns.  Decoding a key is the product of its row with the table. */
module PaxosMatrix {
  import opened Prelude
  import opened Fields
  import opened FcInverse

  ghost function SparseVec<F>(k: Field<F>, n: nat, row: seq<nat>): (v: seq<F>)
    ensures |v| == n && forall c :: 0 <= c < n ==> v[c] == if c in row then k.one else k.zero
  {
    seq(n, c requires 0 <= c < n => if c in row then k.one else k.zero)
  }

  ghost function DenseVec<F>(k: Field<F>, m: nat, d: F): (v: seq<F>)
    ensures |v| == m && forall i :: 0 <= i < m ==> v[i] == Pow(k, d, i + 1)
  {
    seq(m, i requires 0 <= i < m => Pow(k, d, i + 1))
  }

  /** One row of H. */
  ghost function HRow<F>(k: Field<F>, n: nat, m: nat, row: seq<nat>, d: F): (v: seq<F>)
    ensures |v| == n + m
  {
    SparseVec(k, n, row) + DenseVec(k, m, d)
  }

  lemma {:induction false} DotConcat<F(!new)>(k: Field<F>, a: seq<F>, b: seq<F>, p: seq<F>, q: seq<F>, j: nat)
    requires IsField(k) && |a| == |p| && |b| == |q| && j <= |b|
    ensures DotTo(k, a + b, p + q, |a| + j) == Add(k, Dot(k, a, p), DotTo(k, b, q, j))
  {
    if j == 0 {
      DotToSameTerms(k, a + b, p + q, a, p, |a|);
      assert AddLaws(k, Dot(k, a, p), k.zero, k.zero);
    } else {
      DotConcat(k, a, b, p, q, j - 1);
      assert AddLaws(k, Dot(k, a, p), DotTo(k, b, q, j - 1), Mul(k, b[j - 1], q[j - 1]));
    }
  }

  /** The two parts of the product of a row with the table. */
  lemma {:induction false} ValueSplit<F(!new)>(k: Field<F>, n: nat, row: seq<nat>, d: F, p: seq<F>)
    requires IsField(k) && n <= |p|
    ensures Dot(k, HRow(k, n, |p| - n, row, d), p)
         == Add(k, Dot(k, SparseVec(k, n, row), p[..n]), Dot(k, DenseVec(k, |p| - n, d), p[n..]))
  {
    assert p == p[..n] + p[n..];
    DotConcat(k, SparseVec(k, n, row), DenseVec(k, |p| - n, d), p[..n], p[n..], |p| - n);
  }

  /** One more column of the row adds its entry of the table. */
  lemma {:induction false} SparseStep<F(!new)>(k: Field<F>, row: seq<nat>, j: nat, p: seq<F>)
    requires IsField(k) && Distinct(row) && j < |row| && row[j] < |p|
    ensures Dot(k, SparseVec(k, |p|, row[..j + 1]), p) == Add(k, Dot(k, SparseVec(k, |p|, row[..j]), p), p[row[j]])
  {
    var c := row[j];
    var a, b := SparseVec(k, |p|, row[..j]), SparseVec(k, |p|, row[..j + 1]);
    assert row[..j + 1] == row[..j] + [c];
    assert b == a[c := k.one];
    DotUpdate(k, p, a, c, k.one);
    AddCancel(k, k.one, k.zero);
    MulOne(k, p[c]);
    DotToCommutes(k, a, p, |p|);
    DotToCommutes(k, b, p, |p|);
  }

  lemma {:induction false} SparseNone<F(!new)>(k: Field<F>, row: seq<nat>, p: seq<F>)
    requires IsField(k)
    ensures Dot(k, SparseVec(k, |p|, row[..0]), p) == k.zero
  {
    DotToZeroTerms(k, SparseVec(k, |p|, row[..0]), p, |p|);
  }

  // ------------------------------------------------- sums over a list of rows

  /** x[g] plus the listed entries of x. */
  ghost function SumOf<F>(k: Field<F>, x: seq<F>, g: nat, list: seq<nat>): F
    requires g < |x| && forall i :: 0 <= i < |list| ==> list[i] < |x|
  {
    if list == [] then x[g] else Add(k, SumOf(k, x, g, list[..|list| - 1]), x[list[|list| - 1]])
  }

  ghost function VecSum<F>(k: Field<F>, x: seq<seq<F>>, m: nat, g: nat, list: seq<nat>): (v: seq<F>)
    requires g < |x| && (forall i :: 0 <= i < |list| ==> list[i] < |x|) && forall r :: 0 <= r < |x| ==> |x[r]| == m
    ensures |v| == m
  {
    if list == [] then x[g] else VecAdd(k, VecSum(k, x, m, g, list[..|list| - 1]), x[list[|list| - 1]])
  }

  ghost function Dots<F>(k: Field<F>, x: seq<seq<F>>, p: seq<F>): (v: seq<F>)
    requires forall r :: 0 <= r < |x| ==> |x[r]| == |p|
    ensures |v| == |x| && forall r :: 0 <= r < |x| ==> v[r] == Dot(k, x[r], p)
  {
    seq(|x|, r requires 0 <= r < |x| => Dot(k, x[r], p))
  }

  lemma {:induction false} DotOfVecSum<F(!new)>(k: Field<F>, x: seq<seq<F>>, p: seq<F>, g: nat, list: seq<nat>)
    requires IsField(k) && g < |x| && (forall i :: 0 <= i < |list| ==> list[i] < |x|)
    requires forall r :: 0 <= r < |x| ==> |x[r]| == |p|
    ensures Dot(k, VecSum(k, x, |p|, g, list), p) == SumOf(k, Dots(k, x, p), g, list)
  {
    if list != [] {
      var l := list[..|list| - 1];
      DotOfVecSum(k, x, p, g, l);
      DotAddLeft(k, VecSum(k, x, |p|, g, l), x[list[|list| - 1]], p);
    }
  }

  lemma {:induction false} SumOfAdd<F(!new)>(k: Field<F>, x: seq<F>, y: seq<F>, g: nat, list: seq<nat>)
    requires IsField(k) && |x| == |y| && g < |x| && (forall i :: 0 <= i < |list| ==> list[i] < |x|)
    ensures SumOf(k, VecAdd(k, x, y), g, list) == Add(k, SumOf(k, x, g, list), SumOf(k, y, g, list))
  {
    if list != [] {
      var l, r := list[..|list| - 1], list[|list| - 1];
      SumOfAdd(k, x, y, g, l);
      AddSwap(k, SumOf(k, x, g, l), SumOf(k, y, g, l), x[r], y[r]);
    }
  }

  /** If two sums agree, and so do all their listed terms, then the terms at g agree. */
  lemma {:induction false} SumOfCancel<F(!new)>(k: Field<F>, x: seq<F>, y: seq<F>, g: nat, list: seq<nat>)
    requires IsField(k) && |x| == |y| && g < |x|
    requires forall i :: 0 <= i < |list| ==> list[i] < |x| && x[list[i]] == y[list[i]]
    requires SumOf(k, x, g, list) == SumOf(k, y, g, list)
    ensures x[g] == y[g]
  {
    if list != [] {
      var l, r := list[..|list| - 1], list[|list| - 1];
      AddCancel(k, SumOf(k, x, g, l), x[r]);
      AddCancel(k, SumOf(k, y, g, l), y[r]);
      SumOfCancel(k, x, y, g, l);
    }
  }

  // ------------------------------------------------- the sparse and the dense part of H

  ghost function SparseRows<F>(k: Field<F>, n: nat, rows: seq<seq<nat>>): (x: seq<seq<F>>)
    ensures |x| == |rows| && forall r :: 0 <= r < |x| ==> x[r] == SparseVec(k, n, rows[r])
    ensures forall r :: 0 <= r < |x| ==> |x[r]| == n
  {
    seq(|rows|, r requires 0 <= r < |rows| => SparseVec(k, n, rows[r]))
  }

  ghost function DenseRows<F>(k: Field<F>, m: nat, dense: seq<F>): (x: seq<seq<F>>)
    ensures |x| == |dense| && forall r :: 0 <= r < |x| ==> x[r] == DenseVec(k, m, dense[r])
    ensures forall r :: 0 <= r < |x| ==> |x[r]| == m
  {
    seq(|dense|, r requires 0 <= r < |dense| => DenseVec(k, m, dense[r]))
  }

  /** Over a field of characteristic two, the sum of sparse rows is the vector of their residue. */
  lemma {:induction false} SparseSumIsResidue<F(!new)>(
      k: Field<F>, n: nat, rows: seq<seq<nat>>, g: nat, list: seq<nat>, c: nat)
    requires IsField(k) && g < |rows| && (forall i :: 0 <= i < |list| ==> list[i] < |rows|) && c < n
    ensures VecSum(k, SparseRows(k, n, rows), n, g, list)[c] == if c in Residue(rows, g, list) then k.one else k.zero
  {
    if list != [] {
      SparseSumIsResidue(k, n, rows, g, list[..|list| - 1], c);
      AddEqZero(k, k.one, k.one);
      AddCancel(k, k.one, k.zero);
      assert AddLaws(k, k.one, k.zero, k.zero);
      assert AddLaws(k, k.zero, k.zero, k.zero);
    }
  }

  /** A dense sum against a vector that is zero from g on needs only the first g powers. */
  lemma {:induction false} DenseSumPrefix<F>(
      k: Field<F>, m: nat, m': nat, dense: seq<F>, g: nat, list: seq<nat>, j: nat)
    requires g < |dense| && (forall i :: 0 <= i < |list| ==> list[i] < |dense|) && j < m <= m'
    ensures VecSum(k, DenseRows(k, m, dense), m, g, list)[j] == VecSum(k, DenseRows(k, m', dense), m', g, list)[j]
  {
    if list != [] {
      DenseSumPrefix(k, m, m', dense, g, list[..|list| - 1], j);
    }
  }

  lemma {:induction false} DotZeroTail<F(!new)>(k: Field<F>, a: seq<F>, b: seq<F>, g: nat, n: nat)
    requires IsField(k) && g <= n <= |a| && n <= |b|
    requires forall i :: g <= i < n ==> b[i] == k.zero
    ensures DotTo(k, a, b, n) == DotTo(k, a, b, g)
  {
    if g < n {
      DotZeroTail(k, a, b, g, n - 1);
      MulZero(k, a[n - 1]);
      assert AddLaws(k, DotTo(k, a, b, n - 1), k.zero, k.zero);
    }
  }
}
