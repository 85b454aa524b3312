/** The Paxos key-value store (`Paxos` of volePSI/PaxosImpl.h), with the GF(2^128) dense part and without a
    random number generator.

    `Encode` triangulates the matrix H of the keys, solves the gap with a dense system and fills in the rest by
    back-substitution.  If it does not throw, the table P satisfies H * P = X, so that decoding any of the keys
    returns its value. */
module Paxos {
  import opened Prelude
  import opened Fields
  import MatrixInverse
  import opened WeightSets
  import opened Greedy
  import opened Triangulation
  import opened FcInverse
  import opened Columns
  import opened PaxosMatrix
  import PaxosHash

  /** The ways in which `encode` ends; all but the first are exceptions of the source, except that TooHeavy
      is a failed assertion and QueueEmptied undefined behaviour. */
  datatype Outcome =
    | Encoded
    | TooHeavy
    | WrongTableSize
    | QueueEmptied
    | DuplicateDense(row1: nat, row2: nat)
    | GapTooLarge
    | GapSingular

  // ------------------------------------------------- decoding

  /** `decode1`: computes one entry of H * P. */
  method DecodeRow<F(!new)>(k: Field<F>, n: nat, row: seq<nat>, d: F, p: seq<F>) returns (v: F)
    requires IsField(k) && n < |p| && |row| > 0 && Distinct(row) && forall j :: 0 <= j < |row| ==> row[j] < n
    ensures v == Dot(k, HRow(k, n, |p| - n, row, d), p)
  {
    v := SparseSum(k, row, p[..n]);
    v := AddDense(k, v, d, p[n..]);
    ValueSplit(k, n, row, d, p);
  }

  /** The sum of the entries at the columns of a row. */
  method SparseSum<F(!new)>(k: Field<F>, row: seq<nat>, u: seq<F>) returns (v: F)
    requires IsField(k) && |row| > 0 && Distinct(row) && forall j :: 0 <= j < |row| ==> row[j] < |u|
    ensures v == Dot(k, SparseVec(k, |u|, row), u)
  {
    v := u[row[0]];
    SparseNone(k, row, u);
    SparseStep(k, row, 0, u);
    AddCancel(k, v, k.zero);
    for j := 1 to |row|
      invariant v == Dot(k, SparseVec(k, |u|, row[..j]), u)
    {
      SparseStep(k, row, j, u);
      v := Add(k, v, u[row[j]]);
    }
    assert row[..|row|] == row;
  }

  /** Adds the dense part of a row: the powers of d are built up one by one. */
  method AddDense<F(!new)>(k: Field<F>, v0: F, d: F, q: seq<F>) returns (v: F)
    requires IsField(k) && |q| > 0
    ensures v == Add(k, v0, Dot(k, DenseVec(k, |q|, d), q))
  {
    var x := d;
    ghost var a := DenseVec(k, |q|, d);
    assert DotTo(k, a, q, 1) == Add(k, k.zero, Mul(k, d, q[0]));
    AddCancel(k, Mul(k, d, q[0]), k.zero);
    assert MulLaws(k, q[0], x, x);
    v := Add(k, v0, Mul(k, q[0], x));
    for i := 1 to |q|
      invariant x == Pow(k, d, i)
      invariant v == Add(k, v0, DotTo(k, a, q, i))
    {
      x := Mul(k, x, d);
      assert MulLaws(k, q[i], x, x);
      assert AddLaws(k, v0, DotTo(k, a, q, i), Mul(k, x, q[i]));
      v := Add(k, v, Mul(k, q[i], x));
    }
  }

  // ------------------------------------------------- the gap

  method Powers<F>(k: Field<F>, d: F, m: nat) returns (v: seq<F>)
    requires m > 0
    ensures v == DenseVec(k, m, d)
  {
    var x := d;
    v := [d];
    for j := 1 to m
      invariant |v| == j && x == Pow(k, d, j)
      invariant forall i :: 0 <= i < j ==> v[i] == Pow(k, d, i + 1)
    {
      x := Mul(k, x, d);
      v := v + [x];
    }
  }

  /** One row of E' = E - F C^-1 B and of x' = x - F C^-1 x. */
  method GapRow<F>(k: Field<F>, dense: seq<F>, x: seq<F>, m: nat, g: nat, list: seq<nat>) returns (e: seq<F>, y: F)
    requires |x| == |dense| && g < |dense| && m > 0 && forall i :: 0 <= i < |list| ==> list[i] < |dense|
    ensures e == VecSum(k, DenseRows(k, m, dense), m, g, list)
    ensures y == SumOf(k, x, g, list)
  {
    e := Powers(k, dense[g], m);
    y := x[g];
    assert list[..0] == [];
    for i := 0 to |list|
      invariant e == VecSum(k, DenseRows(k, m, dense), m, g, list[..i]) && y == SumOf(k, x, g, list[..i])
    {
      assert list[..i + 1][..i] == list[..i];
      y := Add(k, y, x[list[i]]);
      var f := Powers(k, dense[list[i]], m);
      e := VecAdd(k, e, f);
    }
    assert list[..|list|] == list;
  }

  /** Row i of the gap system is satisfied by q. */
  ghost predicate GapSolved<F>(k: Field<F>, dense: seq<F>, x: seq<F>, g: nat, list: seq<nat>, q: seq<F>)
    requires |x| == |dense| && g < |dense| && forall i :: 0 <= i < |list| ==> list[i] < |dense|
  {
    Dot(k, VecSum(k, DenseRows(k, |q|, dense), |q|, g, list), q) == SumOf(k, x, g, list)
  }

  ghost predicate ListsOk(gapRows: seq<(nat, nat)>, lists: seq<seq<nat>>, count: nat) {
    && |lists| == |gapRows|
    && (forall i :: 0 <= i < |gapRows| ==> gapRows[i].0 < count)
    && (forall i, j :: 0 <= i < |lists| && 0 <= j < |lists[i]| ==> lists[i][j] < count)
  }

  /** E': each gap row of the dense part plus the diagonal rows of its list, on as many columns as there are gap
      rows. */
  ghost function GapMatrix<F>(
      k: Field<F>, dense: seq<F>, gapRows: seq<(nat, nat)>, lists: seq<seq<nat>>): (ee: seq<seq<F>>)
    requires ListsOk(gapRows, lists, |dense|)
    ensures MatrixInverse.Square(ee, |gapRows|)
  {
    seq(|gapRows|, i requires 0 <= i < |gapRows| =>
      VecSum(k, DenseRows(k, |gapRows|, dense), |gapRows|, gapRows[i].0, lists[i]))
  }

  method GapSystem<F>(k: Field<F>, dense: seq<F>, x: seq<F>, gapRows: seq<(nat, nat)>, lists: seq<seq<nat>>)
    returns (ee: seq<seq<F>>, xx: seq<F>)
    requires |x| == |dense| && ListsOk(gapRows, lists, |dense|)
    ensures |ee| == |xx| == |gapRows|
    ensures ee == GapMatrix(k, dense, gapRows, lists)
    ensures forall i :: 0 <= i < |xx| ==> xx[i] == SumOf(k, x, gapRows[i].0, lists[i])
  {
    ee, xx := [], [];
    var m := |gapRows|;
    for i := 0 to m
      invariant |ee| == |xx| == i
      invariant forall r :: 0 <= r < i ==> ee[r] == VecSum(k, DenseRows(k, m, dense), m, gapRows[r].0, lists[r])
      invariant forall r :: 0 <= r < i ==> xx[r] == SumOf(k, x, gapRows[r].0, lists[r])
    {
      var e, y := GapRow(k, dense, x, m, gapRows[i].0, lists[i]);
      ee, xx := ee + [e], xx + [y];
    }
  }

  /** *p[at] += sum of xx[j] * coeffs[j] */
  method MultAddAll<F(!new)>(k: Field<F>, p: array<F>, at: nat, coeffs: seq<F>, xx: seq<F>)
    requires IsField(k) && |coeffs| == |xx| && at < p.Length && p[at] == k.zero
    modifies p
    ensures p[..] == old(p[..])[at := Dot(k, coeffs, xx)]
  {
    for j := 0 to |xx|
      invariant p[..] == old(p[..])[at := DotTo(k, coeffs, xx, j)]
    {
      assert MulLaws(k, xx[j], coeffs[j], k.one);
      assert p[..][at] == DotTo(k, coeffs, xx, j);
      p[at] := Add(k, p[at], Mul(k, xx[j], coeffs[j]));
    }
  }

  /** p' = (E')^-1 x', written to the first |xx| dense entries of the table, which are zero so far. */
  method WriteGap<F(!new)>(k: Field<F>, p: array<F>, n: nat, inv: seq<seq<F>>, xx: seq<F>)
    requires IsField(k) && MatrixInverse.Square(inv, |xx|) && n + |xx| <= p.Length
    requires forall c :: n <= c < p.Length ==> p[c] == k.zero
    modifies p
    ensures forall c :: 0 <= c < n ==> p[c] == old(p[c])
    ensures p[n..n + |xx|] == MatrixInverse.Apply(k, inv, xx)
    ensures forall c :: n + |xx| <= c < p.Length ==> p[c] == k.zero
  {
    for i := 0 to |xx|
      invariant forall c :: 0 <= c < n ==> p[c] == old(p[c])
      invariant forall c :: n <= c < n + i ==> p[c] == Dot(k, inv[c - n], xx)
      invariant forall c :: n + i <= c < p.Length ==> p[c] == k.zero
    {
      ghost var before := p[..];
      MultAddAll(k, p, n + i, inv[i], xx);
      assert forall c :: 0 <= c < p.Length ==> p[..][c] == if c == n + i then Dot(k, inv[i], xx) else before[c];
    }
  }

  // ------------------------------------------------- back-substitution

  /** H * P = X at row r. */
  ghost predicate RowSolved<F>(k: Field<F>, n: nat, rows: seq<seq<nat>>, dense: seq<F>, x: seq<F>, p: seq<F>, r: nat)
    requires n <= |p| && |x| == |dense| == |rows| && r < |rows|
  {
    Dot(k, HRow(k, n, |p| - n, rows[r], dense[r]), p) == x[r]
  }

  method AddSparse<F(!new)>(k: Field<F>, x: F, row: seq<nat>, u: seq<F>) returns (y: F)
    requires IsField(k) && Distinct(row) && forall j :: 0 <= j < |row| ==> row[j] < |u|
    ensures y == Add(k, x, Dot(k, SparseVec(k, |u|, row), u))
  {
    y := x;
    SparseNone(k, row, u);
    assert AddLaws(k, x, k.zero, k.zero);
    for j := 0 to |row|
      invariant y == Add(k, x, Dot(k, SparseVec(k, |u|, row[..j]), u))
    {
      SparseStep(k, row, j, u);
      assert AddLaws(k, x, Dot(k, SparseVec(k, |u|, row[..j]), u), u[row[j]]);
      y := Add(k, y, u[row[j]]);
    }
    assert row[..|row|] == row;
  }

  ghost predicate AllZero<F>(k: Field<F>, v: seq<F>) {
    forall i :: 0 <= i < |v| ==> v[i] == k.zero
  }

  /** x plus the sparse part, and the dense part if asked for. */
  method RowRemainder<F(!new)>(k: Field<F>, n: nat, row: seq<nat>, d: F, x: F, p: seq<F>, doDense: bool) returns (y: F)
    requires IsField(k) && n < |p| && Distinct(row) && forall j :: 0 <= j < |row| ==> row[j] < n
    requires doDense || AllZero(k, p[n..])
    ensures y == Add(k, x, Dot(k, HRow(k, n, |p| - n, row, d), p))
  {
    y := AddSparse(k, x, row, p[..n]);
    RemainderSplit(k, n, row, d, x, p);
    if doDense {
      y := AddDense(k, y, d, p[n..]);
    }
  }

  lemma {:induction false} RemainderSplit<F(!new)>(k: Field<F>, n: nat, row: seq<nat>, d: F, x: F, p: seq<F>)
    requires IsField(k) && n <= |p|
    ensures var s := Add(k, x, Dot(k, SparseVec(k, n, row), p[..n]));
      && Add(k, x, Dot(k, HRow(k, n, |p| - n, row, d), p)) == Add(k, s, Dot(k, DenseVec(k, |p| - n, d), p[n..]))
      && (AllZero(k, p[n..]) ==> Add(k, x, Dot(k, HRow(k, n, |p| - n, row, d), p)) == s)
  {
    ValueSplit(k, n, row, d, p);
    var s, t := Dot(k, SparseVec(k, n, row), p[..n]), Dot(k, DenseVec(k, |p| - n, d), p[n..]);
    assert AddLaws(k, x, s, t);
    if AllZero(k, p[n..]) {
      DotToZeroTerms(k, DenseVec(k, |p| - n, d), p[n..], |p| - n);
      assert AddLaws(k, s, k.zero, k.zero);
    }
  }

  /** Setting a zero table entry c of the row to x + (H * P) at that row solves the row. */
  lemma {:induction false} EntrySolves<F(!new)>(k: Field<F>, n: nat, row: seq<nat>, d: F, x: F, p: seq<F>, c: nat)
    requires IsField(k) && n <= |p| && c < n && c in row && p[c] == k.zero
    ensures var h := HRow(k, n, |p| - n, row, d);
            Dot(k, h, p[c := Add(k, x, Dot(k, h, p))]) == x
  {
    var h := HRow(k, n, |p| - n, row, d);
    var s := Dot(k, h, p);
    var y := Add(k, x, s);
    DotUpdate(k, h, p, c, y);
    AddCancel(k, y, k.zero);
    MulOne(k, y);
    assert AddLaws(k, x, s, s);
    assert AddLaws(k, s, y, y);
    AddCancel(k, x, s);
  }

  lemma {:induction false} OtherEntryKeeps<F(!new)>(k: Field<F>, n: nat, row: seq<nat>, d: F, p: seq<F>, c: nat, y: F)
    requires IsField(k) && n <= |p| && c < n && c !in row
    ensures var h := HRow(k, n, |p| - n, row, d); Dot(k, h, p[c := y]) == Dot(k, h, p)
  {
    var h := HRow(k, n, |p| - n, row, d);
    DotUpdate(k, h, p, c, y);
    MulZero(k, Add(k, p[c], y));
    assert AddLaws(k, Dot(k, h, p), k.zero, k.zero);
  }

  /** The diagonal rows from q on are solved, and the columns of the earlier ones are still zero. */
  ghost predicate SolvedFrom<F>(
      k: Field<F>, n: nat, rows: seq<seq<nat>>, dense: seq<F>, x: seq<F>, mainRows: seq<nat>, mainCols: seq<nat>,
      p: seq<F>, q: nat) {
    && n < |p| && |x| == |dense| == |rows| && RowsOk(rows, n) && Diagonal(rows, mainRows, mainCols) && q <= |mainRows|
    && (forall j {:trigger RowSolved(k, n, rows, dense, x, p, mainRows[j])} ::
          q <= j < |mainRows| ==> RowSolved(k, n, rows, dense, x, p, mainRows[j]))
    && (forall c {:trigger Untouched(k, mainCols, p, q, c)} :: 0 <= c < n ==> Untouched(k, mainCols, p, q, c))
  }

  ghost predicate Untouched<F>(k: Field<F>, mainCols: seq<nat>, p: seq<F>, q: nat, c: nat)
    requires q <= |mainCols| && c < |p|
  {
    c in mainCols[q..] || p[c] == k.zero
  }

  lemma {:induction false} SolvedOneMore<F(!new)>(
      k: Field<F>, n: nat, rows: seq<seq<nat>>, dense: seq<F>, x: seq<F>, mainRows: seq<nat>, mainCols: seq<nat>,
      p: seq<F>, q: nat)
    requires IsField(k) && q < |mainRows| && SolvedFrom(k, n, rows, dense, x, mainRows, mainCols, p, q + 1)
    ensures var r := mainRows[q];
            var y := Add(k, x[r], Dot(k, HRow(k, n, |p| - n, rows[r], dense[r]), p));
            mainCols[q] < n && SolvedFrom(k, n, rows, dense, x, mainRows, mainCols, p[mainCols[q] := y], q)
  {
    var r, c := mainRows[q], mainCols[q];
    var y := Add(k, x[r], Dot(k, HRow(k, n, |p| - n, rows[r], dense[r]), p));
    var p' := p[c := y];
    DiagonalDistinct(rows, mainRows, mainCols);
    assert c !in mainCols[q + 1..] && Untouched(k, mainCols, p, q + 1, c);
    EntrySolves(k, n, rows[r], dense[r], x[r], p, c);
    forall j | q <= j < |mainRows| ensures RowSolved(k, n, rows, dense, x, p', mainRows[j]) {
      if j > q {
        assert RowSolved(k, n, rows, dense, x, p, mainRows[j]);
        assert Clear(rows, mainRows, mainCols, q, j);
        OtherEntryKeeps(k, n, rows[mainRows[j]], dense[mainRows[j]], p, c, y);
      }
    }
    assert mainCols[q..] == [c] + mainCols[q + 1..];
    forall e | 0 <= e < n ensures Untouched(k, mainCols, p', q, e) {
      assert Untouched(k, mainCols, p, q + 1, e);
    }
  }

  method BackSubstitute<F(!new)>(
      k: Field<F>, n: nat, rows: seq<seq<nat>>, dense: seq<F>, x: seq<F>, mainRows: seq<nat>, mainCols: seq<nat>,
      p: array<F>, doDense: bool)
    requires IsField(k) && SolvedFrom(k, n, rows, dense, x, mainRows, mainCols, p[..], |mainRows|)
    requires doDense || AllZero(k, p[n..])
    modifies p
    ensures SolvedFrom(k, n, rows, dense, x, mainRows, mainCols, p[..], 0)
    ensures p[n..] == old(p[n..])
  {
    for q := |mainRows| downto 0
      invariant SolvedFrom(k, n, rows, dense, x, mainRows, mainCols, p[..], q)
      invariant p[n..] == old(p[n..])
    {
      SolvedOneMore(k, n, rows, dense, x, mainRows, mainCols, p[..], q);
      FillEntry(k, n, rows[mainRows[q]], dense[mainRows[q]], x[mainRows[q]], p, mainCols[q], doDense);
    }
  }

  /** One step: P[c] = x + (H * P) at the row. */
  method FillEntry<F(!new)>(k: Field<F>, n: nat, row: seq<nat>, d: F, x: F, p: array<F>, c: nat, doDense: bool)
    requires IsField(k) && n < p.Length && c < n && Distinct(row) && forall j :: 0 <= j < |row| ==> row[j] < n
    requires doDense || AllZero(k, p[n..])
    modifies p
    ensures p[..] == old(p[..])[c := Add(k, x, Dot(k, HRow(k, n, p.Length - n, row, d), old(p[..])))]
    ensures p[n..] == old(p[n..])
  {
    assert p[..][n..] == p[n..];
    var y := RowRemainder(k, n, row, d, x, p[..], doDense);
    p[c] := y;
  }

  // ------------------------------------------------- gap rows

  /** In the sum of a gap row and its list, the table entries of the sparse part cancel. */
  lemma {:induction false} SparseCancels<F(!new)>(
      k: Field<F>, n: nat, rows: seq<seq<nat>>, mainRows: seq<nat>, mainCols: seq<nat>, u: seq<F>, g: nat,
      list: seq<nat>)
    requires IsField(k) && |u| == n && Cancels(rows, mainRows, mainCols, g, list)
    requires forall c {:trigger Untouched(k, mainCols, u, 0, c)} :: 0 <= c < n ==> Untouched(k, mainCols, u, 0, c)
    ensures SumOf(k, Dots(k, SparseRows(k, n, rows), u), g, list) == k.zero
  {
    var v := VecSum(k, SparseRows(k, n, rows), n, g, list);
    forall c | 0 <= c < n ensures v[c] == k.zero || u[c] == k.zero {
      SparseSumIsResidue(k, n, rows, g, list, c);
      assert Untouched(k, mainCols, u, 0, c);
      assert mainCols[0..] == mainCols;
    }
    DotToZeroTerms(k, v, u, n);
    DotOfVecSum(k, SparseRows(k, n, rows), u, g, list);
  }

  lemma {:induction false} DiagonalRowSolved<F>(
      k: Field<F>, n: nat, rows: seq<seq<nat>>, dense: seq<F>, x: seq<F>, mainRows: seq<nat>, mainCols: seq<nat>,
      p: seq<F>, r: nat)
    requires SolvedFrom(k, n, rows, dense, x, mainRows, mainCols, p, 0) && r in mainRows
    ensures r < |rows| && RowSolved(k, n, rows, dense, x, p, r)
  {
    var j :| 0 <= j < |mainRows| && mainRows[j] == r;
    assert RowSolved(k, n, rows, dense, x, p, mainRows[j]);
  }

  /** Once the diagonal rows and the gap system are solved, so are the gap rows. */
  lemma {:induction false} GapRowSolved<F(!new)>(
      k: Field<F>, n: nat, rows: seq<seq<nat>>, dense: seq<F>, x: seq<F>, mainRows: seq<nat>, mainCols: seq<nat>,
      p: seq<F>, g: nat, list: seq<nat>)
    requires IsField(k) && SolvedFrom(k, n, rows, dense, x, mainRows, mainCols, p, 0)
    requires Cancels(rows, mainRows, mainCols, g, list) && GapSolved(k, dense, x, g, list, p[n..])
    ensures RowSolved(k, n, rows, dense, x, p, g)
  {
    var s := Dots(k, SparseRows(k, n, rows), p[..n]);
    var d := Dots(k, DenseRows(k, |p| - n, dense), p[n..]);
    var y := VecAdd(k, s, d);
    forall c | 0 <= c < n ensures Untouched(k, mainCols, p[..n], 0, c) {
      assert Untouched(k, mainCols, p, 0, c);
    }
    SparseCancels(k, n, rows, mainRows, mainCols, p[..n], g, list);
    DotOfVecSum(k, DenseRows(k, |p| - n, dense), p[n..], g, list);
    SumOfAdd(k, s, d, g, list);
    AddCancel(k, SumOf(k, x, g, list), k.zero);
    forall i | 0 <= i < |list| ensures y[list[i]] == x[list[i]] {
      DiagonalRowSolved(k, n, rows, dense, x, mainRows, mainCols, p, list[i]);
      ValueSplit(k, n, rows[list[i]], dense[list[i]], p);
    }
    SumOfCancel(k, y, x, g, list);
    ValueSplit(k, n, rows[g], dense[g], p);
  }

  lemma {:induction false} GapFromInverse<F(!new)>(
      k: Field<F>, dense: seq<F>, x: seq<F>, g: nat, list: seq<nat>, e: seq<F>, q: seq<F>)
    requires IsField(k) && |x| == |dense| && g < |dense| && (forall i :: 0 <= i < |list| ==> list[i] < |dense|)
    requires |e| <= |q| && e == VecSum(k, DenseRows(k, |e|, dense), |e|, g, list)
    requires Dot(k, e, q[..|e|]) == SumOf(k, x, g, list)
    requires forall i :: |e| <= i < |q| ==> q[i] == k.zero
    ensures GapSolved(k, dense, x, g, list, q)
  {
    var v := VecSum(k, DenseRows(k, |q|, dense), |q|, g, list);
    DotZeroTail(k, v, q, |e|, |q|);
    forall j | 0 <= j < |e| ensures v[j] == e[j] {
      DenseSumPrefix(k, |e|, |q|, dense, g, list, j);
    }
    DotToSameTerms(k, v, q, e, q[..|e|], |e|);
  }

  /** The dense entries of the table, from the gap; false stands for the exception that E' is not invertible. */
  method SolveGap<F(!new, ==)>(
      k: Field<F>, n: nat, dense: seq<F>, x: seq<F>, gapRows: seq<(nat, nat)>, lists: seq<seq<nat>>, p: array<F>)
    returns (ok: bool)
    requires IsField(k) && |x| == |dense| && ListsOk(gapRows, lists, |dense|) && n + |gapRows| <= p.Length
    requires AllZero(k, p[..])
    modifies p
    ensures ok ==> AllZero(k, p[..n]) && AllZero(k, p[n + |gapRows|..])
    ensures ok ==> forall i :: 0 <= i < |gapRows| ==> GapSolved(k, dense, x, gapRows[i].0, lists[i], p[n..])
    ensures !ok ==> p[..] == old(p[..])
    ensures ok <==> MatrixInverse.InverseOf(k, GapMatrix(k, dense, gapRows, lists)).Some?
  {
    var ee, xx := GapSystem(k, dense, x, gapRows, lists);
    var inv := MatrixInverse.Gf128Inv(k, ee);
    if inv.None? {
      return false;
    }
    assert forall c :: n <= c < p.Length ==> p[c] == p[..][c];
    assert forall c :: 0 <= c < n ==> p[c] == p[..][c];
    WriteGap(k, p, n, inv.value, xx);
    assert AllZero(k, p[n + |gapRows|..]);
    ghost var q := p[n..];
    assert MatrixInverse.UndoneAt(k, ee, inv.value, xx);
    forall i | 0 <= i < |gapRows| ensures GapSolved(k, dense, x, gapRows[i].0, lists[i], q) {
      assert q[..|xx|] == p[n..n + |xx|] == MatrixInverse.Apply(k, inv.value, xx);
      assert MatrixInverse.Apply(k, ee, q[..|xx|])[i] == xx[i];
      GapFromInverse(k, dense, x, gapRows[i].0, lists[i], ee[i], q);
    }
    return true;
  }

  // ------------------------------------------------- encoding

  ghost predicate Solved<F>(k: Field<F>, n: nat, rows: seq<seq<nat>>, dense: seq<F>, x: seq<F>, p: seq<F>)
    requires n <= |p| && |x| == |dense| == |rows|
  {
    forall r {:trigger RowSolved(k, n, rows, dense, x, p, r)} :: 0 <= r < |rows| ==>
      RowSolved(k, n, rows, dense, x, p, r)
  }

  lemma {:induction false} AllSolved<F(!new)>(
      k: Field<F>, n: nat, rows: seq<seq<nat>>, dense: seq<F>, x: seq<F>, mainRows: seq<nat>, mainCols: seq<nat>,
      gapRows: seq<(nat, nat)>, lists: seq<seq<nat>>, p: seq<F>)
    requires IsField(k) && SolvedFrom(k, n, rows, dense, x, mainRows, mainCols, p, 0)
    requires Partition(seq(|rows|, _ => true), mainRows, gapRows) && ListsOk(gapRows, lists, |rows|)
    requires forall i :: 0 <= i < |gapRows| ==> Cancels(rows, mainRows, mainCols, gapRows[i].0, lists[i])
    requires forall i :: 0 <= i < |gapRows| ==> GapSolved(k, dense, x, gapRows[i].0, lists[i], p[n..])
    ensures Solved(k, n, rows, dense, x, p)
  {
    forall r: nat | r < |rows| ensures RowSolved(k, n, rows, dense, x, p, r) {
      assert Taken(mainRows, gapRows, r);
      if r in mainRows {
        DiagonalRowSolved(k, n, rows, dense, x, mainRows, mainCols, p, r);
      } else {
        var i :| 0 <= i < |gapRows| && GapIds(gapRows)[i] == r;
        GapRowSolved(k, n, rows, dense, x, mainRows, mainCols, p, r, lists[i]);
      }
    }
  }

  /** `getFCInv` on the result of the triangulation. */
  method GapLists<F>(
      rows: seq<seq<nat>>, n: nat, ghost dense: seq<F>, mainRows: seq<nat>, mainCols: seq<nat>,
      gapRows: seq<(nat, nat)>)
    returns (lists: seq<seq<nat>>)
    requires RowsOk(rows, n) && |dense| == |rows| && TriangleOk(rows, dense, mainRows, mainCols, gapRows)
    ensures ListsOk(gapRows, lists, |rows|)
    ensures forall i :: 0 <= i < |gapRows| ==> Cancels(rows, mainRows, mainCols, gapRows[i].0, lists[i])
    ensures GapIndices(rows, gapRows) && lists == FcRows(rows, mainRows, mainCols, gapRows)
  {
    forall g | 0 <= g < |gapRows| ensures gapRows[g].0 < |rows| && gapRows[g].1 < |rows| && gapRows[g].1 in mainRows {
      assert GapRowOk(rows, dense, mainRows, mainCols, gapRows[g]);
    }
    lists := GetFCInv(rows, n, mainRows, mainCols, gapRows);
    forall i, j | 0 <= i < |lists| && 0 <= j < |lists[i]| ensures lists[i][j] < |rows| {
      assert Cancels(rows, mainRows, mainCols, gapRows[i].0, lists[i]);
    }
  }

  lemma {:induction false} TriangleLists<F(!new)>(
      k: Field<F>, rows: seq<seq<nat>>, dense: seq<F>, mainRows: seq<nat>, mainCols: seq<nat>,
      gapRows: seq<(nat, nat)>)
    requires |dense| == |rows| && TriangleOk(rows, dense, mainRows, mainCols, gapRows)
    ensures GapIndices(rows, gapRows) && ListsOk(gapRows, FcRows(rows, mainRows, mainCols, gapRows), |dense|)
  {
    forall g | 0 <= g < |gapRows| ensures gapRows[g].0 < |rows| {
      assert GapRowOk(rows, dense, mainRows, mainCols, gapRows[g]);
    }
  }

  /** The gap system of a triangle is not solved: E' is singular, or its elimination overlooks a pivot. */
  ghost predicate GapFails<F(!new)>(
      k: Field<F>, rows: seq<seq<nat>>, dense: seq<F>, mainRows: seq<nat>, mainCols: seq<nat>,
      gapRows: seq<(nat, nat)>)
    requires |dense| == |rows| && TriangleOk(rows, dense, mainRows, mainCols, gapRows)
  {
    TriangleLists(k, rows, dense, mainRows, mainCols, gapRows);
    var ee := GapMatrix(k, dense, gapRows, FcRows(rows, mainRows, mainCols, gapRows));
    MatrixInverse.Singular(k, ee) || exists c {:trigger MatrixInverse.OverlooksAt(k, ee, c)} ::
      0 <= c < |ee| && MatrixInverse.OverlooksAt(k, ee, c)
  }

  /** Without gap rows there is nothing that could fail. */
  lemma {:induction false} NoGap<F(!new)>(
      k: Field<F>, rows: seq<seq<nat>>, dense: seq<F>, mainRows: seq<nat>, mainCols: seq<nat>)
    requires |dense| == |rows| && TriangleOk(rows, dense, mainRows, mainCols, [])
    ensures !GapFails(k, rows, dense, mainRows, mainCols, [])
  {
    var ee := GapMatrix(k, dense, [], FcRows(rows, mainRows, mainCols, []));
    assert forall x: seq<F> :: |x| == |ee| ==> x == ZeroVec(k, |ee|);
  }

  /** A single gap row that equals its partner never fails: E' is the sum of the two dense parts, which differ. */
  lemma {:induction false} TwinGap<F(!new)>(
      k: Field<F>, rows: seq<seq<nat>>, dense: seq<F>, mainRows: seq<nat>, mainCols: seq<nat>, a: nat, b: nat)
    requires IsField(k) && |dense| == |rows| && TriangleOk(rows, dense, mainRows, mainCols, [(a, b)])
    requires a < |rows| && b < |rows| && rows[a] == rows[b]
    ensures !GapFails(k, rows, dense, mainRows, mainCols, [(a, b)])
  {
    var gapRows := [(a, b)];
    TriangleLists(k, rows, dense, mainRows, mainCols, gapRows);
    assert GapRowOk(rows, dense, mainRows, mainCols, gapRows[0]);
    CancelEqual(rows, mainRows, mainCols, a, b);
    var ee := GapMatrix(k, dense, gapRows, FcRows(rows, mainRows, mainCols, gapRows));
    TwinEntry(k, dense, a, b);
    assert ee[0][0] == Add(k, dense[a], dense[b]);
    AddEqZero(k, dense[a], dense[b]);
    OneNotSingular(k, ee);
    forall c | 0 <= c < |ee| ensures !MatrixInverse.OverlooksAt(k, ee, c) { }
  }

  lemma {:induction false} TwinEntry<F(!new)>(k: Field<F>, dense: seq<F>, a: nat, b: nat)
    requires IsField(k) && a < |dense| && b < |dense|
    ensures VecSum(k, DenseRows(k, 1, dense), 1, a, [b])[0] == Add(k, dense[a], dense[b])
  {
    assert [b][..0] == [];
    assert Pow(k, dense[a], 1) == dense[a] && Pow(k, dense[b], 1) == dense[b];
  }

  lemma {:induction false} OneNotSingular<F(!new)>(k: Field<F>, m: seq<seq<F>>)
    requires IsField(k) && MatrixInverse.Square(m, 1) && m[0][0] != k.zero
    ensures !MatrixInverse.Singular(k, m)
  {
    forall x: seq<F> | |x| == 1 && MatrixInverse.Apply(k, m, x) == ZeroVec(k, 1) ensures x == ZeroVec(k, 1) {
      assert MatrixInverse.Apply(k, m, x)[0] == k.zero == DotTo(k, m[0], x, 1);
      assert DotTo(k, m[0], x, 1) == Add(k, DotTo(k, m[0], x, 0), Mul(k, m[0][0], x[0]));
      AddEqZero(k, k.zero, Mul(k, m[0][0], x[0]));
      MatrixInverse.MulCancel(k, m[0][0], x[0], k.zero);
      MulZero(k, m[0][0]);
      assert x == [k.zero] == ZeroVec(k, 1);
    }
  }

  ghost predicate EndsIn<F(!new)>(
      k: Field<F>, rows: seq<seq<nat>>, dense: seq<F>, mainRows: seq<nat>, mainCols: seq<nat>,
      gapRows: seq<(nat, nat)>, denseSize: nat, o: Outcome) {
    && |dense| == |rows| && TriangleOk(rows, dense, mainRows, mainCols, gapRows)
    && (o.GapTooLarge? <==> |gapRows| > denseSize)
    && (o.GapSingular? <==> |gapRows| <= denseSize && GapFails(k, rows, dense, mainRows, mainCols, gapRows))
  }

  /** The outcome is that of the run of the triangulation, of which there is only one. */
  ghost predicate EndsAsRun<F(!new)>(
      k: Field<F>, rows: seq<seq<nat>>, cols: seq<seq<nat>>, dense: seq<F>, denseSize: nat, o: Outcome) {
    forall mainRows, mainCols, gapRows {:trigger EndsIn(k, rows, dense, mainRows, mainCols, gapRows, denseSize, o)} ::
      IsRun(rows, cols, mainRows, mainCols, gapRows) ==>
      EndsIn(k, rows, dense, mainRows, mainCols, gapRows, denseSize, o)
  }

  /** Every way to end has its cause in the rows and their dense parts. */
  ghost predicate EndsBy<F(!new)>(
      k: Field<F>, n: nat, rows: seq<seq<nat>>, dense: seq<F>, denseSize: nat, o: Outcome) {
    var cols := ListsOf(rows, n);
    && (o.QueueEmptied? || o.DuplicateDense? || FromTriangle(o))
    && (o.QueueEmptied? ==> RunsDry(rows, cols) && n < |rows| + 2)
    && (o.DuplicateDense? ==> SameDense(dense, (o.row1, o.row2)) &&
                              exists fixed, c :: RepeatsAt(rows, cols, dense, fixed, c, o.row1, o.row2))
    && (FromTriangle(o) <==> !RunsDry(rows, cols) && !Repeats(rows, cols, dense))
    && (FromTriangle(o) ==> EndsAsRun(k, rows, cols, dense, denseSize, o))
  }

  /** On a run that takes all rows: there are too many gap rows, or their system is not solved, or the outcome is a
      success. */
  lemma {:induction false} GapDecides<F(!new)>(
      k: Field<F>, n: nat, rows: seq<seq<nat>>, dense: seq<F>, denseSize: nat, o: Outcome, mainRows: seq<nat>,
      mainCols: seq<nat>, gapRows: seq<(nat, nat)>)
    requires EndsBy(k, n, rows, dense, denseSize, o) && !Repeats(rows, ListsOf(rows, n), dense)
    requires IsRun(rows, ListsOf(rows, n), mainRows, mainCols, gapRows)
    ensures |dense| == |rows| && TriangleOk(rows, dense, mainRows, mainCols, gapRows)
    ensures o.GapTooLarge? <==> |gapRows| > denseSize
    ensures o.GapSingular? <==> |gapRows| <= denseSize && GapFails(k, rows, dense, mainRows, mainCols, gapRows)
    ensures o.Encoded? <==> |gapRows| <= denseSize && !GapFails(k, rows, dense, mainRows, mainCols, gapRows)
  {
    MetNotDry(rows, ListsOf(rows, n), mainCols);
    assert EndsIn(k, rows, dense, mainRows, mainCols, gapRows, denseSize, o);
  }

  /** The gap rows of a triangle fit the dense columns, and their system is solved. */
  ghost predicate GapEncodes<F(!new)>(
      k: Field<F>, rows: seq<seq<nat>>, dense: seq<F>, mainRows: seq<nat>, mainCols: seq<nat>,
      gapRows: seq<(nat, nat)>, denseSize: nat) {
    |dense| == |rows| && TriangleOk(rows, dense, mainRows, mainCols, gapRows) ==>
      |gapRows| <= denseSize && !GapFails(k, rows, dense, mainRows, mainCols, gapRows)
  }

  /** When `encode` succeeds: the run takes all rows without meeting a dense part twice, and its gap is solved. */
  ghost predicate Encodable<F(!new)>(k: Field<F>, n: nat, rows: seq<seq<nat>>, dense: seq<F>, denseSize: nat) {
    var cols := ListsOf(rows, n);
    && !RunsDry(rows, cols) && !Repeats(rows, cols, dense)
    && forall mainRows, mainCols, gapRows
         {:trigger GapEncodes(k, rows, dense, mainRows, mainCols, gapRows, denseSize)} ::
         IsRun(rows, cols, mainRows, mainCols, gapRows) ==>
         GapEncodes(k, rows, dense, mainRows, mainCols, gapRows, denseSize)
  }

  lemma {:induction false} RunExists(rows: seq<seq<nat>>, cols: seq<seq<nat>>)
    returns (mainRows: seq<nat>, mainCols: seq<nat>, gapRows: seq<(nat, nat)>)
    requires RowsOk(rows, |cols|) && !RunsDry(rows, cols)
    ensures IsRun(rows, cols, mainRows, mainCols, gapRows)
  {
    mainCols := RunEnds(rows, cols, []);
    ChosenIsGreedy(rows, cols, mainCols);
    mainRows, gapRows := MainOf(rows, cols, mainCols), GapOf(rows, cols, mainCols);
  }

  /** An outcome with its causes is a success exactly if there is none for another one. */
  lemma {:induction false} EncodedIff<F(!new)>(
      k: Field<F>, n: nat, rows: seq<seq<nat>>, dense: seq<F>, denseSize: nat, o: Outcome)
    requires RowsOk(rows, n) && EndsBy(k, n, rows, dense, denseSize, o)
    ensures o.Encoded? <==> Encodable(k, n, rows, dense, denseSize)
  {
    var cols := ListsOf(rows, n);
    if FromTriangle(o) {
      if o.Encoded? {
        forall mainRows, mainCols, gapRows | IsRun(rows, cols, mainRows, mainCols, gapRows)
          ensures GapEncodes(k, rows, dense, mainRows, mainCols, gapRows, denseSize)
        {
          assert EndsIn(k, rows, dense, mainRows, mainCols, gapRows, denseSize, o);
        }
      } else {
        var mainRows, mainCols, gapRows := RunExists(rows, cols);
        assert EndsIn(k, rows, dense, mainRows, mainCols, gapRows, denseSize, o);
        assert !GapEncodes(k, rows, dense, mainRows, mainCols, gapRows, denseSize);
      }
    }
  }

  /** The run on the rows, if it takes them all, has no gap row. */
  lemma {:induction false} GaplessEncodable<F(!new)>(
      k: Field<F>, n: nat, rows: seq<seq<nat>>, dense: seq<F>, denseSize: nat, mainCols: seq<nat>)
    requires Indices(n, mainCols)
    requires IsRun(rows, ListsOf(rows, n), MainOf(rows, ListsOf(rows, n), mainCols), mainCols, [])
    ensures Encodable(k, n, rows, dense, denseSize)
  {
    var cols := ListsOf(rows, n);
    MetNotDry(rows, cols, mainCols);
    MetNoRepeat(rows, cols, dense, mainCols);
    forall mainRows', mainCols', gapRows' | IsRun(rows, cols, mainRows', mainCols', gapRows')
      ensures GapEncodes(k, rows, dense, mainRows', mainCols', gapRows', denseSize)
    {
      RunUnique(rows, cols, mainRows', mainCols', gapRows', MainOf(rows, cols, mainCols), mainCols, []);
      if |dense| == |rows| && TriangleOk(rows, dense, mainRows', mainCols', gapRows') {
        NoGap(k, rows, dense, mainRows', mainCols');
      }
    }
  }

  /** The run leaves a single gap row, which equals its partner but for the dense part. */
  lemma {:induction false} TwinEncodable<F(!new)>(
      k: Field<F>, n: nat, rows: seq<seq<nat>>, dense: seq<F>, denseSize: nat, mainCols: seq<nat>, a: nat, b: nat)
    requires IsField(k) && Indices(n, mainCols) && a < |rows| == |dense| && b < |rows| && denseSize > 0
    requires IsRun(rows, ListsOf(rows, n), MainOf(rows, ListsOf(rows, n), mainCols), mainCols, [(a, b)])
    requires rows[a] == rows[b] && dense[a] != dense[b]
    ensures Encodable(k, n, rows, dense, denseSize)
  {
    var cols := ListsOf(rows, n);
    MetNotDry(rows, cols, mainCols);
    MetNoRepeat(rows, cols, dense, mainCols);
    forall mainRows', mainCols', gapRows' | IsRun(rows, cols, mainRows', mainCols', gapRows')
      ensures GapEncodes(k, rows, dense, mainRows', mainCols', gapRows', denseSize)
    {
      RunUnique(rows, cols, mainRows', mainCols', gapRows', MainOf(rows, cols, mainCols), mainCols, [(a, b)]);
      if TriangleOk(rows, dense, mainRows', mainCols', gapRows') {
        TwinGap(k, rows, dense, mainRows', mainCols', a, b);
      }
    }
  }

  ghost predicate Apart(rows: seq<seq<nat>>, r: nat, s: nat)
    requires r < |rows| && s < |rows|
  {
    forall c :: c in rows[r] ==> c !in rows[s]
  }

  /** No column is in two rows. */
  ghost predicate AllApart(rows: seq<seq<nat>>) {
    forall r, s {:trigger Apart(rows, r, s)} :: 0 <= r < s < |rows| ==> Apart(rows, r, s)
  }

  lemma {:induction false} ShortLists(rows: seq<seq<nat>>, c: nat)
    requires AllApart(rows)
    ensures |RowsWith(rows, c, |rows|)| <= 1
  {
    var s := RowsWith(rows, c, |rows|);
    RowsWithOk(rows, c, |rows|);
    forall i | 0 <= i < |s| ensures s[i] < |rows| && c in rows[s[i]] {
      assert s[i] in s;
    }
    assert |s| > 1 ==> !Apart(rows, s[0], s[1]);
  }

  lemma {:induction false} OpenIsShort(rows: seq<seq<nat>>, column: seq<nat>, fixed: seq<nat>, t: nat)
    requires t <= |column|
    ensures |OpenTo(rows, column, fixed, t)| <= t
  {
    if t > 0 {
      OpenIsShort(rows, column, fixed, t - 1);
    }
  }

  lemma {:induction false} GapIsEmpty(rows: seq<seq<nat>>, cols: seq<seq<nat>>, fixed: seq<nat>)
    requires Indices(|cols|, fixed) && forall c :: 0 <= c < |cols| ==> |cols[c]| <= 1
    ensures GapOf(rows, cols, fixed) == []
  {
    if fixed != [] {
      var before, c := fixed[..|fixed| - 1], fixed[|fixed| - 1];
      GapIsEmpty(rows, cols, before);
      OpenIsShort(rows, cols[c], before, |cols[c]|);
    }
  }

  /** Rows without a common column, a single row for example, are encoded when there are two columns more. */
  lemma {:induction false} ApartEncodable<F(!new)>(
      k: Field<F>, n: nat, rows: seq<seq<nat>>, dense: seq<F>, denseSize: nat)
    requires RowsOk(rows, n) && AllApart(rows) && n >= |rows| + 2
    ensures LightRows(rows, n) && Encodable(k, n, rows, dense, denseSize)
  {
    var cols := ListsOf(rows, n);
    forall c | 0 <= c < n ensures |RowsWith(rows, c, |rows|)| <= 1 {
      ShortLists(rows, c);
    }
    if RunsDry(rows, cols) {
      DryIsShort(rows, cols);
    }
    var mainRows, mainCols, gapRows := RunExists(rows, cols);
    GapIsEmpty(rows, cols, mainCols);
    GaplessEncodable(k, n, rows, dense, denseSize, mainCols);
  }

  /** The table is zero but for the columns of the triangle and the first g dense entries. */
  ghost predicate ZeroElsewhere<F>(k: Field<F>, n: nat, mainCols: seq<nat>, g: nat, p: seq<F>) {
    && n + g <= |p| && AllZero(k, p[n + g..])
    && forall c {:trigger Untouched(k, mainCols, p, 0, c)} :: 0 <= c < n ==> Untouched(k, mainCols, p, 0, c)
  }

  /** `backfillGf128`, on a table that was filled with zeros. */
  method Backfill<F(!new, ==)>(
      k: Field<F>, n: nat, rows: seq<seq<nat>>, dense: seq<F>, x: seq<F>, mainRows: seq<nat>, mainCols: seq<nat>,
      gapRows: seq<(nat, nat)>, p: array<F>)
    returns (o: Outcome)
    requires IsField(k) && RowsOk(rows, n) && |x| == |dense| == |rows| && n < p.Length && AllZero(k, p[..])
    requires TriangleOk(rows, dense, mainRows, mainCols, gapRows)
    modifies p
    ensures FromTriangle(o) && (o.GapTooLarge? <==> |gapRows| > p.Length - n)
    ensures o.GapSingular? <==> |gapRows| <= p.Length - n && GapFails(k, rows, dense, mainRows, mainCols, gapRows)
    ensures o.Encoded? ==> Solved(k, n, rows, dense, x, p[..]) && ZeroElsewhere(k, n, mainCols, |gapRows|, p[..])
  {
    TriangleLists(k, rows, dense, mainRows, mainCols, gapRows);
    if |gapRows| > p.Length - n {
      return GapTooLarge;
    }
    var lists := [];
    if |gapRows| > 0 {
      lists := GapLists(rows, n, dense, mainRows, mainCols, gapRows);
      MatrixInverse.FailsIffSingularOrOverlooked(k, GapMatrix(k, dense, gapRows, lists));
      var ok := SolveGap(k, n, dense, x, gapRows, lists, p);
      if !ok {
        return GapSingular;
      }
    }
    if |gapRows| == 0 {
      NoGap(k, rows, dense, mainRows, mainCols);
    }
    assert |gapRows| == 0 ==> AllZero(k, p[n..]);
    assert AllZero(k, p[n + |gapRows|..]);
    forall c | 0 <= c < n ensures Untouched(k, mainCols, p[..], |mainRows|, c) {
      assert p[..][c] == p[..n][c];
    }
    ghost var q := p[n..];
    assert q[|gapRows|..] == p[n + |gapRows|..];
    BackSubstitute(k, n, rows, dense, x, mainRows, mainCols, p, |gapRows| > 0);
    assert p[..][n..] == p[n..] == q;
    assert p[..][n + |gapRows|..] == q[|gapRows|..];
    AllSolved(k, n, rows, dense, x, mainRows, mainCols, gapRows, lists, p[..]);
    return Encoded;
  }

  /** No other run takes all rows. */
  ghost predicate OnlyRun(
      rows: seq<seq<nat>>, cols: seq<seq<nat>>, mainRows: seq<nat>, mainCols: seq<nat>, gapRows: seq<(nat, nat)>) {
    forall mainRows', mainCols', gapRows' {:trigger IsRun(rows, cols, mainRows', mainCols', gapRows')} ::
      IsRun(rows, cols, mainRows', mainCols', gapRows') ==>
      mainRows' == mainRows && mainCols' == mainCols && gapRows' == gapRows
  }

  lemma {:induction false} RunIsOnly(
      rows: seq<seq<nat>>, cols: seq<seq<nat>>, mainRows: seq<nat>, mainCols: seq<nat>, gapRows: seq<(nat, nat)>)
    requires IsRun(rows, cols, mainRows, mainCols, gapRows)
    ensures OnlyRun(rows, cols, mainRows, mainCols, gapRows)
  {
    forall mainRows', mainCols', gapRows' | IsRun(rows, cols, mainRows', mainCols', gapRows')
      ensures mainRows' == mainRows && mainCols' == mainCols && gapRows' == gapRows
    {
      RunUnique(rows, cols, mainRows, mainCols, gapRows, mainRows', mainCols', gapRows');
    }
  }

  /** The table is zero wherever the run has no column for it. */
  ghost predicate ZeroOffRun<F>(k: Field<F>, n: nat, rows: seq<seq<nat>>, p: seq<F>) {
    forall mainRows, mainCols, gapRows {:trigger IsRun(rows, ListsOf(rows, n), mainRows, mainCols, gapRows)} ::
      IsRun(rows, ListsOf(rows, n), mainRows, mainCols, gapRows) ==> ZeroElsewhere(k, n, mainCols, |gapRows|, p)
  }

  /** What the backfill of the one run says is how `encode` ends. */
  lemma {:induction false} RunDecides<F(!new)>(
      k: Field<F>, n: nat, rows: seq<seq<nat>>, dense: seq<F>, denseSize: nat, mainRows: seq<nat>,
      mainCols: seq<nat>, gapRows: seq<(nat, nat)>, o: Outcome)
    requires RowsOk(rows, n) && OnlyRun(rows, ListsOf(rows, n), mainRows, mainCols, gapRows) && FromTriangle(o)
    requires !RunsDry(rows, ListsOf(rows, n)) && !Repeats(rows, ListsOf(rows, n), dense)
    requires |dense| == |rows| && TriangleOk(rows, dense, mainRows, mainCols, gapRows)
    requires o.GapTooLarge? <==> |gapRows| > denseSize
    requires o.GapSingular? <==> |gapRows| <= denseSize && GapFails(k, rows, dense, mainRows, mainCols, gapRows)
    ensures EndsBy(k, n, rows, dense, denseSize, o)
    ensures o.Encoded? <==> Encodable(k, n, rows, dense, denseSize)
  {
    EncodedIff(k, n, rows, dense, denseSize, o);
  }

  /** Fills the table from a triangle. */
  method FillIn<F(!new, ==)>(
      k: Field<F>, n: nat, rows: seq<seq<nat>>, dense: seq<F>, values: seq<F>, mainRows: seq<nat>, mainCols: seq<nat>,
      gapRows: seq<(nat, nat)>, output: array<F>)
    returns (o: Outcome)
    requires IsField(k) && RowsOk(rows, n) && |values| == |dense| == |rows| && n < output.Length
    requires TriangleOk(rows, dense, mainRows, mainCols, gapRows)
    modifies output
    ensures FromTriangle(o) && (o.GapTooLarge? <==> |gapRows| > output.Length - n)
    ensures o.GapSingular? <==> |gapRows| <= output.Length - n && GapFails(k, rows, dense, mainRows, mainCols, gapRows)
    ensures o.Encoded? ==> Solved(k, n, rows, dense, values, output[..])
    ensures o.Encoded? ==> ZeroElsewhere(k, n, mainCols, |gapRows|, output[..])
  {
    ZeroFill(k, output);
    o := Backfill(k, n, rows, dense, values, mainRows, mainCols, gapRows, output);
  }

  /** Fills the table from the triangle of the only run. */
  method FillFromRun<F(!new, ==)>(
      k: Field<F>, n: nat, rows: seq<seq<nat>>, dense: seq<F>, values: seq<F>, mainRows: seq<nat>, mainCols: seq<nat>,
      gapRows: seq<(nat, nat)>, output: array<F>)
    returns (o: Outcome)
    requires IsField(k) && RowsOk(rows, n) && |values| == |dense| == |rows| && n < output.Length
    requires TriangleOk(rows, dense, mainRows, mainCols, gapRows)
    requires OnlyRun(rows, ListsOf(rows, n), mainRows, mainCols, gapRows)
    requires !RunsDry(rows, ListsOf(rows, n)) && !Repeats(rows, ListsOf(rows, n), dense)
    modifies output
    ensures EndsBy(k, n, rows, dense, output.Length - n, o)
    ensures o.Encoded? <==> Encodable(k, n, rows, dense, output.Length - n)
    ensures o.Encoded? ==> Solved(k, n, rows, dense, values, output[..]) && ZeroOffRun(k, n, rows, output[..])
  {
    o := FillIn(k, n, rows, dense, values, mainRows, mainCols, gapRows, output);
    RunDecides(k, n, rows, dense, output.Length - n, mainRows, mainCols, gapRows, o);
  }

  /** An outcome of the backfill. */
  predicate FromTriangle(o: Outcome) { o.Encoded? || o.GapTooLarge? || o.GapSingular? }

  lemma {:induction false} NoTriangle<F(!new)>(
      k: Field<F>, n: nat, rows: seq<seq<nat>>, dense: seq<F>, denseSize: nat, o: Outcome)
    requires o.QueueEmptied? || o.DuplicateDense?
    requires o.QueueEmptied? ==> RunsDry(rows, ListsOf(rows, n))
    requires o.DuplicateDense? ==> SameDense(dense, (o.row1, o.row2)) && exists fixed, c ::
      RepeatsAt(rows, ListsOf(rows, n), dense, fixed, c, o.row1, o.row2)
    ensures EndsBy(k, n, rows, dense, denseSize, o) && !Encodable(k, n, rows, dense, denseSize)
  {
    if o.QueueEmptied? {
      DryIsShort(rows, ListsOf(rows, n));
    }
  }

  /** The two steps of `encode`. */
  method TriangulateAndFill<F(!new, ==)>(
      k: Field<F>, n: nat, rows: seq<seq<nat>>, cols: seq<seq<nat>>, dense: seq<F>, values: seq<F>, wd: WeightData,
      output: array<F>)
    returns (o: Outcome)
    requires IsField(k) && RowsOk(rows, n) && |values| == |dense| == |rows| && n < output.Length
    requires cols == ListsOf(rows, n) && output as object != wd.nodes
    requires wd.Valid() && wd.Trimmed() && wd.nodes.Length == n && wd.linked == UpTo(n) && wd.pushes == Iota(n)
    requires forall c :: 0 <= c < n ==> wd.Weights()[c] == |cols[c]|
    modifies wd, wd.nodes, output
    ensures EndsBy(k, n, rows, dense, output.Length - n, o)
    ensures !o.QueueEmptied? && !o.DuplicateDense? ==> |wd.heads| <= 1
    ensures o.Encoded? <==> Encodable(k, n, rows, dense, output.Length - n)
    ensures o.Encoded? ==> Solved(k, n, rows, dense, values, output[..]) && ZeroOffRun(k, n, rows, output[..])
  {
    ListsTranspose(rows, n);
    var t := Triangulate(wd, rows, cols, dense);
    match t
    case DuplicateKeys(row1, row2) =>
      o := DuplicateDense(row1, row2);
      NoTriangle(k, n, rows, dense, output.Length - n, o);
    case NoColumnLeft =>
      o := Outcome.QueueEmptied;
      NoTriangle(k, n, rows, dense, output.Length - n, o);
    case Triangle(mainRows, mainCols, gapRows) =>
      RunIsOnly(rows, cols, mainRows, mainCols, gapRows);
      o := FillFromRun(k, n, rows, dense, values, mainRows, mainCols, gapRows, output);
  }

  // ------------------------------------------------- batches

  /** `decode32`: decodes a batch column by column instead of row by row. */
  method DecodeBatch<F(!new)>(k: Field<F>, n: nat, weight: nat, rows: seq<seq<nat>>, dense: seq<F>, p: seq<F>)
    returns (values: seq<F>)
    requires IsField(k) && n < |p| && weight > 0 && |rows| == |dense| && RowsOk(rows, n)
    requires forall r :: 0 <= r < |rows| ==> |rows[r]| == weight
    ensures |values| == |rows|
    ensures forall r :: 0 <= r < |rows| ==> values[r] == Dot(k, HRow(k, n, |p| - n, rows[r], dense[r]), p)
  {
    var u, q := p[..n], p[n..];
    values := seq(|rows|, r requires 0 <= r < |rows| && rows[r][0] < n => u[rows[r][0]]);
    forall r | 0 <= r < |rows| ensures values[r] == Dot(k, SparseVec(k, n, rows[r][..1]), u) {
      SparseNone(k, rows[r], u);
      SparseStep(k, rows[r], 0, u);
      AddCancel(k, values[r], k.zero);
    }
    for j := 1 to weight
      invariant |values| == |rows|
      invariant forall r :: 0 <= r < |rows| ==> values[r] == Dot(k, SparseVec(k, n, rows[r][..j]), u)
    {
      forall r | 0 <= r < |rows|
        ensures Add(k, values[r], u[rows[r][j]]) == Dot(k, SparseVec(k, n, rows[r][..j + 1]), u)
      {
        SparseStep(k, rows[r], j, u);
      }
      values := seq(|rows|, r requires 0 <= r < |rows| && rows[r][j] < n => Add(k, values[r], u[rows[r][j]]));
    }
    forall r | 0 <= r < |rows| ensures rows[r][..weight] == rows[r] { }
    ghost var sparse := values;
    values := AddDenseBatch(k, values, dense, q);
    forall r | 0 <= r < |rows| ensures values[r] == Dot(k, HRow(k, n, |p| - n, rows[r], dense[r]), p) {
      ValueSplit(k, n, rows[r], dense[r], p);
    }
  }

  lemma {:induction false} FirstDenseTerm<F(!new)>(k: Field<F>, d: F, q: seq<F>)
    requires IsField(k) && |q| > 0
    ensures DotTo(k, DenseVec(k, |q|, d), q, 1) == Mul(k, q[0], d)
  {
    AddCancel(k, Mul(k, d, q[0]), k.zero);
    assert MulLaws(k, q[0], d, k.one);
    assert DotTo(k, DenseVec(k, |q|, d), q, 1) == Add(k, k.zero, Mul(k, d, q[0]));
  }

  lemma {:induction false} DenseTerm<F(!new)>(k: Field<F>, v: F, d: F, x: F, q: seq<F>, i: nat)
    requires IsField(k) && i < |q| && x == DenseVec(k, |q|, d)[i]
    ensures Add(k, Add(k, v, DotTo(k, DenseVec(k, |q|, d), q, i)), Mul(k, q[i], x))
      == Add(k, v, DotTo(k, DenseVec(k, |q|, d), q, i + 1))
  {
    assert MulLaws(k, q[i], x, k.one);
    assert AddLaws(k, v, DotTo(k, DenseVec(k, |q|, d), q, i), Mul(k, x, q[i]));
  }

  /** The dense part of a batch: one power of every row at a time. */
  method AddDenseBatch<F(!new)>(k: Field<F>, values0: seq<F>, dense: seq<F>, q: seq<F>) returns (values: seq<F>)
    requires IsField(k) && |values0| == |dense| && |q| > 0
    ensures |values| == |dense|
    ensures forall r :: 0 <= r < |dense| ==> values[r] == Add(k, values0[r], Dot(k, DenseVec(k, |q|, dense[r]), q))
  {
    var x := dense;
    values := seq(|dense|, r requires 0 <= r < |dense| => Add(k, values0[r], Mul(k, q[0], x[r])));
    forall r | 0 <= r < |dense| ensures values[r] == Add(k, values0[r], DotTo(k, DenseVec(k, |q|, dense[r]), q, 1)) {
      FirstDenseTerm(k, dense[r], q);
    }
    for i := 1 to |q|
      invariant PowersAdded(k, values0, dense, q, x, values, i)
    {
      x, values := AddPower(k, values0, dense, q, x, values, i);
    }
  }

  /** x holds the i-th powers, values the sums of the terms below i. */
  ghost predicate PowersAdded<F>(
      k: Field<F>, values0: seq<F>, dense: seq<F>, q: seq<F>, x: seq<F>, values: seq<F>, i: nat) {
    && 0 < i <= |q| && |x| == |values| == |values0| == |dense|
    && (forall r {:trigger x[r]} :: 0 <= r < |dense| ==> x[r] == Pow(k, dense[r], i))
    && (forall r {:trigger values[r]} :: 0 <= r < |dense| ==>
          values[r] == Add(k, values0[r], DotTo(k, DenseVec(k, |q|, dense[r]), q, i)))
  }

  method AddPower<F(!new)>(k: Field<F>, ghost values0: seq<F>, dense: seq<F>, q: seq<F>, x0: seq<F>, v0: seq<F>, i: nat)
    returns (x: seq<F>, values: seq<F>)
    requires IsField(k) && i < |q| && PowersAdded(k, values0, dense, q, x0, v0, i)
    ensures PowersAdded(k, values0, dense, q, x, values, i + 1)
  {
    x := seq(|dense|, r requires 0 <= r < |dense| => Mul(k, x0[r], dense[r]));
    values := seq(|dense|, r requires 0 <= r < |dense| => Add(k, v0[r], Mul(k, q[i], x[r])));
    forall r {:trigger values[r]} | 0 <= r < |dense|
      ensures values[r] == Add(k, values0[r], DotTo(k, DenseVec(k, |q|, dense[r]), q, i + 1))
    {
      DenseTerm(k, values0[r], dense[r], x[r], q, i);
    }
  }

  // ------------------------------------------------- the store

  /** How keys become rows: AES hashing and `buildRow`, abstracted to what the store relies on. */
  datatype Hasher<!K, !F> = Hasher(row: K -> seq<nat>, dense: K -> F)

  function RowOf<K, F>(h: Hasher<K, F>, key: K): seq<nat> { (h.row)(key) }

  function DenseOf<K, F>(h: Hasher<K, F>, key: K): F { (h.dense)(key) }

  ghost predicate KeyOk<K, F>(h: Hasher<K, F>, n: nat, weight: nat, key: K) {
    PaxosHash.GoodRow(RowOf(h, key), weight, n)
  }

  ghost predicate HasherOk<K(!new), F>(h: Hasher<K, F>, n: nat, weight: nat) {
    forall key {:trigger KeyOk(h, n, weight, key)} :: KeyOk(h, n, weight, key)
  }

  /** Rows built by `buildRow` are as the store needs them. */
  lemma {:induction false} BuiltRowsOk<K(!new), F>(h: Hasher<K, F>, hash: K -> PaxosHash.Drawn, n: nat, weight: nat)
    requires weight <= n
    requires forall key {:trigger RowOf(h, key)} ::
      |hash(key).draws| == weight && RowOf(h, key) == PaxosHash.RowOfHash(hash(key), weight, n)
    ensures HasherOk(h, n, weight)
  {
    forall key ensures KeyOk(h, n, weight, key) {
      var row := RowOf(h, key);
      assert |hash(key).draws| == weight;
      PaxosHash.RowOfHashOk(hash(key), weight, n);
    }
  }

  const BATCH := 32

  class Store<K(!new), F(!new, ==)> {
    const k: Field<F>
    const hasher: Hasher<K, F>
    const n: nat
    const denseSize: nat
    const weight: nat

    var rows: seq<seq<nat>>
    var dense: seq<F>
    var cols: seq<seq<nat>>
    var weightSets: WeightData

    ghost predicate Params() {
      IsField(k) && HasherOk(hasher, n, weight) && 0 < weight <= n && denseSize > 0
    }

    /** The input is set; the weights are either those of all columns or used up by an earlier `Encode`. */
    ghost predicate Valid()
      reads this, weightSets, weightSets.nodes
    {
      Shape() && (|weightSets.heads| <= 1 || Untaken())
    }

    /** The rows, the dense parts and the column lists belong together. */
    ghost predicate Shape()
      reads this`rows, this`dense, this`cols
    {
      && Params()
      && RowsOk(rows, n) && |dense| == |rows| && cols == ListsOf(rows, n)
      && (forall c :: 0 <= c < n ==> |cols[c]| < INITIAL_BUCKETS)
    }

    ghost predicate Untaken()
      reads this, weightSets, weightSets.nodes
    {
      && weightSets.Valid() && weightSets.Trimmed() && weightSets.nodes.Length == |cols|
      && weightSets.linked == UpTo(|cols|) && weightSets.pushes == Iota(|cols|)
      && forall c :: 0 <= c < |cols| ==> weightSets.Weights()[c] == |cols[c]|
    }

    constructor (k: Field<F>, hasher: Hasher<K, F>, n: nat, denseSize: nat, weight: nat)
      ensures this.k == k && this.hasher == hasher && this.n == n && this.denseSize == denseSize
      ensures this.weight == weight
    {
      this.k, this.hasher, this.n, this.denseSize, this.weight := k, hasher, n, denseSize, weight;
      rows, dense, cols := [], [], [];
      weightSets := new WeightData([]);
    }

    /** No column of these keys is heavier than the weight lists have room for. */
    ghost predicate LightKeys(keys: seq<K>) {
      LightRows(KeyRows(keys), n)
    }

    /** `setInput`: computes the rows of the keys and everything that the triangulation needs.  False stands for the
        assertion that every weight has a list. */
    method SetInput(keys: seq<K>) returns (ok: bool)
      requires Params()
      modifies this
      ensures ok <==> LightKeys(keys)
      ensures ok ==> Valid() && fresh(weightSets) && fresh(weightSets.nodes)
      ensures rows == KeyRows(keys) && dense == KeyDense(keys)
    {
      rows, dense := HashKeys(keys);
      var weights := CountWeights(rows, n);
      cols := RebuildColumns(rows, weights);
      LightIffBelow(rows, weights);
      ok := AllBelow(weights, INITIAL_BUCKETS);
      if ok {
        weightSets := new WeightData(weights);
      }
    }

    ghost function KeyRows(keys: seq<K>): (r: seq<seq<nat>>)
      ensures |r| == |keys| && forall i :: 0 <= i < |keys| ==> r[i] == RowOf(hasher, keys[i])
    {
      seq(|keys|, i requires 0 <= i < |keys| => RowOf(hasher, keys[i]))
    }

    ghost function KeyDense(keys: seq<K>): (r: seq<F>)
      ensures |r| == |keys| && forall i :: 0 <= i < |keys| ==> r[i] == DenseOf(hasher, keys[i])
    {
      seq(|keys|, i requires 0 <= i < |keys| => DenseOf(hasher, keys[i]))
    }

    method HashKeys(keys: seq<K>) returns (rows: seq<seq<nat>>, dense: seq<F>)
      requires Params()
      ensures rows == KeyRows(keys) && dense == KeyDense(keys) && RowsOk(rows, n)
      ensures forall i :: 0 <= i < |keys| ==> |rows[i]| == weight
    {
      rows, dense := [], [];
      for i := 0 to |keys|
        invariant |rows| == |dense| == i
        invariant forall j :: 0 <= j < i ==> rows[j] == RowOf(hasher, keys[j]) && dense[j] == DenseOf(hasher, keys[j])
      {
        rows, dense := rows + [RowOf(hasher, keys[i])], dense + [DenseOf(hasher, keys[i])];
      }
      forall i | 0 <= i < |keys| ensures KeyOk(hasher, n, weight, keys[i]) { }
    }

    /** `encode`: if it ends without an exception, H * P = X. */
    method Encode(values: seq<F>, output: array<F>) returns (o: Outcome)
      requires Valid() && |values| == |rows| && output as object != weightSets.nodes
      modifies this`weightSets, weightSets, weightSets.nodes, output
      ensures o.WrongTableSize? <==> output.Length != n + denseSize
      ensures !o.DuplicateDense? && !o.QueueEmptied? ==> Valid()
      ensures o.WrongTableSize? || EndsBy(k, n, rows, dense, denseSize, o)
      ensures !o.WrongTableSize? ==> (o.Encoded? <==> Encodable(k, n, rows, dense, denseSize))
      ensures o.Encoded? ==> Solved(k, n, rows, dense, values, output[..]) && ZeroOffRun(k, n, rows, output[..])
    {
      if output.Length != n + denseSize {
        return WrongTableSize;
      }
      RefreshWeights();
      o := TriangulateAndFill(k, n, rows, cols, dense, values, weightSets, output);
    }

    /** Weights that were used up are counted again from the column lists. */
    method RefreshWeights()
      requires Valid()
      modifies this`weightSets
      ensures Valid() && Untaken()
      ensures weightSets == old(weightSets) || (fresh(weightSets) && fresh(weightSets.nodes))
    {
      if |weightSets.heads| <= 1 {
        var columns := cols;
        var weights := seq(|columns|, c requires 0 <= c < |columns| => |columns[c]|);
        weightSets := new WeightData(weights);
      }
    }

    /** `decode`: full batches first, then the remaining keys one at a time. None stands for an exception. */
    method Decode(keys: seq<K>, p: seq<F>) returns (r: Option<seq<F>>)
      requires Params()
      ensures r.None? <==> |p| != n + denseSize
      ensures r.Some? ==> |r.value| == |keys|
      ensures r.Some? ==> forall i :: 0 <= i < |keys| ==> r.value[i] == ValueOf(keys[i], p)
    {
      if |p| != n + denseSize {
        return None;
      }
      var main := |keys| / BATCH * BATCH;
      var values := DecodeBatches(keys, p, main);
      for i := main to |keys|
        invariant |values| == i
        invariant forall j :: 0 <= j < i ==> values[j] == ValueOf(keys[j], p)
      {
        assert KeyOk(hasher, n, weight, keys[i]);
        var v := DecodeRow(k, n, RowOf(hasher, keys[i]), DenseOf(hasher, keys[i]), p);
        values := values + [v];
      }
      return Some(values);
    }

    method DecodeBatches(keys: seq<K>, p: seq<F>, main: nat) returns (values: seq<F>)
      requires Params() && |p| == n + denseSize && main <= |keys| && main % BATCH == 0
      ensures |values| == main && forall i :: 0 <= i < main ==> values[i] == ValueOf(keys[i], p)
    {
      values := [];
      while |values| < main
        invariant |values| <= main && |values| % BATCH == 0
        invariant forall i :: 0 <= i < |values| ==> values[i] == ValueOf(keys[i], p)
      {
        var batch := keys[|values|..|values| + BATCH];
        var rs, ds := HashKeys(batch);
        var vs := DecodeBatch(k, n, weight, rs, ds, p);
        values := values + vs;
      }
    }

    /** The entry of H * P for a key. */
    ghost function ValueOf(key: K, p: seq<F>): F
      requires |p| == n + denseSize
    {
      Dot(k, HRow(k, n, denseSize, RowOf(hasher, key), DenseOf(hasher, key)), p)
    }

    /** `solve` followed by `check`, which decodes all keys again and compares: the comparison never fails. */
    method SolveAndCheck(keys: seq<K>, values: seq<F>, output: array<F>) returns (o: Outcome, matches: bool)
      requires Params() && |values| == |keys|
      modifies this, output
      ensures o.TooHeavy? <==> !LightKeys(keys)
      ensures o.WrongTableSize? <==> LightKeys(keys) && output.Length != n + denseSize
      ensures o.TooHeavy? || o.WrongTableSize? || EndsBy(k, n, KeyRows(keys), KeyDense(keys), denseSize, o)
      ensures o.Encoded? <==> LightKeys(keys) && output.Length == n + denseSize &&
                              Encodable(k, n, KeyRows(keys), KeyDense(keys), denseSize)
      ensures o.Encoded? ==> matches
      ensures o.Encoded? ==> output.Length == n + denseSize && ZeroOffRun(k, n, KeyRows(keys), output[..])
      ensures o.Encoded? ==> forall i :: 0 <= i < |keys| ==> ValueOf(keys[i], output[..]) == values[i]
    {
      matches := false;
      var ok := SetInput(keys);
      if !ok {
        return TooHeavy, false;
      }
      o := Encode(values, output);
      if o.Encoded? {
        forall i | 0 <= i < |keys| ensures ValueOf(keys[i], output[..]) == values[i] {
          assert RowSolved(k, n, rows, dense, values, output[..], i);
        }
        var decoded := Decode(keys, output[..]);
        assert decoded.value == values;
        matches := decoded.value == values;
      }
    }
  }

  ghost predicate LightRows(rows: seq<seq<nat>>, n: nat) {
    forall c {:trigger RowsWith(rows, c, |rows|)} :: 0 <= c < n ==> |RowsWith(rows, c, |rows|)| < INITIAL_BUCKETS
  }

  lemma {:induction false} LightIffBelow(rows: seq<seq<nat>>, weights: seq<nat>)
    requires forall c {:trigger WeightOk(rows, weights, c, |rows|)} :: 0 <= c < |weights| ==>
      WeightOk(rows, weights, c, |rows|)
    ensures LightRows(rows, |weights|) <==> forall c :: 0 <= c < |weights| ==> weights[c] < INITIAL_BUCKETS
  {
    forall c: nat | c < |weights| ensures weights[c] == |RowsWith(rows, c, |rows|)| {
      assert WeightOk(rows, weights, c, |rows|);
    }
  }

  method AllBelow(weights: seq<nat>, bound: nat) returns (ok: bool)
    ensures ok <==> forall c :: 0 <= c < |weights| ==> weights[c] < bound
  {
    for c := 0 to |weights|
      invariant forall d :: 0 <= d < c ==> weights[d] < bound
    {
      if weights[c] >= bound {
        return false;
      }
    }
    return true;
  }

  method ZeroFill<F>(k: Field<F>, p: array<F>)
    modifies p
    ensures AllZero(k, p[..])
  {
    for i := 0 to p.Length
      invariant forall j :: 0 <= j < i ==> p[j] == k.zero
    {
      p[i] := k.zero;
    }
  }
}
