/** When the gap of a Paxos triangle can be solved, said on the matrix H itself: the small system E' that the source
    sets up for the gap is singular exactly if the columns of H that the triangle and the first dense entries use are
    linearly dependent. */
module PaxosKernel {
  import opened Prelude
  import opened Fields
  import opened FcInverse
  import opened Greedy
  import opened Columns
  import opened Triangulation
  import opened PaxosMatrix
  import opened Paxos
  import MatrixInverse

  /** H * p is zero at row r. */
  ghost predicate RowVanishes<F>(k: Field<F>, n: nat, rows: seq<seq<nat>>, dense: seq<F>, p: seq<F>, r: nat)
    requires n <= |p| && |dense| == |rows| && r < |rows|
  {
    Dot(k, HRow(k, n, |p| - n, rows[r], dense[r]), p) == k.zero
  }

  ghost predicate OnTriangle<F>(k: Field<F>, mainCols: seq<nat>, p: seq<F>, c: nat)
    requires c < |p|
  {
    c in mainCols || p[c] == k.zero
  }

  /** p is not zero, has no other entries than those of the triangle and g dense ones, and H * p is zero. */
  ghost predicate Depends<F>(
      k: Field<F>, n: nat, rows: seq<seq<nat>>, dense: seq<F>, mainCols: seq<nat>, g: nat, p: seq<F>) {
    && |dense| == |rows| && |p| == n + g && p != ZeroVec(k, n + g)
    && (forall c {:trigger OnTriangle(k, mainCols, p, c)} :: 0 <= c < n ==> OnTriangle(k, mainCols, p, c))
    && forall r {:trigger RowVanishes(k, n, rows, dense, p, r)} :: 0 <= r < |rows| ==>
      RowVanishes(k, n, rows, dense, p, r)
  }

  // ------------------------------------------------- from E' to H

  /** Filling in the columns of the triangle solves the diagonal rows, whatever the dense entries are. */
  lemma {:induction false} Filled<F(!new)>(
      k: Field<F>, n: nat, rows: seq<seq<nat>>, dense: seq<F>, x: seq<F>, mainRows: seq<nat>, mainCols: seq<nat>,
      p: seq<F>, q: nat)
    returns (p': seq<F>)
    requires IsField(k) && SolvedFrom(k, n, rows, dense, x, mainRows, mainCols, p, q)
    ensures SolvedFrom(k, n, rows, dense, x, mainRows, mainCols, p', 0) && |p'| == |p| && p'[n..] == p[n..]
    decreases q
  {
    p' := p;
    if q > 0 {
      SolvedOneMore(k, n, rows, dense, x, mainRows, mainCols, p, q - 1);
      var r, c := mainRows[q - 1], mainCols[q - 1];
      var y := Add(k, x[r], Dot(k, HRow(k, n, |p| - n, rows[r], dense[r]), p));
      p' := Filled(k, n, rows, dense, x, mainRows, mainCols, p[c := y], q - 1);
      assert p[c := y][n..] == p[n..];
    }
  }

  lemma {:induction false} SumOfZeros<F(!new)>(k: Field<F>, x: seq<F>, g: nat, list: seq<nat>)
    requires IsField(k) && g < |x| && (forall i :: 0 <= i < |list| ==> list[i] < |x|)
    requires forall i :: 0 <= i < |x| ==> x[i] == k.zero
    ensures SumOf(k, x, g, list) == k.zero
  {
    if list != [] {
      SumOfZeros(k, x, g, list[..|list| - 1]);
      assert AddLaws(k, k.zero, k.zero, k.zero);
    }
  }

  /** A vector that E' sends to zero solves the gap rows of the homogeneous system. */
  lemma {:induction false} KernelSolvesGap<F(!new)>(
      k: Field<F>, dense: seq<F>, gapRows: seq<(nat, nat)>, lists: seq<seq<nat>>, q: seq<F>)
    requires IsField(k) && ListsOk(gapRows, lists, |dense|) && |q| == |gapRows|
    requires MatrixInverse.Apply(k, GapMatrix(k, dense, gapRows, lists), q) == ZeroVec(k, |q|)
    ensures forall i :: 0 <= i < |gapRows| ==>
      GapSolved(k, dense, ZeroVec(k, |dense|), gapRows[i].0, lists[i], q)
  {
    var ee := GapMatrix(k, dense, gapRows, lists);
    forall i | 0 <= i < |gapRows| ensures GapSolved(k, dense, ZeroVec(k, |dense|), gapRows[i].0, lists[i], q) {
      assert MatrixInverse.Apply(k, ee, q)[i] == k.zero;
      SumOfZeros(k, ZeroVec(k, |dense|), gapRows[i].0, lists[i]);
    }
  }

  /** The vector that is zero but for these dense entries. */
  lemma {:induction false} NothingSolved<F(!new)>(
      k: Field<F>, n: nat, rows: seq<seq<nat>>, dense: seq<F>, mainRows: seq<nat>, mainCols: seq<nat>, q: seq<F>)
    requires IsField(k) && RowsOk(rows, n) && |dense| == |rows| && |q| > 0 && Diagonal(rows, mainRows, mainCols)
    ensures var p := ZeroVec(k, n) + q;
            SolvedFrom(k, n, rows, dense, ZeroVec(k, |rows|), mainRows, mainCols, p, |mainRows|) && p[n..] == q
  {
    var p := ZeroVec(k, n) + q;
    forall c | 0 <= c < n ensures Untouched(k, mainCols, p, |mainRows|, c) { }
  }

  lemma {:induction false} KernelOfH<F(!new)>(
      k: Field<F>, n: nat, rows: seq<seq<nat>>, dense: seq<F>, mainRows: seq<nat>, mainCols: seq<nat>,
      gapRows: seq<(nat, nat)>, lists: seq<seq<nat>>, q: seq<F>)
    returns (p: seq<F>)
    requires IsField(k) && RowsOk(rows, n) && |dense| == |rows| && TriangleOk(rows, dense, mainRows, mainCols, gapRows)
    requires ListsOk(gapRows, lists, |dense|) && |q| == |gapRows| && q != ZeroVec(k, |q|)
    requires forall i :: 0 <= i < |gapRows| ==> Cancels(rows, mainRows, mainCols, gapRows[i].0, lists[i])
    requires MatrixInverse.Apply(k, GapMatrix(k, dense, gapRows, lists), q) == ZeroVec(k, |q|)
    ensures Depends(k, n, rows, dense, mainCols, |gapRows|, p)
  {
    var x := ZeroVec(k, |rows|);
    NothingSolved(k, n, rows, dense, mainRows, mainCols, q);
    p := Filled(k, n, rows, dense, x, mainRows, mainCols, ZeroVec(k, n) + q, |mainRows|);
    KernelSolvesGap(k, dense, gapRows, lists, q);
    AllSolved(k, n, rows, dense, x, mainRows, mainCols, gapRows, lists, p);
    forall r | 0 <= r < |rows| ensures RowVanishes(k, n, rows, dense, p, r) {
      assert RowSolved(k, n, rows, dense, x, p, r);
    }
    forall c | 0 <= c < n ensures OnTriangle(k, mainCols, p, c) {
      assert Untouched(k, mainCols, p, 0, c) && mainCols[0..] == mainCols;
    }
    var i :| 0 <= i < |q| && q[i] != k.zero;
    assert p[n + i] == p[n..][i];
  }

  // ------------------------------------------------- from H to E'

  lemma {:induction false} OneTerm<F(!new)>(k: Field<F>, v: seq<F>, u: seq<F>, c: nat)
    requires IsField(k) && |v| == |u| && c < |u| && v[c] == k.one
    requires forall i :: 0 <= i < |u| && i != c ==> v[i] == k.zero || u[i] == k.zero
    ensures Dot(k, v, u) == u[c]
  {
    DotToZeroTerms(k, v, u[c := k.zero], |u|);
    DotUpdate(k, v, u[c := k.zero], c, u[c]);
    assert u[c := k.zero][c := u[c]] == u;
    AddCancel(k, u[c], k.zero);
    MulOne(k, u[c]);
  }

  /** Of the sparse entries, those of the triangle from j on vanish with the diagonal rows. */
  lemma {:induction false} TriangleVanishes<F(!new)>(
      k: Field<F>, n: nat, rows: seq<seq<nat>>, mainRows: seq<nat>, mainCols: seq<nat>, u: seq<F>, j: nat)
    requires IsField(k) && RowsOk(rows, n) && Diagonal(rows, mainRows, mainCols) && |u| == n && j <= |mainCols|
    requires forall c {:trigger OnTriangle(k, mainCols, u, c)} :: 0 <= c < n ==> OnTriangle(k, mainCols, u, c)
    requires forall i {:trigger mainRows[i]} :: 0 <= i < |mainRows| ==>
      Dot(k, SparseVec(k, n, rows[mainRows[i]]), u) == k.zero
    ensures forall i :: j <= i < |mainCols| ==> mainCols[i] < n && u[mainCols[i]] == k.zero
    decreases |mainCols| - j
  {
    if j < |mainCols| {
      TriangleVanishes(k, n, rows, mainRows, mainCols, u, j + 1);
      var row, c := rows[mainRows[j]], mainCols[j];
      var v := SparseVec(k, n, row);
      forall d | 0 <= d < n && d != c ensures v[d] == k.zero || u[d] == k.zero {
        assert OnTriangle(k, mainCols, u, d);
        if d in mainCols {
          var i :| 0 <= i < |mainCols| && mainCols[i] == d;
          assert i < j ==> Clear(rows, mainRows, mainCols, i, j);
        }
      }
      OneTerm(k, v, u, c);
    }
  }

  /** What E' makes of the dense entries of such a vector at one gap row. */
  lemma {:induction false} GapVanishes<F(!new)>(
      k: Field<F>, n: nat, rows: seq<seq<nat>>, dense: seq<F>, mainRows: seq<nat>, mainCols: seq<nat>, p: seq<F>,
      g: nat, list: seq<nat>)
    requires IsField(k) && n <= |p| && Depends(k, n, rows, dense, mainCols, |p| - n, p)
    requires Cancels(rows, mainRows, mainCols, g, list)
    ensures Dot(k, VecSum(k, DenseRows(k, |p| - n, dense), |p| - n, g, list), p[n..]) == k.zero
  {
    var u, q := p[..n], p[n..];
    var s, d := Dots(k, SparseRows(k, n, rows), u), Dots(k, DenseRows(k, |q|, dense), q);
    var y := VecAdd(k, s, d);
    forall r | 0 <= r < |rows| ensures y[r] == k.zero {
      assert RowVanishes(k, n, rows, dense, p, r);
      ValueSplit(k, n, rows[r], dense[r], p);
    }
    forall c | 0 <= c < n ensures Untouched(k, mainCols, u, 0, c) {
      assert OnTriangle(k, mainCols, p, c) && mainCols[0..] == mainCols;
    }
    SumOfZeros(k, y, g, list);
    SumOfAdd(k, s, d, g, list);
    SparseCancels(k, n, rows, mainRows, mainCols, u, g, list);
    DotOfVecSum(k, DenseRows(k, |q|, dense), q, g, list);
    AddCancel(k, SumOf(k, d, g, list), k.zero);
  }

  lemma {:induction false} DenseNotZero<F(!new)>(
      k: Field<F>, n: nat, rows: seq<seq<nat>>, dense: seq<F>, mainRows: seq<nat>, mainCols: seq<nat>, p: seq<F>)
    requires IsField(k) && RowsOk(rows, n) && Diagonal(rows, mainRows, mainCols)
    requires n <= |p| && Depends(k, n, rows, dense, mainCols, |p| - n, p)
    ensures p[n..] != ZeroVec(k, |p| - n)
  {
    var u, q := p[..n], p[n..];
    if q == ZeroVec(k, |q|) {
      forall i | 0 <= i < |mainRows| ensures Dot(k, SparseVec(k, n, rows[mainRows[i]]), u) == k.zero {
        var r := mainRows[i];
        assert RowVanishes(k, n, rows, dense, p, r);
        ValueSplit(k, n, rows[r], dense[r], p);
        DotToZeroTerms(k, DenseVec(k, |q|, dense[r]), q, |q|);
        var s := Dot(k, SparseVec(k, n, rows[r]), u);
        AddEqZero(k, s, k.zero);
      }
      forall c | 0 <= c < n ensures OnTriangle(k, mainCols, u, c) {
        assert OnTriangle(k, mainCols, p, c);
      }
      TriangleVanishes(k, n, rows, mainRows, mainCols, u, 0);
      AllVanish(k, n, mainCols, p);
    }
  }

  lemma {:induction false} AllVanish<F>(k: Field<F>, n: nat, mainCols: seq<nat>, p: seq<F>)
    requires n <= |p| && p[n..] == ZeroVec(k, |p| - n)
    requires forall c {:trigger OnTriangle(k, mainCols, p, c)} :: 0 <= c < n ==> OnTriangle(k, mainCols, p, c)
    requires forall i :: 0 <= i < |mainCols| ==> mainCols[i] < n && p[mainCols[i]] == k.zero
    ensures p == ZeroVec(k, |p|)
  {
    forall c | 0 <= c < |p| ensures p[c] == k.zero {
      if c < n {
        assert OnTriangle(k, mainCols, p, c);
      } else {
        assert p[c] == p[n..][c - n];
      }
    }
  }

  // ------------------------------------------------- the two are equivalent

  lemma {:induction false} ListsCancel<F>(
      rows: seq<seq<nat>>, n: nat, dense: seq<F>, mainRows: seq<nat>, mainCols: seq<nat>, gapRows: seq<(nat, nat)>)
    requires RowsOk(rows, n) && |dense| == |rows| && TriangleOk(rows, dense, mainRows, mainCols, gapRows)
    requires GapIndices(rows, gapRows)
    ensures var lists := FcRows(rows, mainRows, mainCols, gapRows);
            forall i :: 0 <= i < |gapRows| ==> Cancels(rows, mainRows, mainCols, gapRows[i].0, lists[i])
  {
    forall i | 0 <= i < |gapRows|
      ensures Cancels(rows, mainRows, mainCols, gapRows[i].0, FcRow(rows, mainRows, mainCols, gapRows[i].0))
    {
      var g := gapRows[i].0;
      RowCancels(rows, mainRows, mainCols, g, [], 0);
      assert [] + FcRow(rows, mainRows, mainCols, g) == FcRow(rows, mainRows, mainCols, g);
    }
  }

  /** Listing the row of the first column that is left cancels it, and brings back none before it. */
  lemma {:induction false} ListNext(
      rows: seq<seq<nat>>, mainRows: seq<nat>, mainCols: seq<nat>, g: nat, list: seq<nat>, p: nat)
    requires Diagonal(rows, mainRows, mainCols) && g < |rows| && OnDiagonal(rows, mainRows, list) && p < |mainCols|
    requires mainCols[p] in Residue(rows, g, list) && forall i :: 0 <= i < p ==> mainCols[i] !in Residue(rows, g, list)
    ensures var h := mainRows[p];
      && OnDiagonal(rows, mainRows, list + [h])
      && Residue(rows, g, list + [h]) == SymDiff(Residue(rows, g, list), Elems(rows[h]))
      && forall i :: 0 <= i < p + 1 ==> mainCols[i] !in Residue(rows, g, list + [h])
  {
    var h := mainRows[p];
    ResidueOneMore(rows, mainRows, g, list, h);
    forall i | 0 <= i < p ensures mainCols[i] !in Elems(rows[h]) {
      assert Clear(rows, mainRows, mainCols, i, p);
    }
  }

  /** The planned rows cancel every column of the triangle. */
  lemma {:induction false} RowCancels(
      rows: seq<seq<nat>>, mainRows: seq<nat>, mainCols: seq<nat>, g: nat, list: seq<nat>, p: nat)
    requires Diagonal(rows, mainRows, mainCols) && g < |rows| && OnDiagonal(rows, mainRows, list)
    requires p <= |mainCols| && forall i :: 0 <= i < p ==> mainCols[i] !in Residue(rows, g, list)
    ensures Cancels(rows, mainRows, mainCols, g,
                    list + CancelFrom(rows, mainRows, mainCols, Residue(rows, g, list), p))
    decreases |mainCols| - p
  {
    var columns := Residue(rows, g, list);
    if p == |mainCols| {
      assert list + [] == list;
    } else if mainCols[p] in columns {
      var h := mainRows[p];
      ListNext(rows, mainRows, mainCols, g, list, p);
      RowCancels(rows, mainRows, mainCols, g, list + [h], p + 1);
      var rest := CancelFrom(rows, mainRows, mainCols, SymDiff(columns, Elems(rows[h])), p + 1);
      assert list + ([h] + rest) == list + [h] + rest;
    } else {
      RowCancels(rows, mainRows, mainCols, g, list, p + 1);
    }
  }

  /** The dense entries of a dependence are a kernel vector of E'. */
  lemma {:induction false} DenseInKernel<F(!new)>(
      k: Field<F>, n: nat, rows: seq<seq<nat>>, dense: seq<F>, mainRows: seq<nat>, mainCols: seq<nat>,
      gapRows: seq<(nat, nat)>, lists: seq<seq<nat>>, p: seq<F>)
    requires IsField(k) && RowsOk(rows, n) && Depends(k, n, rows, dense, mainCols, |gapRows|, p)
    requires Diagonal(rows, mainRows, mainCols) && ListsOk(gapRows, lists, |dense|)
    requires forall i :: 0 <= i < |gapRows| ==> Cancels(rows, mainRows, mainCols, gapRows[i].0, lists[i])
    ensures MatrixInverse.Singular(k, GapMatrix(k, dense, gapRows, lists))
  {
    var ee, q := GapMatrix(k, dense, gapRows, lists), p[n..];
    DenseNotZero(k, n, rows, dense, mainRows, mainCols, p);
    forall i | 0 <= i < |ee| ensures Dot(k, ee[i], q) == k.zero {
      GapVanishes(k, n, rows, dense, mainRows, mainCols, p, gapRows[i].0, lists[i]);
    }
    assert MatrixInverse.Apply(k, ee, q) == ZeroVec(k, |ee|);
  }

  /** E' is singular exactly if the columns of H that the triangle and the gap use are dependent. */
  lemma {:induction false} SingularIffDependent<F(!new)>(
      k: Field<F>, n: nat, rows: seq<seq<nat>>, dense: seq<F>, mainRows: seq<nat>, mainCols: seq<nat>,
      gapRows: seq<(nat, nat)>)
    requires IsField(k) && RowsOk(rows, n) && |dense| == |rows| && TriangleOk(rows, dense, mainRows, mainCols, gapRows)
    requires GapIndices(rows, gapRows) && ListsOk(gapRows, FcRows(rows, mainRows, mainCols, gapRows), |dense|)
    ensures var ee := GapMatrix(k, dense, gapRows, FcRows(rows, mainRows, mainCols, gapRows));
            MatrixInverse.Singular(k, ee) <==> exists p :: Depends(k, n, rows, dense, mainCols, |gapRows|, p)
  {
    var lists := FcRows(rows, mainRows, mainCols, gapRows);
    var ee := GapMatrix(k, dense, gapRows, lists);
    ListsCancel(rows, n, dense, mainRows, mainCols, gapRows);
    if MatrixInverse.Singular(k, ee) {
      var q: seq<F> :| |q| == |ee| && q != ZeroVec(k, |ee|) && MatrixInverse.Apply(k, ee, q) == ZeroVec(k, |ee|);
      var p := KernelOfH(k, n, rows, dense, mainRows, mainCols, gapRows, lists, q);
    }
    if p :| Depends(k, n, rows, dense, mainCols, |gapRows|, p) {
      DenseInKernel(k, n, rows, dense, mainRows, mainCols, gapRows, lists, p);
    }
  }

  /** So a triangle whose gap fits fails exactly if these columns of H are dependent, or if a pivot is overlooked. */
  lemma {:induction false} GapFailsIff<F(!new)>(
      k: Field<F>, n: nat, rows: seq<seq<nat>>, dense: seq<F>, mainRows: seq<nat>, mainCols: seq<nat>,
      gapRows: seq<(nat, nat)>)
    requires IsField(k) && RowsOk(rows, n) && |dense| == |rows| && TriangleOk(rows, dense, mainRows, mainCols, gapRows)
    requires GapIndices(rows, gapRows) && ListsOk(gapRows, FcRows(rows, mainRows, mainCols, gapRows), |dense|)
    ensures var ee := GapMatrix(k, dense, gapRows, FcRows(rows, mainRows, mainCols, gapRows));
            GapFails(k, rows, dense, mainRows, mainCols, gapRows) <==>
            (exists p :: Depends(k, n, rows, dense, mainCols, |gapRows|, p)) ||
            exists c {:trigger MatrixInverse.OverlooksAt(k, ee, c)} ::
              0 <= c < |ee| && MatrixInverse.OverlooksAt(k, ee, c)
  {
    SingularIffDependent(k, n, rows, dense, mainRows, mainCols, gapRows);
  }

  // ------------------------------------------------- the table is determined

  lemma {:induction false} CutRow<F>(k: Field<F>, n: nat, m: nat, m': nat, row: seq<nat>, d: F)
    requires m <= m'
    ensures forall i :: 0 <= i < n + m ==> HRow(k, n, m', row, d)[i] == HRow(k, n, m, row, d)[i]
  {
  }

  lemma {:induction false} TailIsZero<F>(k: Field<F>, p: seq<F>, from: nat)
    requires from <= |p| && AllZero(k, p[from..])
    ensures forall i :: from <= i < |p| ==> p[i] == k.zero
  {
    forall i | from <= i < |p| ensures p[i] == k.zero {
      assert p[i] == p[from..][i - from];
    }
  }

  lemma {:induction false} CutProduct<F(!new)>(k: Field<F>, h: seq<F>, cut: seq<F>, p: seq<F>)
    requires IsField(k) && |h| == |p| && |cut| <= |p| && AllZero(k, p[|cut|..])
    requires forall i :: 0 <= i < |cut| ==> h[i] == cut[i]
    ensures Dot(k, h, p) == Dot(k, cut, p[..|cut|])
  {
    TailIsZero(k, p, |cut|);
    DotZeroTail(k, h, p, |cut|, |p|);
    DotToSameTerms(k, h, p, cut, p[..|cut|], |cut|);
  }

  /** Of a table that is zero from some dense entry on, only the entries before count. */
  lemma {:induction false} CutTable<F(!new)>(k: Field<F>, n: nat, m: nat, row: seq<nat>, d: F, p: seq<F>)
    requires IsField(k) && n + m <= |p| && AllZero(k, p[n + m..])
    ensures Dot(k, HRow(k, n, |p| - n, row, d), p) == Dot(k, HRow(k, n, m, row, d), p[..n + m])
  {
    CutRow(k, n, m, |p| - n, row, d);
    CutProduct(k, HRow(k, n, |p| - n, row, d), HRow(k, n, m, row, d), p);
  }

  lemma {:induction false} SumVanishes<F(!new)>(
      k: Field<F>, n: nat, rows: seq<seq<nat>>, dense: seq<F>, x: seq<F>, g: nat, p: seq<F>, p': seq<F>, r: nat)
    requires IsField(k) && |x| == |dense| == |rows| && r < |rows| && |p| == |p'| && n + g <= |p|
    requires AllZero(k, p[n + g..]) && AllZero(k, p'[n + g..])
    requires RowSolved(k, n, rows, dense, x, p, r) && RowSolved(k, n, rows, dense, x, p', r)
    ensures RowVanishes(k, n, rows, dense, VecAdd(k, p[..n + g], p'[..n + g]), r)
  {
    CutTable(k, n, g, rows[r], dense[r], p);
    CutTable(k, n, g, rows[r], dense[r], p');
    DotAddRight(k, HRow(k, n, g, rows[r], dense[r]), p[..n + g], p'[..n + g]);
    AddEqZero(k, x[r], x[r]);
  }

  /** If these columns are independent, there is only one table that solves all rows and is zero elsewhere. */
  lemma {:induction false} OnlyTable<F(!new)>(
      k: Field<F>, n: nat, rows: seq<seq<nat>>, dense: seq<F>, x: seq<F>, mainCols: seq<nat>, g: nat, p: seq<F>,
      p': seq<F>)
    requires IsField(k) && |x| == |dense| == |rows| && |p| == |p'|
    requires ZeroElsewhere(k, n, mainCols, g, p) && ZeroElsewhere(k, n, mainCols, g, p')
    requires Solved(k, n, rows, dense, x, p) && Solved(k, n, rows, dense, x, p')
    requires !exists q :: Depends(k, n, rows, dense, mainCols, g, q)
    ensures p == p'
  {
    var q := VecAdd(k, p[..n + g], p'[..n + g]);
    forall r | 0 <= r < |rows| ensures RowVanishes(k, n, rows, dense, q, r) {
      assert RowSolved(k, n, rows, dense, x, p, r) && RowSolved(k, n, rows, dense, x, p', r);
      SumVanishes(k, n, rows, dense, x, g, p, p', r);
    }
    forall c | 0 <= c < n ensures OnTriangle(k, mainCols, q, c) {
      assert Untouched(k, mainCols, p, 0, c) && Untouched(k, mainCols, p', 0, c) && mainCols[0..] == mainCols;
      AddEqZero(k, k.zero, k.zero);
    }
    assert !Depends(k, n, rows, dense, mainCols, g, q);
    forall i | 0 <= i < |p| ensures p[i] == p'[i] {
      if i < n + g {
        assert q[i] == k.zero;
        AddEqZero(k, p[i], p'[i]);
      } else {
        assert p[i] == p[n + g..][i - n - g] && p'[i] == p'[n + g..][i - n - g];
      }
    }
  }

  /** So the table of a successful `encode` is the only one that decodes the rows to their values and is zero off the
      run. */
  lemma {:induction false} EncodedUnique<F(!new)>(
      k: Field<F>, n: nat, rows: seq<seq<nat>>, dense: seq<F>, x: seq<F>, mainRows: seq<nat>, mainCols: seq<nat>,
      gapRows: seq<(nat, nat)>, p: seq<F>, p': seq<F>)
    requires IsField(k) && RowsOk(rows, n) && |x| == |dense| == |rows| && |p| == |p'| && n <= |p|
    requires IsRun(rows, ListsOf(rows, n), mainRows, mainCols, gapRows)
    requires TriangleOk(rows, dense, mainRows, mainCols, gapRows)
    requires !GapFails(k, rows, dense, mainRows, mainCols, gapRows)
    requires Solved(k, n, rows, dense, x, p) && Solved(k, n, rows, dense, x, p')
    requires ZeroOffRun(k, n, rows, p) && ZeroOffRun(k, n, rows, p')
    ensures p == p'
  {
    TriangleLists(k, rows, dense, mainRows, mainCols, gapRows);
    SingularIffDependent(k, n, rows, dense, mainRows, mainCols, gapRows);
    OnlyTable(k, n, rows, dense, x, mainCols, |gapRows|, p, p');
  }

  // ------------------------------------------------- two gap rows

  lemma {:induction false} SquareOfSum<F(!new)>(k: Field<F>, x: F, y: F)
    requires IsField(k)
    ensures Mul(k, Add(k, x, y), Add(k, x, y)) == Add(k, Mul(k, x, x), Mul(k, y, y))
  {
    var z, a, b, p := Add(k, x, y), Mul(k, x, x), Mul(k, y, y), Mul(k, x, y);
    assert Mul(k, z, z) == Add(k, Mul(k, z, x), Mul(k, z, y)) by { assert MulLaws(k, z, x, y); }
    assert Mul(k, z, x) == Add(k, a, p) by { assert MulLaws(k, z, x, x) && MulLaws(k, x, x, y); }
    assert Mul(k, z, y) == Add(k, b, p) by {
      assert MulLaws(k, z, y, y) && MulLaws(k, y, x, y) && MulLaws(k, x, y, y) && AddLaws(k, p, b, b);
    }
    AddSwap(k, a, p, b, p);
    AddEqZero(k, p, p);
    assert AddLaws(k, Add(k, a, b), k.zero, k.zero);
  }

  /** E' for two gap rows that equal their partners: the sums of the dense parts, and their squares. */
  ghost function TwoTwins<F>(k: Field<F>, a: F, b: F): (m: seq<seq<F>>)
    ensures MatrixInverse.Square(m, 2)
  {
    [[a, Mul(k, a, a)], [b, Mul(k, b, b)]]
  }

  lemma {:induction false} TwoTerms<F(!new)>(k: Field<F>, a: F, x: seq<F>)
    requires IsField(k) && |x| == 2
    ensures Dot(k, [a, Mul(k, a, a)], x) == Mul(k, a, Add(k, x[0], Mul(k, a, x[1])))
  {
    var v := [a, Mul(k, a, a)];
    assert DotTo(k, v, x, 1) == Add(k, DotTo(k, v, x, 0), Mul(k, a, x[0]));
    AddCancel(k, Mul(k, a, x[0]), k.zero);
    assert Dot(k, v, x) == Add(k, DotTo(k, v, x, 1), Mul(k, Mul(k, a, a), x[1]));
    assert MulLaws(k, a, a, x[1]) && MulLaws(k, a, x[0], Mul(k, a, x[1]));
  }

  /** Such a matrix is singular exactly if the two sums are equal. */
  lemma {:induction false} TwoTwinsSingularIff<F(!new)>(k: Field<F>, a: F, b: F)
    requires IsField(k) && a != k.zero && b != k.zero
    ensures MatrixInverse.Singular(k, TwoTwins(k, a, b)) <==> a == b
  {
    var m := TwoTwins(k, a, b);
    forall x: seq<F> | |x| == 2
      ensures MatrixInverse.Apply(k, m, x) == ZeroVec(k, 2) <==> x[0] == Mul(k, a, x[1]) == Mul(k, b, x[1])
    {
      TwoTerms(k, a, x);
      TwoTerms(k, b, x);
      assert MatrixInverse.Apply(k, m, x)[0] == Dot(k, m[0], x) && MatrixInverse.Apply(k, m, x)[1] == Dot(k, m[1], x);
      ZeroFactor(k, a, x);
      ZeroFactor(k, b, x);
    }
    if a == b {
      var x := [a, k.one];
      MulOne(k, a);
      assert x[0] != ZeroVec(k, 2)[0];
      assert MatrixInverse.Apply(k, m, x) == ZeroVec(k, 2);
    } else {
      forall x: seq<F> | |x| == 2 && x[0] == Mul(k, a, x[1]) == Mul(k, b, x[1]) ensures x == ZeroVec(k, 2) {
        OnlyZero(k, a, b, x);
      }
    }
  }

  lemma {:induction false} ZeroFactor<F(!new)>(k: Field<F>, a: F, x: seq<F>)
    requires IsField(k) && a != k.zero && |x| == 2
    ensures Mul(k, a, Add(k, x[0], Mul(k, a, x[1]))) == k.zero <==> x[0] == Mul(k, a, x[1])
  {
    MatrixInverse.MulCancel(k, a, Add(k, x[0], Mul(k, a, x[1])), k.zero);
    MulZero(k, a);
    AddEqZero(k, x[0], Mul(k, a, x[1]));
  }

  lemma {:induction false} OnlyZero<F(!new)>(k: Field<F>, a: F, b: F, x: seq<F>)
    requires IsField(k) && a != b && |x| == 2 && x[0] == Mul(k, a, x[1]) == Mul(k, b, x[1])
    ensures x == ZeroVec(k, 2)
  {
    assert MulLaws(k, a, x[1], x[1]) && MulLaws(k, b, x[1], x[1]);
    if x[1] != k.zero {
      MatrixInverse.MulCancel(k, x[1], a, b);
    }
    MulZero(k, a);
  }

  lemma {:induction false} TwinEntries<F(!new)>(k: Field<F>, dense: seq<F>, a: nat, b: nat)
    requires IsField(k) && a < |dense| && b < |dense|
    ensures var d := Add(k, dense[a], dense[b]);
            VecSum(k, DenseRows(k, 2, dense), 2, a, [b]) == [d, Mul(k, d, d)]
  {
    assert [b][..0] == [];
    SquareOfSum(k, dense[a], dense[b]);
    forall e | e == a || e == b
      ensures Pow(k, dense[e], 1) == dense[e] && Pow(k, dense[e], 2) == Mul(k, dense[e], dense[e])
    {
    }
  }

  /** Two gap rows that equal their partners fail exactly if the sums of their dense parts are the same. */
  lemma {:induction false} TwoTwinsFailIff<F(!new)>(
      k: Field<F>, rows: seq<seq<nat>>, dense: seq<F>, mainRows: seq<nat>, mainCols: seq<nat>, a: nat, b: nat,
      c: nat, d: nat)
    requires IsField(k) && |dense| == |rows| && TriangleOk(rows, dense, mainRows, mainCols, [(a, b), (c, d)])
    requires a < |rows| && b < |rows| && c < |rows| && d < |rows| && rows[a] == rows[b] && rows[c] == rows[d]
    ensures GapFails(k, rows, dense, mainRows, mainCols, [(a, b), (c, d)]) <==>
            Add(k, dense[a], dense[b]) == Add(k, dense[c], dense[d])
  {
    var gapRows := [(a, b), (c, d)];
    TriangleLists(k, rows, dense, mainRows, mainCols, gapRows);
    assert GapRowOk(rows, dense, mainRows, mainCols, gapRows[0]);
    assert GapRowOk(rows, dense, mainRows, mainCols, gapRows[1]);
    CancelEqual(rows, mainRows, mainCols, a, b);
    CancelEqual(rows, mainRows, mainCols, c, d);
    var ee := GapMatrix(k, dense, gapRows, FcRows(rows, mainRows, mainCols, gapRows));
    TwinEntries(k, dense, a, b);
    TwinEntries(k, dense, c, d);
    var x, y := Add(k, dense[a], dense[b]), Add(k, dense[c], dense[d]);
    assert ee == TwoTwins(k, x, y);
    AddEqZero(k, dense[a], dense[b]);
    AddEqZero(k, dense[c], dense[d]);
    TwoTwinsSingularIff(k, x, y);
    forall i | 0 <= i < |ee| && MatrixInverse.OverlooksAt(k, ee, i) ensures i == 0 { }
    assert !MatrixInverse.OverlooksAt(k, ee, 0);
  }
}
