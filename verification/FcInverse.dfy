/** The rows of F * C^-1 (`getFCInv` of volePSI/PaxosImpl.h): for each gap row, a list of diagonal rows whose sum
    with it is zero on every column of the triangle. */
module FcInverse {
  import opened Prelude
  import opened Triangulation

  const UNMAPPED := -1

  ghost function SymDiff(a: set<nat>, b: set<nat>): set<nat> { (a - b) + (b - a) }

  /** The columns of row g plus the listed rows, over GF(2). */
  ghost function Residue(rows: seq<seq<nat>>, g: nat, list: seq<nat>): set<nat>
    requires g < |rows| && forall i :: 0 <= i < |list| ==> list[i] < |rows|
  {
    if list == [] then Elems(rows[g])
    else SymDiff(Residue(rows, g, list[..|list| - 1]), Elems(rows[list[|list| - 1]]))
  }

  ghost predicate OnDiagonal(rows: seq<seq<nat>>, mainRows: seq<nat>, list: seq<nat>) {
    forall i :: 0 <= i < |list| ==> list[i] < |rows| && list[i] in mainRows
  }

  lemma {:induction false} ResidueOneMore(rows: seq<seq<nat>>, mainRows: seq<nat>, g: nat, list: seq<nat>, h: nat)
    requires g < |rows| && OnDiagonal(rows, mainRows, list) && h < |rows| && h in mainRows
    ensures OnDiagonal(rows, mainRows, list + [h])
    ensures Residue(rows, g, list + [h]) == SymDiff(Residue(rows, g, list), Elems(rows[h]))
  {
    assert (list + [h])[..|list|] == list;
  }

  /** The sum of the gap row and the listed rows, all of them on the diagonal, has no column of the triangle. */
  ghost predicate Cancels(rows: seq<seq<nat>>, mainRows: seq<nat>, mainCols: seq<nat>, g: nat, list: seq<nat>) {
    && g < |rows|
    && OnDiagonal(rows, mainRows, list)
    && forall p :: 0 <= p < |mainCols| ==> mainCols[p] !in Residue(rows, g, list)
  }

  // ------------------------------------------------- which rows are listed

  /** The diagonal rows that cancel a set of columns: the positions of the triangle from p on are visited in order,
      and the row of each column that is present when it is visited is added. */
  ghost function CancelFrom(
      rows: seq<seq<nat>>, mainRows: seq<nat>, mainCols: seq<nat>, columns: set<nat>, p: nat): (r: seq<nat>)
    requires |mainRows| == |mainCols| && p <= |mainCols| && forall i :: 0 <= i < |mainRows| ==> mainRows[i] < |rows|
    ensures forall i :: 0 <= i < |r| ==> r[i] < |rows|
    decreases |mainCols| - p
  {
    if p == |mainCols| then []
    else if mainCols[p] in columns then
      [mainRows[p]] + CancelFrom(rows, mainRows, mainCols, SymDiff(columns, Elems(rows[mainRows[p]])), p + 1)
    else
      CancelFrom(rows, mainRows, mainCols, columns, p + 1)
  }

  /** The row of F * C^-1 that belongs to row g. */
  ghost function FcRow(rows: seq<seq<nat>>, mainRows: seq<nat>, mainCols: seq<nat>, g: nat): (r: seq<nat>)
    requires Diagonal(rows, mainRows, mainCols) && g < |rows|
    ensures forall i :: 0 <= i < |r| ==> r[i] < |rows|
  {
    CancelFrom(rows, mainRows, mainCols, Elems(rows[g]), 0)
  }

  ghost predicate GapIndices(rows: seq<seq<nat>>, gapRows: seq<(nat, nat)>) {
    forall g :: 0 <= g < |gapRows| ==> gapRows[g].0 < |rows|
  }

  /** F * C^-1. */
  ghost function FcRows(
      rows: seq<seq<nat>>, mainRows: seq<nat>, mainCols: seq<nat>, gapRows: seq<(nat, nat)>): seq<seq<nat>>
    requires Diagonal(rows, mainRows, mainCols) && GapIndices(rows, gapRows)
  {
    seq(|gapRows|, g requires 0 <= g < |gapRows| => FcRow(rows, mainRows, mainCols, gapRows[g].0))
  }

  lemma {:induction false} CancelSkips(
      rows: seq<seq<nat>>, mainRows: seq<nat>, mainCols: seq<nat>, columns: set<nat>, p: nat, q: nat)
    requires Diagonal(rows, mainRows, mainCols) && p <= q <= |mainCols|
    requires forall i :: p <= i < q ==> mainCols[i] !in columns
    ensures CancelFrom(rows, mainRows, mainCols, columns, p) == CancelFrom(rows, mainRows, mainCols, columns, q)
    decreases q - p
  {
    if p < q {
      CancelSkips(rows, mainRows, mainCols, columns, p + 1, q);
    }
  }

  /** The first column that is present decides the first row; it does not bring back earlier columns. */
  lemma {:induction false} CancelFirst(
      rows: seq<seq<nat>>, mainRows: seq<nat>, mainCols: seq<nat>, columns: set<nat>, k: nat)
    requires Diagonal(rows, mainRows, mainCols) && k < |mainCols| && mainCols[k] in columns
    requires forall p :: 0 <= p < k ==> mainCols[p] !in columns
    ensures CancelFrom(rows, mainRows, mainCols, columns, 0)
         == [mainRows[k]] + CancelFrom(rows, mainRows, mainCols, SymDiff(columns, Elems(rows[mainRows[k]])), 0)
  {
    var after := SymDiff(columns, Elems(rows[mainRows[k]]));
    CancelSkips(rows, mainRows, mainCols, columns, 0, k);
    forall p | 0 <= p <= k ensures mainCols[p] !in after {
      assert p < k ==> Clear(rows, mainRows, mainCols, p, k);
    }
    CancelSkips(rows, mainRows, mainCols, after, 0, k + 1);
  }

  /** A row equal to a diagonal row is cancelled by that row alone. */
  lemma {:induction false} CancelEqual(rows: seq<seq<nat>>, mainRows: seq<nat>, mainCols: seq<nat>, a: nat, b: nat)
    requires Diagonal(rows, mainRows, mainCols) && a < |rows| && b < |rows| && b in mainRows && rows[a] == rows[b]
    ensures FcRow(rows, mainRows, mainCols, a) == [b]
  {
    var k :| 0 <= k < |mainRows| && mainRows[k] == b;
    forall p | 0 <= p < k ensures mainCols[p] !in Elems(rows[a]) {
      assert Clear(rows, mainRows, mainCols, p, k);
    }
    CancelFirst(rows, mainRows, mainCols, Elems(rows[a]), k);
    assert SymDiff(Elems(rows[a]), Elems(rows[b])) == {};
    CancelSkips(rows, mainRows, mainCols, {}, 0, |mainCols|);
  }

  // ------------------------------------------------- the loop

  /** Column mainCols[p] of the matrix is column m - 1 - p of C; all other columns are unmapped. */
  ghost predicate MappingOk(mapping: seq<int>, mainCols: seq<nat>) {
    && (forall p :: 0 <= p < |mainCols| ==> mainCols[p] < |mapping| && mapping[mainCols[p]] == |mainCols| - 1 - p)
    && (forall c :: 0 <= c < |mapping| ==>
          mapping[c] == UNMAPPED || (0 <= mapping[c] < |mainCols| && mainCols[|mainCols| - 1 - mapping[c]] == c))
  }

  method MapColumns(n: nat, mainCols: seq<nat>) returns (mapping: seq<int>)
    requires Distinct(mainCols) && forall p :: 0 <= p < |mainCols| ==> mainCols[p] < n
    ensures |mapping| == n && MappingOk(mapping, mainCols)
  {
    var m := |mainCols|;
    mapping := seq(n, _ => UNMAPPED);
    for i := 0 to m
      invariant |mapping| == n
      invariant forall p :: m - i <= p < m ==> mapping[mainCols[p]] == m - 1 - p
      invariant forall c :: 0 <= c < n ==>
        mapping[c] == UNMAPPED || (0 <= mapping[c] < i && mainCols[m - 1 - mapping[c]] == c)
    {
      mapping := mapping[mainCols[m - 1 - i] := i];
    }
  }

  /** The set of columns of C that a set of columns of the matrix stands for. */
  ghost predicate Mapped(row: set<nat>, mainCols: seq<nat>, columns: set<nat>) {
    && (forall x :: x in row ==> x < |mainCols|)
    && (forall p: nat :: p < |mainCols| ==> (|mainCols| - 1 - p in row <==> mainCols[p] in columns))
  }

  lemma {:induction false} LargestOf(s: set<nat>) returns (m: nat)
    requires s != {}
    ensures m in s && forall y :: y in s ==> y <= m
  {
    var x :| x in s;
    m := x;
    if s - {x} != {} {
      var z := LargestOf(s - {x});
      if x < z { m := z; }
      forall y | y in s ensures y <= m {
        if y != x { assert y in s - {x}; }
      }
    } else {
      forall y | y in s ensures y <= m {
        assert y != x ==> y in s - {x};
      }
    }
  }

  /** The listed rows and those that remain to be listed. */
  ghost function Planned(rows: seq<seq<nat>>, mainRows: seq<nat>, mainCols: seq<nat>, g: nat, list: seq<nat>): seq<nat>
    requires Diagonal(rows, mainRows, mainCols) && g < |rows| && OnDiagonal(rows, mainRows, list)
  {
    list + CancelFrom(rows, mainRows, mainCols, Residue(rows, g, list), 0)
  }

  /** Listing the row of the largest column of C is what the plan has next. */
  lemma {:induction false} PlanKept(
      rows: seq<seq<nat>>, mainRows: seq<nat>, mainCols: seq<nat>, g: nat, list: seq<nat>, row: set<nat>, cCol: nat)
    requires Diagonal(rows, mainRows, mainCols) && g < |rows| && OnDiagonal(rows, mainRows, list)
    requires Mapped(row, mainCols, Residue(rows, g, list)) && cCol in row && forall y :: y in row ==> y <= cCol
    ensures var h := mainRows[|mainRows| - 1 - cCol];
            OnDiagonal(rows, mainRows, list + [h]) &&
            Planned(rows, mainRows, mainCols, g, list + [h]) == Planned(rows, mainRows, mainCols, g, list)
  {
    var k: nat := |mainRows| - 1 - cCol;
    var columns := Residue(rows, g, list);
    assert |mainCols| - 1 - k in row;
    forall p: nat | p < k ensures mainCols[p] !in columns {
      assert |mainCols| - 1 - p !in row;
    }
    CancelFirst(rows, mainRows, mainCols, columns, k);
    ResidueOneMore(rows, mainRows, g, list, mainRows[k]);
    var rest := CancelFrom(rows, mainRows, mainCols, SymDiff(columns, Elems(rows[mainRows[k]])), 0);
    assert list + ([mainRows[k]] + rest) == (list + [mainRows[k]]) + rest;
  }

  /** Adds one row of the matrix to the set of columns of C. */
  method ToggleRow(
      row0: set<nat>, columns: seq<nat>, mapping: seq<int>, ghost mainCols: seq<nat>, ghost before: set<nat>)
    returns (row: set<nat>)
    requires MappingOk(mapping, mainCols) && Distinct(columns) && Mapped(row0, mainCols, before)
    requires forall j :: 0 <= j < |columns| ==> columns[j] < |mapping|
    ensures Mapped(row, mainCols, SymDiff(before, Elems(columns)))
  {
    row := row0;
    for j := 0 to |columns|
      invariant Mapped(row, mainCols, SymDiff(before, Elems(columns[..j])))
    {
      var c := columns[j];
      assert columns[..j + 1] == columns[..j] + [c];
      assert Elems(columns[..j + 1]) == Elems(columns[..j]) + {c} && c !in Elems(columns[..j]);
      if mapping[c] != UNMAPPED {
        var x: nat := mapping[c];
        if x in row { row := row - {x}; } else { row := row + {x}; }
      }
    }
    assert columns[..|columns|] == columns;
  }

  /** One turn: the largest column goes, smaller ones may come. */
  method CancelLargest(
      rows: seq<seq<nat>>, mapping: seq<int>, mainRows: seq<nat>, mainCols: seq<nat>, ghost g: nat, row0: set<nat>,
      list0: seq<nat>)
    returns (row: set<nat>, list: seq<nat>, ghost largest: nat)
    requires RowsOk(rows, |mapping|) && Diagonal(rows, mainRows, mainCols) && MappingOk(mapping, mainCols) && g < |rows|
    requires row0 != {}
    requires OnDiagonal(rows, mainRows, list0) && Mapped(row0, mainCols, Residue(rows, g, list0))
    ensures OnDiagonal(rows, mainRows, list) && Mapped(row, mainCols, Residue(rows, g, list))
    ensures largest in row0 && forall x :: x in row ==> x < largest
    ensures Planned(rows, mainRows, mainCols, g, list) == Planned(rows, mainRows, mainCols, g, list0)
  {
    ghost var max := LargestOf(row0);
    var cCol: nat :| cCol in row0 && forall y :: y in row0 ==> y <= cCol;
    var hRow := mainRows[|mainRows| - 1 - cCol];
    ghost var before := Residue(rows, g, list0);
    row := ToggleRow(row0, rows[hRow], mapping, mainCols, before);
    ResidueOneMore(rows, mainRows, g, list0, hRow);
    list := list0 + [hRow];
    LargestFalls(rows, mainRows, mainCols, row, before, cCol);
    PlanKept(rows, mainRows, mainCols, g, list0, row0, cCol);
    largest := cCol;
  }

  /** The loop for one gap row: its largest remaining column of C is cancelled by the diagonal row of that column,
      which brings in smaller columns only. */
  method ReduceRow(rows: seq<seq<nat>>, mapping: seq<int>, mainRows: seq<nat>, mainCols: seq<nat>, g: nat)
    returns (list: seq<nat>)
    requires RowsOk(rows, |mapping|) && Diagonal(rows, mainRows, mainCols) && MappingOk(mapping, mainCols) && g < |rows|
    ensures Cancels(rows, mainRows, mainCols, g, list) && list == FcRow(rows, mainRows, mainCols, g)
  {
    var m := |mainRows|;
    list := [];
    var row: set<nat> := ToggleRow({}, rows[g], mapping, mainCols, {});
    assert SymDiff({}, Elems(rows[g])) == Residue(rows, g, []);
    ghost var bound := m;
    while row != {}
      invariant OnDiagonal(rows, mainRows, list)
      invariant Mapped(row, mainCols, Residue(rows, g, list))
      invariant forall x :: x in row ==> x < bound
      invariant Planned(rows, mainRows, mainCols, g, list) == FcRow(rows, mainRows, mainCols, g)
      decreases bound
    {
      row, list, bound := CancelLargest(rows, mapping, mainRows, mainCols, g, row, list);
    }
    CancelSkips(rows, mainRows, mainCols, Residue(rows, g, list), 0, |mainCols|);
  }

  lemma {:induction false} LargestFalls(
      rows: seq<seq<nat>>, mainRows: seq<nat>, mainCols: seq<nat>, row: set<nat>, before: set<nat>, cCol: nat)
    requires Diagonal(rows, mainRows, mainCols) && cCol < |mainRows|
    requires mainCols[|mainRows| - 1 - cCol] in before
    requires forall p: nat :: p < |mainRows| - 1 - cCol ==> mainCols[p] !in before
    requires Mapped(row, mainCols, SymDiff(before, Elems(rows[mainRows[|mainRows| - 1 - cCol]])))
    ensures forall x :: x in row ==> x < cCol
  {
    var k := |mainRows| - 1 - cCol;
    forall x | x in row ensures x < cCol {
      var p: nat := |mainRows| - 1 - x;
      assert |mainCols| - 1 - p in row;
      assert p < k ==> Clear(rows, mainRows, mainCols, p, k);
    }
  }

  lemma {:induction false} DiagonalDistinct(rows: seq<seq<nat>>, mainRows: seq<nat>, mainCols: seq<nat>)
    requires Diagonal(rows, mainRows, mainCols)
    ensures Distinct(mainCols)
  {
    forall j, k | 0 <= j < k < |mainCols| ensures mainCols[j] != mainCols[k] {
      assert Clear(rows, mainRows, mainCols, j, k);
    }
  }

  /** The list of one gap row.  A gap row equal to its partner is cancelled by the partner alone. */
  method OneList(
      rows: seq<seq<nat>>, n: nat, mapping0: seq<int>, mainRows: seq<nat>, mainCols: seq<nat>, gap: (nat, nat))
    returns (list: seq<nat>, mapping: seq<int>)
    requires RowsOk(rows, n) && Diagonal(rows, mainRows, mainCols)
    requires gap.0 < |rows| && gap.1 < |rows| && gap.1 in mainRows
    requires mapping0 == [] || (|mapping0| == n && MappingOk(mapping0, mainCols))
    ensures mapping == [] || (|mapping| == n && MappingOk(mapping, mainCols))
    ensures Cancels(rows, mainRows, mainCols, gap.0, list) && list == FcRow(rows, mainRows, mainCols, gap.0)
  {
    var (a, b) := gap;
    mapping := mapping0;
    if rows[a] == rows[b] {
      list := [b];
      CancelEqual(rows, mainRows, mainCols, a, b);
      assert list[..0] == [];
      assert Residue(rows, a, list) == SymDiff(Elems(rows[a]), Elems(rows[b])) == {};
    } else {
      if mapping == [] {
        DiagonalDistinct(rows, mainRows, mainCols);
        mapping := MapColumns(n, mainCols);
      }
      list := ReduceRow(rows, mapping, mainRows, mainCols, a);
    }
  }

  /** `getFCInv`. */
  method GetFCInv(rows: seq<seq<nat>>, n: nat, mainRows: seq<nat>, mainCols: seq<nat>, gapRows: seq<(nat, nat)>)
    returns (lists: seq<seq<nat>>)
    requires RowsOk(rows, n) && Diagonal(rows, mainRows, mainCols)
    requires forall g :: 0 <= g < |gapRows| ==>
      gapRows[g].0 < |rows| && gapRows[g].1 < |rows| && gapRows[g].1 in mainRows
    ensures |lists| == |gapRows|
    ensures forall g :: 0 <= g < |gapRows| ==> Cancels(rows, mainRows, mainCols, gapRows[g].0, lists[g])
    ensures lists == FcRows(rows, mainRows, mainCols, gapRows)
  {
    var mapping: seq<int> := [];
    lists := [];
    for g := 0 to |gapRows|
      invariant |lists| == g
      invariant mapping == [] || (|mapping| == n && MappingOk(mapping, mainCols))
      invariant forall i :: 0 <= i < g ==> Cancels(rows, mainRows, mainCols, gapRows[i].0, lists[i])
      invariant forall i :: 0 <= i < g ==> lists[i] == FcRow(rows, mainRows, mainCols, gapRows[i].0)
    {
      var list;
      list, mapping := OneList(rows, n, mapping, mainRows, mainCols, gapRows[g]);
      lists := lists + [list];
    }
  }
}
