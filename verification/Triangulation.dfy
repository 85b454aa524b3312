/** The greedy triangulation of the sparse part of the Paxos matrix (`triangulate` of volePSI/PaxosImpl.h).

    It repeatedly fixes a column of least positive weight.  The first open row of that column goes on the
    diagonal, the other open rows of it go into the gap. */
module Triangulation {
  import opened Prelude
  import opened WeightSets
  import opened Greedy

  datatype Triangulated =
    | Triangle(mainRows: seq<nat>, mainCols: seq<nat>, gapRows: seq<(nat, nat)>)
    | DuplicateKeys(row1: nat, row2: nat)
    | NoColumnLeft

  // ------------------------------------------------- the matrix

  /** Every row lists distinct columns below n, at least one. */
  ghost predicate RowsOk(rows: seq<seq<nat>>, n: nat) {
    forall r :: 0 <= r < |rows| ==>
      |rows[r]| > 0 && Distinct(rows[r]) && forall j :: 0 <= j < |rows[r]| ==> rows[r][j] < n
  }

  ghost predicate Contains(cols: seq<seq<nat>>, c: nat, r: nat)
    requires c < |cols|
  { r in cols[c] }

  /** Column c lists each row that contains it once. */
  ghost predicate Transposed(rows: seq<seq<nat>>, cols: seq<seq<nat>>) {
    && (forall c :: 0 <= c < |cols| ==> Distinct(cols[c]))
    && (forall c: nat, r: nat {:trigger Contains(cols, c, r)} ::
          c < |cols| ==> (Contains(cols, c, r) <==> r < |rows| && c in rows[r]))
  }

  // ------------------------------------------------- counting open rows

  /** How many of the first t rows of the list are not done. */
  ghost function Open(list: seq<nat>, done: seq<bool>, t: nat): nat
    requires t <= |list| && forall i :: 0 <= i < |list| ==> list[i] < |done|
  {
    if t == 0 then 0 else Open(list, done, t - 1) + if done[list[t - 1]] then 0 else 1
  }

  lemma {:induction false} OpenPositive(list: seq<nat>, done: seq<bool>, t: nat)
    requires t <= |list| && forall i :: 0 <= i < |list| ==> list[i] < |done|
    ensures Open(list, done, t) == 0 <==> forall i :: 0 <= i < t ==> done[list[i]]
  {
    if t > 0 { OpenPositive(list, done, t - 1); }
  }

  lemma {:induction false} OpenAtStart(list: seq<nat>, done: seq<bool>, t: nat)
    requires t <= |list| && forall i :: 0 <= i < |list| ==> list[i] < |done|
    requires forall r :: 0 <= r < |done| ==> !done[r]
    ensures Open(list, done, t) == t
  {
    if t > 0 { OpenAtStart(list, done, t - 1); }
  }

  /** Finishing a row lowers the count of the lists that hold it by one. */
  lemma {:induction false} OpenAfter(list: seq<nat>, done: seq<bool>, r: nat, t: nat)
    requires t <= |list| && forall i :: 0 <= i < |list| ==> list[i] < |done|
    requires Distinct(list) && r < |done| && !done[r]
    ensures Open(list, done, t) == Open(list, done[r := true], t) + if r in list[..t] then 1 else 0
  {
    if t > 0 {
      OpenAfter(list, done, r, t - 1);
      assert list[..t] == list[..t - 1] + [list[t - 1]];
    }
  }

  ghost function OpenIn(list: seq<nat>, done: seq<bool>): set<nat> { set r: nat | r < |done| && r in list && !done[r] }

  lemma {:induction false} OpenInPush(list: seq<nat>, done: seq<bool>, x: nat)
    requires x < |done| && x !in list
    ensures |OpenIn(list + [x], done)| == |OpenIn(list, done)| + if done[x] then 0 else 1
  {
    assert OpenIn(list + [x], done) == if done[x] then OpenIn(list, done) else OpenIn(list, done) + {x};
  }

  lemma {:induction false} OpenIsSize(list: seq<nat>, done: seq<bool>, t: nat)
    requires t <= |list| && forall i :: 0 <= i < |list| ==> list[i] < |done|
    requires Distinct(list)
    ensures Open(list, done, t) == |OpenIn(list[..t], done)|
  {
    if t > 0 {
      OpenIsSize(list, done, t - 1);
      assert list[..t] == list[..t - 1] + [list[t - 1]];
      OpenInPush(list[..t - 1], done, list[t - 1]);
    } else {
      assert OpenIn([], done) == {} && list[..0] == [];
    }
  }

  // ------------------------------------------------- the result

  ghost function GapIds(gapRows: seq<(nat, nat)>): (s: seq<nat>)
    ensures |s| == |gapRows| && forall g :: 0 <= g < |s| ==> s[g] == gapRows[g].0
  {
    seq(|gapRows|, g requires 0 <= g < |gapRows| => gapRows[g].0)
  }

  /** Row k of the diagonal has column k, and none of the columns before it. */
  ghost predicate Diagonal(rows: seq<seq<nat>>, mainRows: seq<nat>, mainCols: seq<nat>) {
    && |mainRows| == |mainCols|
    && (forall k :: 0 <= k < |mainRows| ==> mainRows[k] < |rows| && mainCols[k] in rows[mainRows[k]])
    && (forall j, k {:trigger Clear(rows, mainRows, mainCols, j, k)} ::
          0 <= j < k < |mainRows| ==> Clear(rows, mainRows, mainCols, j, k))
  }

  /** Row k does not contain column j. */
  ghost predicate Clear(rows: seq<seq<nat>>, mainRows: seq<nat>, mainCols: seq<nat>, j: nat, k: nat)
    requires j < |mainCols| && k < |mainRows| && mainRows[k] < |rows|
  {
    mainCols[j] !in rows[mainRows[k]]
  }

  /** Each row for which done holds was taken once, either on the diagonal or in the gap. */
  ghost predicate Partition(done: seq<bool>, mainRows: seq<nat>, gapRows: seq<(nat, nat)>) {
    && Distinct(mainRows) && Distinct(GapIds(gapRows))
    && (forall r: nat {:trigger Taken(mainRows, gapRows, r)} ::
          && (Taken(mainRows, gapRows, r) <==> r < |done| && done[r])
          && !(r in mainRows && r in GapIds(gapRows)))
  }

  ghost predicate Taken(mainRows: seq<nat>, gapRows: seq<(nat, nat)>, r: nat) {
    r in mainRows || r in GapIds(gapRows)
  }

  /** Gap row r was met while column k was being fixed: it has column k, and none of the columns before it. */
  ghost predicate Beside(rows: seq<seq<nat>>, mainCols: seq<nat>, r: nat, k: nat) {
    && r < |rows| && k < |mainCols| && mainCols[k] in rows[r]
    && forall j :: 0 <= j < k ==> mainCols[j] !in rows[r]
  }

  /** A gap row is paired with the diagonal row of the same step, whose dense part differs. */
  ghost predicate GapRowOk<D>(
      rows: seq<seq<nat>>, dense: seq<D>, mainRows: seq<nat>, mainCols: seq<nat>, gap: (nat, nat)) {
    && gap.0 < |dense| && gap.1 < |dense| && dense[gap.0] != dense[gap.1]
    && exists k: nat {:trigger Beside(rows, mainCols, gap.0, k)} ::
         k < |mainRows| && mainRows[k] == gap.1 && Beside(rows, mainCols, gap.0, k)
  }

  ghost predicate GapOk<D>(
      rows: seq<seq<nat>>, dense: seq<D>, mainRows: seq<nat>, mainCols: seq<nat>, gapRows: seq<(nat, nat)>) {
    forall g {:trigger GapRowOk(rows, dense, mainRows, mainCols, gapRows[g])} ::
      0 <= g < |gapRows| ==> GapRowOk(rows, dense, mainRows, mainCols, gapRows[g])
  }

  // ------------------------------------------------- the invariant

  /** The rows that are done are those with a fixed column. */
  ghost predicate DoneMet(rows: seq<seq<nat>>, done: seq<bool>, fixed: seq<nat>) {
    |done| == |rows| && forall r {:trigger rows[r]} :: 0 <= r < |rows| ==> (done[r] <==> Meets(rows[r], fixed))
  }

  /** A fixed column: all its rows are done. */
  ghost predicate Closed(cols: seq<seq<nat>>, done: seq<bool>, c: nat) {
    c < |cols| && forall i :: 0 <= i < |cols[c]| ==> cols[c][i] < |done| && done[cols[c][i]]
  }

  /** The queue holds the open columns, with the number of their open rows as weight; others weigh nothing. */
  ghost predicate QueueOk(cols: seq<seq<nat>>, weights: seq<nat>, linked: set<nat>, done: seq<bool>) {
    && |weights| == |cols|
    && (forall c, i :: 0 <= c < |cols| && 0 <= i < |cols[c]| ==> cols[c][i] < |done|)
    && (forall c :: c in linked ==> c < |cols|)
    && (forall c {:trigger weights[c]} ::
          0 <= c < |cols| ==> weights[c] == if c in linked then Open(cols[c], done, |cols[c]|) else 0)
  }

  ghost predicate Progress<D>(
      rows: seq<seq<nat>>, cols: seq<seq<nat>>, dense: seq<D>, done: seq<bool>, mainRows: seq<nat>,
      mainCols: seq<nat>, gapRows: seq<(nat, nat)>) {
    && |done| == |rows| == |dense|
    && Diagonal(rows, mainRows, mainCols)
    && Partition(done, mainRows, gapRows)
    && GapOk(rows, dense, mainRows, mainCols, gapRows)
  }

  // ------------------------------------------------- the steps

  /** The weights after a row has left the queue. */
  ghost function Released(weights: seq<nat>, row: seq<nat>): (r: seq<nat>)
    ensures |r| == |weights|
    ensures forall c :: 0 <= c < |r| ==> r[c] == if c in row && weights[c] > 0 then weights[c] - 1 else weights[c]
  {
    seq(|weights|, c requires 0 <= c < |weights| => if c in row && weights[c] > 0 then weights[c] - 1 else weights[c])
  }

  /** The row has a column of positive weight, and it is the last one of the queue. */
  ghost predicate HasLast(weights: seq<nat>, linked: set<nat>, row: seq<nat>)
    requires forall j :: 0 <= j < |row| ==> row[j] < |weights|
  {
    exists j :: 0 <= j < |row| && weights[row[j]] > 0 && linked == {row[j]}
  }

  /** The columns of the row that are queued, in order. */
  ghost function Lowered(weights: seq<nat>, row: seq<nat>): seq<nat>
    requires forall j :: 0 <= j < |row| ==> row[j] < |weights|
  {
    if row == [] then []
    else Lowered(weights, row[..|row| - 1]) + if weights[row[|row| - 1]] > 0 then [row[|row| - 1]] else []
  }

  lemma {:induction false} LoweredOneMore(weights: seq<nat>, row: seq<nat>, j: nat)
    requires j < |row| && forall j :: 0 <= j < |row| ==> row[j] < |weights|
    ensures Lowered(weights, row[..j + 1]) == Lowered(weights, row[..j]) + if weights[row[j]] > 0 then [row[j]] else []
  {
    assert row[..j + 1][..j] == row[..j];
  }

  /** After the first j columns of the row. */
  ghost predicate InRelease(
      wd: WeightData, row: seq<nat>, j: nat, weights: seq<nat>, linked: set<nat>, pushes: seq<nat>)
    requires j <= |row| && forall i :: 0 <= i < |row| ==> row[i] < |weights|
    reads wd, wd.nodes
  {
    && wd.Valid() && wd.Trimmed() && wd.linked == linked && wd.Weights() == Released(weights, row[..j])
    && wd.pushes == pushes + Lowered(weights, row[..j])
    && !HasLast(weights, linked, row[..j])
  }

  lemma {:induction false} HasLastOneMore(weights: seq<nat>, linked: set<nat>, row: seq<nat>, j: nat)
    requires j < |row| && forall i :: 0 <= i < |row| ==> row[i] < |weights|
    ensures HasLast(weights, linked, row[..j + 1]) <==>
            HasLast(weights, linked, row[..j]) || (weights[row[j]] > 0 && linked == {row[j]})
    ensures HasLast(weights, linked, row[..j + 1]) ==> HasLast(weights, linked, row)
  {
    var more := row[..j + 1];
    assert more == row[..j] + [row[j]];
    if i :| 0 <= i < |more| && weights[more[i]] > 0 && linked == {more[i]} {
      assert weights[row[i]] > 0 && linked == {row[i]};
      assert i < j ==> row[..j][i] == row[i];
    }
    if i :| 0 <= i < j && weights[row[..j][i]] > 0 && linked == {row[..j][i]} {
      assert more[i] == row[..j][i];
    }
    assert more[j] == row[j];
  }

  lemma {:induction false} ReleasedOneMore(weights: seq<nat>, row: seq<nat>, j: nat)
    requires j < |row| && Distinct(row) && forall i :: 0 <= i < |row| ==> row[i] < |weights|
    ensures var w, c := Released(weights, row[..j]), row[j];
      && w[c] == weights[c]
      && Released(weights, row[..j + 1]) == if w[c] > 0 then w[c := w[c] - 1] else w
  {
    assert row[..j + 1] == row[..j] + [row[j]];
  }

  /** What one more column of the row does to the weights, to the columns put back, and to the queue running empty. */
  lemma {:induction false} ReleaseStep(weights: seq<nat>, linked: set<nat>, pushes: seq<nat>, row: seq<nat>, j: nat)
    requires j < |row| && Distinct(row) && forall i :: 0 <= i < |row| ==> row[i] < |weights|
    ensures var w, c := Released(weights, row[..j]), row[j];
      && w[c] == weights[c]
      && Released(weights, row[..j + 1]) == if weights[c] > 0 then w[c := w[c] - 1] else w
    ensures pushes + Lowered(weights, row[..j + 1])
         == pushes + Lowered(weights, row[..j]) + if weights[row[j]] > 0 then [row[j]] else []
    ensures HasLast(weights, linked, row[..j + 1]) <==>
            HasLast(weights, linked, row[..j]) || (weights[row[j]] > 0 && linked == {row[j]})
    ensures HasLast(weights, linked, row[..j + 1]) ==> HasLast(weights, linked, row)
  {
    ReleasedOneMore(weights, row, j);
    LoweredOneMore(weights, row, j);
    HasLastOneMore(weights, linked, row, j);
    var s, more := Lowered(weights, row[..j]), if weights[row[j]] > 0 then [row[j]] else [];
    assert pushes + (s + more) == pushes + s + more;
  }

  method LowerColumn(
      wd: WeightData, row: seq<nat>, j: nat, ghost weights: seq<nat>, ghost linked: set<nat>, ghost pushes: seq<nat>)
    returns (ok: bool)
    requires Distinct(row) && j < |row| && |weights| == wd.nodes.Length
    requires forall i :: 0 <= i < |row| ==> row[i] < |weights|
    requires InRelease(wd, row, j, weights, linked, pushes) && (weights[row[j]] > 0 ==> row[j] in linked)
    modifies wd, wd.nodes
    ensures ok ==> InRelease(wd, row, j + 1, weights, linked, pushes)
    ensures !ok ==> HasLast(weights, linked, row)
  {
    ReleaseStep(weights, linked, pushes, row, j);
    var c := row[j];
    assert wd.nodes[c].weight == wd.Weights()[c] == weights[c];
    ok := true;
    if wd.nodes[c].weight != 0 {
      ok := wd.DecrementWeight(c);
    }
  }

  /** Takes a row off the queue.  False if that empties the queue on the way. */
  method ReleaseRow(wd: WeightData, row: seq<nat>) returns (ok: bool)
    requires wd.Valid() && wd.Trimmed()
    requires Distinct(row) && forall j :: 0 <= j < |row| ==> row[j] < wd.nodes.Length
    requires forall j :: 0 <= j < |row| && wd.Weights()[row[j]] > 0 ==> row[j] in wd.linked
    modifies wd, wd.nodes
    ensures ok <==> !HasLast(old(wd.Weights()), old(wd.linked), row)
    ensures ok ==> wd.Valid() && wd.Trimmed() && wd.linked == old(wd.linked)
    ensures ok ==> wd.Weights() == Released(old(wd.Weights()), row)
    ensures ok ==> wd.pushes == old(wd.pushes) + Lowered(old(wd.Weights()), row)
  {
    ghost var weights, linked, pushes := wd.Weights(), wd.linked, wd.pushes;
    assert weights == Released(weights, row[..0]);
    for j := 0 to |row|
      invariant InRelease(wd, row, j, weights, linked, pushes)
    {
      ok := LowerColumn(wd, row, j, weights, linked, pushes);
      if !ok {
        return;
      }
    }
    assert row[..|row|] == row;
    return true;
  }

  /** Finishing a row keeps the queue in step. */
  lemma {:induction false} QueueAfter(
      rows: seq<seq<nat>>, cols: seq<seq<nat>>, weights: seq<nat>, linked: set<nat>, done: seq<bool>, r: nat)
    requires Transposed(rows, cols) && QueueOk(cols, weights, linked, done) && |done| == |rows|
    requires r < |rows| && !done[r]
    ensures QueueOk(cols, Released(weights, rows[r]), linked, done[r := true])
  {
    forall c: nat | c < |cols|
      ensures Released(weights, rows[r])[c] == if c in linked then Open(cols[c], done[r := true], |cols[c]|) else 0
    {
      assert Contains(cols, c, r) <==> c in rows[r];
      OpenAfter(cols[c], done, r, |cols[c]|);
      assert cols[c][..|cols[c]|] == cols[c];
    }
  }

  /** The columns of an open row that are queued have positive weight. */
  lemma {:induction false} OnlyIsLast(
      rows: seq<seq<nat>>, cols: seq<seq<nat>>, weights: seq<nat>, linked: set<nat>, done: seq<bool>, r: nat)
    requires RowsOk(rows, |cols|) && Transposed(rows, cols) && QueueOk(cols, weights, linked, done)
    requires |done| == |rows| && r < |rows| && !done[r]
    ensures HasLast(weights, linked, rows[r]) <==> HasOnly(linked, rows[r])
  {
    if d :| d in rows[r] && linked == {d} {
      var j :| 0 <= j < |rows[r]| && rows[r][j] == d;
      assert d in linked && Contains(cols, d, r);
      OpenPositive(cols[d], done, |cols[d]|);
      assert weights[d] > 0 && linked == {rows[r][j]};
    }
  }

  /** Of an open row all columns are queued, other than the one that is being fixed. */
  lemma {:induction false} LoweredIsOthers(
      rows: seq<seq<nat>>, cols: seq<seq<nat>>, weights: seq<nat>, linked: set<nat>, done: seq<bool>, fixed: seq<nat>,
      col: nat, r: nat, j: nat)
    requires RowsOk(rows, |cols|) && Transposed(rows, cols) && QueueOk(cols, weights, linked, done)
    requires |done| == |rows| && r < |rows| && !done[r] && j <= |rows[r]| && col !in linked
    requires forall k :: 0 <= k < |fixed| ==> Closed(cols, done, fixed[k])
    requires forall c: nat :: c < |cols| && c !in linked && c != col ==> c in fixed
    ensures Lowered(weights, rows[r][..j]) == Others(rows[r][..j], fixed + [col])
  {
    if j > 0 {
      LoweredIsOthers(rows, cols, weights, linked, done, fixed, col, r, j - 1);
      var x := rows[r][j - 1];
      assert rows[r][..j][..j - 1] == rows[r][..j - 1];
      assert Contains(cols, x, r);
      OpenPositive(cols[x], done, |cols[x]|);
      forall k | 0 <= k < |fixed| ensures fixed[k] != x {
        assert Closed(cols, done, fixed[k]);
      }
      assert x in fixed + [col] <==> x == col;
    }
  }

  ghost predicate SameDense<D>(dense: seq<D>, pair: (nat, nat)) {
    pair.0 < |dense| && pair.1 < |dense| && pair.0 != pair.1 && dense[pair.0] == dense[pair.1]
  }

  lemma {:induction false} PartitionExtended(
      done: seq<bool>, mainRows: seq<nat>, gapRows: seq<(nat, nat)>, r: nat, m: nat)
    requires Partition(done, mainRows, gapRows) && r < |done| && !done[r]
    ensures Partition(done[r := true], mainRows + [r], gapRows)
    ensures Partition(done[r := true], mainRows, gapRows + [(r, m)])
  {
    assert Taken(mainRows, gapRows, r) <==> false;
    var gapRows' := gapRows + [(r, m)];
    assert GapIds(gapRows') == GapIds(gapRows) + [r];
    forall x: nat
      ensures Taken(mainRows + [r], gapRows, x) <==> Taken(mainRows, gapRows, x) || x == r
      ensures Taken(mainRows, gapRows', x) <==> Taken(mainRows, gapRows, x) || x == r
      ensures !(x in mainRows && x in GapIds(gapRows))
    {
      assert Taken(mainRows, gapRows, x) || true;
    }
  }

  /** What is known while column col, already taken off the queue, is being fixed. */
  ghost predicate Fixing<D>(
      rows: seq<seq<nat>>, cols: seq<seq<nat>>, dense: seq<D>, done: seq<bool>, fixed: seq<nat>, col: nat,
      first: bool, mainRows: seq<nat>, mainCols: seq<nat>, gapRows: seq<(nat, nat)>) {
    && Progress(rows, cols, dense, done, mainRows, mainCols, gapRows)
    && (forall k :: 0 <= k < |fixed| ==> Closed(cols, done, fixed[k]))
    && mainCols == (if first then fixed else fixed + [col])
  }

  /** The first open row of a column is put on the diagonal. */
  lemma {:induction false} TakeMain<D>(
      rows: seq<seq<nat>>, cols: seq<seq<nat>>, dense: seq<D>, done: seq<bool>, fixed: seq<nat>, col: nat,
      mainRows: seq<nat>, gapRows: seq<(nat, nat)>, r: nat)
    requires Transposed(rows, cols) && col < |cols| && Contains(cols, col, r) && r < |done| && !done[r]
    requires Fixing(rows, cols, dense, done, fixed, col, true, mainRows, fixed, gapRows)
    ensures Fixing(rows, cols, dense, done[r := true], fixed, col, false, mainRows + [r], fixed + [col], gapRows)
  {
    PartitionExtended(done, mainRows, gapRows, r, 0);
    forall k | 0 <= k < |fixed| ensures fixed[k] !in rows[r] {
      assert Closed(cols, done, fixed[k]);
      assert Contains(cols, fixed[k], r) <==> fixed[k] in rows[r];
    }
    var mainRows', mainCols' := mainRows + [r], fixed + [col];
    forall j, k | 0 <= j < k < |mainRows'| ensures Clear(rows, mainRows', mainCols', j, k) {
      assert k < |mainRows| ==> Clear(rows, mainRows, fixed, j, k);
    }
    forall g | 0 <= g < |gapRows| ensures GapRowOk(rows, dense, mainRows', mainCols', gapRows[g]) {
      assert GapRowOk(rows, dense, mainRows, fixed, gapRows[g]);
      var k: nat :| k < |mainRows| && mainRows[k] == gapRows[g].1 && Beside(rows, fixed, gapRows[g].0, k);
      assert Beside(rows, mainCols', gapRows[g].0, k);
    }
  }

  /** A later open row of the column goes into the gap. */
  lemma {:induction false} TakeGap<D>(
      rows: seq<seq<nat>>, cols: seq<seq<nat>>, dense: seq<D>, done: seq<bool>, fixed: seq<nat>, col: nat,
      mainRows: seq<nat>, mainCols: seq<nat>, gapRows: seq<(nat, nat)>, r: nat)
    requires Transposed(rows, cols) && col < |cols| && Contains(cols, col, r) && r < |done| && !done[r]
    requires Fixing(rows, cols, dense, done, fixed, col, false, mainRows, mainCols, gapRows)
    requires dense[mainRows[|mainRows| - 1]] != dense[r]
    ensures Fixing(rows, cols, dense, done[r := true], fixed, col, false, mainRows, mainCols,
                   gapRows + [(r, mainRows[|mainRows| - 1])])
  {
    var gap := (r, mainRows[|mainRows| - 1]);
    PartitionExtended(done, mainRows, gapRows, r, gap.1);
    forall k | 0 <= k < |fixed| ensures fixed[k] !in rows[r] {
      assert Closed(cols, done, fixed[k]);
      assert Contains(cols, fixed[k], r) <==> fixed[k] in rows[r];
    }
    assert Beside(rows, mainCols, r, |mainRows| - 1);
    assert GapRowOk(rows, dense, mainRows, mainCols, gap);
    var gapRows' := gapRows + [gap];
    forall g | 0 <= g < |gapRows'| ensures GapRowOk(rows, dense, mainRows, mainCols, gapRows'[g]) {
      if g < |gapRows| {
        assert GapRowOk(rows, dense, mainRows, mainCols, gapRows[g]);
      }
    }
  }

  /** The queue together with the work done so far, while column col is being fixed. */
  ghost predicate Consistent<D>(
      rows: seq<seq<nat>>, cols: seq<seq<nat>>, dense: seq<D>, wd: WeightData, done: array<bool>, fixed: seq<nat>,
      col: nat)
    reads wd, wd.nodes, done
  {
    && wd.Valid() && wd.Trimmed() && wd.nodes.Length == |cols|
    && QueueOk(cols, wd.Weights(), wd.linked, done[..])
    && (forall c: nat :: c < |cols| && c !in wd.linked && c != col ==> c in fixed)
  }

  /** How a step ends: the two rows have the same dense part, or the queue has run empty. */
  datatype Stop = Proceed | Duplicate(pair: (nat, nat)) | QueueEmptied

  /** One open row r of column col: it leaves the queue, and goes on the diagonal or into the gap.
      It stops if it has the dense part of the diagonal row of this column. */
  method TakeRow<D(==)>(
      wd: WeightData, rows: seq<seq<nat>>, ghost cols: seq<seq<nat>>, dense: seq<D>, done: array<bool>,
      ghost fixed: seq<nat>, col: nat, first: bool, r: nat, mainRows0: seq<nat>, mainCols0: seq<nat>,
      gapRows0: seq<(nat, nat)>)
    returns (mainRows: seq<nat>, mainCols: seq<nat>, gapRows: seq<(nat, nat)>, stop: Stop)
    requires RowsOk(rows, |cols|) && Transposed(rows, cols)
    requires Consistent(rows, cols, dense, wd, done, fixed, col)
    requires Fixing(rows, cols, dense, done[..], fixed, col, first, mainRows0, mainCols0, gapRows0)
    requires col < |cols| && Contains(cols, col, r) && r < done.Length && !done[r]
    requires col !in wd.linked
    modifies wd, wd.nodes, done
    ensures stop.QueueEmptied? <==> HasOnly(old(wd.linked), rows[r])
    ensures !stop.QueueEmptied? ==> Consistent(rows, cols, dense, wd, done, fixed, col) && wd.linked == old(wd.linked)
    ensures done[..] == old(done[..])[r := true]
    ensures !stop.QueueEmptied? ==> wd.pushes == old(wd.pushes) + Others(rows[r], fixed + [col])
    ensures stop.Proceed? ==>
              Fixing(rows, cols, dense, done[..], fixed, col, false, mainRows, mainCols, gapRows)
    ensures stop.Proceed? && first ==> mainRows == mainRows0 + [r] && gapRows == gapRows0
    ensures stop.Proceed? && !first ==>
              mainRows0 != [] && mainRows == mainRows0 && gapRows == gapRows0 + [(r, mainRows0[|mainRows0| - 1])]
    ensures stop.Duplicate? ==> !first && mainRows0 != [] && stop.pair == (mainRows0[|mainRows0| - 1], r)
    ensures stop.Duplicate? ==> SameDense(dense, stop.pair)
  {
    mainRows, mainCols, gapRows, stop := mainRows0, mainCols0, gapRows0, Proceed;
    ghost var before := done[..];
    QueueAfter(rows, cols, wd.Weights(), wd.linked, before, r);
    OnlyIsLast(rows, cols, wd.Weights(), wd.linked, before, r);
    LoweredIsOthers(rows, cols, wd.Weights(), wd.linked, before, fixed, col, r, |rows[r]|);
    assert rows[r][..|rows[r]|] == rows[r];
    done[r] := true;
    assert done[..] == before[r := true];
    var ok := ReleaseRow(wd, rows[r]);
    if !ok {
      stop := QueueEmptied;
      return;
    }
    if first {
      TakeMain(rows, cols, dense, before, fixed, col, mainRows, gapRows, r);
      mainRows := mainRows + [r];
      mainCols := mainCols + [col];
    } else {
      var m := mainRows[|mainRows| - 1];
      if dense[m] == dense[r] {
        stop := Duplicate((m, r));
        assert Taken(mainRows, gapRows, m);
      } else {
        TakeGap(rows, cols, dense, before, fixed, col, mainRows, mainCols, gapRows, r);
        gapRows := gapRows + [(r, m)];
      }
    }
  }

  ghost predicate DoneBelow(column: seq<nat>, done: seq<bool>, t: nat) {
    t <= |column| && forall i :: 0 <= i < t ==> column[i] < |done| && done[column[i]]
  }

  lemma {:induction false} DoneOneMore(column: seq<nat>, done: seq<bool>, t: nat)
    requires DoneBelow(column, done, t) && t < |column| && column[t] < |done|
    ensures DoneBelow(column, done[column[t] := true], t + 1) && (done[column[t]] ==> DoneBelow(column, done, t + 1))
  {
  }

  /** What has been taken and put back for the first t rows of the column. */
  ghost predicate TookTo(
      rows: seq<seq<nat>>, column: seq<nat>, fixed: seq<nat>, col: nat, t: nat, main: seq<nat>, gap: seq<(nat, nat)>,
      first: bool, mainRows: seq<nat>, gapRows: seq<(nat, nat)>, pushes0: seq<nat>, pushes: seq<nat>) {
    && t <= |column|
    && var open := OpenTo(rows, column, fixed, t);
    && (first <==> open == []) && Took(main, gap, open, mainRows, gapRows)
    && pushes == pushes0 + PutBack(rows, open, fixed + [col])
  }

  lemma {:induction false} PutBackOneMore(
      rows: seq<seq<nat>>, column: seq<nat>, fixed: seq<nat>, gone: seq<nat>, t: nat)
    requires t < |column| && column[t] < |rows|
    ensures var r, open, more := column[t], OpenTo(rows, column, fixed, t), OpenTo(rows, column, fixed, t + 1);
      if Meets(rows[r], fixed) then more == open
      else more == open + [r] && PutBack(rows, more, gone) == PutBack(rows, open, gone) + Others(rows[r], gone)
  {
    var open := OpenTo(rows, column, fixed, t);
    assert (open + [column[t]])[..|open|] == open;
  }

  /** The pair is one of a later row and the first one, among the first t rows of the column. */
  ghost predicate PairsTo(rows: seq<seq<nat>>, column: seq<nat>, fixed: seq<nat>, t: nat, pair: (nat, nat)) {
    t <= |column| && (pair.1, pair.0) in Pairs(OpenTo(rows, column, fixed, t))
  }

  lemma {:induction false} PairsGrow(
      rows: seq<seq<nat>>, column: seq<nat>, fixed: seq<nat>, t: nat, u: nat, pair: (nat, nat))
    requires PairsTo(rows, column, fixed, t, pair) && t <= u <= |column|
    ensures PairsTo(rows, column, fixed, u, pair)
  {
    if t < u {
      PairsGrow(rows, column, fixed, t, u - 1, pair);
      var open, more := OpenTo(rows, column, fixed, u - 1), OpenTo(rows, column, fixed, u);
      var i :| 0 <= i < |Pairs(open)| && Pairs(open)[i] == (pair.1, pair.0);
      assert Pairs(more)[i] == (pair.1, pair.0);
    }
  }

  lemma {:induction false} LastPair(open: seq<nat>, r: nat)
    requires open != []
    ensures (r, open[0]) in Pairs(open + [r])
  {
    assert Pairs(open + [r])[|open| - 1] == (r, open[0]);
  }

  lemma {:induction false} TookStep(
      rows: seq<seq<nat>>, column: seq<nat>, fixed: seq<nat>, col: nat, t: nat, main: seq<nat>, gap: seq<(nat, nat)>,
      first: bool, mainRows: seq<nat>, gapRows: seq<(nat, nat)>, pushes0: seq<nat>, pushes: seq<nat>)
    requires TookTo(rows, column, fixed, col, t, main, gap, first, mainRows, gapRows, pushes0, pushes)
    requires t < |column| && column[t] < |rows|
    ensures Meets(rows[column[t]], fixed) ==>
      TookTo(rows, column, fixed, col, t + 1, main, gap, first, mainRows, gapRows, pushes0, pushes)
    ensures !Meets(rows[column[t]], fixed) && first ==>
      TookTo(rows, column, fixed, col, t + 1, main, gap, false, mainRows + [column[t]], gapRows, pushes0,
             pushes + Others(rows[column[t]], fixed + [col]))
    ensures !Meets(rows[column[t]], fixed) && !first ==> mainRows != []
    ensures !Meets(rows[column[t]], fixed) && !first ==>
      TookTo(rows, column, fixed, col, t + 1, main, gap, false, mainRows,
             gapRows + [(column[t], mainRows[|mainRows| - 1])], pushes0,
             pushes + Others(rows[column[t]], fixed + [col]))
    ensures !Meets(rows[column[t]], fixed) && !first ==>
      PairsTo(rows, column, fixed, t + 1, (mainRows[|mainRows| - 1], column[t]))
  {
    var open := OpenTo(rows, column, fixed, t);
    TookOneMore(main, gap, open, mainRows, gapRows, column[t]);
    PutBackOneMore(rows, column, fixed, fixed + [col], t);
    if open != [] {
      LastPair(open, column[t]);
    }
    assert pushes0 + (PutBack(rows, open, fixed + [col]) + Others(rows[column[t]], fixed + [col]))
        == pushes + Others(rows[column[t]], fixed + [col]);
  }

  /** The row at position t of the column, if it is still open. */
  method FixRow<D(==)>(
      wd: WeightData, rows: seq<seq<nat>>, cols: seq<seq<nat>>, dense: seq<D>, done: array<bool>,
      ghost fixed: seq<nat>, col: nat, first0: bool, t: nat, mainRows0: seq<nat>, mainCols0: seq<nat>,
      gapRows0: seq<(nat, nat)>, ghost main: seq<nat>, ghost gap: seq<(nat, nat)>, ghost pushes: seq<nat>)
    returns (first: bool, mainRows: seq<nat>, mainCols: seq<nat>, gapRows: seq<(nat, nat)>, stop: Stop)
    requires RowsOk(rows, |cols|) && Transposed(rows, cols)
    requires Consistent(rows, cols, dense, wd, done, fixed, col)
    requires Fixing(rows, cols, dense, done[..], fixed, col, first0, mainRows0, mainCols0, gapRows0)
    requires col < |cols| && col !in wd.linked && t < |cols[col]| && DoneBelow(cols[col], done[..], t)
    requires first0 ==> Open(cols[col], done[..], |cols[col]|) > 0
    requires cols[col][t] < |rows| == done.Length && (done[cols[col][t]] <==> Meets(rows[cols[col][t]], fixed))
    requires TookTo(rows, cols[col], fixed, col, t, main, gap, first0, mainRows0, gapRows0, pushes, wd.pushes)
    modifies wd, wd.nodes, done
    ensures stop.Proceed? ==>
              TookTo(rows, cols[col], fixed, col, t + 1, main, gap, first, mainRows, gapRows, pushes, wd.pushes)
    ensures stop.QueueEmptied? <==> !old(done[..])[cols[col][t]] && HasOnly(old(wd.linked), rows[cols[col][t]])
    ensures !stop.QueueEmptied? ==> Consistent(rows, cols, dense, wd, done, fixed, col) && wd.linked == old(wd.linked)
    ensures done[..] == old(done[..])[cols[col][t] := true]
    ensures stop.Proceed? ==> Fixing(rows, cols, dense, done[..], fixed, col, first, mainRows, mainCols, gapRows)
    ensures DoneBelow(cols[col], done[..], t + 1) && (first ==> Open(cols[col], done[..], |cols[col]|) > 0)
    ensures stop.Duplicate? ==> SameDense(dense, stop.pair) && PairsTo(rows, cols[col], fixed, t + 1, stop.pair)
  {
    first, mainRows, mainCols, gapRows, stop := first0, mainRows0, mainCols0, gapRows0, Proceed;
    var r := cols[col][t];
    assert Contains(cols, col, r);
    DoneOneMore(cols[col], done[..], t);
    TookStep(rows, cols[col], fixed, col, t, main, gap, first0, mainRows0, gapRows0, pushes, wd.pushes);
    if !done[r] {
      mainRows, mainCols, gapRows, stop :=
        TakeRow(wd, rows, cols, dense, done, fixed, col, first, r, mainRows, mainCols, gapRows);
      first := false;
    }
  }

  /** Row t of the column is open and has the only column of the queue. */
  ghost predicate Strands(
      rows: seq<seq<nat>>, cols: seq<seq<nat>>, done: seq<bool>, queue: set<nat>, col: nat, t: nat) {
    && col < |cols| && t < |cols[col]| && cols[col][t] < |rows| == |done|
    && !done[cols[col][t]] && HasOnly(queue, rows[cols[col][t]])
  }

  ghost predicate NoneStrands(
      rows: seq<seq<nat>>, cols: seq<seq<nat>>, done: seq<bool>, queue: set<nat>, col: nat, t: nat) {
    forall u {:trigger Strands(rows, cols, done, queue, col, u)} :: 0 <= u < t ==>
      !Strands(rows, cols, done, queue, col, u)
  }

  /** The rows of the list from position t on are as before. */
  ghost predicate SameFrom(list: seq<nat>, before: seq<bool>, now: seq<bool>, t: nat) {
    |before| == |now| && forall u {:trigger list[u]} :: t <= u < |list| ==>
      list[u] < |now| && now[list[u]] == before[list[u]]
  }

  lemma {:induction false} SameFromStep(list: seq<nat>, before: seq<bool>, now: seq<bool>, t: nat)
    requires SameFrom(list, before, now, t) && Distinct(list) && t < |list| && list[t] < |now|
    ensures SameFrom(list, before, now[list[t] := true], t + 1)
  {
  }

  /** What there was before the first row of a column. */
  datatype Start = Start(done: seq<bool>, queue: set<nat>, pushes: seq<nat>, main: seq<nat>, gap: seq<(nat, nat)>)

  /** Before position t of the column. */
  ghost predicate InColumn<D>(
      rows: seq<seq<nat>>, cols: seq<seq<nat>>, dense: seq<D>, wd: WeightData, done: array<bool>, fixed: seq<nat>,
      col: nat, first: bool, t: nat, mainRows: seq<nat>, mainCols: seq<nat>, gapRows: seq<(nat, nat)>, start: Start)
    reads wd, wd.nodes, done
  {
    && col < |cols| && t <= |cols[col]| && DoneMet(rows, start.done, fixed)
    && Consistent(rows, cols, dense, wd, done, fixed, col) && wd.linked == start.queue && col !in wd.linked
    && Fixing(rows, cols, dense, done[..], fixed, col, first, mainRows, mainCols, gapRows)
    && DoneBelow(cols[col], done[..], t) && SameFrom(cols[col], start.done, done[..], t)
    && NoneStrands(rows, cols, start.done, start.queue, col, t)
    && (first ==> Open(cols[col], done[..], |cols[col]|) > 0)
    && TookTo(rows, cols[col], fixed, col, t, start.main, start.gap, first, mainRows, gapRows, start.pushes, wd.pushes)
  }

  method FixAt<D(==)>(
      wd: WeightData, rows: seq<seq<nat>>, cols: seq<seq<nat>>, dense: seq<D>, done: array<bool>,
      ghost fixed: seq<nat>, col: nat, first0: bool, t: nat, mainRows0: seq<nat>, mainCols0: seq<nat>,
      gapRows0: seq<(nat, nat)>, ghost start: Start)
    returns (first: bool, mainRows: seq<nat>, mainCols: seq<nat>, gapRows: seq<(nat, nat)>, stop: Stop)
    requires RowsOk(rows, |cols|) && Transposed(rows, cols) && col < |cols| && t < |cols[col]|
    requires InColumn(rows, cols, dense, wd, done, fixed, col, first0, t, mainRows0, mainCols0, gapRows0, start)
    modifies wd, wd.nodes, done
    ensures stop.Proceed? ==>
              InColumn(rows, cols, dense, wd, done, fixed, col, first, t + 1, mainRows, mainCols, gapRows, start)
    ensures stop.QueueEmptied? ==> Strands(rows, cols, start.done, start.queue, col, t)
    ensures !stop.QueueEmptied? ==> Consistent(rows, cols, dense, wd, done, fixed, col) && wd.linked == start.queue
    ensures stop.Duplicate? ==> SameDense(dense, stop.pair) && PairsTo(rows, cols[col], fixed, t + 1, stop.pair)
  {
    assert Contains(cols, col, cols[col][t]);
    assert start.done[cols[col][t]] == done[cols[col][t]] == Meets(rows[cols[col][t]], fixed);
    SameFromStep(cols[col], start.done, done[..], t);
    first, mainRows, mainCols, gapRows, stop := FixRow(
      wd, rows, cols, dense, done, fixed, col, first0, t, mainRows0, mainCols0, gapRows0, start.main, start.gap,
      start.pushes);
    assert stop.QueueEmptied? <==> Strands(rows, cols, start.done, start.queue, col, t);
  }

  lemma {:induction false} ColumnStarts<D>(
      rows: seq<seq<nat>>, cols: seq<seq<nat>>, dense: seq<D>, wd: WeightData, done: array<bool>, fixed: seq<nat>,
      col: nat, mainRows: seq<nat>, mainCols: seq<nat>, gapRows: seq<(nat, nat)>, start: Start)
    requires Consistent(rows, cols, dense, wd, done, fixed, col)
    requires Fixing(rows, cols, dense, done[..], fixed, col, true, mainRows, mainCols, gapRows)
    requires col < |cols| && col !in wd.linked && Open(cols[col], done[..], |cols[col]|) > 0
    requires DoneMet(rows, done[..], fixed) && start == Start(done[..], wd.linked, wd.pushes, mainRows, gapRows)
    ensures InColumn(rows, cols, dense, wd, done, fixed, col, true, 0, mainRows, mainCols, gapRows, start)
  {
  }

  /** The source throws when no open row was found; the weight of the column excludes that. */
  lemma {:induction false} ColumnEnds<D>(
      rows: seq<seq<nat>>, cols: seq<seq<nat>>, dense: seq<D>, wd: WeightData, done: array<bool>, fixed: seq<nat>,
      col: nat, first: bool, mainRows: seq<nat>, mainCols: seq<nat>, gapRows: seq<(nat, nat)>, start: Start)
    requires col < |cols|
    requires InColumn(rows, cols, dense, wd, done, fixed, col, first, |cols[col]|, mainRows, mainCols, gapRows, start)
    ensures !first && Closed(cols, done[..], col)
    ensures Consistent(rows, cols, dense, wd, done, fixed, col) && wd.linked == start.queue
    ensures Fixing(rows, cols, dense, done[..], fixed, col, false, mainRows, mainCols, gapRows)
    ensures NoneStrands(rows, cols, start.done, start.queue, col, |cols[col]|)
    ensures var open := OpenOf(rows, cols, fixed, col);
      && Took(start.main, start.gap, open, mainRows, gapRows)
      && wd.pushes == start.pushes + PutBack(rows, open, fixed + [col])
  {
    OpenPositive(cols[col], done[..], |cols[col]|);
  }

  /** The loop over the rows of one column, which has at least one open row. */
  method FixColumn<D(==)>(
      wd: WeightData, rows: seq<seq<nat>>, cols: seq<seq<nat>>, dense: seq<D>, done: array<bool>, col: nat,
      ghost fixed: seq<nat>, mainRows0: seq<nat>, mainCols0: seq<nat>, gapRows0: seq<(nat, nat)>)
    returns (mainRows: seq<nat>, mainCols: seq<nat>, gapRows: seq<(nat, nat)>, stop: Stop)
    requires RowsOk(rows, |cols|) && Transposed(rows, cols)
    requires Consistent(rows, cols, dense, wd, done, fixed, col)
    requires Fixing(rows, cols, dense, done[..], fixed, col, true, mainRows0, mainCols0, gapRows0)
    requires col < |cols| && col !in wd.linked && Open(cols[col], done[..], |cols[col]|) > 0
    requires DoneMet(rows, done[..], fixed)
    modifies wd, wd.nodes, done
    ensures stop.Proceed? ==> var open := OpenOf(rows, cols, fixed, col);
                              && Took(mainRows0, gapRows0, open, mainRows, gapRows)
                              && wd.pushes == old(wd.pushes) + PutBack(rows, open, fixed + [col])
    ensures stop.QueueEmptied? ==> !NoneStrands(rows, cols, old(done[..]), old(wd.linked), col, |cols[col]|)
    ensures stop.Proceed? ==> NoneStrands(rows, cols, old(done[..]), old(wd.linked), col, |cols[col]|)
    ensures !stop.QueueEmptied? ==> Consistent(rows, cols, dense, wd, done, fixed, col) && wd.linked == old(wd.linked)
    ensures stop.Proceed? ==> Fixing(rows, cols, dense, done[..], fixed, col, false, mainRows, mainCols, gapRows)
    ensures stop.Proceed? ==> Closed(cols, done[..], col)
    ensures stop.Duplicate? ==> SameDense(dense, stop.pair)
    ensures stop.Duplicate? ==> exists t :: PairsTo(rows, cols[col], fixed, t, stop.pair)
  {
    mainRows, mainCols, gapRows, stop := mainRows0, mainCols0, gapRows0, Proceed;
    var first := true;
    ghost var start := Start(done[..], wd.linked, wd.pushes, mainRows0, gapRows0);
    ColumnStarts(rows, cols, dense, wd, done, fixed, col, mainRows0, mainCols0, gapRows0, start);
    for t := 0 to |cols[col]|
      invariant stop.Proceed? && wd.linked == start.queue
      invariant InColumn(rows, cols, dense, wd, done, fixed, col, first, t, mainRows, mainCols, gapRows, start)
    {
      first, mainRows, mainCols, gapRows, stop :=
        FixAt(wd, rows, cols, dense, done, fixed, col, first, t, mainRows, mainCols, gapRows, start);
      if !stop.Proceed? {
        return;
      }
    }
    ColumnEnds(rows, cols, dense, wd, done, fixed, col, first, mainRows, mainCols, gapRows, start);
  }

  /** Between two columns: everything fixed is closed, and the queue holds exactly the other columns. */
  ghost predicate Ready<D>(
      rows: seq<seq<nat>>, cols: seq<seq<nat>>, dense: seq<D>, wd: WeightData, done: array<bool>, mainRows: seq<nat>,
      mainCols: seq<nat>, gapRows: seq<(nat, nat)>)
    reads wd, wd.nodes, done
  {
    && wd.Valid() && wd.Trimmed() && wd.nodes.Length == |cols|
    && QueueOk(cols, wd.Weights(), wd.linked, done[..])
    && wd.linked == UpTo(|cols|) - Elems(mainCols)
    && Progress(rows, cols, dense, done[..], mainRows, mainCols, gapRows)
    && (forall k :: 0 <= k < |mainCols| ==> Closed(cols, done[..], mainCols[k]))
    && ChosenOrder(rows, cols, mainCols) && Indices(|cols|, mainCols) && wd.pushes == Pushes(rows, cols, mainCols)
    && mainRows == MainOf(rows, cols, mainCols) && gapRows == GapOf(rows, cols, mainCols)
  }

  /** The rows that are done are those with a fixed column. */
  lemma {:induction false} DoneIsMet<D>(
      rows: seq<seq<nat>>, cols: seq<seq<nat>>, dense: seq<D>, done: seq<bool>, mainRows: seq<nat>,
      mainCols: seq<nat>, gapRows: seq<(nat, nat)>, r: nat)
    requires RowsOk(rows, |cols|) && Transposed(rows, cols) && r < |rows|
    requires Progress(rows, cols, dense, done, mainRows, mainCols, gapRows)
    requires forall k :: 0 <= k < |mainCols| ==> Closed(cols, done, mainCols[k])
    ensures done[r] <==> Meets(rows[r], mainCols)
  {
    assert Taken(mainRows, gapRows, r) <==> done[r];
    if r in mainRows {
      var k :| 0 <= k < |mainRows| && mainRows[k] == r;
      assert mainCols[k] in rows[r];
    } else if r in GapIds(gapRows) {
      var g :| 0 <= g < |gapRows| && GapIds(gapRows)[g] == r;
      assert GapRowOk(rows, dense, mainRows, mainCols, gapRows[g]);
      var k: nat :| k < |mainRows| && mainRows[k] == gapRows[g].1 && Beside(rows, mainCols, gapRows[g].0, k);
      assert mainCols[k] in rows[r];
    }
    if k :| 0 <= k < |mainCols| && mainCols[k] in rows[r] {
      assert Closed(cols, done, mainCols[k]);
      assert Contains(cols, mainCols[k], r);
      var i :| 0 <= i < |cols[mainCols[k]]| && cols[mainCols[k]][i] == r;
      assert done[cols[mainCols[k]][i]];
    }
  }

  lemma {:induction false} OpenCounts(
      rows: seq<seq<nat>>, cols: seq<seq<nat>>, done: seq<bool>, fixed: seq<nat>, c: nat)
    requires Transposed(rows, cols) && |done| == |rows| && c < |cols|
    requires DoneMet(rows, done, fixed)
    requires forall i :: 0 <= i < |cols[c]| ==> cols[c][i] < |done|
    ensures Open(cols[c], done, |cols[c]|) == |OpenRows(rows, fixed, c)|
  {
    OpenIsSize(cols[c], done, |cols[c]|);
    assert cols[c][..|cols[c]|] == cols[c];
    var open := OpenIn(cols[c], done);
    forall r: nat | r < |rows| ensures r in open <==> r in OpenRows(rows, fixed, c) {
      assert Contains(cols, c, r) <==> c in rows[r];
    }
    assert open == OpenRows(rows, fixed, c);
  }

  /** The queued column of least weight that was put on its list last is the choice. */
  lemma {:induction false} MinIsLeast(
      rows: seq<seq<nat>>, cols: seq<seq<nat>>, weights: seq<nat>, linked: set<nat>, done: seq<bool>, fixed: seq<nat>,
      c: nat)
    requires Transposed(rows, cols) && QueueOk(cols, weights, linked, done) && |done| == |rows| && c in linked
    requires linked == UpTo(|cols|) - Elems(fixed)
    requires DoneMet(rows, done, fixed)
    requires weights[c] > 0 && forall d :: d in linked && weights[d] > 0 ==> weights[c] <= weights[d]
    requires Indices(|cols|, fixed) && forall d :: d in linked && weights[d] == weights[c] ==>
      LastAt(Pushes(rows, cols, fixed), d) <= LastAt(Pushes(rows, cols, fixed), c)
    ensures Left(|cols|, fixed) == linked && Chosen(rows, cols, fixed, c)
  {
    assert Left(|cols|, fixed) == linked;
    forall d | d in linked ensures weights[d] == |OpenRows(rows, fixed, d)| {
      OpenCounts(rows, cols, done, fixed, d);
    }
    assert OpenRows(rows, fixed, c) != {};
    forall d | d in linked && OpenRows(rows, fixed, d) != {}
      ensures |OpenRows(rows, fixed, c)| <= |OpenRows(rows, fixed, d)|
    {
      assert weights[d] == |OpenRows(rows, fixed, d)|;
    }
  }

  /** With no column of positive weight left, every row is done. */
  lemma {:induction false} AllRowsDone(
      rows: seq<seq<nat>>, cols: seq<seq<nat>>, weights: seq<nat>, linked: set<nat>, done: seq<bool>,
      mainCols: seq<nat>)
    requires RowsOk(rows, |cols|) && Transposed(rows, cols) && QueueOk(cols, weights, linked, done) && |done| == |rows|
    requires linked == UpTo(|cols|) - Elems(mainCols)
    requires forall k :: 0 <= k < |mainCols| ==> Closed(cols, done, mainCols[k])
    requires forall c: nat :: c in linked ==> weights[c] == 0
    ensures forall r :: 0 <= r < |rows| ==> done[r]
  {
    forall r: nat | r < |rows| ensures done[r] {
      var c := rows[r][0];
      assert Contains(cols, c, r);
      OpenPositive(cols[c], done, |cols[c]|);
      if c !in linked {
        var k :| 0 <= k < |mainCols| && mainCols[k] == c;
        assert Closed(cols, done, mainCols[k]);
      }
      var i :| 0 <= i < |cols[c]| && cols[c][i] == r;
      assert done[cols[c][i]];
    }
  }

  lemma {:induction false} SurvivesIff(
      rows: seq<seq<nat>>, cols: seq<seq<nat>>, done: seq<bool>, fixed: seq<nat>, c: nat)
    requires Transposed(rows, cols) && |done| == |rows| && c < |cols| && Left(|cols|, fixed) - {c} != {}
    requires DoneMet(rows, done, fixed)
    ensures Survives(rows, |cols|, fixed, c) <==>
            NoneStrands(rows, cols, done, Left(|cols|, fixed) - {c}, c, |cols[c]|)
  {
    var queue := Left(|cols|, fixed) - {c};
    forall t: nat | t < |cols[c]| && Strands(rows, cols, done, queue, c, t) ensures !Survives(rows, |cols|, fixed, c) {
      assert Contains(cols, c, cols[c][t]);
      assert cols[c][t] in OpenRows(rows, fixed, c);
    }
    forall r | r in OpenRows(rows, fixed, c) && HasOnly(queue, rows[r])
      ensures !NoneStrands(rows, cols, done, queue, c, |cols[c]|)
    {
      assert Contains(cols, c, r);
      var t :| 0 <= t < |cols[c]| && cols[c][t] == r;
      assert Strands(rows, cols, done, queue, c, t);
    }
  }

  /** One turn of the main loop. */
  method FixNext<D(==)>(
      wd: WeightData, rows: seq<seq<nat>>, cols: seq<seq<nat>>, dense: seq<D>, done: array<bool>, mainRows0: seq<nat>,
      mainCols0: seq<nat>, gapRows0: seq<(nat, nat)>)
    returns (mainRows: seq<nat>, mainCols: seq<nat>, gapRows: seq<(nat, nat)>, stop: Stop)
    requires RowsOk(rows, |cols|) && Transposed(rows, cols) && |wd.heads| > 1
    requires Ready(rows, cols, dense, wd, done, mainRows0, mainCols0, gapRows0)
    modifies wd, wd.nodes, done
    ensures stop.QueueEmptied? ==> RunsDry(rows, cols)
    ensures stop.Proceed? ==> wd.linked < old(wd.linked)
    ensures stop.Proceed? ==> Ready(rows, cols, dense, wd, done, mainRows, mainCols, gapRows)
    ensures stop.Duplicate? ==> SameDense(dense, stop.pair)
    ensures stop.Duplicate? ==> exists c :: RepeatsAt(rows, cols, dense, mainCols0, c, stop.pair.0, stop.pair.1)
  {
    mainRows, mainCols, gapRows, stop := mainRows0, mainCols0, gapRows0, QueueEmptied;
    ghost var before := done[..];
    forall r: nat | r < |rows| ensures before[r] <==> Meets(rows[r], mainCols0) {
      DoneIsMet(rows, cols, dense, before, mainRows0, mainCols0, gapRows0, r);
    }
    var ok, c := NextColumn(wd, rows, cols, dense, done, mainRows0, mainCols0, gapRows0);
    if !ok {
      assert DriesAt(rows, cols, mainCols0, c);
      return;
    }
    SurvivesIff(rows, cols, before, mainCols0, c);
    mainRows, mainCols, gapRows, stop :=
      FixColumn(wd, rows, cols, dense, done, c, mainCols0, mainRows0, mainCols0, gapRows0);
    if stop.QueueEmptied? {
      assert DriesAt(rows, cols, mainCols0, c);
    } else if stop.Proceed? {
      ReadyAgain(wd, rows, cols, dense, done, mainRows0, gapRows0, mainRows, mainCols0, c, gapRows);
    } else {
      ghost var t :| PairsTo(rows, cols[c], mainCols0, t, stop.pair);
      PairsGrow(rows, cols[c], mainCols0, t, |cols[c]|, stop.pair);
      assert RepeatsAt(rows, cols, dense, mainCols0, c, stop.pair.0, stop.pair.1);
    }
  }

  /** After a column has been fixed, the next one can be. */
  lemma {:induction false} ReadyAgain<D>(
      wd: WeightData, rows: seq<seq<nat>>, cols: seq<seq<nat>>, dense: seq<D>, done: array<bool>, main: seq<nat>,
      gap: seq<(nat, nat)>, mainRows: seq<nat>, fixed: seq<nat>, c: nat, gapRows: seq<(nat, nat)>)
    requires RowsOk(rows, |cols|) && Consistent(rows, cols, dense, wd, done, fixed, c)
    requires Fixing(rows, cols, dense, done[..], fixed, c, false, mainRows, fixed + [c], gapRows)
    requires Closed(cols, done[..], c) && wd.linked == UpTo(|cols|) - Elems(fixed) - {c}
    requires ChosenOrder(rows, cols, fixed) && ChosenStep(rows, cols, fixed, c)
    requires main == MainOf(rows, cols, fixed) && gap == GapOf(rows, cols, fixed) && c < |cols|
    requires Took(main, gap, OpenOf(rows, cols, fixed, c), mainRows, gapRows)
    requires wd.pushes == Pushes(rows, cols, fixed) + PutBack(rows, OpenOf(rows, cols, fixed, c), fixed + [c])
    ensures Ready(rows, cols, dense, wd, done, mainRows, fixed + [c], gapRows)
  {
    ElemsPush(fixed, c);
    ClosedOneMore(cols, done[..], fixed, c);
    RunExtended(rows, cols, fixed, c, main, gap, mainRows, gapRows, Pushes(rows, cols, fixed), wd.pushes);
  }

  lemma {:induction false} ClosedOneMore(cols: seq<seq<nat>>, done: seq<bool>, fixed: seq<nat>, c: nat)
    requires Closed(cols, done, c) && forall k :: 0 <= k < |fixed| ==> Closed(cols, done, fixed[k])
    ensures forall k :: 0 <= k < |fixed + [c]| ==> Closed(cols, done, (fixed + [c])[k])
  {
    forall k | 0 <= k < |fixed + [c]| ensures Closed(cols, done, (fixed + [c])[k]) {
      assert k < |fixed| ==> Closed(cols, done, fixed[k]);
    }
  }

  lemma {:induction false} RunExtended(
      rows: seq<seq<nat>>, cols: seq<seq<nat>>, fixed: seq<nat>, c: nat, main: seq<nat>, gap: seq<(nat, nat)>,
      mainRows: seq<nat>, gapRows: seq<(nat, nat)>, pushes: seq<nat>, pushes': seq<nat>)
    requires ChosenOrder(rows, cols, fixed) && ChosenStep(rows, cols, fixed, c) && c < |cols|
    requires main == MainOf(rows, cols, fixed) && gap == GapOf(rows, cols, fixed)
    requires Took(main, gap, OpenOf(rows, cols, fixed, c), mainRows, gapRows) && pushes == Pushes(rows, cols, fixed)
    requires pushes' == pushes + PutBack(rows, OpenOf(rows, cols, fixed, c), fixed + [c])
    ensures ChosenOrder(rows, cols, fixed + [c]) && Indices(|cols|, fixed + [c])
    ensures pushes' == Pushes(rows, cols, fixed + [c])
    ensures mainRows == MainOf(rows, cols, fixed + [c]) && gapRows == GapOf(rows, cols, fixed + [c])
  {
    OrderExtended(rows, cols, fixed, c);
    RunOneMore(rows, cols, fixed, c);
  }

  /** `triangulate`.  How it ends and which columns it fixes is settled by the rows, the column lists and the dense
      parts: it takes all rows unless it runs out of columns or meets two rows of a column with the same dense part. */
  method Triangulate<D(!new, ==)>(wd: WeightData, rows: seq<seq<nat>>, cols: seq<seq<nat>>, dense: seq<D>)
    returns (t: Triangulated)
    requires RowsOk(rows, |cols|) && Transposed(rows, cols) && |dense| == |rows|
    requires wd.Valid() && wd.Trimmed() && wd.nodes.Length == |cols| && wd.linked == UpTo(|cols|)
    requires forall c :: 0 <= c < |cols| ==> wd.Weights()[c] == |cols[c]|
    requires wd.pushes == Iota(|cols|)
    modifies wd, wd.nodes
    ensures t.Triangle? ==> TriangleOk(rows, dense, t.mainRows, t.mainCols, t.gapRows) && |wd.heads| <= 1
    ensures t.DuplicateKeys? ==> SameDense(dense, (t.row1, t.row2))
    ensures t.DuplicateKeys? ==> exists fixed, c :: RepeatsAt(rows, cols, dense, fixed, c, t.row1, t.row2)
    ensures t.Triangle? ==> IsRun(rows, cols, t.mainRows, t.mainCols, t.gapRows)
    ensures t.Triangle? <==> !RunsDry(rows, cols) && !Repeats(rows, cols, dense)
    ensures t.NoColumnLeft? ==> RunsDry(rows, cols) && |cols| < |rows| + 2
  {
    var done := new bool[|rows|](_ => false);
    var mainRows: seq<nat>, mainCols: seq<nat>, gapRows: seq<(nat, nat)> := [], [], [];
    StartIsReady(rows, cols, wd.Weights(), wd.linked, done[..]);
    while |wd.heads| > 1
      invariant fresh(done) && Ready(rows, cols, dense, wd, done, mainRows, mainCols, gapRows)
      decreases wd.linked
    {
      var stop;
      mainRows, mainCols, gapRows, stop := FixNext(wd, rows, cols, dense, done, mainRows, mainCols, gapRows);
      if stop.Duplicate? {
        return DuplicateKeys(stop.pair.0, stop.pair.1);
      } else if stop.QueueEmptied? {
        DryIsShort(rows, cols);
        return NoColumnLeft;
      }
    }
    EndIsRun(rows, cols, dense, wd, done, mainRows, mainCols, gapRows);
    return Triangle(mainRows, mainCols, gapRows);
  }

  /** What triangulation promises: all rows are partitioned into a triangle with a full diagonal and a gap. */
  ghost predicate TriangleOk<D>(
      rows: seq<seq<nat>>, dense: seq<D>, mainRows: seq<nat>, mainCols: seq<nat>, gapRows: seq<(nat, nat)>) {
    && Diagonal(rows, mainRows, mainCols)
    && Partition(seq(|rows|, _ => true), mainRows, gapRows)
    && GapOk(rows, dense, mainRows, mainCols, gapRows)
  }

  lemma {:induction false} NoRepeat<D(!new)>(
      rows: seq<seq<nat>>, cols: seq<seq<nat>>, dense: seq<D>, mainRows: seq<nat>, mainCols: seq<nat>,
      gapRows: seq<(nat, nat)>)
    requires IsRun(rows, cols, mainRows, mainCols, gapRows) && GapOk(rows, dense, mainRows, mainCols, gapRows)
    ensures !Repeats(rows, cols, dense)
  {
    forall p {:trigger Differ(dense, p)} | p in gapRows ensures Differ(dense, p) {
      var g :| 0 <= g < |gapRows| && gapRows[g] == p;
      assert GapRowOk(rows, dense, mainRows, mainCols, gapRows[g]);
    }
    MetNoRepeat(rows, cols, dense, mainCols);
  }

  lemma {:induction false} EndIsTriangle<D>(
      rows: seq<seq<nat>>, cols: seq<seq<nat>>, dense: seq<D>, wd: WeightData, done: array<bool>, mainRows: seq<nat>,
      mainCols: seq<nat>, gapRows: seq<(nat, nat)>)
    requires RowsOk(rows, |cols|) && Transposed(rows, cols) && |wd.heads| <= 1
    requires Ready(rows, cols, dense, wd, done, mainRows, mainCols, gapRows)
    ensures TriangleOk(rows, dense, mainRows, mainCols, gapRows) && AllMet(rows, mainCols)
  {
    NothingQueued(wd);
    AllRowsDone(rows, cols, wd.Weights(), wd.linked, done[..], mainCols);
    assert done[..] == seq(|rows|, _ => true);
    forall r: nat | r < |rows| ensures Meets(rows[r], mainCols) {
      DoneIsMet(rows, cols, dense, done[..], mainRows, mainCols, gapRows, r);
    }
  }

  lemma {:induction false} EndIsRun<D(!new)>(
      rows: seq<seq<nat>>, cols: seq<seq<nat>>, dense: seq<D>, wd: WeightData, done: array<bool>, mainRows: seq<nat>,
      mainCols: seq<nat>, gapRows: seq<(nat, nat)>)
    requires RowsOk(rows, |cols|) && Transposed(rows, cols) && |wd.heads| <= 1
    requires Ready(rows, cols, dense, wd, done, mainRows, mainCols, gapRows)
    ensures TriangleOk(rows, dense, mainRows, mainCols, gapRows) && IsRun(rows, cols, mainRows, mainCols, gapRows)
    ensures !RunsDry(rows, cols) && !Repeats(rows, cols, dense)
  {
    EndIsTriangle(rows, cols, dense, wd, done, mainRows, mainCols, gapRows);
    MetNotDry(rows, cols, mainCols);
    NoRepeat(rows, cols, dense, mainRows, mainCols, gapRows);
  }

  lemma {:induction false} StartIsReady(
      rows: seq<seq<nat>>, cols: seq<seq<nat>>, weights: seq<nat>, linked: set<nat>, done: seq<bool>)
    requires RowsOk(rows, |cols|) && Transposed(rows, cols) && |done| == |rows| && |weights| == |cols|
    requires linked == UpTo(|cols|) && forall c :: 0 <= c < |cols| ==> weights[c] == |cols[c]|
    requires forall r :: 0 <= r < |done| ==> !done[r]
    ensures QueueOk(cols, weights, linked, done) && Partition(done, [], [])
    ensures linked == UpTo(|cols|) - Elems([])
  {
    forall c: nat, i | c < |cols| && 0 <= i < |cols[c]| ensures cols[c][i] < |done| {
      assert Contains(cols, c, cols[c][i]);
    }
    forall c: nat | c < |cols| ensures weights[c] == Open(cols[c], done, |cols[c]|) {
      OpenAtStart(cols[c], done, |cols[c]|);
    }
  }

  /** Once only the list of weight zero is left, no queued column has a positive weight. */
  lemma {:induction false} NothingQueued(wd: WeightData)
    requires wd.Valid() && |wd.heads| <= 1
    ensures forall c: nat :: c in wd.linked ==> c < wd.nodes.Length && wd.Weights()[c] == 0
  {
    forall c: nat | c in wd.linked ensures c < wd.nodes.Length && wd.Weights()[c] == 0 {
      assert Holds(wd.nodes[..], wd.buckets, c);
    }
  }

  method ChooseColumn<D>(
      wd: WeightData, ghost rows: seq<seq<nat>>, ghost cols: seq<seq<nat>>, ghost dense: seq<D>,
      ghost done: array<bool>, ghost mainRows: seq<nat>, ghost mainCols: seq<nat>, ghost gapRows: seq<(nat, nat)>)
    returns (c: nat)
    requires RowsOk(rows, |cols|) && Transposed(rows, cols)
    requires |wd.heads| > 1 && Ready(rows, cols, dense, wd, done, mainRows, mainCols, gapRows)
    requires DoneMet(rows, done[..], mainCols)
    ensures c in wd.linked && Open(cols[c], done[..], |cols[c]|) > 0
    ensures Chosen(rows, cols, mainCols, c) && wd.linked == Left(|cols|, mainCols)
  {
    PositiveQueued(wd);
    var next := wd.GetMinWeightNode();
    c := next.value;
    MinIsLeast(rows, cols, wd.Weights(), wd.linked, done[..], mainCols, c);
  }

  /** Takes a column of least positive weight off the queue. */
  method NextColumn<D>(
      wd: WeightData, ghost rows: seq<seq<nat>>, ghost cols: seq<seq<nat>>, ghost dense: seq<D>,
      ghost done: array<bool>, ghost mainRows: seq<nat>, ghost mainCols: seq<nat>, ghost gapRows: seq<(nat, nat)>)
    returns (ok: bool, c: nat)
    requires RowsOk(rows, |cols|) && Transposed(rows, cols)
    requires |wd.heads| > 1 && Ready(rows, cols, dense, wd, done, mainRows, mainCols, gapRows)
    requires DoneMet(rows, done[..], mainCols)
    modifies wd, wd.nodes
    ensures ok <==> wd.linked != {}
    ensures c in old(wd.linked) && wd.linked == old(wd.linked) - {c}
    ensures Chosen(rows, cols, mainCols, c) && wd.linked == Left(|cols|, mainCols) - {c} && wd.pushes == old(wd.pushes)
    ensures ok ==> Consistent(rows, cols, dense, wd, done, mainCols, c) && Open(cols[c], done[..], |cols[c]|) > 0
  {
    c := ChooseColumn(wd, rows, cols, dense, done, mainRows, mainCols, gapRows);
    ColumnLeaves(cols, wd.Weights(), wd.linked, done[..], mainCols, c);
    ok := wd.PopNode(c);
    wd.SetWeight(c, 0);
  }

  lemma {:induction false} ColumnLeaves(
      cols: seq<seq<nat>>, weights: seq<nat>, linked: set<nat>, done: seq<bool>, mainCols: seq<nat>, c: nat)
    requires QueueOk(cols, weights, linked, done) && c in linked && linked == UpTo(|cols|) - Elems(mainCols)
    ensures QueueOk(cols, weights[c := 0], linked - {c}, done)
    ensures forall d: nat :: d < |cols| && d !in linked - {c} && d != c ==> d in mainCols
  {
  }

  lemma {:induction false} PositiveQueued(wd: WeightData)
    requires wd.Valid() && wd.Trimmed() && |wd.heads| > 1
    ensures exists c: nat :: c in wd.linked && c < wd.nodes.Length && wd.Weights()[c] > 0
  {
    var w := |wd.heads| - 1;
    assert ListOk(wd.nodes[..], wd.heads[w], wd.buckets[w], w);
    assert wd.buckets[w][0] in wd.linked && wd.Weights()[wd.buckets[w][0]] == w;
  }
}
