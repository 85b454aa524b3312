/** The column lists of the sparse matrix (`setInput` and `rebuildColumns` of volePSI/PaxosImpl.h): the weights of
    all columns are counted first, and then the lists are filled side by side in one backing array. */
module Columns {
  import opened Prelude
  import opened Triangulation

  /** The rows below i that contain column c, in increasing order. */
  ghost function RowsWith(rows: seq<seq<nat>>, c: nat, i: nat): seq<nat>
    requires i <= |rows|
  {
    if i == 0 then [] else RowsWith(rows, c, i - 1) + if c in rows[i - 1] then [i - 1] else []
  }

  lemma {:induction false} RowsWithOk(rows: seq<seq<nat>>, c: nat, i: nat)
    requires i <= |rows|
    ensures forall j, k :: 0 <= j < k < |RowsWith(rows, c, i)| ==> RowsWith(rows, c, i)[j] < RowsWith(rows, c, i)[k]
    ensures Distinct(RowsWith(rows, c, i))
    ensures forall r: nat :: r in RowsWith(rows, c, i) <==> r < i && c in rows[r]
  {
    if i > 0 {
      RowsWithOk(rows, c, i - 1);
      var before := RowsWith(rows, c, i - 1);
      assert forall j :: 0 <= j < |before| ==> before[j] in before;
    }
  }

  /** The lists of all columns. */
  ghost function ListsOf(rows: seq<seq<nat>>, n: nat): (cols: seq<seq<nat>>)
    ensures |cols| == n && forall c :: 0 <= c < n ==> cols[c] == RowsWith(rows, c, |rows|)
  {
    seq(n, c requires 0 <= c < n => RowsWith(rows, c, |rows|))
  }

  lemma {:induction false} ListsTranspose(rows: seq<seq<nat>>, n: nat)
    ensures Transposed(rows, ListsOf(rows, n))
  {
    var cols := ListsOf(rows, n);
    forall c | 0 <= c < n ensures Distinct(cols[c]) {
      RowsWithOk(rows, c, |rows|);
    }
    forall c: nat, r: nat {:trigger Contains(cols, c, r)} | c < n
      ensures Contains(cols, c, r) <==> r < |rows| && c in rows[r]
    {
      RowsWithOk(rows, c, |rows|);
    }
  }

  lemma {:induction false} RowsWithGrows(rows: seq<seq<nat>>, c: nat, i: nat, j: nat)
    requires i <= j <= |rows|
    ensures |RowsWith(rows, c, i)| <= |RowsWith(rows, c, j)|
    decreases j
  {
    if i < j {
      RowsWithGrows(rows, c, i, j - 1);
    }
  }

  /** The weight of every column. */
  ghost predicate Counted(rows: seq<seq<nat>>, weights: seq<nat>, i: nat)
    requires i <= |rows|
  {
    forall c {:trigger WeightOk(rows, weights, c, i)} :: 0 <= c < |weights| ==> WeightOk(rows, weights, c, i)
  }

  ghost predicate WeightOk(rows: seq<seq<nat>>, weights: seq<nat>, c: nat, i: nat)
    requires i <= |rows| && c < |weights|
  {
    weights[c] == |RowsWith(rows, c, i)|
  }

  method CountWeights(rows: seq<seq<nat>>, n: nat) returns (weights: seq<nat>)
    requires RowsOk(rows, n)
    ensures |weights| == n && Counted(rows, weights, |rows|)
  {
    weights := seq(n, _ => 0);
    for i := 0 to |rows|
      invariant |weights| == n && Counted(rows, weights, i)
    {
      forall c | 0 <= c < n ensures weights[c] == |RowsWith(rows, c, i)| {
        assert WeightOk(rows, weights, c, i);
      }
      for j := 0 to |rows[i]|
        invariant |weights| == n
        invariant forall c :: 0 <= c < n ==>
          weights[c] == |RowsWith(rows, c, i)| + if c in rows[i][..j] then 1 else 0
      {
        assert rows[i][..j + 1] == rows[i][..j] + [rows[i][j]];
        weights := weights[rows[i][j] := weights[rows[i][j]] + 1];
      }
      assert rows[i][..|rows[i]|] == rows[i];
    }
  }

  /** The sum of the first c weights: where list c begins. */
  ghost function Offset(weights: seq<nat>, c: nat): nat
    requires c <= |weights|
  {
    if c == 0 then 0 else Offset(weights, c - 1) + weights[c - 1]
  }

  lemma {:induction false} OffsetMonotone(weights: seq<nat>, c: nat, d: nat)
    requires c < d <= |weights|
    ensures Offset(weights, c) + weights[c] <= Offset(weights, d)
    decreases d
  {
    if c < d - 1 {
      OffsetMonotone(weights, c, d - 1);
    }
  }

  /** How many rows column c has seen, when row i has been added to its first j columns. */
  ghost function Seen(rows: seq<seq<nat>>, i: nat, j: nat, c: nat): (r: nat)
    requires i <= |rows| && (j > 0 ==> i < |rows| && j <= |rows[i]|)
    ensures r <= |rows|
  {
    if j > 0 && c in rows[i][..j] then i + 1 else i
  }

  /** Span c of the backing array holds the rows that column c has seen. */
  ghost predicate SpanOk(rows: seq<seq<nat>>, weights: seq<nat>, backing: seq<nat>, c: nat, len: nat, seen: nat)
    requires seen <= |rows| && c <= |weights|
  {
    var o := Offset(weights, c);
    o + len <= |backing| && backing[o..o + len] == RowsWith(rows, c, seen)
  }

  ghost predicate SpansOk(rows: seq<seq<nat>>, weights: seq<nat>, backing: seq<nat>, lens: seq<nat>, i: nat, j: nat) {
    && |lens| == |weights| && |backing| == Offset(weights, |weights|)
    && i <= |rows| && (j > 0 ==> i < |rows| && j <= |rows[i]|)
    && forall c {:trigger SpanOk(rows, weights, backing, c, lens[c], Seen(rows, i, j, c))} ::
         0 <= c < |weights| ==> SpanOk(rows, weights, backing, c, lens[c], Seen(rows, i, j, c))
  }

  lemma {:induction false} SpansEmpty(rows: seq<seq<nat>>, weights: seq<nat>, backing: seq<nat>, lens: seq<nat>)
    requires |lens| == |weights| && |backing| == Offset(weights, |weights|)
    requires forall c :: 0 <= c < |lens| ==> lens[c] == 0
    ensures SpansOk(rows, weights, backing, lens, 0, 0)
  {
    forall c | 0 <= c < |weights| ensures SpanOk(rows, weights, backing, c, lens[c], Seen(rows, 0, 0, c)) {
      OffsetMonotone(weights, c, |weights|);
    }
  }

  /** A list that has not seen all its rows leaves room before the next list. */
  lemma {:induction false} RoomLeft(
      rows: seq<seq<nat>>, weights: seq<nat>, backing: seq<nat>, c: nat, len: nat, seen: nat)
    requires Counted(rows, weights, |rows|) && c < |weights| && seen <= |rows|
    requires |backing| == Offset(weights, |weights|)
    requires SpanOk(rows, weights, backing, c, len, seen)
    ensures len <= weights[c] && Offset(weights, c) + weights[c] <= |backing|
    ensures seen < |rows| && c in rows[seen] ==> len < weights[c]
  {
    OffsetMonotone(weights, c, |weights|);
    assert WeightOk(rows, weights, c, |rows|);
    RowsWithGrows(rows, c, seen, |rows|);
    if seen < |rows| { RowsWithGrows(rows, c, seen + 1, |rows|); }
  }

  /** Writing inside the room of list c leaves the other lists alone. */
  lemma {:induction false} OtherSpan(
      rows: seq<seq<nat>>, weights: seq<nat>, backing: seq<nat>, c: nat, d: nat, len: nat, seen: nat, at: nat, v: nat)
    requires c < |weights| && d < |weights| && c != d && seen <= |rows| && at < |backing|
    requires Offset(weights, c) <= at < Offset(weights, c) + weights[c] && len <= weights[d]
    requires SpanOk(rows, weights, backing, d, len, seen)
    ensures SpanOk(rows, weights, backing[at := v], d, len, seen)
  {
    var o := Offset(weights, d);
    if d < c { OffsetMonotone(weights, d, c); } else { OffsetMonotone(weights, c, d); }
    assert backing[at := v][o..o + len] == backing[o..o + len];
  }

  lemma {:induction false} OwnSpan(rows: seq<seq<nat>>, weights: seq<nat>, backing: seq<nat>, c: nat, len: nat, i: nat)
    requires c < |weights| && i < |rows| && c in rows[i] && Offset(weights, c) + len < |backing|
    requires SpanOk(rows, weights, backing, c, len, i)
    ensures SpanOk(rows, weights, backing[Offset(weights, c) + len := i], c, len + 1, i + 1)
  {
    var o := Offset(weights, c);
    assert backing[o + len := i][o..o + len + 1] == backing[o..o + len] + [i];
  }

  lemma {:induction false} SeenNext(rows: seq<seq<nat>>, i: nat, j: nat, d: nat)
    requires i < |rows| && j < |rows[i]| && Distinct(rows[i])
    ensures Seen(rows, i, j, rows[i][j]) == i && Seen(rows, i, j + 1, rows[i][j]) == i + 1
    ensures d != rows[i][j] ==> Seen(rows, i, j + 1, d) == Seen(rows, i, j, d)
  {
    assert rows[i][..j + 1] == rows[i][..j] + [rows[i][j]];
  }

  /** Appending row i to the span of its next column. */
  lemma {:induction false} SpanAppended(
      rows: seq<seq<nat>>, weights: seq<nat>, backing: seq<nat>, lens: seq<nat>, i: nat, j: nat)
    requires SpansOk(rows, weights, backing, lens, i, j) && Counted(rows, weights, |rows|)
    requires i < |rows| && j < |rows[i]| && Distinct(rows[i]) && rows[i][j] < |weights|
    ensures var c := rows[i][j];
      && Offset(weights, c) + lens[c] < |backing|
      && SpansOk(rows, weights, backing[Offset(weights, c) + lens[c] := i], lens[c := lens[c] + 1], i, j + 1)
  {
    var c := rows[i][j];
    SeenNext(rows, i, j, c);
    assert SpanOk(rows, weights, backing, c, lens[c], Seen(rows, i, j, c));
    RoomLeft(rows, weights, backing, c, lens[c], i);
    var at := Offset(weights, c) + lens[c];
    var backing', lens' := backing[at := i], lens[c := lens[c] + 1];
    forall d | 0 <= d < |weights| ensures SpanOk(rows, weights, backing', d, lens'[d], Seen(rows, i, j + 1, d)) {
      SeenNext(rows, i, j, d);
      if d != c {
        assert SpanOk(rows, weights, backing, d, lens[d], Seen(rows, i, j, d));
        RoomLeft(rows, weights, backing, d, lens[d], Seen(rows, i, j, d));
        OtherSpan(rows, weights, backing, c, d, lens[d], Seen(rows, i, j, d), at, i);
      } else {
        OwnSpan(rows, weights, backing, c, lens[c], i);
      }
    }
  }

  /** Where the lists begin. */
  method Starts(weights: seq<nat>) returns (starts: seq<nat>, total: nat)
    ensures |starts| == |weights| && total == Offset(weights, |weights|)
    ensures forall c {:trigger starts[c]} :: 0 <= c < |starts| ==> starts[c] == Offset(weights, c)
  {
    starts, total := [], 0;
    for c := 0 to |weights|
      invariant |starts| == c && total == Offset(weights, c)
      invariant forall d {:trigger starts[d]} :: 0 <= d < c ==> starts[d] == Offset(weights, d)
    {
      starts := starts + [total];
      total := total + weights[c];
    }
  }

  /** `rebuildColumns`, together with the spans it leaves in the backing array. */
  method RebuildColumns(rows: seq<seq<nat>>, weights: seq<nat>) returns (cols: seq<seq<nat>>)
    requires RowsOk(rows, |weights|) && Counted(rows, weights, |rows|)
    ensures |cols| == |weights| && Transposed(rows, cols)
    ensures forall c :: 0 <= c < |cols| ==> cols[c] == RowsWith(rows, c, |rows|) && |cols[c]| == weights[c]
  {
    var n := |weights|;
    var starts, total := Starts(weights);
    var backing := new nat[total](_ => 0);
    var lens: seq<nat> := seq(n, _ => 0);
    SpansEmpty(rows, weights, backing[..], lens);
    for i := 0 to |rows|
      invariant SpansOk(rows, weights, backing[..], lens, i, 0)
    {
      lens := AppendRow(rows, weights, starts, backing, lens, i);
    }
    cols := ReadSpans(rows, weights, starts, backing, lens);
    ListsTranspose(rows, n);
  }

  /** The spans of the backing array as lists. */
  method ReadSpans(
      ghost rows: seq<seq<nat>>, ghost weights: seq<nat>, starts: seq<nat>, backing: array<nat>, lens: seq<nat>)
    returns (cols: seq<seq<nat>>)
    requires Counted(rows, weights, |rows|) && SpansOk(rows, weights, backing[..], lens, |rows|, 0)
    requires |starts| == |weights|
    requires forall c {:trigger starts[c]} :: 0 <= c < |starts| ==> starts[c] == Offset(weights, c)
    ensures cols == ListsOf(rows, |weights|)
    ensures forall c :: 0 <= c < |cols| ==> |cols[c]| == weights[c]
  {
    cols := [];
    for c := 0 to |starts|
      invariant |cols| == c
      invariant forall d :: 0 <= d < c ==> cols[d] == RowsWith(rows, d, |rows|) && |cols[d]| == weights[d]
    {
      SpanIsColumn(rows, weights, backing[..], lens, c);
      assert backing[..][starts[c]..starts[c] + lens[c]] == backing[starts[c]..starts[c] + lens[c]];
      cols := cols + [backing[starts[c]..starts[c] + lens[c]]];
    }
  }

  /** Adds row i to the lists of all its columns. */
  method AppendRow(
      rows: seq<seq<nat>>, ghost weights: seq<nat>, starts: seq<nat>, backing: array<nat>, lens0: seq<nat>, i: nat)
    returns (lens: seq<nat>)
    requires RowsOk(rows, |weights|) && Counted(rows, weights, |rows|) && i < |rows|
    requires |starts| == |weights|
    requires forall c {:trigger starts[c]} :: 0 <= c < |starts| ==> starts[c] == Offset(weights, c)
    requires SpansOk(rows, weights, backing[..], lens0, i, 0)
    modifies backing
    ensures SpansOk(rows, weights, backing[..], lens, i + 1, 0)
  {
    lens := lens0;
    for j := 0 to |rows[i]|
      invariant SpansOk(rows, weights, backing[..], lens, i, j)
    {
      var c := rows[i][j];
      SpanAppended(rows, weights, backing[..], lens, i, j);
      ghost var backing' := backing[..][Offset(weights, c) + lens[c] := i];
      backing[starts[c] + lens[c]] := i;
      lens := lens[c := lens[c] + 1];
      assert backing[..] == backing';
    }
    RowFinished(rows, weights, backing[..], lens, i);
  }

  lemma {:induction false} SpanIsColumn(
      rows: seq<seq<nat>>, weights: seq<nat>, backing: seq<nat>, lens: seq<nat>, c: nat)
    requires Counted(rows, weights, |rows|) && SpansOk(rows, weights, backing, lens, |rows|, 0) && c < |weights|
    ensures lens[c] == weights[c] && Offset(weights, c) + lens[c] <= |backing|
    ensures backing[Offset(weights, c)..Offset(weights, c) + lens[c]] == RowsWith(rows, c, |rows|)
  {
    assert SpanOk(rows, weights, backing, c, lens[c], Seen(rows, |rows|, 0, c)) && WeightOk(rows, weights, c, |rows|);
  }

  lemma {:induction false} RowFinished(
      rows: seq<seq<nat>>, weights: seq<nat>, backing: seq<nat>, lens: seq<nat>, i: nat)
    requires i < |rows| && |rows[i]| > 0 && SpansOk(rows, weights, backing, lens, i, |rows[i]|)
    ensures SpansOk(rows, weights, backing, lens, i + 1, 0)
  {
    assert rows[i][..|rows[i]|] == rows[i];
    forall c | 0 <= c < |weights| ensures SpanOk(rows, weights, backing, c, lens[c], Seen(rows, i + 1, 0, c)) {
      assert SpanOk(rows, weights, backing, c, lens[c], Seen(rows, i, |rows[i]|, c));
    }
  }
}
