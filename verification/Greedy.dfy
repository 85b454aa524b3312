/** The greedy choice of columns, on the rows and their column lists alone.

    The rows that contain a fixed column are taken.  The weight of another column is the number of open rows that
    contain it, and the next column to be fixed is one of least positive weight; among these it is the one that was
    put on its list last.  The source lowers the weights of the other columns of a row by taking them off its queue and
    putting them back, which it cannot do with the only column that is left. */
module Greedy {
  import opened Prelude

  /** The row has a fixed column. */
  ghost predicate Meets(row: seq<nat>, fixed: seq<nat>) {
    exists k :: 0 <= k < |fixed| && fixed[k] in row
  }

  ghost function OpenRows(rows: seq<seq<nat>>, fixed: seq<nat>, c: nat): (s: set<nat>) {
    set r: nat | r < |rows| && c in rows[r] && !Meets(rows[r], fixed)
  }

  /** The columns that are not fixed. */
  ghost function Left(n: nat, fixed: seq<nat>): (s: set<nat>) {
    set c: nat | c < n && c !in fixed
  }

  /** Column c has least positive weight. */
  ghost predicate Least(rows: seq<seq<nat>>, n: nat, fixed: seq<nat>, c: nat) {
    && c in Left(n, fixed) && OpenRows(rows, fixed, c) != {}
    && forall d {:trigger OpenRows(rows, fixed, d)} :: d in Left(n, fixed) && OpenRows(rows, fixed, d) != {} ==>
      |OpenRows(rows, fixed, c)| <= |OpenRows(rows, fixed, d)|
  }

  /** The row has the only column of the queue. */
  ghost predicate HasOnly(queue: set<nat>, row: seq<nat>) {
    exists d :: d in row && queue == {d}
  }

  /** Fixing column c leaves a column, and no open row of c has the only column that is left. */
  ghost predicate Survives(rows: seq<seq<nat>>, n: nat, fixed: seq<nat>, c: nat) {
    && Left(n, fixed) - {c} != {}
    && forall r {:trigger rows[r]} :: r in OpenRows(rows, fixed, c) ==> !HasOnly(Left(n, fixed) - {c}, rows[r])
  }

  ghost predicate GreedyStep(rows: seq<seq<nat>>, n: nat, fixed: seq<nat>, c: nat) {
    Least(rows, n, fixed, c) && Survives(rows, n, fixed, c)
  }

  /** Every column is a greedy choice after those before it; ties are left open. */
  ghost predicate GreedyOrder(rows: seq<seq<nat>>, n: nat, mainCols: seq<nat>) {
    forall k {:trigger GreedyAt(rows, n, mainCols, k)} :: 0 <= k < |mainCols| ==> GreedyAt(rows, n, mainCols, k)
  }

  ghost predicate GreedyAt(rows: seq<seq<nat>>, n: nat, mainCols: seq<nat>, k: nat)
    requires k < |mainCols|
  {
    GreedyStep(rows, n, mainCols[..k], mainCols[k])
  }

  // ------------------------------------------------- ties

  /** The columns of the row that are not gone, in order. */
  ghost function Others(row: seq<nat>, gone: seq<nat>): seq<nat> {
    if row == [] then []
    else Others(row[..|row| - 1], gone) + if row[|row| - 1] in gone then [] else [row[|row| - 1]]
  }

  /** The open rows among the first t of a column. */
  ghost function OpenTo(rows: seq<seq<nat>>, column: seq<nat>, fixed: seq<nat>, t: nat): (open: seq<nat>)
    requires t <= |column|
    ensures forall i :: 0 <= i < |open| ==> open[i] in column
  {
    if t == 0 then []
    else
      var r := column[t - 1];
      OpenTo(rows, column, fixed, t - 1) + if r < |rows| && !Meets(rows[r], fixed) then [r] else []
  }

  /** The columns that are put back, row by row, when these rows are taken. */
  ghost function PutBack(rows: seq<seq<nat>>, taken: seq<nat>, gone: seq<nat>): seq<nat> {
    if taken == [] then []
    else
      var r := taken[|taken| - 1];
      PutBack(rows, taken[..|taken| - 1], gone) + if r < |rows| then Others(rows[r], gone) else []
  }

  ghost function OpenOf(rows: seq<seq<nat>>, cols: seq<seq<nat>>, fixed: seq<nat>, c: nat): seq<nat>
    requires c < |cols|
  {
    OpenTo(rows, cols[c], fixed, |cols[c]|)
  }

  ghost predicate Indices(n: nat, fixed: seq<nat>) {
    forall k :: 0 <= k < |fixed| ==> fixed[k] < n
  }

  /** The columns in the order in which they were put on lists: all of them at the start, and then, for every fixed
      column, the other columns of the rows that it takes. */
  ghost function Pushes(rows: seq<seq<nat>>, cols: seq<seq<nat>>, fixed: seq<nat>): (s: seq<nat>)
    requires Indices(|cols|, fixed)
    ensures forall c: nat :: c < |cols| ==> c in s
  {
    if fixed == [] then
      IotaHas(|cols|);
      Iota(|cols|)
    else
      var before, c := fixed[..|fixed| - 1], fixed[|fixed| - 1];
      Pushes(rows, cols, before) + PutBack(rows, OpenOf(rows, cols, before, c), fixed)
  }

  // ------------------------------------------------- what a run takes

  ghost function FirstOf(open: seq<nat>): seq<nat> { if open == [] then [] else [open[0]] }

  /** Every other row together with the first one. */
  ghost function Pairs(open: seq<nat>): (s: seq<(nat, nat)>)
    ensures |s| == if |open| <= 1 then 0 else |open| - 1
    ensures forall i :: 0 <= i < |s| ==> s[i] == (open[i + 1], open[0])
  {
    if |open| <= 1 then [] else seq(|open| - 1, i requires 0 <= i < |open| - 1 => (open[i + 1], open[0]))
  }

  /** The first open row of every column, and the other open rows with it. */
  ghost function MainOf(rows: seq<seq<nat>>, cols: seq<seq<nat>>, fixed: seq<nat>): seq<nat>
    requires Indices(|cols|, fixed)
  {
    if fixed == [] then []
    else
      var before, c := fixed[..|fixed| - 1], fixed[|fixed| - 1];
      MainOf(rows, cols, before) + FirstOf(OpenOf(rows, cols, before, c))
  }

  ghost function GapOf(rows: seq<seq<nat>>, cols: seq<seq<nat>>, fixed: seq<nat>): seq<(nat, nat)>
    requires Indices(|cols|, fixed)
  {
    if fixed == [] then []
    else
      var before, c := fixed[..|fixed| - 1], fixed[|fixed| - 1];
      GapOf(rows, cols, before) + Pairs(OpenOf(rows, cols, before, c))
  }

  /** The lists after these rows have been taken for one column. */
  ghost predicate Took(
      main0: seq<nat>, gap0: seq<(nat, nat)>, open: seq<nat>, mainRows: seq<nat>, gapRows: seq<(nat, nat)>) {
    mainRows == main0 + FirstOf(open) && gapRows == gap0 + Pairs(open)
  }

  lemma {:induction false} TookOneMore(
      main0: seq<nat>, gap0: seq<(nat, nat)>, open: seq<nat>, mainRows: seq<nat>, gapRows: seq<(nat, nat)>, r: nat)
    requires Took(main0, gap0, open, mainRows, gapRows)
    ensures open == [] ==> Took(main0, gap0, open + [r], mainRows + [r], gapRows)
    ensures open != [] ==>
      mainRows != [] && Took(main0, gap0, open + [r], mainRows, gapRows + [(r, mainRows[|mainRows| - 1])])
  {
    if open == [] {
      assert Pairs(open + [r]) == Pairs(open) == [];
    } else {
      assert Pairs(open + [r]) == Pairs(open) + [(r, open[0])];
      assert gap0 + (Pairs(open) + [(r, open[0])]) == gap0 + Pairs(open) + [(r, open[0])];
    }
  }

  /** One more fixed column. */
  lemma {:induction false} RunOneMore(rows: seq<seq<nat>>, cols: seq<seq<nat>>, fixed: seq<nat>, c: nat)
    requires Indices(|cols|, fixed) && c < |cols|
    ensures Indices(|cols|, fixed + [c])
    ensures var open := OpenOf(rows, cols, fixed, c);
      && Pushes(rows, cols, fixed + [c]) == Pushes(rows, cols, fixed) + PutBack(rows, open, fixed + [c])
      && MainOf(rows, cols, fixed + [c]) == MainOf(rows, cols, fixed) + FirstOf(open)
      && GapOf(rows, cols, fixed + [c]) == GapOf(rows, cols, fixed) + Pairs(open)
  {
    assert (fixed + [c])[..|fixed|] == fixed;
  }

  // ------------------------------------------------- the choice

  /** The choice of the source: of the columns of least weight the one that was put on its list last. */
  ghost predicate Chosen(rows: seq<seq<nat>>, cols: seq<seq<nat>>, fixed: seq<nat>, c: nat)
    requires Indices(|cols|, fixed)
  {
    && Least(rows, |cols|, fixed, c)
    && forall d {:trigger LastAt(Pushes(rows, cols, fixed), d)} ::
         d in Left(|cols|, fixed) && |OpenRows(rows, fixed, d)| == |OpenRows(rows, fixed, c)| ==>
         LastAt(Pushes(rows, cols, fixed), d) <= LastAt(Pushes(rows, cols, fixed), c)
  }

  lemma {:induction false} ChosenUnique(rows: seq<seq<nat>>, cols: seq<seq<nat>>, fixed: seq<nat>, c: nat, d: nat)
    requires Indices(|cols|, fixed) && Chosen(rows, cols, fixed, c) && Chosen(rows, cols, fixed, d)
    ensures c == d
  {
    var s := Pushes(rows, cols, fixed);
    assert c in s && d in s;
    assert LastAt(s, c) <= LastAt(s, d) <= LastAt(s, c);
  }

  ghost predicate ChosenStep(rows: seq<seq<nat>>, cols: seq<seq<nat>>, fixed: seq<nat>, c: nat) {
    Indices(|cols|, fixed) && Chosen(rows, cols, fixed, c) && Survives(rows, |cols|, fixed, c)
  }

  /** The columns that the source fixes, one after the other. */
  ghost predicate ChosenOrder(rows: seq<seq<nat>>, cols: seq<seq<nat>>, mainCols: seq<nat>) {
    forall k {:trigger ChosenAt(rows, cols, mainCols, k)} :: 0 <= k < |mainCols| ==> ChosenAt(rows, cols, mainCols, k)
  }

  ghost predicate ChosenAt(rows: seq<seq<nat>>, cols: seq<seq<nat>>, mainCols: seq<nat>, k: nat)
    requires k < |mainCols|
  {
    ChosenStep(rows, cols, mainCols[..k], mainCols[k])
  }

  lemma {:induction false} ChosenIsGreedy(rows: seq<seq<nat>>, cols: seq<seq<nat>>, mainCols: seq<nat>)
    requires ChosenOrder(rows, cols, mainCols)
    ensures GreedyOrder(rows, |cols|, mainCols) && Indices(|cols|, mainCols)
  {
    forall k | 0 <= k < |mainCols| ensures mainCols[k] < |cols| {
      assert ChosenAt(rows, cols, mainCols, k);
    }
    forall k | 0 <= k < |mainCols| ensures GreedyAt(rows, |cols|, mainCols, k) {
      assert ChosenAt(rows, cols, mainCols, k);
    }
  }

  lemma {:induction false} OrderExtended(rows: seq<seq<nat>>, cols: seq<seq<nat>>, fixed: seq<nat>, c: nat)
    requires ChosenOrder(rows, cols, fixed) && ChosenStep(rows, cols, fixed, c)
    ensures ChosenOrder(rows, cols, fixed + [c])
  {
    var more := fixed + [c];
    forall k | 0 <= k < |more| ensures ChosenAt(rows, cols, more, k) {
      assert k < |fixed| ==> ChosenAt(rows, cols, fixed, k);
      assert more[..k] == fixed[..k];
      assert fixed[..|fixed|] == fixed;
    }
  }

  /** Two orders agree as far as both go. */
  lemma {:induction false} OrdersAgree(rows: seq<seq<nat>>, cols: seq<seq<nat>>, a: seq<nat>, b: seq<nat>, k: nat)
    requires ChosenOrder(rows, cols, a) && ChosenOrder(rows, cols, b) && k <= |a| && k <= |b|
    ensures a[..k] == b[..k]
  {
    if k > 0 {
      OrdersAgree(rows, cols, a, b, k - 1);
      assert ChosenAt(rows, cols, a, k - 1) && ChosenAt(rows, cols, b, k - 1);
      ChosenUnique(rows, cols, a[..k - 1], a[k - 1], b[k - 1]);
      assert a[..k] == a[..k - 1] + [a[k - 1]] && b[..k] == b[..k - 1] + [b[k - 1]];
    }
  }

  ghost predicate AllMet(rows: seq<seq<nat>>, fixed: seq<nat>) {
    forall r {:trigger Meets(rows[r], fixed)} :: 0 <= r < |rows| ==> Meets(rows[r], fixed)
  }

  /** What the source ends with, if it takes all rows. */
  ghost predicate IsRun(
      rows: seq<seq<nat>>, cols: seq<seq<nat>>, mainRows: seq<nat>, mainCols: seq<nat>, gapRows: seq<(nat, nat)>) {
    && ChosenOrder(rows, cols, mainCols) && Indices(|cols|, mainCols) && AllMet(rows, mainCols)
    && mainRows == MainOf(rows, cols, mainCols) && gapRows == GapOf(rows, cols, mainCols)
  }

  /** The next choice of the source takes the last column off its queue. */
  ghost predicate DriesAt(rows: seq<seq<nat>>, cols: seq<seq<nat>>, fixed: seq<nat>, c: nat) {
    && ChosenOrder(rows, cols, fixed) && Indices(|cols|, fixed)
    && Chosen(rows, cols, fixed, c) && !Survives(rows, |cols|, fixed, c)
  }

  /** The next choice of the source takes two rows with the same dense part: b, and the first row a of the column. */
  ghost predicate RepeatsAt<D>(
      rows: seq<seq<nat>>, cols: seq<seq<nat>>, dense: seq<D>, fixed: seq<nat>, c: nat, a: nat, b: nat) {
    && ChosenOrder(rows, cols, fixed) && Indices(|cols|, fixed) && c < |cols| && Chosen(rows, cols, fixed, c)
    && (b, a) in Pairs(OpenOf(rows, cols, fixed, c))
    && a < |dense| && b < |dense| && dense[a] == dense[b]
  }

  ghost predicate Repeats<D(!new)>(rows: seq<seq<nat>>, cols: seq<seq<nat>>, dense: seq<D>) {
    exists fixed, c, a, b :: RepeatsAt(rows, cols, dense, fixed, c, a, b)
  }

  ghost predicate RunsDry(rows: seq<seq<nat>>, cols: seq<seq<nat>>) {
    exists fixed, c :: DriesAt(rows, cols, fixed, c)
  }

  lemma {:induction false} PrefixMeets(row: seq<nat>, a: seq<nat>, b: seq<nat>)
    requires |a| <= |b| && a == b[..|a|] && Meets(row, a)
    ensures Meets(row, b)
  {
    var k :| 0 <= k < |a| && a[k] in row;
    assert b[k] == a[k];
  }

  /** A choice of a run that takes all rows is one of its columns. */
  lemma {:induction false} ChoiceSurvives(
      rows: seq<seq<nat>>, cols: seq<seq<nat>>, mainCols: seq<nat>, fixed: seq<nat>, c: nat)
    requires ChosenOrder(rows, cols, mainCols) && AllMet(rows, mainCols)
    requires ChosenOrder(rows, cols, fixed) && Indices(|cols|, fixed) && Chosen(rows, cols, fixed, c)
    ensures Survives(rows, |cols|, fixed, c)
    ensures |fixed| < |mainCols| && mainCols[..|fixed|] == fixed && mainCols[|fixed|] == c
  {
    var r :| r in OpenRows(rows, fixed, c);
    assert Meets(rows[r], mainCols) && !Meets(rows[r], fixed);
    assert |fixed| < |mainCols| by {
      if |mainCols| <= |fixed| {
        OrdersAgree(rows, cols, mainCols, fixed, |mainCols|);
        assert mainCols[..|mainCols|] == mainCols;
        PrefixMeets(rows[r], mainCols, fixed);
      }
    }
    var k := |fixed|;
    OrdersAgree(rows, cols, mainCols, fixed, k);
    assert fixed[..k] == fixed;
    assert ChosenAt(rows, cols, mainCols, k);
    ChosenUnique(rows, cols, fixed, c, mainCols[k]);
  }

  /** A run does not do both: take all rows and run dry. */
  lemma {:induction false} MetNotDry(rows: seq<seq<nat>>, cols: seq<seq<nat>>, mainCols: seq<nat>)
    requires ChosenOrder(rows, cols, mainCols) && AllMet(rows, mainCols)
    ensures !RunsDry(rows, cols)
  {
    forall fixed, c | ChosenOrder(rows, cols, fixed) && Indices(|cols|, fixed) && Chosen(rows, cols, fixed, c)
      ensures Survives(rows, |cols|, fixed, c)
    {
      ChoiceSurvives(rows, cols, mainCols, fixed, c);
    }
  }

  /** The gap has the pairs of every step. */
  lemma {:induction false} GapHasPairs(
      rows: seq<seq<nat>>, cols: seq<seq<nat>>, fixed: seq<nat>, k: nat, p: (nat, nat))
    requires Indices(|cols|, fixed) && k < |fixed| && p in Pairs(OpenOf(rows, cols, fixed[..k], fixed[k]))
    ensures p in GapOf(rows, cols, fixed)
  {
    var before := fixed[..|fixed| - 1];
    if k < |fixed| - 1 {
      assert before[..k] == fixed[..k];
      GapHasPairs(rows, cols, before, k, p);
    }
  }

  ghost predicate Differ<D>(dense: seq<D>, p: (nat, nat)) {
    p.0 < |dense| && p.1 < |dense| ==> dense[p.0] != dense[p.1]
  }

  lemma {:induction false} StepInGap(
      rows: seq<seq<nat>>, cols: seq<seq<nat>>, mainCols: seq<nat>, fixed: seq<nat>, c: nat, p: (nat, nat))
    requires ChosenOrder(rows, cols, mainCols) && AllMet(rows, mainCols) && Indices(|cols|, mainCols)
    requires ChosenOrder(rows, cols, fixed) && Indices(|cols|, fixed) && c < |cols| && Chosen(rows, cols, fixed, c)
    requires p in Pairs(OpenOf(rows, cols, fixed, c))
    ensures p in GapOf(rows, cols, mainCols)
  {
    ChoiceSurvives(rows, cols, mainCols, fixed, c);
    GapHasPairs(rows, cols, mainCols, |fixed|, p);
  }

  /** A run that takes all rows, and whose gap rows differ from their partners, meets no two rows with the same dense
      part. */
  lemma {:induction false} MetNoRepeat<D(!new)>(
      rows: seq<seq<nat>>, cols: seq<seq<nat>>, dense: seq<D>, mainCols: seq<nat>)
    requires ChosenOrder(rows, cols, mainCols) && AllMet(rows, mainCols) && Indices(|cols|, mainCols)
    requires forall p {:trigger Differ(dense, p)} :: p in GapOf(rows, cols, mainCols) ==> Differ(dense, p)
    ensures !Repeats(rows, cols, dense)
  {
    forall fixed, c, a, b | RepeatsAt(rows, cols, dense, fixed, c, a, b) ensures !Differ(dense, (b, a)) {
    }
    forall fixed, c: nat, a: nat, b: nat |
      ChosenOrder(rows, cols, fixed) && Indices(|cols|, fixed) && c < |cols| && Chosen(rows, cols, fixed, c) &&
      (b, a) in Pairs(OpenOf(rows, cols, fixed, c))
      ensures Differ(dense, (b, a))
    {
      StepInGap(rows, cols, mainCols, fixed, c, (b, a));
    }
  }

  // ------------------------------------------------- every run ends

  /** While a row is open there is a choice. */
  lemma {:induction false} ChoiceExists(rows: seq<seq<nat>>, cols: seq<seq<nat>>, fixed: seq<nat>, c: nat)
    returns (d: nat)
    requires Indices(|cols|, fixed) && c in Left(|cols|, fixed) && OpenRows(rows, fixed, c) != {}
    ensures Chosen(rows, cols, fixed, d)
    decreases |OpenRows(rows, fixed, c)|, |Pushes(rows, cols, fixed)| - LastAt(Pushes(rows, cols, fixed), c)
  {
    var s := Pushes(rows, cols, fixed);
    if e :| e in Left(|cols|, fixed) && OpenRows(rows, fixed, e) != {} &&
            |OpenRows(rows, fixed, e)| < |OpenRows(rows, fixed, c)| {
      d := ChoiceExists(rows, cols, fixed, e);
    } else if e :| e in Left(|cols|, fixed) && |OpenRows(rows, fixed, e)| == |OpenRows(rows, fixed, c)| &&
                   LastAt(s, e) > LastAt(s, c) {
      assert OpenRows(rows, fixed, e) != {};
      d := ChoiceExists(rows, cols, fixed, e);
    } else {
      d := c;
    }
  }

  ghost predicate RowsIn(rows: seq<seq<nat>>, n: nat) {
    forall r :: 0 <= r < |rows| ==> |rows[r]| > 0 && rows[r][0] < n
  }

  /** A run takes all rows, or it runs dry. */
  lemma {:induction false} RunEnds(rows: seq<seq<nat>>, cols: seq<seq<nat>>, fixed: seq<nat>)
    returns (mainCols: seq<nat>)
    requires RowsIn(rows, |cols|) && ChosenOrder(rows, cols, fixed)
    ensures ChosenOrder(rows, cols, mainCols)
    ensures AllMet(rows, mainCols) || RunsDry(rows, cols)
    decreases |Left(|cols|, fixed)|
  {
    mainCols := fixed;
    if r :| 0 <= r < |rows| && !Meets(rows[r], fixed) {
      ChosenIsGreedy(rows, cols, fixed);
      OpenFirst(rows, cols, fixed, r);
      var c := ChoiceExists(rows, cols, fixed, rows[r][0]);
      if Survives(rows, |cols|, fixed, c) {
        OrderExtended(rows, cols, fixed, c);
        assert Left(|cols|, fixed + [c]) == Left(|cols|, fixed) - {c};
        mainCols := RunEnds(rows, cols, fixed + [c]);
      } else {
        assert DriesAt(rows, cols, fixed, c);
      }
    }
  }

  lemma {:induction false} OpenFirst(rows: seq<seq<nat>>, cols: seq<seq<nat>>, fixed: seq<nat>, r: nat)
    requires RowsIn(rows, |cols|) && r < |rows| && !Meets(rows[r], fixed)
    ensures rows[r][0] in Left(|cols|, fixed) && r in OpenRows(rows, fixed, rows[r][0])
  {
    var c := rows[r][0];
    forall k | 0 <= k < |fixed| ensures fixed[k] != c {
      assert fixed[k] == c ==> Meets(rows[r], fixed);
    }
  }

  // ------------------------------------------------- two spare columns are enough

  /** The rows that have a fixed column. */
  ghost function MetRows(rows: seq<seq<nat>>, fixed: seq<nat>): set<nat> {
    set r: nat | r < |rows| && Meets(rows[r], fixed)
  }

  /** Every greedy choice takes a row. */
  lemma {:induction false} MetGrows(rows: seq<seq<nat>>, n: nat, fixed: seq<nat>, k: nat)
    requires GreedyOrder(rows, n, fixed) && k <= |fixed|
    ensures |MetRows(rows, fixed[..k])| >= k
  {
    if k > 0 {
      MetGrows(rows, n, fixed, k - 1);
      var a, b, c := fixed[..k - 1], fixed[..k], fixed[k - 1];
      assert GreedyAt(rows, n, fixed, k - 1);
      var r :| r in OpenRows(rows, a, c);
      assert b[k - 1] == c && Meets(rows[r], b);
      forall s | s in MetRows(rows, a) ensures s in MetRows(rows, b) {
        PrefixMeets(rows[s], a, b);
      }
      SubsetCard(MetRows(rows, a) + {r}, MetRows(rows, b));
    }
  }

  lemma {:induction false} SubsetCard(a: set<nat>, b: set<nat>)
    requires a <= b
    ensures |a| <= |b|
  {
    if a != {} {
      var x :| x in a;
      SubsetCard(a - {x}, b - {x});
    }
  }

  lemma {:induction false} IotaCard(n: nat)
    ensures |Elems(Iota(n))| == n
  {
    DistinctCount(Iota(n));
  }

  lemma {:induction false} ElemsCard(s: seq<nat>)
    ensures |Elems(s)| <= |s|
  {
    if s != [] {
      ElemsCard(s[..|s| - 1]);
      assert s == s[..|s| - 1] + [s[|s| - 1]];
      ElemsPush(s[..|s| - 1], s[|s| - 1]);
    } else {
      assert Elems(s) == {};
    }
  }

  /** Before a choice fewer columns are fixed than there are rows. */
  lemma {:induction false} LeftEnough(rows: seq<seq<nat>>, n: nat, fixed: seq<nat>, c: nat)
    requires GreedyOrder(rows, n, fixed) && Least(rows, n, fixed, c)
    ensures |Left(n, fixed)| + |rows| >= n + 1
  {
    MetGrows(rows, n, fixed, |fixed|);
    assert fixed[..|fixed|] == fixed;
    var r :| r in OpenRows(rows, fixed, c);
    IotaCard(|rows|);
    IotaHas(|rows|);
    SubsetCard(MetRows(rows, fixed) + {r}, Elems(Iota(|rows|)));
    ElemsCard(fixed);
    IotaCard(n);
    IotaHas(n);
    SubsetCard(Elems(Iota(n)), Left(n, fixed) + Elems(fixed));
  }

  /** With two columns more than rows no choice runs dry, whatever the ties. */
  lemma {:induction false} EnoughSurvives(rows: seq<seq<nat>>, n: nat, fixed: seq<nat>, c: nat)
    requires n >= |rows| + 2 && GreedyOrder(rows, n, fixed) && Least(rows, n, fixed, c)
    ensures Survives(rows, n, fixed, c)
  {
    LeftEnough(rows, n, fixed, c);
    assert |Left(n, fixed) - {c}| >= 2;
    forall r | r in OpenRows(rows, fixed, c) ensures !HasOnly(Left(n, fixed) - {c}, rows[r]) {
      assert forall d :: d in rows[r] && Left(n, fixed) - {c} == {d} ==> |{d}| == 1;
    }
  }

  /** There is only one run that takes all rows. */
  lemma {:induction false} RunUnique(
      rows: seq<seq<nat>>, cols: seq<seq<nat>>, mainRows: seq<nat>, mainCols: seq<nat>, gapRows: seq<(nat, nat)>,
      mainRows': seq<nat>, mainCols': seq<nat>, gapRows': seq<(nat, nat)>)
    requires IsRun(rows, cols, mainRows, mainCols, gapRows) && IsRun(rows, cols, mainRows', mainCols', gapRows')
    ensures mainRows == mainRows' && mainCols == mainCols' && gapRows == gapRows'
  {
    NotLonger(rows, cols, mainCols, mainCols');
    NotLonger(rows, cols, mainCols', mainCols);
    OrdersAgree(rows, cols, mainCols, mainCols', |mainCols|);
    assert mainCols[..|mainCols|] == mainCols && mainCols'[..|mainCols'|] == mainCols';
  }

  lemma {:induction false} NotLonger(rows: seq<seq<nat>>, cols: seq<seq<nat>>, a: seq<nat>, b: seq<nat>)
    requires ChosenOrder(rows, cols, a) && AllMet(rows, a) && ChosenOrder(rows, cols, b)
    ensures |b| <= |a|
  {
    assert a[..|a|] == a;
    if |b| > |a| {
      StepOpen(rows, cols, b, |a|);
      OrdersAgree(rows, cols, a, b, |a|);
    }
  }

  lemma {:induction false} StepOpen(rows: seq<seq<nat>>, cols: seq<seq<nat>>, fixed: seq<nat>, k: nat)
    requires ChosenOrder(rows, cols, fixed) && k < |fixed|
    ensures !AllMet(rows, fixed[..k])
  {
    assert ChosenAt(rows, cols, fixed, k);
    var r :| r in OpenRows(rows, fixed[..k], fixed[k]);
  }

  lemma {:induction false} DryIsShort(rows: seq<seq<nat>>, cols: seq<seq<nat>>)
    requires RunsDry(rows, cols)
    ensures |cols| < |rows| + 2
  {
    var fixed, c :| DriesAt(rows, cols, fixed, c);
    ChosenIsGreedy(rows, cols, fixed);
    if |cols| >= |rows| + 2 {
      EnoughSurvives(rows, |cols|, fixed, c);
    }
  }

  // ------------------------------------------------- fewer are not

  /** The rows join neighbouring columns, and the rows that are left over repeat the last one. */
  ghost predicate IsPath(rows: seq<seq<nat>>, n: nat) {
    && 0 < n <= |rows| + 1
    && forall r {:trigger rows[r]} :: 0 <= r < |rows| ==>
      rows[r] == if n == 1 then [0] else [Min(r, n - 2), Min(r, n - 2) + 1]
  }

  /** Exactly the columns outside lo..hi are fixed. */
  ghost predicate Between(n: nat, fixed: seq<nat>, lo: nat, hi: nat) {
    lo < hi < n && forall c: nat {:trigger c in fixed} :: c < n ==> (c in fixed <==> c < lo || hi < c)
  }

  lemma {:induction false} PathMeets(rows: seq<seq<nat>>, n: nat, fixed: seq<nat>, lo: nat, hi: nat, r: nat)
    requires IsPath(rows, n) && Between(n, fixed, lo, hi) && r < |rows|
    ensures Meets(rows[r], fixed) <==> !(lo <= Min(r, n - 2) < hi)
  {
    var e := Min(r, n - 2);
    assert rows[r] == [e, e + 1];
    assert rows[r][0] == e && rows[r][1] == e + 1;
    if e in fixed {
      var k :| 0 <= k < |fixed| && fixed[k] == e;
    }
    if e + 1 in fixed {
      var k :| 0 <= k < |fixed| && fixed[k] == e + 1;
    }
  }

  /** The row that begins with e is open, if e and the column behind it are. */
  lemma {:induction false} PathOpen(rows: seq<seq<nat>>, n: nat, fixed: seq<nat>, lo: nat, hi: nat, e: nat)
    requires IsPath(rows, n) && Between(n, fixed, lo, hi) && lo <= e < hi
    ensures e < |rows| && rows[e] == [e, e + 1]
    ensures e in OpenRows(rows, fixed, e) && e in OpenRows(rows, fixed, e + 1)
  {
    PathMeets(rows, n, fixed, lo, hi, e);
    assert rows[e][0] == e && rows[e][1] == e + 1;
  }

  /** The first free column has one row, unless only two columns are left. */
  lemma {:induction false} PathFirst(rows: seq<seq<nat>>, n: nat, fixed: seq<nat>, lo: nat, hi: nat)
    requires IsPath(rows, n) && Between(n, fixed, lo, hi) && lo < n - 2
    ensures OpenRows(rows, fixed, lo) == {lo}
  {
    PathOpen(rows, n, fixed, lo, hi, lo);
    forall r | r in OpenRows(rows, fixed, lo) ensures r == lo {
      PathMeets(rows, n, fixed, lo, hi, r);
    }
  }

  /** Inside the path a column has two rows at least. */
  lemma {:induction false} PathInside(rows: seq<seq<nat>>, n: nat, fixed: seq<nat>, lo: nat, hi: nat, c: nat)
    requires IsPath(rows, n) && Between(n, fixed, lo, hi) && lo < c < hi
    ensures |OpenRows(rows, fixed, c)| >= 2
  {
    PathOpen(rows, n, fixed, lo, hi, c);
    PathOpen(rows, n, fixed, lo, hi, c - 1);
    SubsetCard({c - 1, c}, OpenRows(rows, fixed, c));
  }

  /** Two columns and the rows between them do not survive. */
  lemma {:induction false} PathTwoLeft(rows: seq<seq<nat>>, n: nat, fixed: seq<nat>, lo: nat, c: nat)
    requires IsPath(rows, n) && Between(n, fixed, lo, lo + 1) && (c == lo || c == lo + 1)
    ensures !Survives(rows, n, fixed, c)
  {
    PathOpen(rows, n, fixed, lo, lo + 1, lo);
    var d := if c == lo then lo + 1 else lo;
    assert Left(n, fixed) - {c} == {d};
    assert HasOnly(Left(n, fixed) - {c}, rows[lo]);
  }

  /** A greedy choice takes a path off from its ends, until two columns and the rows between them are left. */
  lemma {:induction false} PathStep(rows: seq<seq<nat>>, n: nat, fixed: seq<nat>, lo: nat, hi: nat, c: nat)
    requires IsPath(rows, n) && Between(n, fixed, lo, hi) && Least(rows, n, fixed, c)
    ensures (c == lo || c == hi) && (lo + 1 == hi ==> !Survives(rows, n, fixed, c))
  {
    assert lo !in fixed && lo in Left(n, fixed) && lo <= c <= hi;
    assert c == lo || c == hi by {
      if lo < c < hi {
        PathFirst(rows, n, fixed, lo, hi);
        PathInside(rows, n, fixed, lo, hi, c);
      }
    }
    if lo + 1 == hi {
      PathTwoLeft(rows, n, fixed, lo, c);
    }
  }

  lemma {:induction false} PathLeft(rows: seq<seq<nat>>, n: nat, mainCols: seq<nat>, k: nat) returns (lo: nat, hi: nat)
    requires IsPath(rows, n) && n >= 2 && GreedyOrder(rows, n, mainCols) && k <= |mainCols|
    ensures Between(n, mainCols[..k], lo, hi)
  {
    if k == 0 {
      lo, hi := 0, n - 1;
    } else {
      lo, hi := PathLeft(rows, n, mainCols, k - 1);
      var c := mainCols[k - 1];
      assert GreedyAt(rows, n, mainCols, k - 1);
      PathStep(rows, n, mainCols[..k - 1], lo, hi, c);
      assert mainCols[..k] == mainCols[..k - 1] + [c];
      BetweenStep(n, mainCols[..k - 1], lo, hi, c);
      if c == lo { lo := lo + 1; } else { hi := hi - 1; }
    }
  }

  lemma {:induction false} BetweenStep(n: nat, fixed: seq<nat>, lo: nat, hi: nat, c: nat)
    requires Between(n, fixed, lo, hi) && lo + 1 < hi && (c == lo || c == hi)
    ensures if c == lo then Between(n, fixed + [c], lo + 1, hi) else Between(n, fixed + [c], lo, hi - 1)
  {
  }

  /** With one spare column or less, no greedy order meets all rows of a path. */
  lemma {:induction false} PathNotMet(rows: seq<seq<nat>>, n: nat, mainCols: seq<nat>)
    requires IsPath(rows, n) && |rows| > 0 && GreedyOrder(rows, n, mainCols)
    ensures !AllMet(rows, mainCols)
  {
    assert mainCols[..|mainCols|] == mainCols;
    if n == 1 {
      OneColumn(rows, mainCols);
    } else {
      var lo, hi := PathLeft(rows, n, mainCols, |mainCols|);
      PathOpen(rows, n, mainCols, lo, hi, lo);
    }
  }

  /** The only column cannot be fixed. */
  lemma {:induction false} OneColumn(rows: seq<seq<nat>>, mainCols: seq<nat>)
    requires IsPath(rows, 1) && |rows| > 0 && GreedyOrder(rows, 1, mainCols)
    ensures !Meets(rows[0], mainCols)
  {
    assert mainCols != [] ==> GreedyAt(rows, 1, mainCols, 0);
    NoStep(rows, mainCols[..0], if mainCols == [] then 0 else mainCols[0]);
  }

  lemma {:induction false} NoStep(rows: seq<seq<nat>>, fixed: seq<nat>, c: nat)
    ensures !GreedyStep(rows, 1, fixed, c)
  {
    assert c in Left(1, fixed) ==> Left(1, fixed) - {c} == {};
  }

  /** Whatever the column lists are, the run on such rows runs dry. */
  lemma {:induction false} PathRunsDry(rows: seq<seq<nat>>, cols: seq<seq<nat>>)
    requires IsPath(rows, |cols|) && |rows| > 0
    ensures RunsDry(rows, cols)
  {
    var mainCols := RunEnds(rows, cols, []);
    ChosenIsGreedy(rows, cols, mainCols);
    PathNotMet(rows, |cols|, mainCols);
  }
}
