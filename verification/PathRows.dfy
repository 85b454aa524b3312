/** Two spare columns are exactly what `triangulate` needs: with fewer there are rows, in any number, on which it takes
    the last column off its queue. */
module PathRows {
  import opened Prelude
  import opened WeightSets
  import opened Greedy
  import opened Triangulation
  import opened Columns
  import Paxos

  ghost function PathOf(m: nat, n: nat): (rows: seq<seq<nat>>)
    requires 0 < n <= m + 1
    ensures |rows| == m && IsPath(rows, n) && RowsOk(rows, n)
  {
    seq(m, r requires 0 <= r < m => if n == 1 then [0] else [Min(r, n - 2), Min(r, n - 2) + 1])
  }

  /** The rows and their column lists are as `triangulate` wants them. */
  ghost predicate Fits(rows: seq<seq<nat>>, cols: seq<seq<nat>>, m: nat, n: nat) {
    |rows| == m && |cols| == n && RowsOk(rows, n) && Transposed(rows, cols)
  }

  /** Whatever the rows are, the run does not run dry, if and only if there are two more columns than rows. */
  lemma {:induction false} NeverDryIff(m: nat, n: nat)
    requires m > 0 && n > 0
    ensures (forall rows, cols {:trigger Fits(rows, cols, m, n)} :: Fits(rows, cols, m, n) ==> !RunsDry(rows, cols))
            <==> n >= m + 2
  {
    if n >= m + 2 {
      forall rows, cols {:trigger Fits(rows, cols, m, n)} | Fits(rows, cols, m, n) ensures !RunsDry(rows, cols) {
        if RunsDry(rows, cols) {
          DryIsShort(rows, cols);
        }
      }
    } else {
      var rows := PathOf(m, n);
      var cols := ListsOf(rows, n);
      ListsTranspose(rows, n);
      assert Fits(rows, cols, m, n);
      PathRunsDry(rows, cols);
    }
  }

  /** `triangulate` on rows whose dense parts differ: it ends without a column exactly if the run runs dry. */
  method TriangulateRows(rows: seq<seq<nat>>, n: nat) returns (light: bool, t: Triangulated)
    requires RowsOk(rows, n) && n > 0
    ensures light <==> Paxos.LightRows(rows, n)
    ensures light ==> (t.NoColumnLeft? <==> RunsDry(rows, ListsOf(rows, n)))
  {
    var weights := CountWeights(rows, n);
    Paxos.LightIffBelow(rows, weights);
    light := Paxos.AllBelow(weights, INITIAL_BUCKETS);
    if !light {
      return false, NoColumnLeft;
    }
    var cols := RebuildColumns(rows, weights);
    assert cols == ListsOf(rows, n);
    var wd := new WeightData(weights);
    var dense := seq(|rows|, r => r);
    t := Triangulate(wd, rows, cols, dense);
  }

  /** For as many rows and as few columns as one likes, unless a column gets more rows than there are weight lists. */
  method TriangulatePath(m: nat, n: nat) returns (rows: seq<seq<nat>>, light: bool, t: Triangulated)
    requires m > 0 && 0 < n <= m + 1
    ensures |rows| == m && IsPath(rows, n) && (light <==> Paxos.LightRows(rows, n))
    ensures light ==> t.NoColumnLeft?
  {
    rows := seq(m, r requires 0 <= r < m => if n == 1 then [0] else [Min(r, n - 2), Min(r, n - 2) + 1]);
    assert rows == PathOf(m, n);
    light, t := TriangulateRows(rows, n);
    PathRunsDry(rows, ListsOf(rows, n));
  }
}
