/** Systems of linear equations over GF(2) whose right-hand sides are rows of blocks, and the textbook elimination
    that the band solver of okvs/rb/codec.h refines: forward elimination on the first column of each row, then
    filling the table from the last row back. */
module XorSystem {
  import opened Prelude
  import opened Fields
  import opened BitOps

  /** One equation: the table rows selected by coeffs add up to rhs. */
  datatype Equation<F> = Equation(coeffs: seq<bool>, rhs: seq<F>)

  /** n unknown table rows, each s blocks wide. */
  ghost predicate Shaped<F>(eqs: seq<Equation<F>>, n: nat, s: nat) {
    forall i :: 0 <= i < |eqs| ==> |eqs[i].coeffs| == n && |eqs[i].rhs| == s
  }

  ghost predicate TableOk<F>(table: seq<seq<F>>, n: nat, s: nat) {
    |table| == n && forall c :: 0 <= c < n ==> |table[c]| == s
  }

  // ------------------------------------------------- rows of blocks

  lemma {:induction false} VecLaws<F(!new)>(k: Field<F>, a: seq<F>, b: seq<F>, c: seq<F>)
    requires IsXorGroup(k) && |a| == |b| == |c|
    ensures VecAdd(k, a, b) == VecAdd(k, b, a)
    ensures VecAdd(k, VecAdd(k, a, b), c) == VecAdd(k, a, VecAdd(k, b, c))
    ensures VecAdd(k, a, ZeroVec(k, |a|)) == a == VecAdd(k, ZeroVec(k, |a|), a)
    ensures VecAdd(k, a, a) == ZeroVec(k, |a|)
    ensures VecAdd(k, VecAdd(k, a, b), b) == a
  {
    forall i | 0 <= i < |a|
      ensures AddLaws(k, a[i], b[i], c[i]) && Add(k, Add(k, a[i], b[i]), b[i]) == a[i] && Add(k, k.zero, a[i]) == a[i]
    {
      AddCancel(k, a[i], b[i]);
    }
  }

  /** The sum of the selected table rows below n. */
  ghost function Sum<F>(k: Field<F>, coeffs: seq<bool>, table: seq<seq<F>>, s: nat, n: nat): (r: seq<F>)
    requires n <= |coeffs| && TableOk(table, |coeffs|, s)
    ensures |r| == s
  {
    if n == 0 then ZeroVec(k, s)
    else if coeffs[n - 1] then VecAdd(k, Sum(k, coeffs, table, s, n - 1), table[n - 1])
    else Sum(k, coeffs, table, s, n - 1)
  }

  ghost predicate Satisfies<F>(k: Field<F>, table: seq<seq<F>>, e: Equation<F>)
    requires TableOk(table, |e.coeffs|, |e.rhs|)
  {
    Sum(k, e.coeffs, table, |e.rhs|, |e.coeffs|) == e.rhs
  }

  lemma {:induction false} SumXor<F(!new)>(k: Field<F>, a: seq<bool>, b: seq<bool>, table: seq<seq<F>>, s: nat, n: nat)
    requires IsXorGroup(k) && |a| == |b| && n <= |a| && TableOk(table, |a|, s)
    ensures Sum(k, Xor(a, b), table, s, n) == VecAdd(k, Sum(k, a, table, s, n), Sum(k, b, table, s, n))
  {
    if n == 0 {
      VecLaws(k, ZeroVec(k, s), ZeroVec(k, s), ZeroVec(k, s));
    } else {
      SumXor(k, a, b, table, s, n - 1);
      var x, y, t := Sum(k, a, table, s, n - 1), Sum(k, b, table, s, n - 1), table[n - 1];
      VecLaws(k, x, y, t);
      VecLaws(k, x, t, y);
      VecLaws(k, t, y, t);
      VecLaws(k, y, t, t);
      VecLaws(k, x, t, VecAdd(k, y, t));
      VecLaws(k, t, VecAdd(k, y, t), t);
    }
  }

  /** A table row that is not selected does not count. */
  lemma {:induction false} SumUnused<F>(
      k: Field<F>, a: seq<bool>, table: seq<seq<F>>, s: nat, j: nat, v: seq<F>, n: nat)
    requires n <= |a| && TableOk(table, |a|, s) && j < |a| && |v| == s && (!a[j] || n <= j)
    ensures Sum(k, a, table[j := v], s, n) == Sum(k, a, table, s, n)
  {
    if n > 0 { SumUnused(k, a, table, s, j, v, n - 1); }
  }

  /** Filling in a selected zero row adds it. */
  lemma {:induction false} SumFilled<F(!new)>(
      k: Field<F>, a: seq<bool>, table: seq<seq<F>>, s: nat, j: nat, v: seq<F>, n: nat)
    requires IsXorGroup(k) && j < n <= |a| && TableOk(table, |a|, s) && |v| == s && a[j] && table[j] == ZeroVec(k, s)
    ensures Sum(k, a, table[j := v], s, n) == VecAdd(k, Sum(k, a, table, s, n), v)
  {
    if j == n - 1 {
      SumUnused(k, a, table, s, j, v, n - 1);
      VecLaws(k, Sum(k, a, table, s, n - 1), v, v);
    } else {
      SumFilled(k, a, table, s, j, v, n - 1);
      var x, t := Sum(k, a, table, s, n - 1), table[n - 1];
      VecLaws(k, x, v, t);
      VecLaws(k, x, t, v);
      VecLaws(k, v, t, t);
    }
  }

  // ------------------------------------------------- forward elimination

  /** The first selected column from c on, or n. */
  function FirstFrom(coeffs: seq<bool>, c: nat): (p: nat)
    requires c <= |coeffs|
    ensures c <= p <= |coeffs| && (forall d :: c <= d < p ==> !coeffs[d]) && (p < |coeffs| ==> coeffs[p])
    decreases |coeffs| - c
  {
    if c == |coeffs| || coeffs[c] then c else FirstFrom(coeffs, c + 1)
  }

  function Pivot<F>(e: Equation<F>): nat { FirstFrom(e.coeffs, 0) }

  /** Adds equation d to e if e selects column p. */
  function Reduce<F>(k: Field<F>, e: Equation<F>, d: Equation<F>, p: nat): Equation<F>
    requires |e.coeffs| == |d.coeffs| && |e.rhs| == |d.rhs| && p < |e.coeffs|
  {
    if e.coeffs[p] then Equation(Xor(e.coeffs, d.coeffs), VecAdd(k, e.rhs, d.rhs)) else e
  }

  /** One round: equation i is used on the equations j with i < j < upTo. */
  function Round<F>(k: Field<F>, eqs: seq<Equation<F>>, n: nat, s: nat, i: nat, upTo: nat): (r: seq<Equation<F>>)
    requires Shaped(eqs, n, s) && i < |eqs| && Pivot(eqs[i]) < n
    ensures |r| == |eqs| && Shaped(r, n, s)
    ensures forall j :: 0 <= j < |eqs| ==>
      r[j] == if i < j < upTo then Reduce(k, eqs[j], eqs[i], Pivot(eqs[i])) else eqs[j]
  {
    seq(|eqs|, j requires 0 <= j < |eqs| =>
      if i < j < upTo then Reduce(k, eqs[j], eqs[i], Pivot(eqs[i])) else eqs[j])
  }

  /** The triangular system, or None if an equation became empty. */
  function Gauss<F>(k: Field<F>, eqs: seq<Equation<F>>, n: nat, s: nat, i: nat): (r: Option<seq<Equation<F>>>)
    requires Shaped(eqs, n, s) && i <= |eqs|
    ensures r.Some? ==> |r.value| == |eqs| && Shaped(r.value, n, s)
    decreases |eqs| - i
  {
    if i == |eqs| then Some(eqs)
    else if Pivot(eqs[i]) == n then None
    else Gauss(k, Round(k, eqs, n, s, i, |eqs|), n, s, i + 1)
  }

  // ------------------------------------------------- every round keeps the solutions

  ghost predicate SatisfiesAll<F>(k: Field<F>, table: seq<seq<F>>, eqs: seq<Equation<F>>, n: nat, s: nat)
    requires TableOk(table, n, s) && Shaped(eqs, n, s)
  {
    forall j {:trigger Satisfies(k, table, eqs[j])} :: 0 <= j < |eqs| ==> Satisfies(k, table, eqs[j])
  }

  lemma {:induction false} ReduceKeeps<F(!new)>(k: Field<F>, table: seq<seq<F>>, e: Equation<F>, d: Equation<F>, p: nat)
    requires IsXorGroup(k) && |e.coeffs| == |d.coeffs| && |e.rhs| == |d.rhs| && p < |e.coeffs|
    requires TableOk(table, |e.coeffs|, |e.rhs|) && Satisfies(k, table, d)
    ensures Satisfies(k, table, Reduce(k, e, d, p)) <==> Satisfies(k, table, e)
  {
    var n, s := |e.coeffs|, |e.rhs|;
    SumXor(k, e.coeffs, d.coeffs, table, s, n);
    VecLaws(k, Sum(k, e.coeffs, table, s, n), d.rhs, d.rhs);
    VecLaws(k, e.rhs, d.rhs, d.rhs);
  }

  lemma {:induction false} GaussKeeps<F(!new)>(
      k: Field<F>, table: seq<seq<F>>, eqs: seq<Equation<F>>, n: nat, s: nat, i: nat)
    requires IsXorGroup(k) && Shaped(eqs, n, s) && i <= |eqs| && TableOk(table, n, s) && Gauss(k, eqs, n, s, i).Some?
    requires SatisfiesAll(k, table, Gauss(k, eqs, n, s, i).value, n, s)
    ensures SatisfiesAll(k, table, eqs, n, s)
    decreases |eqs| - i
  {
    if i < |eqs| {
      var next := Round(k, eqs, n, s, i, |eqs|);
      GaussKeeps(k, table, next, n, s, i + 1);
      forall j | 0 <= j < |eqs| ensures Satisfies(k, table, eqs[j]) {
        assert Satisfies(k, table, next[i]) && Satisfies(k, table, next[j]);
        if i < j { ReduceKeeps(k, table, eqs[j], eqs[i], Pivot(eqs[i])); }
      }
    }
  }

  // ------------------------------------------------- the result is triangular

  /** Equation a has a pivot, which no equation after it selects; the last clause for those below i only. */
  ghost predicate Triangular<F>(eqs: seq<Equation<F>>, n: nat, i: nat)
  {
    && i <= |eqs|
    && (forall a :: 0 <= a < |eqs| ==> |eqs[a].coeffs| == n)
    && (forall a {:trigger Pivot(eqs[a])} :: 0 <= a < i ==> Pivot(eqs[a]) < n)
    && (forall a, b {:trigger Avoids(eqs, a, b)} :: 0 <= a < i && a < b < |eqs| ==> Avoids(eqs, a, b))
  }

  ghost predicate Avoids<F>(eqs: seq<Equation<F>>, a: nat, b: nat)
    requires a < |eqs| && b < |eqs|
  {
    Pivot(eqs[a]) < |eqs[b].coeffs| ==> !eqs[b].coeffs[Pivot(eqs[a])]
  }

  lemma {:induction false} RoundTriangular<F>(k: Field<F>, eqs: seq<Equation<F>>, n: nat, s: nat, i: nat)
    requires Shaped(eqs, n, s) && i < |eqs| && Triangular(eqs, n, i) && Pivot(eqs[i]) < n
    ensures Triangular(Round(k, eqs, n, s, i, |eqs|), n, i + 1)
  {
    var r := Round(k, eqs, n, s, i, |eqs|);
    forall a, b | 0 <= a < i + 1 && a < b < |eqs| ensures Avoids(r, a, b) {
      assert r[a] == eqs[a];
      if a < i {
        assert Avoids(eqs, a, b) && Avoids(eqs, a, i);
      }
    }
    forall a | 0 <= a < i + 1 ensures Pivot(r[a]) < n {
      assert r[a] == eqs[a];
    }
  }

  lemma {:induction false} GaussTriangular<F>(k: Field<F>, eqs: seq<Equation<F>>, n: nat, s: nat, i: nat)
    requires Shaped(eqs, n, s) && i <= |eqs| && Triangular(eqs, n, i) && Gauss(k, eqs, n, s, i).Some?
    ensures Triangular(Gauss(k, eqs, n, s, i).value, n, |eqs|)
    decreases |eqs| - i
  {
    if i < |eqs| {
      RoundTriangular(k, eqs, n, s, i);
      GaussTriangular(k, Round(k, eqs, n, s, i, |eqs|), n, s, i + 1);
    }
  }

  // ------------------------------------------------- filling the table

  /** The right-hand side of e plus the selected table rows below c other than row p. */
  function Rest<F>(k: Field<F>, e: Equation<F>, p: nat, table: seq<seq<F>>, c: nat): (r: seq<F>)
    requires c <= |e.coeffs| && |table| == |e.coeffs| && forall d :: 0 <= d < |table| ==> |table[d]| == |e.rhs|
    ensures |r| == |e.rhs|
  {
    if c == 0 then e.rhs
    else if e.coeffs[c - 1] && c - 1 != p then VecAdd(k, Rest(k, e, p, table, c - 1), table[c - 1])
    else Rest(k, e, p, table, c - 1)
  }

  lemma {:induction false} RestNext<F>(k: Field<F>, e: Equation<F>, p: nat, table: seq<seq<F>>, c: nat)
    requires c < |e.coeffs| && |table| == |e.coeffs| && forall d :: 0 <= d < |table| ==> |table[d]| == |e.rhs|
    ensures var r := Rest(k, e, p, table, c);
            Rest(k, e, p, table, c + 1) == if e.coeffs[c] && c != p then VecAdd(k, r, table[c]) else r
  {
  }

  /** The table after the equations i - 1, ..., 0 have been processed. */
  function Fill<F>(k: Field<F>, eqs: seq<Equation<F>>, table: seq<seq<F>>, n: nat, s: nat, i: nat): (r: seq<seq<F>>)
    requires Shaped(eqs, n, s) && i <= |eqs| && TableOk(table, n, s) && forall a :: 0 <= a < |eqs| ==> Pivot(eqs[a]) < n
    ensures TableOk(r, n, s)
    decreases i
  {
    if i == 0 then table
    else
      var p := Pivot(eqs[i - 1]);
      Fill(k, eqs, table[p := Rest(k, eqs[i - 1], p, table, n)], n, s, i - 1)
  }

  function ZeroTable<F>(k: Field<F>, n: nat, s: nat): (r: seq<seq<F>>)
    ensures TableOk(r, n, s) && forall c :: 0 <= c < n ==> r[c] == ZeroVec(k, s)
  {
    seq(n, _ => ZeroVec(k, s))
  }

  lemma {:induction false} RestIsSum<F(!new)>(k: Field<F>, e: Equation<F>, p: nat, table: seq<seq<F>>, c: nat)
    requires IsXorGroup(k) && c <= |e.coeffs| && TableOk(table, |e.coeffs|, |e.rhs|)
    requires p < |table| && table[p] == ZeroVec(k, |e.rhs|)
    ensures Rest(k, e, p, table, c) == VecAdd(k, e.rhs, Sum(k, e.coeffs, table, |e.rhs|, c))
  {
    if c == 0 {
      VecLaws(k, e.rhs, e.rhs, e.rhs);
    } else {
      RestIsSum(k, e, p, table, c - 1);
      var x := Sum(k, e.coeffs, table, |e.rhs|, c - 1);
      VecLaws(k, e.rhs, x, table[c - 1]);
      VecLaws(k, x, x, x);
    }
  }

  /** The equations from i on are satisfied, and the pivot rows of the earlier ones are still zero. */
  ghost predicate Filled<F>(k: Field<F>, eqs: seq<Equation<F>>, table: seq<seq<F>>, n: nat, s: nat, i: nat) {
    && Shaped(eqs, n, s) && i <= |eqs| && TableOk(table, n, s)
    && (forall j {:trigger Satisfies(k, table, eqs[j])} :: i <= j < |eqs| ==> Satisfies(k, table, eqs[j]))
    && (forall a {:trigger Pivot(eqs[a])} :: 0 <= a < i ==> Pivot(eqs[a]) < n && table[Pivot(eqs[a])] == ZeroVec(k, s))
  }

  lemma {:induction false} FilledOneMore<F(!new)>(
      k: Field<F>, eqs: seq<Equation<F>>, table: seq<seq<F>>, n: nat, s: nat, i: nat)
    requires IsXorGroup(k) && Triangular(eqs, n, |eqs|) && 0 < i && Filled(k, eqs, table, n, s, i)
    ensures var p := Pivot(eqs[i - 1]);
            p < n && Filled(k, eqs, table[p := Rest(k, eqs[i - 1], p, table, n)], n, s, i - 1)
  {
    var e := eqs[i - 1];
    var p := Pivot(e);
    assert p < n && table[p] == ZeroVec(k, s);
    var v := Rest(k, e, p, table, n);
    var table' := table[p := v];
    RestIsSum(k, e, p, table, n);
    SumFilled(k, e.coeffs, table, s, p, v, n);
    var x := Sum(k, e.coeffs, table, s, n);
    VecLaws(k, x, e.rhs, x);
    VecLaws(k, e.rhs, x, x);
    assert Satisfies(k, table', e);
    forall j | i - 1 <= j < |eqs| ensures Satisfies(k, table', eqs[j]) {
      if j >= i {
        assert Satisfies(k, table, eqs[j]);
        assert Avoids(eqs, i - 1, j);
        SumUnused(k, eqs[j].coeffs, table, s, p, v, n);
      }
    }
    forall a | 0 <= a < i - 1 ensures Pivot(eqs[a]) < n && table'[Pivot(eqs[a])] == ZeroVec(k, s) {
      assert Avoids(eqs, a, i - 1);
    }
  }

  lemma {:induction false} FillSatisfies<F(!new)>(
      k: Field<F>, eqs: seq<Equation<F>>, table: seq<seq<F>>, n: nat, s: nat, i: nat)
    requires IsXorGroup(k) && Triangular(eqs, n, |eqs|) && Filled(k, eqs, table, n, s, i)
    ensures forall a :: 0 <= a < |eqs| ==> Pivot(eqs[a]) < n
    ensures SatisfiesAll(k, Fill(k, eqs, table, n, s, i), eqs, n, s)
    decreases i
  {
    if i > 0 {
      FilledOneMore(k, eqs, table, n, s, i);
      var p := Pivot(eqs[i - 1]);
      FillSatisfies(k, eqs, table[p := Rest(k, eqs[i - 1], p, table, n)], n, s, i - 1);
    }
  }

  /** The whole solver: elimination, then filling a table of zeros. */
  function Solve<F>(k: Field<F>, eqs: seq<Equation<F>>, n: nat, s: nat): (r: Option<seq<seq<F>>>)
    requires Shaped(eqs, n, s)
  {
    var g := Gauss(k, eqs, n, s, 0);
    if g.None? then None
    else (
      TrivialTriangular(eqs, n, s);
      GaussTriangular(k, eqs, n, s, 0);
      Some(Fill(k, g.value, ZeroTable(k, n, s), n, s, |eqs|)))
  }

  lemma {:induction false} FillLeaves<F>(
      k: Field<F>, eqs: seq<Equation<F>>, table: seq<seq<F>>, n: nat, s: nat, i: nat, c: nat)
    requires Shaped(eqs, n, s) && i <= |eqs| && TableOk(table, n, s) && c < n
    requires forall a :: 0 <= a < |eqs| ==> Pivot(eqs[a]) < n && Pivot(eqs[a]) != c
    ensures Fill(k, eqs, table, n, s, i)[c] == table[c]
    decreases i
  {
    if i > 0 {
      var p := Pivot(eqs[i - 1]);
      FillLeaves(k, eqs, table[p := Rest(k, eqs[i - 1], p, table, n)], n, s, i - 1, c);
    }
  }

  /** The entries of columns that are no pivots are zero. */
  lemma {:induction false} FreeColumnsZero<F>(k: Field<F>, eqs: seq<Equation<F>>, n: nat, s: nat, c: nat)
    requires Shaped(eqs, n, s) && Solve(k, eqs, n, s).Some? && c < n
    requires forall a :: 0 <= a < |eqs| ==> Pivot(Gauss(k, eqs, n, s, 0).value[a]) != c
    ensures TableOk(Solve(k, eqs, n, s).value, n, s) && Solve(k, eqs, n, s).value[c] == ZeroVec(k, s)
  {
    TrivialTriangular(eqs, n, s);
    GaussTriangular(k, eqs, n, s, 0);
    FillLeaves(k, Gauss(k, eqs, n, s, 0).value, ZeroTable(k, n, s), n, s, |eqs|, c);
  }

  lemma {:induction false} TrivialTriangular<F>(eqs: seq<Equation<F>>, n: nat, s: nat)
    requires Shaped(eqs, n, s)
    ensures Triangular(eqs, n, 0)
  {
  }

  /** Whenever the solver succeeds, its table satisfies every original equation. */
  lemma {:induction false} SolveIsSound<F(!new)>(k: Field<F>, eqs: seq<Equation<F>>, n: nat, s: nat)
    requires IsXorGroup(k) && Shaped(eqs, n, s) && Solve(k, eqs, n, s).Some?
    ensures TableOk(Solve(k, eqs, n, s).value, n, s)
    ensures SatisfiesAll(k, Solve(k, eqs, n, s).value, eqs, n, s)
  {
    TrivialTriangular(eqs, n, s);
    GaussTriangular(k, eqs, n, s, 0);
    var g := Gauss(k, eqs, n, s, 0).value;
    FillSatisfies(k, g, ZeroTable(k, n, s), n, s, |eqs|);
    GaussKeeps(k, Solve(k, eqs, n, s).value, eqs, n, s, 0);
  }
}
