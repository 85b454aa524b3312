/** In-place Gauss-Jordan inversion of a square GF(2^128) matrix (`gf128Inv` of volePSI/PaxosImpl.h).

    The loop keeps, for every unknown x and every right-hand side b, that x solves the original system for b
    exactly when it solves the current system for the transformed right-hand side; when the current matrix has
    become the identity, this says that the accumulated matrix is a two-sided inverse. */
module MatrixInverse {
  import opened Prelude
  import opened Fields

  ghost predicate Square<F>(m: seq<seq<F>>, n: nat) {
    |m| == n && forall i :: 0 <= i < n ==> |m[i]| == n
  }

  /** The product of a matrix and a column vector. */
  ghost function Apply<F>(k: Field<F>, m: seq<seq<F>>, x: seq<F>): (r: seq<F>)
    requires Square(m, |x|)
    ensures |r| == |x| && forall i :: 0 <= i < |x| ==> r[i] == Dot(k, m[i], x)
  {
    seq(|m|, i requires 0 <= i < |m| => Dot(k, m[i], x))
  }

  ghost function Identity<F>(k: Field<F>, n: nat): (r: seq<seq<F>>)
    ensures Square(r, n)
  {
    seq(n, i requires 0 <= i < n => seq(n, j requires 0 <= j < n => if i == j then k.one else k.zero))
  }

  // ------------------------------------------------- the three row operations, on values

  ghost function Swapped<T>(m: seq<T>, i: nat, j: nat): seq<T>
    requires i < |m| && j < |m|
  {
    m[i := m[j]][j := m[i]]
  }

  ghost function Scaled<F>(k: Field<F>, m: seq<seq<F>>, i: nat, s: F): seq<seq<F>>
    requires i < |m|
  {
    m[i := VecScale(k, s, m[i])]
  }

  ghost function Added<F>(k: Field<F>, m: seq<seq<F>>, j: nat, i: nat, s: F): seq<seq<F>>
    requires i < |m| && j < |m| && |m[i]| == |m[j]|
  {
    m[j := VecAdd(k, m[j], VecScale(k, s, m[i]))]
  }

  // ------------------------------------------------- solution sets

  ghost predicate SameSolution<F>(k: Field<F>, m0: seq<seq<F>>, m: seq<seq<F>>, inv: seq<seq<F>>, x: seq<F>, b: seq<F>)
    requires |x| == |b| && Square(m0, |x|) && Square(m, |x|) && Square(inv, |x|)
  {
    Apply(k, m0, x) == b <==> Apply(k, m, x) == Apply(k, inv, b)
  }

  ghost predicate Kept<F(!new)>(k: Field<F>, m0: seq<seq<F>>, m: seq<seq<F>>, inv: seq<seq<F>>)
    requires Square(m0, |m0|) && Square(m, |m0|) && Square(inv, |m0|)
  {
    forall x: seq<F>, b: seq<F> {:trigger SameSolution(k, m0, m, inv, x, b)} ::
      |x| == |m0| == |b| ==> SameSolution(k, m0, m, inv, x, b)
  }

  lemma {:induction false} DotUnit<F(!new)>(k: Field<F>, u: seq<F>, x: seq<F>, i: nat, n: nat)
    requires IsField(k) && n <= |u| == |x| && i < |x|
    requires forall j :: 0 <= j < n ==> u[j] == if i == j then k.one else k.zero
    ensures DotTo(k, u, x, n) == if i < n then x[i] else k.zero
  {
    if n > 0 {
      DotUnit(k, u, x, i, n - 1);
      MulOne(k, x[n - 1]);
      MulZero(k, x[n - 1]);
      AddCancel(k, x[n - 1], k.zero);
      assert AddLaws(k, x[i], k.zero, k.zero);
      assert AddLaws(k, k.zero, k.zero, k.zero);
    }
  }

  lemma {:induction false} ApplyIdentity<F(!new)>(k: Field<F>, x: seq<F>)
    requires IsField(k)
    ensures Apply(k, Identity(k, |x|), x) == x
  {
    forall i | 0 <= i < |x|
      ensures Dot(k, Identity(k, |x|)[i], x) == x[i]
    {
      DotUnit(k, Identity(k, |x|)[i], x, i, |x|);
    }
  }

  lemma {:induction false} KeptAtStart<F(!new)>(k: Field<F>, m0: seq<seq<F>>)
    requires IsField(k) && Square(m0, |m0|)
    ensures Kept(k, m0, m0, Identity(k, |m0|))
  {
    forall x: seq<F>, b: seq<F> | |x| == |m0| == |b|
      ensures SameSolution(k, m0, m0, Identity(k, |m0|), x, b)
    {
      ApplyIdentity(k, b);
    }
  }

  lemma {:induction false} ApplySwapped<F>(k: Field<F>, m: seq<seq<F>>, i: nat, j: nat, x: seq<F>)
    requires Square(m, |x|) && i < |m| && j < |m|
    ensures Apply(k, Swapped(m, i, j), x) == Swapped(Apply(k, m, x), i, j)
  {
  }

  lemma {:induction false} KeptBySwap<F(!new)>(
      k: Field<F>, m0: seq<seq<F>>, m: seq<seq<F>>, inv: seq<seq<F>>, i: nat, j: nat)
    requires IsField(k) && Square(m0, |m0|) && Square(m, |m0|) && Square(inv, |m0|)
    requires i < |m0| && j < |m0| && Kept(k, m0, m, inv)
    ensures Kept(k, m0, Swapped(m, i, j), Swapped(inv, i, j))
  {
    forall x: seq<F>, b: seq<F> | |x| == |m0| == |b|
      ensures SameSolution(k, m0, Swapped(m, i, j), Swapped(inv, i, j), x, b)
    {
      assert SameSolution(k, m0, m, inv, x, b);
      ApplySwapped(k, m, i, j, x);
      ApplySwapped(k, inv, i, j, b);
      var u, w := Apply(k, m, x), Apply(k, inv, b);
      if Swapped(u, i, j) == Swapped(w, i, j) {
        assert Swapped(Swapped(u, i, j), i, j) == u;
        assert Swapped(Swapped(w, i, j), i, j) == w;
      }
    }
  }

  lemma {:induction false} MulCancel<F(!new)>(k: Field<F>, s: F, a: F, b: F)
    requires IsField(k) && s != k.zero
    ensures Mul(k, s, a) == Mul(k, s, b) <==> a == b
  {
    assert MulLaws(k, s, k.one, k.one);
    assert MulLaws(k, s, Inv(k, s), a);
    assert MulLaws(k, Inv(k, s), s, a);
    assert MulLaws(k, Inv(k, s), s, b);
    MulOne(k, a);
    MulOne(k, b);
  }

  lemma {:induction false} KeptByScale<F(!new)>(
      k: Field<F>, m0: seq<seq<F>>, m: seq<seq<F>>, inv: seq<seq<F>>, i: nat, s: F)
    requires IsField(k) && Square(m0, |m0|) && Square(m, |m0|) && Square(inv, |m0|)
    requires i < |m0| && s != k.zero && Kept(k, m0, m, inv)
    ensures Kept(k, m0, Scaled(k, m, i, s), Scaled(k, inv, i, s))
  {
    forall x: seq<F>, b: seq<F> | |x| == |m0| == |b|
      ensures SameSolution(k, m0, Scaled(k, m, i, s), Scaled(k, inv, i, s), x, b)
    {
      assert SameSolution(k, m0, m, inv, x, b);
      var u, w := Apply(k, m, x), Apply(k, inv, b);
      DotScaleLeft(k, s, m[i], x);
      DotScaleLeft(k, s, inv[i], b);
      MulCancel(k, s, u[i], w[i]);
      assert Apply(k, Scaled(k, m, i, s), x) == u[i := Mul(k, s, u[i])];
      assert Apply(k, Scaled(k, inv, i, s), b) == w[i := Mul(k, s, w[i])];
      if u[i := Mul(k, s, u[i])] == w[i := Mul(k, s, w[i])] {
        assert u[i := Mul(k, s, u[i])][i] == w[i := Mul(k, s, w[i])][i];
        assert forall p :: 0 <= p < |u| && p != i ==> u[i := Mul(k, s, u[i])][p] == u[p];
        assert u == w;
      }
    }
  }

  lemma {:induction false} ApplyAdded<F(!new)>(k: Field<F>, m: seq<seq<F>>, j: nat, i: nat, s: F, x: seq<F>)
    requires IsField(k) && Square(m, |x|) && i < |m| && j < |m|
    ensures Apply(k, Added(k, m, j, i, s), x)
         == Apply(k, m, x)[j := Add(k, Dot(k, m[j], x), Mul(k, s, Dot(k, m[i], x)))]
  {
    DotAddLeft(k, m[j], VecScale(k, s, m[i]), x);
    DotScaleLeft(k, s, m[i], x);
  }

  lemma {:induction false} KeptByAdd<F(!new)>(
      k: Field<F>, m0: seq<seq<F>>, m: seq<seq<F>>, inv: seq<seq<F>>, j: nat, i: nat, s: F)
    requires IsField(k) && Square(m0, |m0|) && Square(m, |m0|) && Square(inv, |m0|)
    requires i < |m0| && j < |m0| && i != j && Kept(k, m0, m, inv)
    ensures Kept(k, m0, Added(k, m, j, i, s), Added(k, inv, j, i, s))
  {
    forall x: seq<F>, b: seq<F> | |x| == |m0| == |b|
      ensures SameSolution(k, m0, Added(k, m, j, i, s), Added(k, inv, j, i, s), x, b)
    {
      assert SameSolution(k, m0, m, inv, x, b);
      var u, w := Apply(k, m, x), Apply(k, inv, b);
      ApplyAdded(k, m, j, i, s, x);
      ApplyAdded(k, inv, j, i, s, b);
      var u', w' := u[j := Add(k, u[j], Mul(k, s, u[i]))], w[j := Add(k, w[j], Mul(k, s, w[i]))];
      if u' == w' {
        assert u'[i] == w'[i] && u'[j] == w'[j];
        AddCancel(k, u[j], Mul(k, s, u[i]));
        AddCancel(k, w[j], Mul(k, s, w[i]));
        assert forall p :: 0 <= p < |u| && p != j ==> u'[p] == u[p] && w'[p] == w[p];
        assert u == w;
      }
    }
  }

  // ------------------------------------------------- the row operations, in place

  ghost function Row<F>(m: array2<F>, i: nat): (r: seq<F>)
    requires i < m.Length0
    reads m
    ensures |r| == m.Length1 && forall j :: 0 <= j < m.Length1 ==> r[j] == m[i, j]
  {
    seq(m.Length1, j requires 0 <= j < m.Length1 reads m => m[i, j])
  }

  ghost function Rows<F>(m: array2<F>): (r: seq<seq<F>>)
    reads m
    ensures |r| == m.Length0 && forall i :: 0 <= i < m.Length0 ==> r[i] == Row(m, i)
  {
    seq(m.Length0, i requires 0 <= i < m.Length0 reads m => Row(m, i))
  }

  ghost predicate Dims<F>(mtx: array2<F>, inv: array2<F>, n: nat) {
    mtx != inv && mtx.Length0 == mtx.Length1 == n == inv.Length0 == inv.Length1
  }

  method SwapRows<F>(mtx: array2<F>, inv: array2<F>, i: nat, j: nat)
    requires Dims(mtx, inv, mtx.Length0) && i < mtx.Length0 && j < mtx.Length0
    modifies mtx, inv
    ensures Rows(mtx) == Swapped(old(Rows(mtx)), i, j) && Rows(inv) == Swapped(old(Rows(inv)), i, j)
  {
    for c := 0 to mtx.Length0
      invariant forall p, q :: 0 <= p < mtx.Length0 && 0 <= q < mtx.Length0 ==>
        mtx[p, q] == old(mtx[if q >= c then p else if p == i then j else if p == j then i else p, q])
      invariant forall p, q :: 0 <= p < mtx.Length0 && 0 <= q < mtx.Length0 ==>
        inv[p, q] == old(inv[if q >= c then p else if p == i then j else if p == j then i else p, q])
    {
      mtx[i, c], mtx[j, c] := mtx[j, c], mtx[i, c];
      inv[i, c], inv[j, c] := inv[j, c], inv[i, c];
    }
    assert forall p :: 0 <= p < mtx.Length0 ==> Row(mtx, p) == Swapped(old(Rows(mtx)), i, j)[p];
    assert forall p :: 0 <= p < mtx.Length0 ==> Row(inv, p) == Swapped(old(Rows(inv)), i, j)[p];
  }

  method ScaleRow<F(!new)>(k: Field<F>, mtx: array2<F>, inv: array2<F>, i: nat, s: F)
    requires IsField(k) && Dims(mtx, inv, mtx.Length0) && i < mtx.Length0
    modifies mtx, inv
    ensures Rows(mtx) == Scaled(k, old(Rows(mtx)), i, s) && Rows(inv) == Scaled(k, old(Rows(inv)), i, s)
  {
    for c := 0 to mtx.Length0
      invariant forall p, q :: 0 <= p < mtx.Length0 && 0 <= q < mtx.Length0 ==>
        mtx[p, q] == if p == i && q < c then Mul(k, s, old(mtx[p, q])) else old(mtx[p, q])
      invariant forall p, q :: 0 <= p < mtx.Length0 && 0 <= q < mtx.Length0 ==>
        inv[p, q] == if p == i && q < c then Mul(k, s, old(inv[p, q])) else old(inv[p, q])
    {
      assert MulLaws(k, mtx[i, c], s, s) && MulLaws(k, inv[i, c], s, s);
      mtx[i, c] := Mul(k, mtx[i, c], s);
      inv[i, c] := Mul(k, inv[i, c], s);
    }
    assert forall p :: 0 <= p < mtx.Length0 ==> Row(mtx, p) == Scaled(k, old(Rows(mtx)), i, s)[p];
    assert forall p :: 0 <= p < mtx.Length0 ==> Row(inv, p) == Scaled(k, old(Rows(inv)), i, s)[p];
  }

  method AddRow<F(!new)>(k: Field<F>, mtx: array2<F>, inv: array2<F>, j: nat, i: nat, s: F)
    requires IsField(k) && Dims(mtx, inv, mtx.Length0) && i < mtx.Length0 && j < mtx.Length0 && i != j
    modifies mtx, inv
    ensures Rows(mtx) == Added(k, old(Rows(mtx)), j, i, s) && Rows(inv) == Added(k, old(Rows(inv)), j, i, s)
  {
    for c := 0 to mtx.Length0
      invariant forall p, q :: 0 <= p < mtx.Length0 && 0 <= q < mtx.Length0 ==>
        mtx[p, q] == if p == j && q < c then Add(k, old(mtx[j, q]), Mul(k, s, old(mtx[i, q]))) else old(mtx[p, q])
      invariant forall p, q :: 0 <= p < mtx.Length0 && 0 <= q < mtx.Length0 ==>
        inv[p, q] == if p == j && q < c then Add(k, old(inv[j, q]), Mul(k, s, old(inv[i, q]))) else old(inv[p, q])
    {
      assert MulLaws(k, mtx[i, c], s, s) && MulLaws(k, inv[i, c], s, s);
      mtx[j, c] := Add(k, mtx[j, c], Mul(k, mtx[i, c], s));
      inv[j, c] := Add(k, inv[j, c], Mul(k, inv[i, c], s));
    }
    assert forall p :: 0 <= p < mtx.Length0 ==> Row(mtx, p) == Added(k, old(Rows(mtx)), j, i, s)[p];
    assert forall p :: 0 <= p < mtx.Length0 ==> Row(inv, p) == Added(k, old(Rows(inv)), j, i, s)[p];
  }

  // ------------------------------------------------- the elimination

  /** Columns below c are unit columns. */
  ghost predicate UnitColumns<F>(k: Field<F>, m: seq<seq<F>>, c: nat)
    requires Square(m, |m|) && c <= |m|
  {
    forall p, q :: 0 <= p < |m| && 0 <= q < c ==> m[p][q] == if p == q then k.one else k.zero
  }

  /** Column c has zeros in the rows before j other than c. */
  ghost predicate Cleared<F>(k: Field<F>, m: seq<seq<F>>, c: nat, j: nat)
    requires Square(m, |m|) && c < |m| && j <= |m|
  {
    m[c][c] == k.one && forall p :: 0 <= p < j && p != c ==> m[p][c] == k.zero
  }

  lemma {:induction false} ScaledPivot<F(!new)>(k: Field<F>, m: seq<seq<F>>, i: nat)
    requires IsField(k) && Square(m, |m|) && i < |m| && UnitColumns(k, m, i) && m[i][i] != k.zero
    ensures Inv(k, m[i][i]) != k.zero
    ensures UnitColumns(k, Scaled(k, m, i, Inv(k, m[i][i])), i)
    ensures Scaled(k, m, i, Inv(k, m[i][i]))[i][i] == k.one
  {
    var s := Inv(k, m[i][i]);
    assert MulLaws(k, m[i][i], k.one, k.one);
    assert MulLaws(k, m[i][i], s, s);
    MulZero(k, m[i][i]);
    MulZero(k, s);
  }

  lemma {:induction false} AddedClears<F(!new)>(k: Field<F>, m: seq<seq<F>>, i: nat, j: nat)
    requires IsField(k) && Square(m, |m|) && i < |m| && j < |m| && i != j
    requires UnitColumns(k, m, i) && Cleared(k, m, i, j)
    ensures UnitColumns(k, Added(k, m, j, i, m[j][i]), i) && Cleared(k, Added(k, m, j, i, m[j][i]), i, j + 1)
  {
    var s := m[j][i];
    MulZero(k, s);
    MulOne(k, s);
    AddEqZero(k, s, s);
    forall q | 0 <= q < i
      ensures Added(k, m, j, i, s)[j][q] == m[j][q]
    {
      assert AddLaws(k, m[j][q], s, s);
    }
  }

  /** What holds before column i is processed. */
  ghost predicate Progress<F(!new)>(k: Field<F>, m0: seq<seq<F>>, m: seq<seq<F>>, inv: seq<seq<F>>, i: nat) {
    && Square(m0, |m0|) && Square(m, |m0|) && Square(inv, |m0|) && i <= |m0|
    && Kept(k, m0, m, inv) && UnitColumns(k, m, i)
  }

  lemma {:induction false} ScaleStep<F(!new)>(k: Field<F>, m0: seq<seq<F>>, m: seq<seq<F>>, inv: seq<seq<F>>, i: nat)
    requires IsField(k) && i < |m0| && Progress(k, m0, m, inv, i) && m[i][i] != k.zero
    ensures var s := Inv(k, m[i][i]);
            Progress(k, m0, Scaled(k, m, i, s), Scaled(k, inv, i, s), i) && Cleared(k, Scaled(k, m, i, s), i, 0)
  {
    ScaledPivot(k, m, i);
    KeptByScale(k, m0, m, inv, i, Inv(k, m[i][i]));
  }

  lemma {:induction false} AddStep<F(!new)>(
      k: Field<F>, m0: seq<seq<F>>, m: seq<seq<F>>, inv: seq<seq<F>>, i: nat, j: nat)
    requires IsField(k) && i < |m0| && j < |m0| && i != j && Progress(k, m0, m, inv, i) && Cleared(k, m, i, j)
    ensures var t := m[j][i];
            Progress(k, m0, Added(k, m, j, i, t), Added(k, inv, j, i, t), i)
            && Cleared(k, Added(k, m, j, i, t), i, j + 1)
  {
    AddedClears(k, m, i, j);
    KeptByAdd(k, m0, m, inv, j, i, m[j][i]);
  }

  // ------------------------------------------------- the elimination, on values

  /** The first row from j on whose entry in column i is one. */
  ghost function FirstOne<F>(k: Field<F>, m: seq<seq<F>>, i: nat, j: nat): (r: Option<nat>)
    requires Square(m, |m|) && i < |m| && j <= |m|
    ensures r.Some? ==> j <= r.value < |m| && m[r.value][i] == k.one && forall p :: j <= p < r.value ==>
      m[p][i] != k.one
    ensures r.None? ==> forall p :: j <= p < |m| ==> m[p][i] != k.one
    decreases |m| - j
  {
    if j == |m| then None else if m[j][i] == k.one then Some(j) else FirstOne(k, m, i, j + 1)
  }

  /** The row that becomes row i: itself if its diagonal entry is not zero, otherwise the next one with a one. */
  ghost function PivotRow<F>(k: Field<F>, m: seq<seq<F>>, i: nat): (r: Option<nat>)
    requires Square(m, |m|) && i < |m|
    ensures r.Some? ==> i <= r.value < |m|
  {
    if m[i][i] != k.zero then Some(i) else FirstOne(k, m, i, i + 1)
  }

  /** The matrix and the accumulated inverse. */
  datatype State<F> = State(m: seq<seq<F>>, inv: seq<seq<F>>)

  ghost predicate StateOk<F>(s: State<F>, n: nat) { Square(s.m, n) && Square(s.inv, n) }

  ghost function SwappedState<F>(s: State<F>, n: nat, i: nat, j: nat): (r: State<F>)
    requires StateOk(s, n) && i < n && j < n
    ensures StateOk(r, n)
  {
    State(Swapped(s.m, i, j), Swapped(s.inv, i, j))
  }

  ghost function ScaledState<F>(k: Field<F>, s: State<F>, n: nat, i: nat): (r: State<F>)
    requires StateOk(s, n) && i < n
    ensures StateOk(r, n)
  {
    var t := Inv(k, s.m[i][i]);
    State(Scaled(k, s.m, i, t), Scaled(k, s.inv, i, t))
  }

  /** Row i has been used on row j. */
  ghost function ClearedRow<F>(k: Field<F>, s: State<F>, n: nat, i: nat, j: nat): (r: State<F>)
    requires StateOk(s, n) && i < n && j < n
    ensures StateOk(r, n)
  {
    var t := s.m[j][i];
    if j == i then s else State(Added(k, s.m, j, i, t), Added(k, s.inv, j, i, t))
  }

  /** Row i has been used on the rows below j. */
  ghost function ClearedState<F>(k: Field<F>, s: State<F>, n: nat, i: nat, j: nat): (r: State<F>)
    requires StateOk(s, n) && i < n && j <= n
    ensures StateOk(r, n)
  {
    if j == 0 then s else ClearedRow(k, ClearedState(k, s, n, i, j - 1), n, i, j - 1)
  }

  /** Column i has been processed, or its search for a pivot has failed. */
  ghost function ReducedState<F>(k: Field<F>, s: State<F>, n: nat, i: nat): (r: Option<State<F>>)
    requires StateOk(s, n) && i < n
    ensures r.Some? ==> StateOk(r.value, n)
  {
    var pivot := PivotRow(k, s.m, i);
    if pivot.None? then None
    else Some(ClearedState(k, ScaledState(k, SwappedState(s, n, i, pivot.value), n, i), n, i, n))
  }

  /** The state after the first i columns, or None if the search for a pivot has failed by then. */
  ghost function Eliminated<F>(k: Field<F>, m0: seq<seq<F>>, i: nat): (r: Option<State<F>>)
    requires Square(m0, |m0|) && i <= |m0|
    ensures r.Some? ==> StateOk(r.value, |m0|)
  {
    if i == 0 then Some(State(m0, Identity(k, |m0|)))
    else
      var before := Eliminated(k, m0, i - 1);
      if before.None? then None else ReducedState(k, before.value, |m0|, i - 1)
  }

  /** What the source returns. */
  ghost function InverseOf<F>(k: Field<F>, m0: seq<seq<F>>): Option<seq<seq<F>>>
    requires Square(m0, |m0|)
  {
    var s := Eliminated(k, m0, |m0|);
    if s.None? then None else Some(s.value.inv)
  }

  /** What holds while row i is used on the rows below j. */
  ghost predicate ClearingTo<F(!new)>(k: Field<F>, m0: seq<seq<F>>, s: State<F>, i: nat, j: nat) {
    i < |m0| && j <= |m0| && Progress(k, m0, s.m, s.inv, i) && Cleared(k, s.m, i, j)
  }

  lemma {:induction false} ClearedRowProgress<F(!new)>(k: Field<F>, m0: seq<seq<F>>, s: State<F>, i: nat, j: nat)
    requires IsField(k) && j < |m0| && ClearingTo(k, m0, s, i, j)
    ensures ClearingTo(k, m0, ClearedRow(k, s, |m0|, i, j), i, j + 1)
  {
    if j != i {
      AddStep(k, m0, s.m, s.inv, i, j);
    }
  }

  lemma {:induction false} ClearedProgress<F(!new)>(k: Field<F>, m0: seq<seq<F>>, s: State<F>, i: nat, j: nat)
    requires IsField(k) && j <= |m0| && ClearingTo(k, m0, s, i, 0)
    ensures ClearingTo(k, m0, ClearedState(k, s, |m0|, i, j), i, j)
  {
    if j > 0 {
      ClearedProgress(k, m0, s, i, j - 1);
      ClearedStep(k, m0, s, i, j);
    }
  }

  lemma {:induction false} ClearedStep<F(!new)>(k: Field<F>, m0: seq<seq<F>>, s: State<F>, i: nat, j: nat)
    requires IsField(k) && i < |m0| && 0 < j <= |m0| && StateOk(s, |m0|)
    requires ClearingTo(k, m0, ClearedState(k, s, |m0|, i, j - 1), i, j - 1)
    ensures ClearingTo(k, m0, ClearedState(k, s, |m0|, i, j), i, j)
  {
    ClearedRowProgress(k, m0, ClearedState(k, s, |m0|, i, j - 1), i, j - 1);
  }

  lemma {:induction false} SwappedProgress<F(!new)>(k: Field<F>, m0: seq<seq<F>>, s: State<F>, i: nat)
    requires IsField(k) && i < |m0| && StateOk(s, |m0|) && Progress(k, m0, s.m, s.inv, i) && PivotRow(k, s.m, i).Some?
    ensures var r := SwappedState(s, |m0|, i, PivotRow(k, s.m, i).value);
            Progress(k, m0, r.m, r.inv, i) && r.m[i][i] != k.zero
  {
    KeptBySwap(k, m0, s.m, s.inv, i, PivotRow(k, s.m, i).value);
    assert MulLaws(k, k.one, k.one, k.one);
  }

  lemma {:induction false} ReducedProgress<F(!new)>(k: Field<F>, m0: seq<seq<F>>, s: State<F>, i: nat)
    requires IsField(k) && i < |m0| && StateOk(s, |m0|) && Progress(k, m0, s.m, s.inv, i)
    requires ReducedState(k, s, |m0|, i).Some?
    ensures var r := ReducedState(k, s, |m0|, i).value; Progress(k, m0, r.m, r.inv, i + 1)
  {
    SwappedProgress(k, m0, s, i);
    var t := SwappedState(s, |m0|, i, PivotRow(k, s.m, i).value);
    ScaleStep(k, m0, t.m, t.inv, i);
    ClearedProgress(k, m0, ScaledState(k, t, |m0|, i), i, |m0|);
  }

  /** Every state that is reached has the solutions of the original system and unit columns so far. */
  lemma {:induction false} EliminatedProgress<F(!new)>(k: Field<F>, m0: seq<seq<F>>, i: nat)
    requires IsField(k) && Square(m0, |m0|) && i <= |m0| && Eliminated(k, m0, i).Some?
    ensures var s := Eliminated(k, m0, i).value; Progress(k, m0, s.m, s.inv, i)
  {
    if i == 0 {
      KeptAtStart(k, m0);
    } else {
      EliminatedProgress(k, m0, i - 1);
      ReducedProgress(k, m0, Eliminated(k, m0, i - 1).value, i - 1);
    }
  }

  /** A returned matrix is a two-sided inverse. */
  lemma {:induction false} InverseOfInverts<F(!new)>(k: Field<F>, m0: seq<seq<F>>)
    requires IsField(k) && Square(m0, |m0|) && InverseOf(k, m0).Some?
    ensures Inverts(k, InverseOf(k, m0).value, m0)
  {
    EliminatedProgress(k, m0, |m0|);
    var s := Eliminated(k, m0, |m0|).value;
    assert forall i :: 0 <= i < |m0| ==> s.m[i] == Identity(k, |m0|)[i];
    assert s.m == Identity(k, |m0|);
    InverseFromKept(k, m0, s.inv);
  }

  /** w undoes m from both sides, on every vector. */
  ghost predicate Inverts<F(!new)>(k: Field<F>, w: seq<seq<F>>, m: seq<seq<F>>) {
    && Square(m, |m|) && Square(w, |m|)
    && (forall x: seq<F> {:trigger UndoneAt(k, w, m, x)} :: |x| == |m| ==> UndoneAt(k, w, m, x))
    && (forall x: seq<F> {:trigger UndoneAt(k, m, w, x)} :: |x| == |m| ==> UndoneAt(k, m, w, x))
  }

  /** w undoes m on x. */
  ghost predicate UndoneAt<F>(k: Field<F>, w: seq<seq<F>>, m: seq<seq<F>>, x: seq<F>)
    requires Square(m, |x|) && Square(w, |x|)
  {
    Apply(k, w, Apply(k, m, x)) == x
  }

  // ------------------------------------------------- when it fails

  /** The guard of the failing branch: a zero on the diagonal and no one below it. */
  ghost predicate GivesUp<F>(k: Field<F>, m: seq<seq<F>>, i: nat)
    requires Square(m, |m|) && i < |m|
  {
    m[i][i] == k.zero && forall j :: i < j < |m| ==> m[j][i] != k.one
  }

  /** The elimination reaches column i and gives up there. */
  ghost predicate GivesUpAt<F>(k: Field<F>, m0: seq<seq<F>>, i: nat)
    requires Square(m0, |m0|) && i < |m0|
  {
    var s := Eliminated(k, m0, i);
    s.Some? && GivesUp(k, s.value.m, i)
  }

  lemma {:induction false} FailsNextIff<F>(k: Field<F>, m0: seq<seq<F>>, i: nat)
    requires Square(m0, |m0|) && i < |m0|
    ensures Eliminated(k, m0, i + 1).None? <==> Eliminated(k, m0, i).None? || GivesUpAt(k, m0, i)
  {
  }

  ghost predicate FirstFailsAt(fails: nat -> bool, at: nat -> bool, i: nat) { fails(i + 1) <==> fails(i) || at(i) }

  lemma {:induction false} FailsByIff(fails: nat -> bool, at: nat -> bool, n: nat)
    requires !fails(0) && forall i: nat {:trigger FirstFailsAt(fails, at, i)} :: i < n ==> FirstFailsAt(fails, at, i)
    ensures fails(n) <==> exists c: nat :: c < n && at(c)
  {
    if n > 0 {
      FailsByIff(fails, at, n - 1);
      assert FirstFailsAt(fails, at, n - 1);
    }
  }

  /** No inverse is returned exactly if at some column that the elimination reaches the diagonal entry is zero and no
      entry below it is one. */
  lemma {:induction false} FailsIff<F>(k: Field<F>, m0: seq<seq<F>>)
    requires Square(m0, |m0|)
    ensures InverseOf(k, m0).None? <==> exists c {:trigger GivesUpAt(k, m0, c)} :: 0 <= c < |m0| && GivesUpAt(k, m0, c)
  {
    var fails := (i: nat) => i <= |m0| && Eliminated(k, m0, i).None?;
    var at := (i: nat) => i < |m0| && GivesUpAt(k, m0, i);
    forall i: nat | i < |m0| ensures FirstFailsAt(fails, at, i) {
      FailsNextIff(k, m0, i);
    }
    FailsByIff(fails, at, |m0|);
    assert fails(|m0|) <==> InverseOf(k, m0).None?;
    if c: nat :| c < |m0| && at(c) {
      assert GivesUpAt(k, m0, c);
    }
    forall c: nat | c < |m0| && GivesUpAt(k, m0, c) ensures at(c) {
    }
  }

  /** The matrix sends some vector other than zero to zero. */
  ghost predicate Singular<F(!new)>(k: Field<F>, m: seq<seq<F>>)
    requires Square(m, |m|)
  {
    exists x: seq<F> {:trigger Apply(k, m, x)} ::
      |x| == |m| && x != ZeroVec(k, |m|) && Apply(k, m, x) == ZeroVec(k, |m|)
  }

  /** The elimination reaches column i and overlooks a pivot there: some entry below the zero is not zero. */
  ghost predicate OverlooksAt<F>(k: Field<F>, m0: seq<seq<F>>, i: nat)
    requires Square(m0, |m0|) && i < |m0|
  {
    GivesUpAt(k, m0, i) && exists j :: i < j < |m0| && Eliminated(k, m0, i).value.m[j][i] != k.zero
  }

  /** No inverse is returned exactly for the singular matrices and for those on which a pivot is overlooked. */
  lemma {:induction false} FailsIffSingularOrOverlooked<F(!new)>(k: Field<F>, m0: seq<seq<F>>)
    requires IsField(k) && Square(m0, |m0|)
    ensures InverseOf(k, m0).None? <==>
            Singular(k, m0) || exists c {:trigger OverlooksAt(k, m0, c)} :: 0 <= c < |m0| && OverlooksAt(k, m0, c)
  {
    FailsIff(k, m0);
    if InverseOf(k, m0).None? {
      var c :| 0 <= c < |m0| && GivesUpAt(k, m0, c);
      if !OverlooksAt(k, m0, c) {
        EliminatedProgress(k, m0, c);
        var s := Eliminated(k, m0, c).value;
        StuckOnZerosIsSingular(k, m0, s.m, s.inv, c);
      }
    } else {
      InverseOfInverts(k, m0);
      InvertibleNotSingular(k, InverseOf(k, m0).value, m0);
    }
  }

  lemma {:induction false} InvertibleNotSingular<F(!new)>(k: Field<F>, w: seq<seq<F>>, m: seq<seq<F>>)
    requires IsField(k) && Inverts(k, w, m)
    ensures !Singular(k, m)
  {
    forall x: seq<F> | |x| == |m| && Apply(k, m, x) == ZeroVec(k, |m|) ensures x == ZeroVec(k, |m|) {
      var z := ZeroVec(k, |m|);
      forall p | 0 <= p < |m| ensures Apply(k, w, z)[p] == k.zero {
        DotToZeroTerms(k, w[p], z, |m|);
      }
      assert UndoneAt(k, w, m, x);
      assert Apply(k, w, z) == z;
    }
  }

  /** For an invertible matrix: an inverse is returned exactly if no reached column has a zero on the diagonal and
      nothing equal to one below it. */
  lemma {:induction false} InvertedIff<F(!new)>(k: Field<F>, w: seq<seq<F>>, m0: seq<seq<F>>)
    requires IsField(k) && Inverts(k, w, m0)
    ensures InverseOf(k, m0).Some? <==> forall c {:trigger OverlooksAt(k, m0, c)} :: 0 <= c < |m0| ==>
      !OverlooksAt(k, m0, c)
  {
    InvertibleNotSingular(k, w, m0);
    FailsIffSingularOrOverlooked(k, m0);
  }

  ghost predicate ZeroOrOne<F>(k: Field<F>, a: F) { a == k.zero || a == k.one }

  /** Over a field of two elements nothing is overlooked: exactly the singular matrices fail. */
  lemma {:induction false} TwoElementsIff<F(!new)>(k: Field<F>, m0: seq<seq<F>>)
    requires IsField(k) && Square(m0, |m0|) 
    requires forall a: F {:trigger ZeroOrOne(k, a)} :: ZeroOrOne(k, a)
    ensures InverseOf(k, m0).None? <==> Singular(k, m0)
  {
    FailsIffSingularOrOverlooked(k, m0);
    forall c | 0 <= c < |m0| && GivesUpAt(k, m0, c) ensures !OverlooksAt(k, m0, c) {
      var m := Eliminated(k, m0, c).value.m;
      forall j | c < j < |m0| ensures m[j][c] == k.zero {
        assert ZeroOrOne(k, m[j][c]);
      }
    }
  }

  // ------------------------------------------------- the elimination, in place

  /** Puts a non-zero entry on the diagonal of column i: the entry that is there, or the next one equal to one. */
  method FindPivot<F(!new, ==)>(k: Field<F>, mtx: array2<F>, inv: array2<F>, i: nat) returns (found: bool)
    requires Dims(mtx, inv, mtx.Length0) && i < mtx.Length0
    modifies mtx, inv
    ensures found <==> PivotRow(k, old(Rows(mtx)), i).Some?
    ensures found ==> var j := PivotRow(k, old(Rows(mtx)), i).value;
                      Rows(mtx) == Swapped(old(Rows(mtx)), i, j) && Rows(inv) == Swapped(old(Rows(inv)), i, j)
    ensures !found ==> GivesUp(k, old(Rows(mtx)), i) && Rows(mtx) == old(Rows(mtx)) && Rows(inv) == old(Rows(inv))
  {
    ghost var m := Rows(mtx);
    if mtx[i, i] != k.zero {
      assert m[i][i] == mtx[i, i];
      return true;
    }
    for j := i + 1 to mtx.Length0
      invariant Rows(mtx) == m && Rows(inv) == old(Rows(inv)) && m[i][i] == k.zero
      invariant FirstOne(k, m, i, i + 1) == FirstOne(k, m, i, j)
    {
      assert m[j][i] == mtx[j, i];
      if mtx[j, i] == k.one {
        SwapRows(mtx, inv, i, j);
        return true;
      }
    }
    return false;
  }

  ghost function Current<F>(mtx: array2<F>, inv: array2<F>): (s: State<F>)
    requires Dims(mtx, inv, mtx.Length0)
    reads mtx, inv
    ensures StateOk(s, mtx.Length0)
  {
    State(Rows(mtx), Rows(inv))
  }

  /** Makes column i a unit column: row i is scaled, then used on every other row. */
  method ReduceColumn<F(!new)>(k: Field<F>, mtx: array2<F>, inv: array2<F>, i: nat)
    requires IsField(k) && Dims(mtx, inv, mtx.Length0) && i < mtx.Length0
    modifies mtx, inv
    ensures Current(mtx, inv)
         == ClearedState(k, ScaledState(k, old(Current(mtx, inv)), mtx.Length0, i), mtx.Length0, i, mtx.Length0)
  {
    var n := mtx.Length0;
    ghost var scaled := ScaledState(k, Current(mtx, inv), n, i);
    assert Current(mtx, inv).m[i][i] == mtx[i, i];
    ScaleRow(k, mtx, inv, i, Inv(k, mtx[i, i]));
    for j := 0 to n
      invariant Current(mtx, inv) == ClearedState(k, scaled, n, i, j)
    {
      ghost var before := Current(mtx, inv);
      if j != i {
        assert before.m[j][i] == mtx[j, i];
        AddRow(k, mtx, inv, j, i, mtx[j, i]);
      }
      assert Current(mtx, inv) == ClearedRow(k, before, n, i, j);
    }
  }

  /** One column of the elimination. */
  method ProcessColumn<F(!new, ==)>(k: Field<F>, mtx: array2<F>, inv: array2<F>, i: nat) returns (ok: bool)
    requires IsField(k) && Dims(mtx, inv, mtx.Length0) && i < mtx.Length0
    modifies mtx, inv
    ensures ReducedState(k, old(Current(mtx, inv)), mtx.Length0, i) == if ok then Some(Current(mtx, inv)) else None
  {
    ok := FindPivot(k, mtx, inv, i);
    if ok {
      ReduceColumn(k, mtx, inv, i);
    }
  }

  /** `gf128Inv`: None stands for the empty matrix that the source returns when it finds no pivot.
      Whenever an inverse is returned, it undoes the given matrix from both sides, on every vector; none is returned
      exactly for singular matrices and where a pivot is overlooked. */
  method Gf128Inv<F(!new, ==)>(k: Field<F>, m0: seq<seq<F>>) returns (r: Option<seq<seq<F>>>)
    requires IsField(k) && Square(m0, |m0|)
    ensures r == InverseOf(k, m0)
    ensures r.Some? ==> Inverts(k, r.value, m0)
    ensures r.None? <==> Singular(k, m0) || exists c {:trigger OverlooksAt(k, m0, c)} ::
      0 <= c < |m0| && OverlooksAt(k, m0, c)
  {
    FailsIffSingularOrOverlooked(k, m0);
    r := Invert(k, m0);
    if r.Some? {
      InverseOfInverts(k, m0);
    }
  }

  method StartState<F>(k: Field<F>, m0: seq<seq<F>>) returns (mtx: array2<F>, inv: array2<F>)
    requires Square(m0, |m0|)
    ensures fresh(mtx) && fresh(inv) && Dims(mtx, inv, |m0|) && Current(mtx, inv) == State(m0, Identity(k, |m0|))
  {
    var n := |m0|;
    mtx := new F[n, n]((i, j) requires 0 <= i < n && 0 <= j < n => m0[i][j]);
    inv := new F[n, n]((i, j) => if i == j then k.one else k.zero);
    assert forall i :: 0 <= i < n ==> Row(mtx, i) == m0[i] && Row(inv, i) == Identity(k, n)[i];
    assert Rows(mtx) == m0 && Rows(inv) == Identity(k, n);
  }

  method Read<F>(m: array2<F>) returns (r: seq<seq<F>>)
    ensures r == Rows(m)
  {
    r := seq(m.Length0, i requires 0 <= i < m.Length0 reads m =>
      seq(m.Length1, j requires 0 <= j < m.Length1 reads m => m[i, j]));
    assert forall i :: 0 <= i < m.Length0 ==> r[i] == Row(m, i);
  }

  lemma {:induction false} EliminatedNext<F>(k: Field<F>, m0: seq<seq<F>>, s: State<F>, i: nat)
    requires Square(m0, |m0|) && i < |m0| && Eliminated(k, m0, i) == Some(s)
    ensures Eliminated(k, m0, i + 1) == ReducedState(k, s, |m0|, i)
  {
  }

  lemma {:induction false} FailedAt<F>(k: Field<F>, m0: seq<seq<F>>, s: State<F>, i: nat)
    requires Square(m0, |m0|) && i < |m0| && Eliminated(k, m0, i) == Some(s) && ReducedState(k, s, |m0|, i).None?
    ensures InverseOf(k, m0).None?
  {
    EliminatedNext(k, m0, s, i);
    FailsNextIff(k, m0, i);
    FailsIff(k, m0);
  }

  method Invert<F(!new, ==)>(k: Field<F>, m0: seq<seq<F>>) returns (r: Option<seq<seq<F>>>)
    requires IsField(k) && Square(m0, |m0|)
    ensures r == InverseOf(k, m0)
  {
    var n := |m0|;
    var mtx, inv := StartState(k, m0);
    ghost var s := Current(mtx, inv);
    for i := 0 to n
      invariant Current(mtx, inv) == s && Eliminated(k, m0, i) == Some(s)
    {
      var ok := ProcessColumn(k, mtx, inv, i);
      if !ok {
        FailedAt(k, m0, s, i);
        return None;
      }
      EliminatedNext(k, m0, s, i);
      s := Current(mtx, inv);
    }
    var w := Read(inv);
    r := Some(w);
  }

  lemma {:induction false} InverseFromKept<F(!new)>(k: Field<F>, m0: seq<seq<F>>, inv: seq<seq<F>>)
    requires IsField(k) && Square(m0, |m0|) && Square(inv, |m0|)
    requires Kept(k, m0, Identity(k, |m0|), inv)
    ensures Inverts(k, inv, m0)
  {
    forall b: seq<F> | |b| == |m0| ensures UndoneAt(k, m0, inv, b) {
      ApplyIdentity(k, Apply(k, inv, b));
      assert SameSolution(k, m0, Identity(k, |m0|), inv, Apply(k, inv, b), b);
    }
    forall x: seq<F> | |x| == |m0| ensures UndoneAt(k, inv, m0, x) {
      ApplyIdentity(k, x);
      assert SameSolution(k, m0, Identity(k, |m0|), inv, x, Apply(k, m0, x));
    }
  }

  // ------------------------------------------------- what a failure means

  /** A reduced column without a pivot yields a vector that the matrix sends to zero. */
  ghost function KernelVector<F>(k: Field<F>, m: seq<seq<F>>, i: nat): (x: seq<F>)
    requires Square(m, |m|) && i < |m|
    ensures |x| == |m| && x[i] == k.one
  {
    seq(|m|, p requires 0 <= p < |m| => if p < i then m[p][i] else if p == i then k.one else k.zero)
  }

  lemma {:induction false} KernelRow<F(!new)>(k: Field<F>, m: seq<seq<F>>, i: nat, p: nat, n: nat)
    requires IsField(k) && Square(m, |m|) && i < |m| && p < |m| && UnitColumns(k, m, i)
    requires forall j :: i <= j < |m| ==> m[j][i] == k.zero
    requires n <= |m|
    ensures DotTo(k, m[p], KernelVector(k, m, i), n) == if p < n <= i then m[p][i] else k.zero
  {
    if n > 0 {
      KernelRow(k, m, i, p, n - 1);
      var x := KernelVector(k, m, i);
      MulZero(k, x[n - 1]);
      MulZero(k, m[p][n - 1]);
      MulOne(k, x[n - 1]);
      MulOne(k, m[p][n - 1]);
      AddCancel(k, m[p][i], k.zero);
      AddEqZero(k, m[p][i], m[p][i]);
      assert AddLaws(k, m[p][i], k.zero, k.zero);
      assert AddLaws(k, k.zero, k.zero, k.zero);
    }
  }

  /** A column that is zero from the diagonal down shows that the given matrix was singular. */
  lemma {:induction false} StuckOnZerosIsSingular<F(!new)>(
      k: Field<F>, m0: seq<seq<F>>, m: seq<seq<F>>, inv: seq<seq<F>>, i: nat)
    requires IsField(k) && i < |m0| && Progress(k, m0, m, inv, i)
    requires forall j :: i <= j < |m0| ==> m[j][i] == k.zero
    ensures Singular(k, m0)
  {
    var x, z := KernelVector(k, m, i), ZeroVec(k, |m0|);
    forall p | 0 <= p < |m0| ensures Apply(k, m, x)[p] == k.zero {
      KernelRow(k, m, i, p, |m0|);
    }
    forall p | 0 <= p < |m0| ensures Apply(k, inv, z)[p] == k.zero {
      DotToZeroTerms(k, inv[p], z, |m0|);
    }
    assert Apply(k, m, x) == z == Apply(k, inv, z);
    assert SameSolution(k, m0, m, inv, x, z);
    assert MulLaws(k, k.one, k.one, k.one);
    assert x[i] != z[i];
  }

  /** Searching for a pivot equal to one loses invertible matrices: in any field with a third element the inversion
      returns nothing for this one. */
  lemma {:induction false} InvertibleButStuck<F(!new)>(k: Field<F>, a: F)
    requires IsField(k) && a != k.zero && a != k.one
    ensures InverseOf(k, [[k.zero, k.one], [a, k.zero]]).None?
    ensures Inverts(k, [[k.zero, Inv(k, a)], [k.one, k.zero]], [[k.zero, k.one], [a, k.zero]])
  {
    GivesUpAtOnce(k, a);
    MulOne(k, k.one);
    assert MulLaws(k, a, Inv(k, a), k.one);
    AntiDiagonal(k, k.one, a, k.one, Inv(k, a));
  }

  lemma {:induction false} GivesUpAtOnce<F(!new)>(k: Field<F>, a: F)
    requires a != k.one
    ensures InverseOf(k, [[k.zero, k.one], [a, k.zero]]).None?
  {
    var m := [[k.zero, k.one], [a, k.zero]];
    assert Eliminated(k, m, 0) == Some(State(m, Identity(k, 2)));
    assert GivesUpAt(k, m, 0);
    FailsIff(k, m);
  }

  /** [[0, p], [q, 0]] is inverted by [[0, s], [r, 0]] if p * r and q * s are one. */
  lemma {:induction false} AntiDiagonal<F(!new)>(k: Field<F>, p: F, q: F, r: F, s: F)
    requires IsField(k) && Mul(k, p, r) == k.one && Mul(k, q, s) == k.one
    ensures Inverts(k, [[k.zero, s], [r, k.zero]], [[k.zero, p], [q, k.zero]])
  {
    assert MulLaws(k, p, r, r) && MulLaws(k, q, s, s);
    var w, m := [[k.zero, s], [r, k.zero]], [[k.zero, p], [q, k.zero]];
    assert |m| == 2 && Square(m, 2) && Square(w, 2);
    forall x: seq<F> | |x| == |m| ensures UndoneAt(k, w, m, x) {
      AntiDiagonalAt(k, p, q, r, s, x);
    }
    forall x: seq<F> | |x| == |m| ensures UndoneAt(k, m, w, x) {
      AntiDiagonalAt(k, s, r, q, p, x);
    }
  }

  lemma {:induction false} AntiDiagonalAt<F(!new)>(k: Field<F>, p: F, q: F, r: F, s: F, x: seq<F>)
    requires IsField(k) && |x| == 2 && Mul(k, p, r) == k.one && Mul(k, q, s) == k.one
    ensures UndoneAt(k, [[k.zero, s], [r, k.zero]], [[k.zero, p], [q, k.zero]], x)
  {
    var m, w := [[k.zero, p], [q, k.zero]], [[k.zero, s], [r, k.zero]];
    var y := Apply(k, m, x);
    DotOfTwo(k, k.zero, p, x);
    DotOfTwo(k, q, k.zero, x);
    ZeroTerm(k, x[0], Mul(k, p, x[1]));
    ZeroTerm(k, x[1], Mul(k, q, x[0]));
    assert y == [Mul(k, p, x[1]), Mul(k, q, x[0])];
    DotOfTwo(k, k.zero, s, y);
    DotOfTwo(k, r, k.zero, y);
    ZeroTerm(k, y[0], Mul(k, s, y[1]));
    ZeroTerm(k, y[1], Mul(k, r, y[0]));
    Undone(k, q, s, x[0]);
    Undone(k, p, r, x[1]);
    assert Apply(k, w, y) == [x[0], x[1]] == x;
  }

  lemma {:induction false} ZeroTerm<F(!new)>(k: Field<F>, x: F, v: F)
    requires IsField(k)
    ensures Add(k, Mul(k, k.zero, x), v) == v == Add(k, v, Mul(k, k.zero, x))
  {
    MulZero(k, x);
    AddCancel(k, v, k.zero);
    assert AddLaws(k, v, k.zero, k.zero);
  }

  lemma {:induction false} Undone<F(!new)>(k: Field<F>, q: F, s: F, x: F)
    requires IsField(k) && Mul(k, q, s) == k.one
    ensures Mul(k, s, Mul(k, q, x)) == x
  {
    assert MulLaws(k, q, s, s);
    assert MulLaws(k, s, q, x);
    MulOne(k, x);
  }

  lemma {:induction false} DotOfTwo<F(!new)>(k: Field<F>, a: F, b: F, x: seq<F>)
    requires IsField(k) && |x| == 2
    ensures Dot(k, [a, b], x) == Add(k, Mul(k, a, x[0]), Mul(k, b, x[1]))
  {
    assert DotTo(k, [a, b], x, 1) == Add(k, k.zero, Mul(k, a, x[0]));
    AddCancel(k, Mul(k, a, x[0]), k.zero);
  }
}
