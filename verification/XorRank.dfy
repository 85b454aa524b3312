/** The elimination of `XorSystem` fails exactly when the rows of coefficients are linearly dependent over GF(2). */
module XorRank {
  import opened Fields
  import opened XorSystem

  /** Column c of the sum of those of the first m equations that x selects. */
  ghost function Combo<F>(x: seq<bool>, eqs: seq<Equation<F>>, c: nat, m: nat): bool
    requires m <= |x| && m <= |eqs| && forall i :: 0 <= i < |eqs| ==> c < |eqs[i].coeffs|
  {
    if m == 0 then false else Combo(x, eqs, c, m - 1) != (x[m - 1] && eqs[m - 1].coeffs[c])
  }

  /** A non-empty selection of equations whose coefficients cancel in every column. */
  ghost predicate Vanishes<F>(x: seq<bool>, eqs: seq<Equation<F>>, n: nat) {
    && |x| == |eqs| && true in x && (forall i :: 0 <= i < |eqs| ==> |eqs[i].coeffs| == n)
    && forall c {:trigger Combo(x, eqs, c, |eqs|)} :: 0 <= c < n ==> !Combo(x, eqs, c, |eqs|)
  }

  ghost predicate Dependent<F(!new)>(eqs: seq<Equation<F>>, n: nat) {
    exists x {:trigger Vanishes(x, eqs, n)} :: Vanishes(x, eqs, n)
  }

  // ------------------------------------------------- a round keeps dependence, in both directions

  /** The parity of the selected equations j, i < j < m, that a round with pivot column p changes. */
  ghost function Parity<F>(x: seq<bool>, eqs: seq<Equation<F>>, p: nat, i: nat, m: nat): bool
    requires m <= |x| && m <= |eqs| && forall j :: 0 <= j < |eqs| ==> p < |eqs[j].coeffs|
  {
    if m <= i + 1 then false else Parity(x, eqs, p, i, m - 1) != (x[m - 1] && eqs[m - 1].coeffs[p])
  }

  lemma {:induction false} ComboRound<F>(
      k: Field<F>, x: seq<bool>, eqs: seq<Equation<F>>, n: nat, s: nat, i: nat, c: nat, m: nat)
    requires Shaped(eqs, n, s) && i < |eqs| && Pivot(eqs[i]) < n && |x| == |eqs| && m <= |eqs| && c < n
    ensures Combo(x, Round(k, eqs, n, s, i, |eqs|), c, m)
         == (Combo(x, eqs, c, m) != (Parity(x, eqs, Pivot(eqs[i]), i, m) && eqs[i].coeffs[c]))
  {
    if m > 0 { ComboRound(k, x, eqs, n, s, i, c, m - 1); }
  }

  lemma {:induction false} ComboFlip<F>(x: seq<bool>, eqs: seq<Equation<F>>, i: nat, v: bool, c: nat, m: nat)
    requires |x| == |eqs| && m <= |eqs| && i < |eqs| && forall j :: 0 <= j < |eqs| ==> c < |eqs[j].coeffs|
    ensures Combo(x[i := x[i] != v], eqs, c, m) == (Combo(x, eqs, c, m) != (i < m && v && eqs[i].coeffs[c]))
  {
    if m > 0 { ComboFlip(x, eqs, i, v, c, m - 1); }
  }

  lemma {:induction false} ParityIgnores<F>(x: seq<bool>, eqs: seq<Equation<F>>, p: nat, i: nat, v: bool, m: nat)
    requires |x| == |eqs| && m <= |eqs| && i < |eqs| && forall j :: 0 <= j < |eqs| ==> p < |eqs[j].coeffs|
    ensures Parity(x[i := v], eqs, p, i, m) == Parity(x, eqs, p, i, m)
  {
    if m > i + 1 { ParityIgnores(x, eqs, p, i, v, m - 1); }
  }

  lemma {:induction false} ParityOfNone<F>(x: seq<bool>, eqs: seq<Equation<F>>, p: nat, i: nat, m: nat)
    requires |x| == |eqs| && m <= |eqs| && forall j :: 0 <= j < |eqs| ==> p < |eqs[j].coeffs|
    requires forall j :: i < j < m ==> !x[j]
    ensures !Parity(x, eqs, p, i, m)
  {
    if m > i + 1 { ParityOfNone(x, eqs, p, i, m - 1); }
  }

  /** Flipping the selection of equation i by the parity translates between the two systems. */
  lemma {:induction false} RoundVanishes<F>(k: Field<F>, x: seq<bool>, eqs: seq<Equation<F>>, n: nat, s: nat, i: nat)
    requires Shaped(eqs, n, s) && i < |eqs| && Pivot(eqs[i]) < n && |x| == |eqs|
    ensures var y := x[i := x[i] != Parity(x, eqs, Pivot(eqs[i]), i, |eqs|)];
      && (Vanishes(x, Round(k, eqs, n, s, i, |eqs|), n) ==> Vanishes(y, eqs, n))
      && (Vanishes(x, eqs, n) ==> Vanishes(y, Round(k, eqs, n, s, i, |eqs|), n))
  {
    var p := Pivot(eqs[i]);
    var v := Parity(x, eqs, p, i, |eqs|);
    var y, next := x[i := x[i] != v], Round(k, eqs, n, s, i, |eqs|);
    ParityIgnores(x, eqs, p, i, x[i] != v, |eqs|);
    forall c | 0 <= c < n
      ensures Combo(y, eqs, c, |eqs|) == Combo(x, next, c, |eqs|) && Combo(y, next, c, |eqs|) == Combo(x, eqs, c, |eqs|)
    {
      ComboRound(k, x, eqs, n, s, i, c, |eqs|);
      ComboRound(k, y, eqs, n, s, i, c, |eqs|);
      ComboFlip(x, eqs, i, v, c, |eqs|);
    }
    if true in x {
      var j :| 0 <= j < |x| && x[j];
      if exists q :: 0 <= q < |x| && q != i && x[q] {
        var q :| 0 <= q < |x| && q != i && x[q];
        assert y[q];
      } else {
        ParityOfNone(x, eqs, p, i, |eqs|);
        assert y[i];
      }
    }
  }

  lemma {:induction false} RoundDependent<F(!new)>(k: Field<F>, eqs: seq<Equation<F>>, n: nat, s: nat, i: nat)
    requires Shaped(eqs, n, s) && i < |eqs| && Pivot(eqs[i]) < n
    ensures Dependent(Round(k, eqs, n, s, i, |eqs|), n) <==> Dependent(eqs, n)
  {
    var next, p := Round(k, eqs, n, s, i, |eqs|), Pivot(eqs[i]);
    if Dependent(next, n) {
      var x :| Vanishes(x, next, n);
      RoundVanishes(k, x, eqs, n, s, i);
      assert Vanishes(x[i := x[i] != Parity(x, eqs, p, i, |eqs|)], eqs, n);
    }
    if Dependent(eqs, n) {
      var x :| Vanishes(x, eqs, n);
      RoundVanishes(k, x, eqs, n, s, i);
      assert Vanishes(x[i := x[i] != Parity(x, eqs, p, i, |eqs|)], next, n);
    }
  }

  // ------------------------------------------------- the two ends

  lemma {:induction false} ComboUnit<F>(eqs: seq<Equation<F>>, i: nat, x: seq<bool>, c: nat, m: nat)
    requires |x| == |eqs| && m <= |eqs| && i < |eqs| && (forall j :: 0 <= j < |eqs| ==> c < |eqs[j].coeffs|)
    requires forall j :: 0 <= j < |x| ==> x[j] == (j == i)
    ensures Combo(x, eqs, c, m) == (i < m && eqs[i].coeffs[c])
  {
    if m > 0 { ComboUnit(eqs, i, x, c, m - 1); }
  }

  lemma {:induction false} EmptyEquationDependent<F(!new)>(eqs: seq<Equation<F>>, n: nat, s: nat, i: nat)
    requires Shaped(eqs, n, s) && i < |eqs| && Pivot(eqs[i]) == n
    ensures Dependent(eqs, n)
  {
    var x := seq(|eqs|, j => j == i);
    forall c | 0 <= c < n ensures !Combo(x, eqs, c, |eqs|) {
      ComboUnit(eqs, i, x, c, |eqs|);
    }
    assert x[i];
    assert Vanishes(x, eqs, n);
  }

  lemma {:induction false} ComboAtPivot<F>(x: seq<bool>, eqs: seq<Equation<F>>, n: nat, q: nat, m: nat)
    requires Triangular(eqs, n, |eqs|) && |x| == |eqs| && q < |eqs| && x[q] && m <= |eqs| && Pivot(eqs[q]) < n
    requires forall j :: 0 <= j < q ==> !x[j]
    ensures Combo(x, eqs, Pivot(eqs[q]), m) == (q < m)
  {
    if m > 0 {
      ComboAtPivot(x, eqs, n, q, m - 1);
      if q < m - 1 { assert Avoids(eqs, q, m - 1); }
    }
  }

  lemma {:induction false} FirstTrue(x: seq<bool>, i: nat) returns (q: nat)
    requires i < |x| && x[i]
    ensures q <= i && x[q] && forall j :: 0 <= j < q ==> !x[j]
  {
    q := 0;
    while !x[q]
      invariant q <= i && forall j :: 0 <= j < q ==> !x[j]
      decreases i - q
    {
      q := q + 1;
    }
  }

  lemma {:induction false} TriangularIndependent<F(!new)>(eqs: seq<Equation<F>>, n: nat)
    requires Triangular(eqs, n, |eqs|)
    ensures !Dependent(eqs, n)
  {
    forall x ensures !Vanishes(x, eqs, n) {
      if |x| == |eqs| && true in x {
        var i :| 0 <= i < |x| && x[i];
        var q := FirstTrue(x, i);
        assert Pivot(eqs[q]) < n;
        ComboAtPivot(x, eqs, n, q, |eqs|);
        assert Combo(x, eqs, Pivot(eqs[q]), |eqs|);
      }
    }
  }

  lemma {:induction false} GaussFailsIffDependent<F(!new)>(k: Field<F>, eqs: seq<Equation<F>>, n: nat, s: nat, i: nat)
    requires Shaped(eqs, n, s) && i <= |eqs| && Triangular(eqs, n, i)
    ensures Gauss(k, eqs, n, s, i).None? <==> Dependent(eqs, n)
    decreases |eqs| - i
  {
    if i == |eqs| {
      TriangularIndependent(eqs, n);
    } else if Pivot(eqs[i]) == n {
      EmptyEquationDependent(eqs, n, s, i);
    } else {
      RoundTriangular(k, eqs, n, s, i);
      RoundDependent(k, eqs, n, s, i);
      GaussFailsIffDependent(k, Round(k, eqs, n, s, i, |eqs|), n, s, i + 1);
    }
  }

  /** The solver fails exactly on dependent rows, whatever the right-hand sides are. */
  lemma {:induction false} SolveFailsIffDependent<F(!new)>(k: Field<F>, eqs: seq<Equation<F>>, n: nat, s: nat)
    requires Shaped(eqs, n, s)
    ensures Solve(k, eqs, n, s).None? <==> Dependent(eqs, n)
  {
    TrivialTriangular(eqs, n, s);
    GaussFailsIffDependent(k, eqs, n, s, 0);
  }

  // ------------------------------------------------- the order of the equations does not matter

  lemma {:induction false} ComboConcat<F>(
      x: seq<bool>, y: seq<bool>, a: seq<Equation<F>>, b: seq<Equation<F>>, c: nat, m: nat)
    requires |x| == |a| && |y| == |b| && m <= |b|
    requires forall j :: 0 <= j < |a| ==> c < |a[j].coeffs|
    requires forall j :: 0 <= j < |b| ==> c < |b[j].coeffs|
    ensures Combo(x + y, a + b, c, |a| + m) == (Combo(x, a, c, |a|) != Combo(y, b, c, m))
  {
    if m == 0 {
      ComboPrefix(x, x + y, a, a + b, c, |a|);
    } else {
      ComboConcat(x, y, a, b, c, m - 1);
    }
  }

  lemma {:induction false} ComboPrefix<F>(
      x: seq<bool>, x': seq<bool>, a: seq<Equation<F>>, a': seq<Equation<F>>, c: nat, m: nat)
    requires m <= |x| <= |x'| && m <= |a| <= |a'| && x <= x' && a <= a'
    requires forall j :: 0 <= j < |a'| ==> c < |a'[j].coeffs|
    ensures Combo(x', a', c, m) == Combo(x, a, c, m)
  {
    if m > 0 { ComboPrefix(x, x', a, a', c, m - 1); }
  }

  lemma {:induction false} VanishesMoved<F>(
      u: seq<bool>, xa: seq<bool>, xb: seq<bool>, e: Equation<F>, a: seq<Equation<F>>, b: seq<Equation<F>>, n: nat)
    requires |u| == 1 && |xa| == |a| && |xb| == |b|
    requires |e.coeffs| == n && (forall j :: 0 <= j < |a| ==> |a[j].coeffs| == n)
    requires forall j :: 0 <= j < |b| ==> |b[j].coeffs| == n
    ensures Vanishes(u + xa + xb, [e] + a + b, n) <==> Vanishes(xa + u + xb, a + [e] + b, n)
  {
    var x, y := u + xa + xb, xa + u + xb;
    var p, q := [e] + a + b, a + [e] + b;
    forall c {:trigger Combo(x, p, c, |p|)} {:trigger Combo(y, q, c, |q|)} | 0 <= c < n
      ensures Combo(x, p, c, |p|) == Combo(y, q, c, |q|)
    {
      ComboConcat(u + xa, xb, [e] + a, b, c, |b|);
      ComboConcat(u, xa, [e], a, c, |a|);
      ComboConcat(xa + u, xb, a + [e], b, c, |b|);
      ComboConcat(xa, u, a, [e], c, 1);
    }
    assert true in x <==> true in u || true in xa || true in xb;
    assert true in y <==> true in u || true in xa || true in xb;
  }

  /** Moving an equation to the front keeps dependence. */
  lemma {:induction false} DependentMoved<F(!new)>(e: Equation<F>, a: seq<Equation<F>>, b: seq<Equation<F>>, n: nat)
    requires |e.coeffs| == n && (forall j :: 0 <= j < |a| ==> |a[j].coeffs| == n)
    requires forall j :: 0 <= j < |b| ==> |b[j].coeffs| == n
    ensures Dependent([e] + a + b, n) <==> Dependent(a + [e] + b, n)
  {
    if Dependent([e] + a + b, n) {
      var x :| Vanishes(x, [e] + a + b, n);
      var u, xa, xb := x[..1], x[1..|a| + 1], x[|a| + 1..];
      assert x == u + xa + xb;
      VanishesMoved(u, xa, xb, e, a, b, n);
    }
    if Dependent(a + [e] + b, n) {
      var x :| Vanishes(x, a + [e] + b, n);
      var xa, u, xb := x[..|a|], x[|a|..|a| + 1], x[|a| + 1..];
      assert x == xa + u + xb;
      VanishesMoved(u, xa, xb, e, a, b, n);
    }
  }

  /** So does moving it past any stretch of other equations. */
  lemma {:induction false} DependentPassed<F(!new)>(
      a: seq<Equation<F>>, t: seq<Equation<F>>, e: Equation<F>, b: seq<Equation<F>>, n: nat)
    requires |e.coeffs| == n && (forall j :: 0 <= j < |a| ==> |a[j].coeffs| == n)
    requires (forall j :: 0 <= j < |t| ==> |t[j].coeffs| == n) && forall j :: 0 <= j < |b| ==> |b[j].coeffs| == n
    ensures Dependent(a + t + [e] + b, n) <==> Dependent(a + [e] + t + b, n)
  {
    DependentMoved(e, a + t, b, n);
    DependentMoved(e, a, t + b, n);
    assert [e] + (a + t) + b == [e] + a + (t + b);
    assert a + [e] + t + b == a + [e] + (t + b);
  }

  // ------------------------------------------------- only the coefficients matter

  lemma {:induction false} ComboSameCoeffs<F, G>(x: seq<bool>, a: seq<Equation<F>>, b: seq<Equation<G>>, c: nat, m: nat)
    requires m <= |x| && m <= |a| == |b| && forall j :: 0 <= j < |a| ==> a[j].coeffs == b[j].coeffs && c < |a[j].coeffs|
    ensures Combo(x, a, c, m) == Combo(x, b, c, m)
  {
    if m > 0 { ComboSameCoeffs(x, a, b, c, m - 1); }
  }

  lemma {:induction false} DependentSameCoeffs<F(!new), G(!new)>(a: seq<Equation<F>>, b: seq<Equation<G>>, n: nat)
    requires |a| == |b| && forall j :: 0 <= j < |a| ==> a[j].coeffs == b[j].coeffs && |a[j].coeffs| == n
    ensures Dependent(a, n) <==> Dependent(b, n)
  {
    forall x {:trigger Vanishes(x, a, n)} {:trigger Vanishes(x, b, n)}
      ensures Vanishes(x, a, n) <==> Vanishes(x, b, n) {
      if |x| == |a| {
        forall c | 0 <= c < n ensures Combo(x, a, c, |a|) == Combo(x, b, c, |b|) {
          ComboSameCoeffs(x, a, b, c, |a|);
        }
      }
    }
  }

  // ------------------------------------------------- equal equations

  /** The selection of equations i and j alone. */
  ghost function Both(size: nat, i: nat, j: nat): (x: seq<bool>)
    ensures |x| == size && forall a :: 0 <= a < size ==> x[a] == (a == i || a == j)
  {
    seq(size, a => a == i || a == j)
  }

  lemma {:induction false} ComboBoth<F>(eqs: seq<Equation<F>>, i: nat, j: nat, c: nat, m: nat)
    requires i < j < |eqs| && m <= |eqs| && forall a :: 0 <= a < |eqs| ==> c < |eqs[a].coeffs|
    ensures Combo(Both(|eqs|, i, j), eqs, c, m) == ((i < m && eqs[i].coeffs[c]) != (j < m && eqs[j].coeffs[c]))
  {
    if m > 0 { ComboBoth(eqs, i, j, c, m - 1); }
  }

  lemma {:induction false} EqualDependent<F(!new)>(eqs: seq<Equation<F>>, n: nat, i: nat, j: nat)
    requires i < j < |eqs| && (forall a :: 0 <= a < |eqs| ==> |eqs[a].coeffs| == n) && eqs[i].coeffs == eqs[j].coeffs
    ensures Dependent(eqs, n)
  {
    var x := Both(|eqs|, i, j);
    assert x[i];
    forall c {:trigger Combo(x, eqs, c, |eqs|)} | 0 <= c < n ensures !Combo(x, eqs, c, |eqs|) {
      ComboBoth(eqs, i, j, c, |eqs|);
    }
    assert Vanishes(x, eqs, n);
  }

  // ------------------------------------------------- equations with a single column

  /** Equation i selects column at[i] and no other. */
  ghost predicate SingleColumns<F>(eqs: seq<Equation<F>>, n: nat, at: seq<nat>) {
    && |at| == |eqs|
    && forall i :: 0 <= i < |eqs| ==>
      at[i] < n && |eqs[i].coeffs| == n && forall c :: 0 <= c < n ==> (eqs[i].coeffs[c] <==> c == at[i])
  }

  lemma {:induction false} ComboAlone<F>(x: seq<bool>, eqs: seq<Equation<F>>, n: nat, at: seq<nat>, i: nat, m: nat)
    requires SingleColumns(eqs, n, at) && |x| == |eqs| && i < |eqs| && m <= |eqs|
    requires forall j :: 0 <= j < |at| && j != i ==> at[j] != at[i]
    ensures Combo(x, eqs, at[i], m) == (i < m && x[i])
  {
    if m > 0 { ComboAlone(x, eqs, n, at, i, m - 1); }
  }

  /** Such equations are dependent exactly if two of them select the same column. */
  lemma {:induction false} SinglesDependentIff<F(!new)>(eqs: seq<Equation<F>>, n: nat, at: seq<nat>)
    requires SingleColumns(eqs, n, at)
    ensures Dependent(eqs, n) <==> exists i, j :: 0 <= i < j < |at| && at[i] == at[j]
  {
    if i, j :| 0 <= i < j < |at| && at[i] == at[j] {
      assert eqs[i].coeffs == eqs[j].coeffs;
      EqualDependent(eqs, n, i, j);
    } else {
      forall x ensures !Vanishes(x, eqs, n) {
        if |x| == |eqs| && true in x {
          var i :| 0 <= i < |x| && x[i];
          ComboAlone(x, eqs, n, at, i, |eqs|);
          assert Combo(x, eqs, at[i], |eqs|);
        }
      }
    }
  }
}
