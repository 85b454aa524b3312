/** Fields of characteristic two, and dot products over them.

    A `block` of the source is an element of GF(2^128): `^` adds and `gf128Mul` multiplies.  Every result in
    this project that needs the algebra is stated for an arbitrary field of characteristic two, handed over as
    a record of operations; results that need only XOR ask for `IsXorGroup`.

    The laws are wrapped in predicates, so that an instance is used only where a proof names it. */
module Fields {

  datatype Field<!F> = Field(zero: F, one: F, plus: (F, F) -> F, times: (F, F) -> F, inverse: F -> F)

  function Add<F>(k: Field<F>, a: F, b: F): F { (k.plus)(a, b) }

  function Mul<F>(k: Field<F>, a: F, b: F): F { (k.times)(a, b) }

  function Inv<F>(k: Field<F>, a: F): F { (k.inverse)(a) }

  ghost predicate AddLaws<F>(k: Field<F>, a: F, b: F, c: F) {
    && Add(k, a, b) == Add(k, b, a)
    && Add(k, Add(k, a, b), c) == Add(k, a, Add(k, b, c))
    && Add(k, a, k.zero) == a
    && Add(k, a, a) == k.zero
  }

  ghost predicate MulLaws<F>(k: Field<F>, a: F, b: F, c: F) {
    && Mul(k, a, b) == Mul(k, b, a)
    && Mul(k, Mul(k, a, b), c) == Mul(k, a, Mul(k, b, c))
    && Mul(k, a, k.one) == a
    && Mul(k, a, Add(k, b, c)) == Add(k, Mul(k, a, b), Mul(k, a, c))
    && (a != k.zero ==> Mul(k, a, Inv(k, a)) == k.one)
    && k.zero != k.one
  }

  ghost predicate IsXorGroup<F(!new)>(k: Field<F>) {
    forall a, b, c :: AddLaws(k, a, b, c)
  }

  ghost predicate IsField<F(!new)>(k: Field<F>) {
    forall a, b, c {:trigger AddLaws(k, a, b, c)} {:trigger MulLaws(k, a, b, c)} ::
      AddLaws(k, a, b, c) && MulLaws(k, a, b, c)
  }

  /** The smallest instance: GF(2), that is, bits under exclusive or and conjunction. */
  const GF2: Field<bool> := Field(false, true, (a, b) => a != b, (a, b) => a && b, a => a)

  lemma {:induction false} Gf2IsField()
    ensures IsField(GF2)
  {
    forall a: bool, b: bool, c: bool ensures AddLaws(GF2, a, b, c) && MulLaws(GF2, a, b, c) {
    }
  }

  /** d to the power of e. */
  function Pow<F>(k: Field<F>, d: F, e: nat): F
    requires e >= 1
  {
    if e == 1 then d else Mul(k, Pow(k, d, e - 1), d)
  }

  // ---------------------------------------------------------------- sums

  /** (a + b) + (c + d) == (a + c) + (b + d) */
  lemma {:induction false} AddSwap<F(!new)>(k: Field<F>, a: F, b: F, c: F, d: F)
    requires IsXorGroup(k)
    ensures Add(k, Add(k, a, b), Add(k, c, d)) == Add(k, Add(k, a, c), Add(k, b, d))
  {
    assert AddLaws(k, a, b, Add(k, c, d));
    assert AddLaws(k, b, c, d);
    assert AddLaws(k, c, b, d);
    assert AddLaws(k, a, c, Add(k, b, d));
  }

  /** Adding the same element twice changes nothing. */
  lemma {:induction false} AddCancel<F(!new)>(k: Field<F>, a: F, b: F)
    requires IsXorGroup(k)
    ensures Add(k, Add(k, a, b), b) == a
    ensures Add(k, b, Add(k, b, a)) == a
    ensures Add(k, k.zero, a) == a
  {
    assert AddLaws(k, a, b, b);
    assert AddLaws(k, b, b, a);
    assert AddLaws(k, a, k.zero, a);
    assert AddLaws(k, k.zero, a, a);
  }

  lemma {:induction false} AddEqZero<F(!new)>(k: Field<F>, a: F, b: F)
    requires IsXorGroup(k)
    ensures Add(k, a, b) == k.zero <==> a == b
  {
    AddCancel(k, a, b);
    AddCancel(k, b, b);
    assert AddLaws(k, b, b, b);
  }

  lemma {:induction false} MulZero<F(!new)>(k: Field<F>, a: F)
    requires IsField(k)
    ensures Mul(k, a, k.zero) == k.zero == Mul(k, k.zero, a)
  {
    assert MulLaws(k, a, k.zero, k.zero);
    assert AddLaws(k, k.zero, k.zero, k.zero);
    assert AddLaws(k, Mul(k, a, k.zero), a, a);
  }

  lemma {:induction false} MulOne<F(!new)>(k: Field<F>, a: F)
    requires IsField(k)
    ensures Mul(k, a, k.one) == a == Mul(k, k.one, a)
  {
    assert MulLaws(k, a, k.one, a);
    assert MulLaws(k, k.one, a, a);
  }

  // ---------------------------------------------------------------- vectors

  /** The first n terms of the inner product of a and b. */
  function DotTo<F>(k: Field<F>, a: seq<F>, b: seq<F>, n: nat): F
    requires n <= |a| && n <= |b|
  {
    if n == 0 then k.zero else Add(k, DotTo(k, a, b, n - 1), Mul(k, a[n - 1], b[n - 1]))
  }

  function Dot<F>(k: Field<F>, a: seq<F>, b: seq<F>): F
    requires |a| == |b|
  {
    DotTo(k, a, b, |a|)
  }

  function VecAdd<F>(k: Field<F>, a: seq<F>, b: seq<F>): (r: seq<F>)
    requires |a| == |b|
    ensures |r| == |a|
    ensures forall i :: 0 <= i < |a| ==> r[i] == Add(k, a[i], b[i])
  {
    seq(|a|, i requires 0 <= i < |a| => Add(k, a[i], b[i]))
  }

  function VecScale<F>(k: Field<F>, s: F, a: seq<F>): (r: seq<F>)
    ensures |r| == |a|
    ensures forall i :: 0 <= i < |a| ==> r[i] == Mul(k, s, a[i])
  {
    seq(|a|, i requires 0 <= i < |a| => Mul(k, s, a[i]))
  }

  function ZeroVec<F>(k: Field<F>, n: nat): (r: seq<F>)
    ensures |r| == n && forall i :: 0 <= i < n ==> r[i] == k.zero
  {
    seq(n, _ => k.zero)
  }

  /** Two products agree when their terms do. */
  lemma {:induction false} DotToSameTerms<F>(k: Field<F>, a: seq<F>, b: seq<F>, a': seq<F>, b': seq<F>, n: nat)
    requires n <= |a| && n <= |b| && n <= |a'| && n <= |b'|
    requires forall i :: 0 <= i < n ==> Mul(k, a[i], b[i]) == Mul(k, a'[i], b'[i])
    ensures DotTo(k, a, b, n) == DotTo(k, a', b', n)
  {
    if n > 0 {
      DotToSameTerms(k, a, b, a', b', n - 1);
    }
  }

  lemma {:induction false} DotToZeroTerms<F(!new)>(k: Field<F>, a: seq<F>, b: seq<F>, n: nat)
    requires IsField(k) && n <= |a| && n <= |b|
    requires forall i :: 0 <= i < n ==> a[i] == k.zero || b[i] == k.zero
    ensures DotTo(k, a, b, n) == k.zero
  {
    if n > 0 {
      DotToZeroTerms(k, a, b, n - 1);
      MulZero(k, a[n - 1]);
      MulZero(k, b[n - 1]);
      AddCancel(k, k.zero, k.zero);
    }
  }

  /** Linearity in the second argument. */
  lemma {:induction false} DotToAddRight<F(!new)>(k: Field<F>, a: seq<F>, b: seq<F>, c: seq<F>, n: nat)
    requires IsField(k) && |a| == |b| == |c| && n <= |a|
    ensures DotTo(k, a, VecAdd(k, b, c), n) == Add(k, DotTo(k, a, b, n), DotTo(k, a, c, n))
  {
    if n == 0 {
      AddCancel(k, k.zero, k.zero);
    } else {
      DotToAddRight(k, a, b, c, n - 1);
      assert MulLaws(k, a[n - 1], b[n - 1], c[n - 1]);
      AddSwap(k, DotTo(k, a, b, n - 1), DotTo(k, a, c, n - 1), Mul(k, a[n - 1], b[n - 1]), Mul(k, a[n - 1], c[n - 1]));
    }
  }

  lemma {:induction false} DotToScaleRight<F(!new)>(k: Field<F>, a: seq<F>, s: F, b: seq<F>, n: nat)
    requires IsField(k) && |a| == |b| && n <= |a|
    ensures DotTo(k, a, VecScale(k, s, b), n) == Mul(k, s, DotTo(k, a, b, n))
  {
    if n == 0 {
      MulZero(k, s);
    } else {
      DotToScaleRight(k, a, s, b, n - 1);
      var x, y := a[n - 1], b[n - 1];
      assert MulLaws(k, x, s, y);
      assert MulLaws(k, s, x, y);
      assert MulLaws(k, s, DotTo(k, a, b, n - 1), Mul(k, x, y));
    }
  }

  lemma {:induction false} DotToCommutes<F(!new)>(k: Field<F>, a: seq<F>, b: seq<F>, n: nat)
    requires IsField(k) && n <= |a| && n <= |b|
    ensures DotTo(k, a, b, n) == DotTo(k, b, a, n)
  {
    if n > 0 {
      DotToCommutes(k, a, b, n - 1);
      assert MulLaws(k, a[n - 1], b[n - 1], k.one);
    }
  }

  lemma {:induction false} DotAddRight<F(!new)>(k: Field<F>, a: seq<F>, b: seq<F>, c: seq<F>)
    requires IsField(k) && |a| == |b| == |c|
    ensures Dot(k, a, VecAdd(k, b, c)) == Add(k, Dot(k, a, b), Dot(k, a, c))
  {
    DotToAddRight(k, a, b, c, |a|);
  }

  lemma {:induction false} DotAddLeft<F(!new)>(k: Field<F>, a: seq<F>, b: seq<F>, c: seq<F>)
    requires IsField(k) && |a| == |b| == |c|
    ensures Dot(k, VecAdd(k, a, b), c) == Add(k, Dot(k, a, c), Dot(k, b, c))
  {
    DotToAddRight(k, c, a, b, |a|);
    DotToCommutes(k, VecAdd(k, a, b), c, |a|);
    DotToCommutes(k, a, c, |a|);
    DotToCommutes(k, b, c, |a|);
  }

  lemma {:induction false} DotScaleRight<F(!new)>(k: Field<F>, a: seq<F>, s: F, b: seq<F>)
    requires IsField(k) && |a| == |b|
    ensures Dot(k, a, VecScale(k, s, b)) == Mul(k, s, Dot(k, a, b))
  {
    DotToScaleRight(k, a, s, b, |a|);
  }

  lemma {:induction false} DotScaleLeft<F(!new)>(k: Field<F>, s: F, a: seq<F>, b: seq<F>)
    requires IsField(k) && |a| == |b|
    ensures Dot(k, VecScale(k, s, a), b) == Mul(k, s, Dot(k, a, b))
  {
    DotToScaleRight(k, b, s, a, |a|);
    DotToCommutes(k, VecScale(k, s, a), b, |a|);
    DotToCommutes(k, a, b, |a|);
  }

  /** Changing one entry of b changes the product by that column's share. */
  lemma {:induction false} DotToUpdate<F(!new)>(k: Field<F>, a: seq<F>, b: seq<F>, j: nat, v: F, n: nat)
    requires IsField(k) && |a| == |b| && j < n <= |a|
    ensures DotTo(k, a, b[j := v], n) == Add(k, DotTo(k, a, b, n), Mul(k, a[j], Add(k, b[j], v)))
  {
    var b' := b[j := v];
    if j == n - 1 {
      DotToSameTerms(k, a, b', a, b, n - 1);
      var d, x, y := DotTo(k, a, b, n - 1), Mul(k, a[j], b[j]), Mul(k, a[j], v);
      assert MulLaws(k, a[j], b[j], v);
      assert AddLaws(k, d, x, Add(k, x, y));
      AddCancel(k, y, x);
    } else {
      DotToUpdate(k, a, b, j, v, n - 1);
      var d, x, y := DotTo(k, a, b, n - 1), Mul(k, a[j], Add(k, b[j], v)), Mul(k, a[n - 1], b[n - 1]);
      assert AddLaws(k, d, x, y);
      assert AddLaws(k, d, y, x);
      assert AddLaws(k, x, y, d);
    }
  }

  lemma {:induction false} DotUpdate<F(!new)>(k: Field<F>, a: seq<F>, b: seq<F>, j: nat, v: F)
    requires IsField(k) && |a| == |b| && j < |a|
    ensures Dot(k, a, b[j := v]) == Add(k, Dot(k, a, b), Mul(k, a[j], Add(k, b[j], v)))
  {
    DotToUpdate(k, a, b, j, v, |a|);
  }
}
