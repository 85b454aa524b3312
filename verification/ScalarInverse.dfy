/** The inverse of one field element by an addition chain (the scalar `gf128Inv` of volePSI/PaxosImpl.h).

    The chain squares and multiplies its way to x^(2^128 - 2), which is the inverse of x exactly if x^(2^128) is x. */
module ScalarInverse {
  import opened Prelude
  import opened Fields
  import MatrixInverse

  const TURNS := 7

  /** 2^(2^i) */
  ghost function Tower(i: nat): (r: nat)
    ensures r >= 2
  {
    if i == 0 then 2 else Tower(i - 1) * Tower(i - 1)
  }

  lemma {:induction false} Pow2Add(a: nat, b: nat)
    ensures Pow2(a + b) == Pow2(a) * Pow2(b)
  {
    if b > 0 {
      Pow2Add(a, b - 1);
      Doubled(Pow2(a), Pow2(b - 1));
    }
  }

  lemma {:induction false} Doubled(a: nat, b: nat)
    ensures 2 * (a * b) == a * (2 * b)
  {
  }

  lemma {:induction false} TowerIsPow2(i: nat)
    ensures Tower(i) == Pow2(Pow2(i))
  {
    if i == 0 {
      assert Pow2(0) == 1 && Pow2(1) == 2;
    } else {
      TowerIsPow2(i - 1);
      Pow2Add(Pow2(i - 1), Pow2(i - 1));
    }
  }

  /** The exponents of the chain, for P = 2^(2^i). */
  lemma {:induction false} Exponents(p: nat)
    requires p >= 2
    ensures (p - 1) * p >= 1 && (p - 1) + (p - 1) * p == p * p - 1 && (p - 2) + (p - 1) * p == p * p - 2
  {
  }

  // ------------------------------------------------- powers

  lemma {:induction false} PowAdd<F(!new)>(k: Field<F>, x: F, a: nat, b: nat)
    requires IsField(k) && a >= 1 && b >= 1
    ensures Pow(k, x, a + b) == Mul(k, Pow(k, x, a), Pow(k, x, b))
  {
    if b > 1 {
      PowAdd(k, x, a, b - 1);
      assert MulLaws(k, Pow(k, x, a), Pow(k, x, b - 1), x);
    }
  }

  /** Squaring doubles the exponent. */
  lemma {:induction false} Squared<F(!new)>(k: Field<F>, x: F, e: nat, q: nat)
    requires IsField(k) && e >= 1 && q >= 1
    ensures e * q >= 1 && e * (2 * q) >= 1 && Mul(k, Pow(k, x, e * q), Pow(k, x, e * q)) == Pow(k, x, e * (2 * q))
  {
    Doubled(e, q);
    Positive(e, q);
    PowAdd(k, x, e * q, e * q);
  }

  lemma {:induction false} Positive(a: nat, b: nat)
    requires a >= 1 && b >= 1
    ensures a * b >= 1
  {
  }

  /** x^(2^128 - 2) is the inverse of x if and only if x^(2^128) is x. */
  lemma {:induction false} PowIsInverseIff<F(!new)>(k: Field<F>, x: F, p: nat)
    requires IsField(k) && x != k.zero && p > 2
    ensures Pow(k, x, p - 2) == Inv(k, x) <==> Pow(k, x, p) == x
  {
    var y := Pow(k, x, p - 2);
    assert Pow(k, x, p - 1) == Mul(k, y, x);
    assert Pow(k, x, p) == Mul(k, Mul(k, y, x), x);
    assert MulLaws(k, x, Inv(k, x), k.one) && MulLaws(k, y, x, x) && MulLaws(k, Mul(k, y, x), x, x);
    MulOne(k, x);
    MatrixInverse.MulCancel(k, x, Mul(k, y, x), k.one);
    MatrixInverse.MulCancel(k, x, y, Inv(k, x));
  }

  // ------------------------------------------------- the chain

  /** The inner loop. */
  method SquareOften<F(!new)>(k: Field<F>, a: F, times: nat, ghost x: F, ghost e: nat) returns (b: F)
    requires IsField(k) && e >= 1 && a == Pow(k, x, e)
    ensures e * Pow2(times) >= 1 && b == Pow(k, x, e * Pow2(times))
  {
    b := a;
    for j := 0 to times
      invariant Pow2(j) >= 1 && e * Pow2(j) >= 1 && b == Pow(k, x, e * Pow2(j))
    {
      Squared(k, x, e, Pow2(j));
      b := Mul(k, b, b);
    }
  }

  /** `gf128Inv` of one element. */
  method ScalarInv<F(!new)>(k: Field<F>, x: F) returns (result: F)
    requires IsField(k)
    ensures Tower(TURNS) == Pow2(Pow2(TURNS)) && result == Pow(k, x, Tower(TURNS) - 2)
    ensures x != k.zero ==> (result == Inv(k, x) <==> Pow(k, x, Tower(TURNS)) == x)
  {
    var a := x;
    result := k.zero;
    for i := 0 to TURNS
      invariant a == Pow(k, x, Tower(i) - 1)
      invariant i > 0 ==> Tower(i) > 2 && result == Pow(k, x, Tower(i) - 2)
    {
      a, result := Turn(k, x, i, a, result);
    }
    TowerIsPow2(TURNS);
    if x != k.zero {
      PowIsInverseIff(k, x, Tower(TURNS));
    }
  }

  method Turn<F(!new)>(k: Field<F>, ghost x: F, i: nat, a0: F, result0: F) returns (a: F, result: F)
    requires IsField(k) && a0 == Pow(k, x, Tower(i) - 1)
    requires i > 0 ==> Tower(i) > 2 && result0 == Pow(k, x, Tower(i) - 2)
    ensures Tower(i + 1) > 2 && a == Pow(k, x, Tower(i + 1) - 1) && result == Pow(k, x, Tower(i + 1) - 2)
  {
    ghost var p := Tower(i);
    TowerIsPow2(i);
    Exponents(p);
    var b := SquareOften(k, a0, Pow2(i), x, p - 1);
    PowAdd(k, x, p - 1, (p - 1) * p);
    a := Mul(k, a0, b);
    if i == 0 {
      result := b;
    } else {
      PowAdd(k, x, p - 2, (p - 1) * p);
      result := Mul(k, result0, b);
    }
  }
}
