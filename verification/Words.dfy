/** Machine words as natural numbers, with the bitwise operators that `buildRow32` uses. */
module Words {

  /** The number with w one bits; a w-bit word is a number up to Ones(w). */
  function Ones(w: nat): nat { if w == 0 then 0 else 2 * Ones(w - 1) + 1 }

  function Xor(a: nat, b: nat): nat
    decreases a + b
  {
    if a == 0 then b else if b == 0 then a else 2 * Xor(a / 2, b / 2) + (a % 2 + b % 2) % 2
  }

  function And(a: nat, b: nat): nat
    decreases a + b
  {
    if a == 0 || b == 0 then 0 else 2 * And(a / 2, b / 2) + (if a % 2 == 1 && b % 2 == 1 then 1 else 0)
  }

  lemma {:induction false} XorParts(a: nat, b: nat)
    ensures Xor(a, b) % 2 == (a % 2 + b % 2) % 2 && Xor(a, b) / 2 == Xor(a / 2, b / 2)
  {
  }

  lemma {:induction false} SameParts(x: nat, y: nat)
    requires x % 2 == y % 2 && x / 2 == y / 2
    ensures x == y
  {
  }

  lemma {:induction false} XorCommutes(a: nat, b: nat)
    ensures Xor(a, b) == Xor(b, a)
    decreases a + b
  {
    if a > 0 && b > 0 { XorCommutes(a / 2, b / 2); }
  }

  lemma {:induction false} XorSelf(a: nat)
    ensures Xor(a, a) == 0
  {
    if a > 0 {
      XorSelf(a / 2);
      XorParts(a, a);
    }
  }

  lemma {:induction false} ParityTwice(p: nat, q: nat)
    requires p < 2 && q < 2
    ensures ((p + q) % 2 + q) % 2 == p
  {
  }

  lemma {:induction false} XorCancelOnce(a: nat, b: nat)
    ensures Xor(Xor(a, b), b) == a
    decreases a + b
  {
    if a > 0 && b > 0 {
      XorCancelOnce(a / 2, b / 2);
      XorParts(a, b);
      XorParts(Xor(a, b), b);
      ParityTwice(a % 2, b % 2);
      SameParts(Xor(Xor(a, b), b), a);
    } else {
      XorSelf(b);
    }
  }

  lemma {:induction false} XorCancel(a: nat, b: nat)
    ensures Xor(Xor(a, b), b) == a && Xor(Xor(a, b), a) == b
  {
    XorCancelOnce(a, b);
    XorCancelOnce(b, a);
    XorCommutes(a, b);
  }

  lemma {:induction false} XorBound(a: nat, b: nat, w: nat)
    requires a <= Ones(w) && b <= Ones(w)
    ensures Xor(a, b) <= Ones(w)
  {
    if a != 0 && b != 0 { XorBound(a / 2, b / 2, w - 1); }
  }

  lemma {:induction false} AndOnes(a: nat, w: nat)
    requires a <= Ones(w)
    ensures And(a, Ones(w)) == a
  {
    if a != 0 { AndOnes(a / 2, w - 1); }
  }
}
