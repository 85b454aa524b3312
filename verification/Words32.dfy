/** 32-bit words as sequences of bits, least significant first, with the operators that SNEIK uses. */
module Words32 {
  import opened Prelude
  import opened BitOps

  const BITS := 32
  const MODULUS := 0x1_0000_0000

  type Word = seq<bool>

  predicate IsWord(x: Word) { |x| == BITS }

  function Zero(): (r: Word)
    ensures IsWord(r) && forall i :: 0 <= i < BITS ==> !r[i]
  { seq(BITS, _ => false) }

  /** 1 << i */
  function Unit(i: nat): (r: Word)
    ensures IsWord(r) && forall j :: 0 <= j < BITS ==> r[j] == (i == j)
  { seq(BITS, j => i == j) }

  /** `ROR32` */
  function Rotr(x: Word, s: nat): (r: Word)
    requires IsWord(x) && 0 < s < BITS
    ensures IsWord(r) && forall i :: 0 <= i < BITS ==> r[i] == x[(i + s) % BITS]
  { Or(Shr(x, s), Shl(x, BITS - s)) }

  lemma {:induction false} XorLaws(x: Word, y: Word)
    requires IsWord(x) && IsWord(y)
    ensures Xor(Xor(x, y), y) == x && Xor(x, Zero()) == x && Xor(x, x) == Zero() && Xor(x, y) == Xor(y, x)
  {
  }

  // ------------------------------------------------- numbers

  function ToNat(x: seq<bool>): nat {
    if x == [] then 0 else (if x[0] then 1 else 0) + 2 * ToNat(x[1..])
  }

  function FromNat(v: nat, len: nat): (r: seq<bool>)
    ensures |r| == len
  {
    if len == 0 then [] else [v % 2 == 1] + FromNat(v / 2, len - 1)
  }

  lemma {:induction false} Pow2Values()
    ensures Pow2(8) == 256 && Pow2(BITS) == MODULUS
  {
    assert Pow2(4) == 16 && Pow2(8) == 256;
    assert Pow2(12) == 0x1000 && Pow2(16) == 0x1_0000;
    assert Pow2(20) == 0x10_0000 && Pow2(24) == 0x100_0000;
    assert Pow2(28) == 0x1000_0000 && Pow2(32) == 0x1_0000_0000;
  }

  lemma {:induction false} ToNatBound(x: seq<bool>)
    ensures ToNat(x) < Pow2(|x|)
  {
    if x != [] { ToNatBound(x[1..]); }
  }

  lemma {:induction false} ToNatFromNat(v: nat, len: nat)
    requires v < Pow2(len)
    ensures ToNat(FromNat(v, len)) == v
  {
    if len > 0 {
      ToNatFromNat(v / 2, len - 1);
      assert FromNat(v, len)[1..] == FromNat(v / 2, len - 1);
    }
  }

  lemma {:induction false} FromNatToNat(x: seq<bool>)
    ensures FromNat(ToNat(x), |x|) == x
  {
    if x != [] {
      FromNatToNat(x[1..]);
      assert ToNat(x) / 2 == ToNat(x[1..]) && (ToNat(x) % 2 == 1) == x[0];
      assert x == [x[0]] + x[1..];
    }
  }

  lemma {:induction false} FromNatExtends(x: seq<bool>, more: nat)
    ensures FromNat(ToNat(x), |x| + more) == x + seq(more, _ => false)
  {
    if x == [] {
      ZeroBits(more);
    } else {
      FromNatExtends(x[1..], more);
      assert ToNat(x) / 2 == ToNat(x[1..]) && (ToNat(x) % 2 == 1) == x[0];
      assert x == [x[0]] + x[1..];
    }
  }

  lemma {:induction false} ZeroBits(len: nat)
    ensures FromNat(0, len) == seq(len, _ => false)
  {
    if len > 0 { ZeroBits(len - 1); }
  }

  function Plus(x: Word, y: Word): (r: Word)
    requires IsWord(x) && IsWord(y)
    ensures IsWord(r)
  { FromNat((ToNat(x) + ToNat(y)) % MODULUS, |x|) }

  function Minus(x: Word, y: Word): (r: Word)
    requires IsWord(x) && IsWord(y)
    ensures IsWord(r)
  { FromNat((ToNat(x) - ToNat(y)) % MODULUS, |x|) }

  lemma {:induction false} PlusValue(x: Word, y: Word)
    requires IsWord(x) && IsWord(y) && Pow2(|x|) == MODULUS
    ensures ToNat(Plus(x, y)) == (ToNat(x) + ToNat(y)) % MODULUS
    ensures ToNat(Minus(x, y)) == (ToNat(x) - ToNat(y)) % MODULUS
  {
    ToNatFromNat((ToNat(x) + ToNat(y)) % MODULUS, |x|);
    ToNatFromNat((ToNat(x) - ToNat(y)) % MODULUS, |x|);
  }

  lemma {:induction false} FromValue(x: Word, v: int)
    requires v == ToNat(x)
    ensures FromNat(v, |x|) == x
  {
    FromNatToNat(x);
  }

  lemma {:induction false} WordBounds(x: Word)
    requires IsWord(x)
    ensures Pow2(|x|) == MODULUS && ToNat(x) < MODULUS
  {
    Pow2Values();
    ToNatBound(x);
  }

  lemma {:induction false} MinusOfPlus(x: Word, y: Word)
    requires IsWord(x) && IsWord(y)
    ensures Minus(Plus(x, y), y) == x
  {
    WordBounds(x);
    WordBounds(y);
    PlusValue(x, y);
    TurnBack(ToNat(x), ToNat(y));
    FromValue(x, (ToNat(Plus(x, y)) - ToNat(y)) % MODULUS);
  }

  lemma {:induction false} PlusOfMinus(x: Word, y: Word)
    requires IsWord(x) && IsWord(y)
    ensures Plus(Minus(x, y), y) == x
  {
    WordBounds(x);
    WordBounds(y);
    PlusValue(x, y);
    TurnBack(ToNat(x), ToNat(y));
    FromValue(x, (ToNat(Minus(x, y)) + ToNat(y)) % MODULUS);
  }

  /** Subtraction undoes addition, and the other way round. */
  lemma {:induction false} MinusPlus(x: Word, y: Word)
    requires IsWord(x) && IsWord(y)
    ensures Minus(Plus(x, y), y) == x && Plus(Minus(x, y), y) == x
  {
    MinusOfPlus(x, y);
    PlusOfMinus(x, y);
  }

  lemma {:induction false} TurnBack(a: nat, b: nat)
    requires a < MODULUS && b < MODULUS
    ensures ((a + b) % MODULUS - b) % MODULUS == a && ((a - b) % MODULUS + b) % MODULUS == a
  {
  }
}
