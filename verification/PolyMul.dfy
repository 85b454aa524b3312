/** Multiplication as HCTR2 does it (`mul`, `makeMulTable`, `mulFixed` of permutation/hctr2.h): a 256-bit product in
    four words that is reduced from the top, and tables over the bytes of one factor. */
module PolyMul {
  import opened BitOps
  import opened RbLimbs
  import Polyval
  import Words32

  /** Two 64-bit words, the low one first. */
  datatype U128 = U128(lo: Limb, hi: Limb)

  predicate IsU128(x: U128) { IsLimb(x.lo) && IsLimb(x.hi) }

  function Bits(x: U128): (r: Polyval.Poly)
    requires IsU128(x)
    ensures Polyval.IsPoly(r)
  {
    x.lo + x.hi
  }

  // ------------------------------------------------- the value of a 256-bit product

  const DOUBLE := 256

  ghost function Flat(row: Row): (r: seq<bool>)
    requires IsRow(row)
    ensures |r| == DOUBLE && forall d :: 0 <= d < DOUBLE ==> r[d] == BitAt(row, d)
  {
    seq(DOUBLE, d requires 0 <= d < DOUBLE => BitAt(row, d))
  }

  /** The sum of the powers d below n whose coefficient is set. */
  ghost function ValueTo(p: nat -> Polyval.Poly, c: seq<bool>, n: nat): (r: Polyval.Poly)
    requires Polyval.ArePowers(p) && n <= |c|
    ensures Polyval.IsPoly(r)
  {
    if n == 0 then Polyval.Zero()
    else if c[n - 1] then
      assert Polyval.StepsAt(p, n - 1);
      Polyval.Plus(ValueTo(p, c, n - 1), p(n - 1))
    else ValueTo(p, c, n - 1)
  }

  lemma {:induction false} SameValue(p: nat -> Polyval.Poly, c: seq<bool>, c': seq<bool>, n: nat)
    requires Polyval.ArePowers(p) && n <= |c| == |c'| && forall d :: 0 <= d < n ==> c[d] == c'[d]
    ensures ValueTo(p, c, n) == ValueTo(p, c', n)
  {
    if n > 0 { SameValue(p, c, c', n - 1); }
  }

  /** Flipping a coefficient adds its power. */
  lemma {:induction false} FlipValue(p: nat -> Polyval.Poly, c: seq<bool>, q: nat, n: nat)
    requires Polyval.ArePowers(p) && q < n <= |c|
    ensures Polyval.IsPoly(p(q)) && ValueTo(p, c[q := !c[q]], n) == Polyval.Plus(ValueTo(p, c, n), p(q))
    decreases n
  {
    assert Polyval.StepsAt(p, q);
    var x := ValueTo(p, c, n - 1);
    if q == n - 1 {
      SameValue(p, c, c[q := !c[q]], n - 1);
      Polyval.PlusLaws(x, p(q));
    } else {
      FlipValue(p, c, q, n - 1);
      assert Polyval.StepsAt(p, n - 1);
      AddBoth(x, p(q), p(n - 1));
    }
  }

  /** Below 128 the value is the sequence of coefficients itself. */
  lemma {:induction false} LowValue(p: nat -> Polyval.Poly, c: seq<bool>, low: Polyval.Poly, n: nat)
    requires Polyval.ArePowers(p) && n <= Polyval.SIZE == |low| <= |c| && low == c[..Polyval.SIZE]
    ensures ValueTo(p, c, n) == Polyval.Low(low, n)
  {
    if n == 0 {
      Polyval.LowStep(low, 0);
    } else {
      LowValue(p, c, low, n - 1);
      Polyval.PowersAreUnits(p, n - 1);
      Polyval.LowStep(low, n - 1);
    }
  }

  lemma {:induction false} HighZero(p: nat -> Polyval.Poly, c: seq<bool>, m: nat, n: nat)
    requires Polyval.ArePowers(p) && m <= n <= |c| && forall d :: m <= d < n ==> !c[d]
    ensures ValueTo(p, c, n) == ValueTo(p, c, m)
    decreases n
  {
    if m < n { HighZero(p, c, m, n - 1); }
  }

  // ------------------------------------------------- the product

  /** b shifted by i. */
  ghost predicate ShiftBit(b: Polyval.Poly, i: nat, d: nat)
    requires Polyval.IsPoly(b)
  {
    i <= d < i + Polyval.SIZE && b[d - i]
  }

  ghost function AddedShifted(c: seq<bool>, b: Polyval.Poly, i: nat): (r: seq<bool>)
    requires Polyval.IsPoly(b)
    ensures |r| == |c| && forall d :: 0 <= d < |c| ==> r[d] == (c[d] != ShiftBit(b, i, d))
  {
    seq(|c|, d requires 0 <= d < |c| => c[d] != ShiftBit(b, i, d))
  }

  function PlusIf(x: Polyval.Poly, t: Polyval.Poly, on: bool): (r: Polyval.Poly)
    requires Polyval.IsPoly(x) && Polyval.IsPoly(t)
    ensures Polyval.IsPoly(r)
  {
    if on then Polyval.Plus(x, t) else x
  }

  lemma {:induction false} ValueStep(p: nat -> Polyval.Poly, c: seq<bool>, n: nat)
    requires Polyval.ArePowers(p) && 0 < n <= |c|
    ensures Polyval.IsPoly(p(n - 1)) && ValueTo(p, c, n) == PlusIf(ValueTo(p, c, n - 1), p(n - 1), c[n - 1])
  {
    assert Polyval.StepsAt(p, n - 1);
  }

  lemma {:induction false} SumOfSteps(x: Polyval.Poly, y: Polyval.Poly, t: Polyval.Poly, a: bool, b: bool)
    requires Polyval.IsPoly(x) && Polyval.IsPoly(y) && Polyval.IsPoly(t)
    ensures PlusIf(Polyval.Plus(x, y), t, a != b) == Polyval.Plus(PlusIf(x, t, a), PlusIf(y, t, b))
  {
    AddBoth(x, y, t);
  }

  ghost function Offset(n: nat, i: nat): nat { if n < i then 0 else n - i }

  /** Adding a shifted factor adds its product with a power of x. */
  lemma {:induction false} ShiftValue(p: nat -> Polyval.Poly, c: seq<bool>, b: Polyval.Poly, i: nat, n: nat)
    requires Polyval.ArePowers(p) && Polyval.IsPoly(b) && n <= |c|
    ensures ValueTo(p, AddedShifted(c, b, i), n) ==
            Polyval.Plus(ValueTo(p, c, n), Polyval.TimesXn(Polyval.Low(b, Offset(n, i)), i))
  {
    if n == 0 {
      Polyval.LowStep(b, 0);
      ZeroTimesXn(i);
      Polyval.PlusLaws(Polyval.Zero(), Polyval.Zero());
    } else {
      ShiftValue(p, c, b, i, n - 1);
      ShiftedLow(p, b, i, n);
      var d := AddedShifted(c, b, i);
      ValueStep(p, c, n);
      ValueStep(p, d, n);
      SumOfSteps(ValueTo(p, c, n - 1), Polyval.TimesXn(Polyval.Low(b, Offset(n - 1, i)), i), p(n - 1), c[n - 1],
        ShiftBit(b, i, n - 1));
      assert d[n - 1] == (c[n - 1] != ShiftBit(b, i, n - 1));
    }
  }

  lemma {:induction false} ShiftedLow(p: nat -> Polyval.Poly, b: Polyval.Poly, i: nat, n: nat)
    requires Polyval.ArePowers(p) && Polyval.IsPoly(b) && n > 0
    ensures Polyval.IsPoly(p(n - 1))
    ensures var before, after := Polyval.TimesXn(Polyval.Low(b, Offset(n - 1, i)), i),
      Polyval.TimesXn(Polyval.Low(b, Offset(n, i)), i);
            after == PlusIf(before, p(n - 1), ShiftBit(b, i, n - 1))
  {
    assert Polyval.StepsAt(p, n - 1);
    if i <= n - 1 < i + Polyval.SIZE {
      Polyval.LowStep(b, n - 1 - i);
      Polyval.TimesXnPlus(Polyval.Low(b, n - 1 - i), Polyval.Unit(n - 1 - i), i);
      Polyval.UnitTimesXn(p, n - 1 - i, i);
    } else {
      assert Polyval.Low(b, Offset(n, i)) == Polyval.Low(b, Offset(n - 1, i));
    }
  }

  lemma {:induction false} AddBoth(x: Polyval.Poly, y: Polyval.Poly, t: Polyval.Poly)
    requires Polyval.IsPoly(x) && Polyval.IsPoly(y) && Polyval.IsPoly(t)
    ensures Polyval.Plus(Polyval.Plus(x, y), t) == Polyval.Plus(x, Polyval.Plus(y, t))
      == Polyval.Plus(Polyval.Plus(x, t), y)
    ensures Polyval.Plus(Polyval.Plus(x, t), Polyval.Plus(y, t)) == Polyval.Plus(x, y)
  {
  }

  lemma {:induction false} ZeroTimesXn(n: nat)
    ensures Polyval.TimesXn(Polyval.Zero(), n) == Polyval.Zero()
  {
    if n > 0 {
      ZeroTimesXn(n - 1);
      Polyval.TimesXPlus(Polyval.Zero(), Polyval.Zero());
    }
  }

  /** What limb m of the product receives from b << (64 * word + shift). */
  ghost predicate LimbBit(b: U128, word: nat, shift: nat, m: nat, off: nat)
    requires IsU128(b) && shift < LIMB_BITS && off < LIMB_BITS
  {
    if m == word then off >= shift && b.lo[off - shift]
    else if m == word + 1 then (if off < shift then b.lo[off + LIMB_BITS - shift] else b.hi[off - shift])
    else m == word + 2 && off < shift && b.hi[off + LIMB_BITS - shift]
  }

  lemma {:induction false} LimbBitOk(b: U128, word: nat, shift: nat, m: nat, off: nat)
    requires IsU128(b) && shift < LIMB_BITS && off < LIMB_BITS
    ensures LimbBit(b, word, shift, m, off) == ShiftBit(Bits(b), LIMB_BITS * word + shift, LIMB_BITS * m + off)
  {
  }

  /** The body of the loop of `mul`: the four words of the product receive b << i. */
  method AddShiftedFactor(p: Row, b: U128, i: nat) returns (r: Row)
    requires IsRow(p) && IsU128(b) && i < Polyval.SIZE
    ensures IsRow(r) && Flat(r) == AddedShifted(Flat(p), Bits(b), i)
  {
    var word, shift := i / LIMB_BITS, i % LIMB_BITS;
    r := p[word := Xor(p[word], Shl(b.lo, shift))];
    if shift != 0 {
      r := r[word + 1 := Xor(r[word + 1], Shr(b.lo, LIMB_BITS - shift))];
    }
    r := r[word + 1 := Xor(r[word + 1], Shl(b.hi, shift))];
    if shift != 0 && word + 2 < LIMBS {
      r := r[word + 2 := Xor(r[word + 2], Shr(b.hi, LIMB_BITS - shift))];
    }
    assert forall m, off :: 0 <= m < LIMBS && 0 <= off < LIMB_BITS ==>
      r[m][off] == (p[m][off] != LimbBit(b, word, shift, m, off));
    forall d | 0 <= d < DOUBLE ensures Flat(r)[d] == AddedShifted(Flat(p), Bits(b), i)[d] {
      LimbBitOk(b, word, shift, d / LIMB_BITS, d % LIMB_BITS);
    }
  }

  /** `flipBit` */
  function FlipBit(p: Row, q: nat): (r: Row)
    requires IsRow(p) && q < DOUBLE
    ensures IsRow(r) && Flat(r) == Flat(p)[q := !Flat(p)[q]]
  {
    var l, o := q / LIMB_BITS, q % LIMB_BITS;
    var r := p[l := p[l][o := !p[l][o]]];
    FlippedRow(p, q, r);
    r
  }

  lemma {:induction false} FlippedRow(p: Row, q: nat, r: Row)
    requires IsRow(p) && q < DOUBLE
    requires r == p[q / LIMB_BITS := p[q / LIMB_BITS][q % LIMB_BITS := !p[q / LIMB_BITS][q % LIMB_BITS]]]
    ensures IsRow(r) && Flat(r) == Flat(p)[q := !Flat(p)[q]]
  {
    forall d | 0 <= d < DOUBLE ensures Flat(r)[d] == Flat(p)[q := !Flat(p)[q]][d] {
      if d != q {
        assert d / LIMB_BITS != q / LIMB_BITS || d % LIMB_BITS != q % LIMB_BITS;
      }
    }
  }

  /** The five coefficients that one step of the reduction flips add up to nothing. */
  lemma {:induction false} FiveFlips(p: nat -> Polyval.Poly, c: seq<bool>, d: nat)
    requires Polyval.ArePowers(p) && Polyval.SIZE <= d < |c|
    ensures var c1 := c[d := !c[d]];
            var c2 := c1[d - 1 := !c1[d - 1]];
            var c3 := c2[d - 2 := !c2[d - 2]];
            var c4 := c3[d - 7 := !c3[d - 7]];
            var c5 := c4[d - 128 := !c4[d - 128]];
            ValueTo(p, c5, |c|) == ValueTo(p, c, |c|)
  {
    var c1 := c[d := !c[d]];
    var c2 := c1[d - 1 := !c1[d - 1]];
    var c3 := c2[d - 2 := !c2[d - 2]];
    var c4 := c3[d - 7 := !c3[d - 7]];
    FlipValue(p, c, d, |c|);
    FlipValue(p, c1, d - 1, |c|);
    FlipValue(p, c2, d - 2, |c|);
    FlipValue(p, c3, d - 7, |c|);
    FlipValue(p, c4, d - 128, |c|);
    Polyval.Reduction(p, d - 128);
    Vanish(ValueTo(p, c, |c|), p(d), p(d - 1), p(d - 2), p(d - 7), p(d - 128));
  }

  lemma {:induction false} Vanish(
      x: Polyval.Poly, a: Polyval.Poly, b: Polyval.Poly, c: Polyval.Poly, d: Polyval.Poly, e: Polyval.Poly)
    requires Polyval.IsPoly(x) && Polyval.IsPoly(a) && Polyval.Reduces(a, b, c, d, e)
    ensures Polyval.Plus(Polyval.Plus(Polyval.Plus(Polyval.Plus(Polyval.Plus(x, a), b), c), d), e) == x
  {
  }

  /** One step of the reduction. */
  method ReduceBit(ghost p: nat -> Polyval.Poly, row: Row, d: nat) returns (r: Row)
    requires Polyval.ArePowers(p) && IsRow(row) && Polyval.SIZE <= d < DOUBLE
    requires forall q :: d < q < DOUBLE ==> !Flat(row)[q]
    ensures IsRow(r) && ValueTo(p, Flat(r), DOUBLE) == ValueTo(p, Flat(row), DOUBLE)
    ensures forall q :: d <= q < DOUBLE ==> !Flat(r)[q]
  {
    r := row;
    if BitAt(row, d) {
      FiveFlips(p, Flat(row), d);
      r := FlipBit(FlipBit(FlipBit(FlipBit(FlipBit(r, d), d - 1), d - 2), d - 7), d - 128);
    }
  }

  /** `mul` computes the product of the field. */
  method Mul(a: U128, b: U128) returns (r: U128)
    requires IsU128(a) && IsU128(b)
    ensures IsU128(r) && Bits(r) == Polyval.Product(Bits(a), Bits(b))
  {
    ghost var x := Polyval.POWERS;
    Polyval.PowersOk();
    var p := EmptyRow();
    HighZero(x, Flat(p), 0, DOUBLE);
    for i := 0 to Polyval.SIZE
      invariant IsRow(p) && ValueTo(x, Flat(p), DOUBLE) == Polyval.ProductTo(Bits(a), Bits(b), i)
    {
      if Bits(a)[i] {
        ShiftValue(x, Flat(p), Bits(b), i, DOUBLE);
        assert Polyval.Low(Bits(b), Offset(DOUBLE, i)) == Bits(b);
        p := AddShiftedFactor(p, b, i);
      }
    }
    for d := DOUBLE downto Polyval.SIZE
      invariant IsRow(p) && ValueTo(x, Flat(p), DOUBLE) == Polyval.Product(Bits(a), Bits(b))
      invariant forall q :: d <= q < DOUBLE ==> !Flat(p)[q]
    {
      p := ReduceBit(x, p, d);
    }
    r := U128(p[0], p[1]);
    HighZero(x, Flat(p), Polyval.SIZE, DOUBLE);
    LowHalf(p);
    LowValue(x, Flat(p), Bits(r), Polyval.SIZE);
    Polyval.LowStep(Bits(r), 0);
  }

  lemma {:induction false} LowHalf(p: Row)
    requires IsRow(p)
    ensures Flat(p)[..Polyval.SIZE] == p[0] + p[1]
  {
    forall d | 0 <= d < Polyval.SIZE ensures Flat(p)[d] == (p[0] + p[1])[d] {
      assert Flat(p)[d] == BitAt(p, d);
    }
  }

  // ------------------------------------------------- tables for a fixed factor

  const POSITIONS := 16
  const BYTE_VALUES := 256

  /** The element whose byte at the given position is v. */
  function ByteWord(pos: nat, v: nat): (r: U128)
    requires pos < POSITIONS
    ensures IsU128(r)
  {
    var bit := 8 * pos;
    if bit < LIMB_BITS then U128(Shl(Words32.FromNat(v, LIMB_BITS), bit), Zero())
    else U128(Zero(), Shl(Words32.FromNat(v, LIMB_BITS), bit - LIMB_BITS))
  }

  /** Byte pos of a word: (x >> 8 * pos) & 0xff */
  function ByteOf(x: Limb, pos: nat): (r: nat)
    requires IsLimb(x)
    ensures r < BYTE_VALUES
  {
    var b := Shr(x, 8 * pos)[..8];
    Words32.ToNatBound(b);
    Words32.Pow2Values();
    Words32.ToNat(b)
  }

  /** The coefficients of x in one byte. */
  ghost function ByteBits(x: Polyval.Poly, pos: nat): (r: Polyval.Poly)
    requires Polyval.IsPoly(x)
    ensures Polyval.IsPoly(r) && forall q :: 0 <= q < Polyval.SIZE ==> r[q] == (8 * pos <= q < 8 * pos + 8 && x[q])
  {
    seq(Polyval.SIZE, q requires 0 <= q < Polyval.SIZE => 8 * pos <= q < 8 * pos + 8 && x[q])
  }

  lemma {:induction false} LowByte(x: U128, pos: nat)
    requires IsU128(x) && pos < 8
    ensures Bits(ByteWord(pos, ByteOf(x.lo, pos))) == ByteBits(Bits(x), pos)
  {
    LimbByte(x.lo, pos);
  }

  lemma {:induction false} LimbByte(x: Limb, pos: nat)
    requires IsLimb(x) && pos < 8
    ensures var w := Shl(Words32.FromNat(ByteOf(x, pos), LIMB_BITS), 8 * pos);
            forall q :: 0 <= q < LIMB_BITS ==> w[q] == (8 * pos <= q < 8 * pos + 8 && x[q])
  {
    var b := Shr(x, 8 * pos)[..8];
    Words32.FromNatExtends(b, LIMB_BITS - 8);
    assert Words32.FromNat(ByteOf(x, pos), LIMB_BITS) == b + seq(LIMB_BITS - 8, _ => false);
  }

  lemma {:induction false} HighByte(x: U128, pos: nat)
    requires IsU128(x) && pos < 8
    ensures Bits(ByteWord(pos + 8, ByteOf(x.hi, pos))) == ByteBits(Bits(x), pos + 8)
  {
    LimbByte(x.hi, pos);
  }

  ghost predicate EntryOk(e: U128, h: U128, pos: nat, v: nat)
    requires IsU128(h) && pos < POSITIONS
  {
    IsU128(e) && Bits(e) == Polyval.Product(Bits(ByteWord(pos, v)), Bits(h))
  }

  ghost predicate RowOk(row: seq<U128>, h: U128, pos: nat)
    requires IsU128(h) && pos < POSITIONS
  {
    |row| == BYTE_VALUES && forall v {:trigger EntryOk(row[v], h, pos, v)} :: 0 <= v < BYTE_VALUES ==>
      EntryOk(row[v], h, pos, v)
  }

  ghost predicate TableOk(table: seq<seq<U128>>, h: U128)
    requires IsU128(h)
  {
    |table| == POSITIONS && forall pos {:trigger RowOk(table[pos], h, pos)} :: 0 <= pos < POSITIONS ==>
      RowOk(table[pos], h, pos)
  }

  /** `makeMulTable` */
  method MakeMulTable(h: U128) returns (table: seq<seq<U128>>)
    requires IsU128(h)
    ensures TableOk(table, h)
  {
    table := [];
    for pos := 0 to POSITIONS
      invariant |table| == pos && forall q {:trigger RowOk(table[q], h, q)} :: 0 <= q < pos ==> RowOk(table[q], h, q)
    {
      var row := MakeRow(h, pos);
      ghost var before := table;
      table := table + [row];
      forall q | 0 <= q < pos + 1 ensures RowOk(table[q], h, q) {
        assert q < pos ==> RowOk(before[q], h, q);
      }
    }
  }

  method MakeRow(h: U128, pos: nat) returns (row: seq<U128>)
    requires IsU128(h) && pos < POSITIONS
    ensures RowOk(row, h, pos)
  {
    row := [];
    for v := 0 to BYTE_VALUES
      invariant |row| == v
      invariant forall q {:trigger EntryOk(row[q], h, pos, q)} :: 0 <= q < v ==> EntryOk(row[q], h, pos, q)
    {
      var e := Mul(ByteWord(pos, v), h);
      ghost var before := row;
      row := row + [e];
      forall q | 0 <= q < v + 1 ensures EntryOk(row[q], h, pos, q) {
        assert q < v ==> EntryOk(before[q], h, pos, q);
      }
    }
  }

  function XorU128(x: U128, y: U128): (r: U128)
    requires IsU128(x) && IsU128(y)
    ensures IsU128(r) && Bits(r) == Polyval.Plus(Bits(x), Bits(y))
  {
    U128(Xor(x.lo, y.lo), Xor(x.hi, y.hi))
  }

  /** The coefficients of x in the first n bytes of either half. */
  ghost function FirstBytes(x: Polyval.Poly, n: nat): (r: Polyval.Poly)
    requires Polyval.IsPoly(x)
    ensures Polyval.IsPoly(r) && forall q :: 0 <= q < Polyval.SIZE ==> r[q] == (q % LIMB_BITS < 8 * n && x[q])
  {
    seq(Polyval.SIZE, q requires 0 <= q < Polyval.SIZE => q % LIMB_BITS < 8 * n && x[q])
  }

  lemma {:induction false} TwoMoreBytes(x: Polyval.Poly, h: Polyval.Poly, n: nat)
    requires Polyval.IsPoly(x) && Polyval.IsPoly(h) && n < 8
    ensures Polyval.Product(FirstBytes(x, n + 1), h) ==
      Polyval.Plus(Polyval.Plus(Polyval.Product(FirstBytes(x, n), h), Polyval.Product(ByteBits(x, n), h)),
        Polyval.Product(ByteBits(x, n + 8), h))
  {
    var a, b, c := FirstBytes(x, n), ByteBits(x, n), ByteBits(x, n + 8);
    assert FirstBytes(x, n + 1) == Polyval.Plus(Polyval.Plus(a, b), c);
    Polyval.ProductPlusLeft(Polyval.Plus(a, b), c, h, Polyval.SIZE);
    Polyval.ProductPlusLeft(a, b, h, Polyval.SIZE);
  }

  /** `mulFixed`: two look-ups per byte position give the same product. */
  method MulFixed(x: U128, table: seq<seq<U128>>, ghost h: U128) returns (out: U128)
    requires IsU128(x) && IsU128(h) && TableOk(table, h)
    ensures IsU128(out) && Bits(out) == Polyval.Product(Bits(x), Bits(h))
  {
    out := U128(Zero(), Zero());
    assert Bits(out) == Polyval.Zero() == FirstBytes(Bits(x), 0);
    Polyval.ZeroProduct(Bits(h), Polyval.SIZE);
    for pos := 0 to 8
      invariant IsU128(out) && Bits(out) == Polyval.Product(FirstBytes(Bits(x), pos), Bits(h))
    {
      assert RowOk(table[pos], h, pos) && RowOk(table[pos + 8], h, pos + 8);
      LowByte(x, pos);
      HighByte(x, pos);
      assert EntryOk(table[pos][ByteOf(x.lo, pos)], h, pos, ByteOf(x.lo, pos));
      assert EntryOk(table[pos + 8][ByteOf(x.hi, pos)], h, pos + 8, ByteOf(x.hi, pos));
      TwoMoreBytes(Bits(x), Bits(h), pos);
      out := XorU128(out, table[pos][ByteOf(x.lo, pos)]);
      out := XorU128(out, table[pos + 8][ByteOf(x.hi, pos)]);
    }
    assert FirstBytes(Bits(x), 8) == Bits(x);
  }

  /** `polyvalKey`: the hash key times x^-128. */
  method PolyvalKey(hashKey: U128) returns (r: U128)
    requires IsU128(hashKey)
    ensures IsU128(r) && Bits(r) == Polyval.Product(Bits(hashKey), Polyval.InverseOfX128())
  {
    var c := U128(Zero()[0 := true], Zero()[63 := true][60 := true][57 := true][50 := true]);
    assert Bits(c) == Polyval.InverseOfX128();
    r := Mul(hashKey, c);
  }
}
