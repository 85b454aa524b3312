/** 256-bit rows held as four 64-bit limbs (`RBBits` and its operations in okvs/rb/rows.h).

    A limb is the sequence of its 64 bits, least significant first, and the operators of the source act on it bit
    by bit.  Every operation on rows is specified by what it does to the 256 bits. */
module RbLimbs {
  import opened BitOps

  const LIMBS := 4
  const LIMB_BITS := 64
  const ROW_BITS := 256

  type Limb = seq<bool>
  type Row = seq<Limb>

  predicate IsLimb(x: Limb) { |x| == LIMB_BITS }

  predicate IsRow(bits: Row) {
    |bits| == LIMBS && forall i :: 0 <= i < LIMBS ==> IsLimb(bits[i])
  }

  // ------------------------------------------------- operators on limbs

  function Zero(): (r: Limb)
    ensures IsLimb(r) && forall i :: 0 <= i < LIMB_BITS ==> !r[i]
  { seq(LIMB_BITS, _ => false) }

  predicate IsZero(x: Limb) { forall i :: 0 <= i < |x| ==> !x[i] }

  /** (1 << s) - 1 */
  function LowOnes(s: nat): (r: Limb)
    ensures IsLimb(r) && forall i :: 0 <= i < LIMB_BITS ==> r[i] == (i < s)
  { seq(LIMB_BITS, i => i < s) }

  /** The position of the lowest set bit from i on (`__builtin_ctzll`). */
  function Ctz(x: Limb, i: nat): (r: nat)
    requires i < |x| && exists j :: i <= j < |x| && x[j]
    ensures i <= r < |x| && x[r] && forall j :: i <= j < r ==> !x[j]
    decreases |x| - i
  {
    if x[i] then i else Ctz(x, i + 1)
  }

  // ------------------------------------------------- rows

  /** `RBBit` */
  function BitAt(bits: Row, idx: nat): bool
    requires IsRow(bits) && idx < ROW_BITS
  {
    bits[idx / LIMB_BITS][idx % LIMB_BITS]
  }

  /** The 256 bits of a row. */
  ghost function AllBits(bits: Row): (r: seq<bool>)
    requires IsRow(bits)
    ensures |r| == ROW_BITS && forall i :: 0 <= i < ROW_BITS ==> r[i] == BitAt(bits, i)
  {
    seq(ROW_BITS, i requires 0 <= i < ROW_BITS => BitAt(bits, i))
  }

  lemma {:induction false} BitInLimb(bits: Row, l: nat, off: nat)
    requires IsRow(bits) && l < LIMBS && off < LIMB_BITS
    ensures l * LIMB_BITS + off < ROW_BITS && BitAt(bits, l * LIMB_BITS + off) == bits[l][off]
  {
    assert (l * LIMB_BITS + off) / LIMB_BITS == l;
    assert (l * LIMB_BITS + off) % LIMB_BITS == off;
  }

  function EmptyRow(): (r: Row)
    ensures IsRow(r) && forall i :: 0 <= i < ROW_BITS ==> !BitAt(r, i)
  { [Zero(), Zero(), Zero(), Zero()] }

  /** `RBTrimBits`: clears the bits from width on. */
  method TrimBits(bits0: Row, width: nat) returns (bits: Row)
    requires IsRow(bits0) && width <= ROW_BITS
    ensures IsRow(bits)
    ensures forall i :: 0 <= i < ROW_BITS ==> BitAt(bits, i) == (i < width && BitAt(bits0, i))
  {
    bits := bits0;
    if width == ROW_BITS {
      return;
    }
    var full, rem := width / LIMB_BITS, width % LIMB_BITS;
    var from := full + if rem != 0 then 1 else 0;
    for i := from to LIMBS
      invariant IsRow(bits)
      invariant forall l :: 0 <= l < LIMBS ==> bits[l] == if from <= l < i then Zero() else bits0[l]
    {
      bits := bits[i := Zero()];
    }
    if rem != 0 && full < LIMBS {
      bits := bits[full := And(bits[full], LowOnes(rem))];
    }
  }

  /** `RBHasBits` */
  function HasBits(bits: Row): (r: bool)
    requires IsRow(bits)
    ensures r <==> exists i :: 0 <= i < ROW_BITS && BitAt(bits, i)
  {
    var r := !IsZero(Or(Or(Or(bits[0], bits[1]), bits[2]), bits[3]));
    HasBitsOk(bits);
    r
  }

  lemma {:induction false} HasBitsOk(bits: Row)
    requires IsRow(bits)
    ensures !IsZero(Or(Or(Or(bits[0], bits[1]), bits[2]), bits[3])) <==> exists i :: 0 <= i < ROW_BITS && BitAt(bits, i)
  {
    var all := Or(Or(Or(bits[0], bits[1]), bits[2]), bits[3]);
    if !IsZero(all) {
      var off :| 0 <= off < LIMB_BITS && all[off];
      var l := if bits[0][off] then 0 else if bits[1][off] then 1 else if bits[2][off] then 2 else 3;
      BitInLimb(bits, l, off);
    }
    if i :| 0 <= i < ROW_BITS && BitAt(bits, i) {
      assert all[i % LIMB_BITS];
    }
  }

  /** `RBEnsureBits`: an empty row gets its first bit set. */
  method EnsureBits(bits0: Row) returns (bits: Row)
    requires IsRow(bits0)
    ensures IsRow(bits) && HasBits(bits)
    ensures HasBits(bits0) ==> bits == bits0
    ensures !HasBits(bits0) ==> forall i :: 0 <= i < ROW_BITS ==> BitAt(bits, i) == (i == 0)
  {
    bits := bits0;
    if !HasBits(bits) {
      bits := bits[0 := Zero()[0 := true]];
      forall i | 0 <= i < ROW_BITS ensures BitAt(bits, i) == (i == 0) {
        assert !BitAt(bits0, i);
      }
      assert BitAt(bits, 0);
    }
  }

  /** `RBLead`: the lowest set bit, or width if there is none. */
  method Lead(bits: Row, width: nat) returns (lead: nat)
    requires IsRow(bits) && width <= ROW_BITS && forall i :: width <= i < ROW_BITS ==> !BitAt(bits, i)
    ensures lead <= width
    ensures forall i :: 0 <= i < lead ==> !BitAt(bits, i)
    ensures lead < width ==> BitAt(bits, lead)
  {
    for i := 0 to LIMBS
      invariant forall l :: 0 <= l < i ==> IsZero(bits[l])
    {
      if !IsZero(bits[i]) {
        var off := Ctz(bits[i], 0);
        lead := i * LIMB_BITS + off;
        BitInLimb(bits, i, off);
        return;
      }
    }
    return width;
  }

  /** `RBZeroBelow`: clears the bits below idx. */
  method ZeroBelow(bits0: Row, idx: nat) returns (bits: Row)
    requires IsRow(bits0) && idx < ROW_BITS
    ensures IsRow(bits)
    ensures forall i :: 0 <= i < ROW_BITS ==> BitAt(bits, i) == (i >= idx && BitAt(bits0, i))
  {
    var limb, off := idx / LIMB_BITS, idx % LIMB_BITS;
    bits := bits0;
    for i := 0 to limb
      invariant IsRow(bits)
      invariant forall l :: 0 <= l < LIMBS ==> bits[l] == if l < i then Zero() else bits0[l]
    {
      bits := bits[i := Zero()];
    }
    if off != 0 {
      bits := bits[limb := And(bits[limb], Not(LowOnes(off)))];
    }
  }

  /** Bit off of what limb d has received after the first i limbs have been spread to the left. */
  ghost predicate Spread(bits: Row, l: nat, b: nat, d: nat, i: nat, off: nat)
    requires IsRow(bits) && b < LIMB_BITS && d < LIMBS && off < LIMB_BITS && i <= LIMBS
  {
    || (b <= off && l <= d < i + l && bits[d - l][off - b])
    || (off < b && l < d < i + l + 1 && bits[d - l - 1][off + LIMB_BITS - b])
  }

  ghost predicate SpreadLimb(x: Limb, bits: Row, l: nat, b: nat, d: nat, i: nat)
    requires IsRow(bits) && b < LIMB_BITS && d < LIMBS && i <= LIMBS
  {
    IsLimb(x) && forall off :: 0 <= off < LIMB_BITS ==> x[off] == Spread(bits, l, b, d, i, off)
  }

  /** `RBShiftLeft`: every non-zero limb is spread over the two limbs it lands in. */
  method ShiftLeft(bits: Row, shift: nat) returns (r: Row)
    requires IsRow(bits)
    ensures IsRow(r)
    ensures forall i :: 0 <= i < ROW_BITS ==> BitAt(r, i) == (i >= shift && BitAt(bits, i - shift))
  {
    r := EmptyRow();
    if shift >= ROW_BITS {
      return;
    }
    var l, b := shift / LIMB_BITS, shift % LIMB_BITS;
    for i := 0 to LIMBS
      invariant |r| == LIMBS
      invariant forall d :: 0 <= d < LIMBS ==> SpreadLimb(r[d], bits, l, b, d, i)
    {
      ghost var before := r;
      if !IsZero(bits[i]) {
        var dst := i + l;
        if dst < LIMBS {
          r := r[dst := Or(r[dst], Shl(bits[i], b))];
        }
        if b != 0 && dst + 1 < LIMBS {
          r := r[dst + 1 := Or(r[dst + 1], Shr(bits[i], LIMB_BITS - b))];
        }
      }
      forall d | 0 <= d < LIMBS ensures SpreadLimb(r[d], bits, l, b, d, i + 1) {
        assert SpreadLimb(before[d], bits, l, b, d, i);
      }
    }
    forall i | 0 <= i < ROW_BITS ensures BitAt(r, i) == (i >= shift && BitAt(bits, i - shift)) {
      var d, off := i / LIMB_BITS, i % LIMB_BITS;
      assert SpreadLimb(r[d], bits, l, b, d, LIMBS);
      LeftBit(bits, l, b, d, off);
    }
  }

  lemma {:induction false} LeftBit(bits: Row, l: nat, b: nat, d: nat, off: nat)
    requires IsRow(bits) && b < LIMB_BITS && d < LIMBS && off < LIMB_BITS
    ensures var i, s := d * LIMB_BITS + off, l * LIMB_BITS + b;
            Spread(bits, l, b, d, LIMBS, off) == (i >= s && BitAt(bits, i - s))
  {
    if b <= off && l <= d {
      BitInLimb(bits, d - l, off - b);
    } else if off < b && l < d {
      BitInLimb(bits, d - l - 1, off + LIMB_BITS - b);
    }
  }

  /** `RBShiftRight` */
  method ShiftRight(bits: Row, shift: nat) returns (r: Row)
    requires IsRow(bits)
    ensures IsRow(r)
    ensures forall i :: 0 <= i < ROW_BITS ==> BitAt(r, i) == (i + shift < ROW_BITS && BitAt(bits, i + shift))
  {
    r := EmptyRow();
    if shift >= ROW_BITS {
      return;
    }
    var l, b := shift / LIMB_BITS, shift % LIMB_BITS;
    for i := l to LIMBS
      invariant IsRow(r)
      invariant forall d, off :: 0 <= d < LIMBS && 0 <= off < LIMB_BITS ==>
        r[d][off] == (d < i - l && RightBit(bits, d + l, b, off))
    {
      var dst := i - l;
      r := r[dst := Or(r[dst], Shr(bits[i], b))];
      if b != 0 && i + 1 < LIMBS {
        r := r[dst := Or(r[dst], Shl(bits[i + 1], LIMB_BITS - b))];
      }
    }
    forall i | 0 <= i < ROW_BITS ensures BitAt(r, i) == (i + shift < ROW_BITS && BitAt(bits, i + shift)) {
      RightBitInRow(bits, l, b, i / LIMB_BITS, i % LIMB_BITS);
    }
  }

  ghost predicate RightBit(bits: Row, j: nat, b: nat, off: nat)
    requires IsRow(bits)
  {
    if off + b < LIMB_BITS then j < LIMBS && bits[j][off + b]
    else j + 1 < LIMBS && off + b < 2 * LIMB_BITS && bits[j + 1][off + b - LIMB_BITS]
  }

  lemma {:induction false} RightBitInRow(bits: Row, l: nat, b: nat, d: nat, off: nat)
    requires IsRow(bits) && b < LIMB_BITS && d < LIMBS && off < LIMB_BITS
    ensures var i, s := d * LIMB_BITS + off, l * LIMB_BITS + b;
            RightBit(bits, d + l, b, off) == (i + s < ROW_BITS && BitAt(bits, i + s))
  {
    if off + b < LIMB_BITS && d + l < LIMBS {
      BitInLimb(bits, d + l, off + b);
    } else if off + b >= LIMB_BITS && d + l + 1 < LIMBS {
      BitInLimb(bits, d + l + 1, off + b - LIMB_BITS);
    }
  }

  /** `RBXorShifted`: adds src, from bit srcOff on, to dst so that bit srcOff lands on bit dstOff. */
  method XorShifted(dst: Row, dstOff: nat, src: Row, srcOff: nat, width: nat) returns (r: Row)
    requires IsRow(dst) && IsRow(src) && dstOff < ROW_BITS && srcOff < ROW_BITS && width <= ROW_BITS
    ensures IsRow(r)
    ensures forall i :: 0 <= i < ROW_BITS ==> BitAt(r, i) == (BitAt(dst, i) != Moved(src, dstOff, srcOff, width, i))
  {
    var tmp := ZeroBelow(src, srcOff);
    if dstOff >= srcOff {
      tmp := ShiftLeft(tmp, dstOff - srcOff);
    } else {
      tmp := ShiftRight(tmp, srcOff - dstOff);
    }
    tmp := TrimBits(tmp, width);
    r := dst;
    for l := 0 to LIMBS
      invariant IsRow(r)
      invariant forall m :: 0 <= m < LIMBS ==> r[m] == if m < l then Xor(dst[m], tmp[m]) else dst[m]
    {
      r := r[l := Xor(r[l], tmp[l])];
    }
    assert forall i :: 0 <= i < ROW_BITS ==> BitAt(r, i) == (BitAt(dst, i) != BitAt(tmp, i));
  }

  /** Bit i of the moved part of src. */
  ghost predicate Moved(src: Row, dstOff: nat, srcOff: nat, width: nat, i: nat)
    requires IsRow(src)
  {
    i < width && dstOff <= i && i - dstOff + srcOff < ROW_BITS && BitAt(src, i - dstOff + srcOff)
  }
}
