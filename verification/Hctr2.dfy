/** HCTR2 (permutation/hctr2.h): POLYVAL hashing, the XCTR key stream and the wide-block cipher built from them. */
module Hctr2 {
  import opened Prelude
  import opened BitOps
  import opened ConsPi
  import opened Polyval
  import RbLimbs
  import PolyMul
  import Words32

  const BLOCK := 16

  /** The number of blocks that the key stream buffer holds. */
  const STREAM_BLOCKS := 50

  type Block = seq<Byte>

  predicate IsBlock(b: Block) { |b| == BLOCK && AreBytes(b) }

  // ------------------------------------------------- blocks and elements

  /** `fromBlock` and `load128`: little endian. */
  function Load128(b: Block): (x: PolyMul.U128)
    requires IsBlock(b)
    ensures PolyMul.IsU128(x) && PolyMul.Bits(x) == BitsOf(b)
  {
    var x := PolyMul.U128(BitsOf(b[..8]), BitsOf(b[8..]));
    HalvesJoin(b);
    x
  }

  lemma {:induction false} HalvesJoin(b: Block)
    requires IsBlock(b)
    ensures BitsOf(b[..8]) + BitsOf(b[8..]) == BitsOf(b)
  {
    forall q | 0 <= q < SIZE ensures (BitsOf(b[..8]) + BitsOf(b[8..]))[q] == BitsOf(b)[q] {
      if q >= 64 { assert (q - 64) / 8 == q / 8 - 8 && (q - 64) % 8 == q % 8; }
    }
  }

  /** `toBlock` and `store128` */
  function Store128(x: PolyMul.U128): (b: Block)
    requires PolyMul.IsU128(x)
    ensures IsBlock(b) && BitsOf(b) == PolyMul.Bits(x)
  {
    Packed(PolyMul.Bits(x), BLOCK)
  }

  /** A block that holds a 64-bit number. */
  function NumberBlock(v: nat): (b: Block)
    ensures IsBlock(b)
  {
    Packed(Words32.FromNat(v, 64), 8) + seq(8, _ => seq(BYTE, _ => false))
  }

  lemma {:induction false} ToNatPadded(x: seq<bool>, n: nat)
    ensures Words32.ToNat(x + Zeros(n)) == Words32.ToNat(x)
  {
    if x != [] {
      assert (x + Zeros(n))[1..] == x[1..] + Zeros(n);
      ToNatPadded(x[1..], n);
    } else if n > 0 {
      assert Zeros(n)[1..] == Zeros(n - 1) && x + Zeros(n) == Zeros(n) && [] + Zeros(n - 1) == Zeros(n - 1);
      ToNatPadded([], n - 1);
    } else {
      assert x + Zeros(n) == [];
    }
  }

  function Zeros(n: nat): (r: seq<bool>)
    ensures |r| == n && forall i :: 0 <= i < n ==> !r[i]
  {
    seq(n, _ => false)
  }

  lemma {:induction false} NumberBits(v: nat)
    ensures BitsOf(NumberBlock(v)) == Words32.FromNat(v, 64) + Zeros(64)
  {
    var b, bits := NumberBlock(v), Words32.FromNat(v, 64);
    forall q | 0 <= q < SIZE ensures BitsOf(b)[q] == (bits + Zeros(64))[q] {
      if q < 64 {
        assert q / 8 < 8 && 8 * (q / 8) + q % 8 == q;
      }
    }
  }

  /** The bits of the block of a 64-bit number are that number, in little endian. */
  lemma {:induction false} NumberBlockValue(v: nat)
    requires v < 0x1_0000_0000_0000_0000
    ensures Words32.ToNat(BitsOf(NumberBlock(v))) == v
  {
    NumberBits(v);
    ToNatPadded(Words32.FromNat(v, 64), 64);
    Pow2Word();
    Words32.ToNatFromNat(v, 64);
  }

  lemma {:induction false} Pow2Word()
    ensures Pow2(64) == 0x1_0000_0000_0000_0000
  {
    Pow2Sum(32, 32);
    Words32.Pow2Values();
  }

  lemma {:induction false} Pow2Sum(a: nat, b: nat)
    ensures Pow2(a + b) == Pow2(a) * Pow2(b)
  {
    if a > 0 { Pow2Sum(a - 1, b); }
  }

  // ------------------------------------------------- POLYVAL

  /** dot(a, b) of RFC 8452: a * b * x^-128 */
  function DotProduct(a: Poly, b: Poly): (r: Poly)
    requires IsPoly(a) && IsPoly(b)
    ensures IsPoly(r)
  {
    Product(Product(a, b), InverseOfX128())
  }

  ghost predicate ArePolys(blocks: seq<Poly>) { forall i :: 0 <= i < |blocks| ==> IsPoly(blocks[i]) }

  /** POLYVAL as RFC 8452 defines it, from any starting value: S_j = dot(S_(j-1) + X_j, H). */
  ghost function PolyvalFrom(s: Poly, key: Poly, blocks: seq<Poly>): (r: Poly)
    requires IsPoly(s) && IsPoly(key) && ArePolys(blocks)
    ensures IsPoly(r)
  {
    if blocks == [] then s
    else DotProduct(Plus(PolyvalFrom(s, key, blocks[..|blocks| - 1]), blocks[|blocks| - 1]), key)
  }

  /** Multiplying by H * x^-128 instead is the same. */
  lemma {:induction false} FoldedKey(a: Poly, key: Poly)
    requires IsPoly(a) && IsPoly(key)
    ensures Product(a, Product(key, InverseOfX128())) == DotProduct(a, key)
  {
    Associative(a, key, InverseOfX128());
  }

  lemma {:induction false} PolyvalConcat(s: Poly, key: Poly, a: seq<Poly>, b: seq<Poly>)
    requires IsPoly(s) && IsPoly(key) && ArePolys(a) && ArePolys(b)
    ensures PolyvalFrom(s, key, a + b) == PolyvalFrom(PolyvalFrom(s, key, a), key, b)
    decreases |b|
  {
    if b == [] {
      assert a + b == a;
    } else {
      var init := b[..|b| - 1];
      PolyvalConcat(s, key, a, init);
      assert (a + b)[..|a + b| - 1] == a + init;
    }
  }

  // ------------------------------------------------- messages as blocks

  ghost function BlockAt(msg: seq<Byte>, i: nat): (r: Poly)
    requires AreBytes(msg) && BLOCK * i + BLOCK <= |msg|
    ensures IsPoly(r)
  {
    BitsOf(msg[BLOCK * i..BLOCK * i + BLOCK])
  }

  /** The first whole blocks of a message. */
  ghost function WholeBlocks(msg: seq<Byte>, count: nat): (r: seq<Poly>)
    requires AreBytes(msg) && BLOCK * count <= |msg|
    ensures |r| == count && ArePolys(r) && forall i :: 0 <= i < count ==> r[i] == BlockAt(msg, i)
  {
    seq(count, i requires 0 <= i < count => BlockAt(msg, i))
  }

  /** The rest of a message, with a marker byte behind it if so asked, filled up with zeros. */
  function LastBlock(msg: seq<Byte>, marked: bool): (b: Block)
    requires AreBytes(msg) && |msg| % BLOCK != 0
    ensures IsBlock(b)
  {
    var rem := |msg| % BLOCK;
    seq(BLOCK, i requires 0 <= i < BLOCK =>
      if i < rem then msg[|msg| - rem + i] else seq(BYTE, j => marked && i == rem && j == 0))
  }

  ghost function AllBlocks(msg: seq<Byte>, marked: bool): (r: seq<Poly>)
    requires AreBytes(msg)
    ensures ArePolys(r)
  {
    WholeBlocks(msg, |msg| / BLOCK) + if |msg| % BLOCK == 0 then [] else [BitsOf(LastBlock(msg, marked))]
  }

  /** The beginning of the input: twice the length of the tweak in bits plus two or three, then the padded tweak. */
  ghost function TweakBlocks(tweak: seq<Byte>, modifier: nat): (r: seq<Poly>)
    requires AreBytes(tweak)
    ensures ArePolys(r)
  {
    [BitsOf(NumberBlock(|tweak| * 8 * 2 + modifier))] + AllBlocks(tweak, false)
  }

  /** The hash of HCTR2. */
  ghost function HashOf(key: Poly, tweak: seq<Byte>, msg: seq<Byte>): (r: Poly)
    requires IsPoly(key) && AreBytes(tweak) && AreBytes(msg)
    ensures IsPoly(r)
  {
    PolyvalFrom(Zero(), key, TweakBlocks(tweak, if |msg| % BLOCK == 0 then 2 else 3) + AllBlocks(msg, true))
  }

  // ------------------------------------------------- hashing with tables

  /** The tables belong to the key. */
  ghost predicate TableFor(table: seq<seq<PolyMul.U128>>, h: PolyMul.U128, key: Poly) {
    && PolyMul.IsU128(h) && IsPoly(key) && PolyMul.TableOk(table, h)
    && PolyMul.Bits(h) == Product(key, InverseOfX128())
  }

  method UpdateBlock(
      acc0: PolyMul.U128, table: seq<seq<PolyMul.U128>>, ghost h: PolyMul.U128, ghost key: Poly, b: Block)
    returns (acc: PolyMul.U128)
    requires TableFor(table, h, key) && PolyMul.IsU128(acc0) && IsBlock(b)
    ensures PolyMul.IsU128(acc) && PolyMul.Bits(acc) == PolyvalFrom(PolyMul.Bits(acc0), key, [BitsOf(b)])
  {
    var x := PolyMul.XorU128(acc0, Load128(b));
    acc := PolyMul.MulFixed(x, table, h);
    FoldedKey(PolyMul.Bits(x), key);
    assert [BitsOf(b)][..0] == [];
  }

  /** `update` on whole blocks. */
  method Update(
      acc0: PolyMul.U128, table: seq<seq<PolyMul.U128>>, ghost h: PolyMul.U128, ghost key: Poly, msg: seq<Byte>,
      count: nat)
    returns (acc: PolyMul.U128)
    requires TableFor(table, h, key) && PolyMul.IsU128(acc0) && AreBytes(msg) && BLOCK * count <= |msg|
    ensures PolyMul.IsU128(acc) && PolyMul.Bits(acc) == PolyvalFrom(PolyMul.Bits(acc0), key, WholeBlocks(msg, count))
  {
    acc := acc0;
    for i := 0 to count
      invariant PolyMul.IsU128(acc) && PolyMul.Bits(acc) == PolyvalFrom(PolyMul.Bits(acc0), key, WholeBlocks(msg, i))
    {
      acc := UpdateBlock(acc, table, h, key, msg[BLOCK * i..BLOCK * i + BLOCK]);
      PolyvalConcat(PolyMul.Bits(acc0), key, WholeBlocks(msg, i), [BlockAt(msg, i)]);
      assert WholeBlocks(msg, i + 1) == WholeBlocks(msg, i) + [BlockAt(msg, i)];
    }
  }

  /** `updatePaddedZero`, and the end of `hash`. */
  method UpdatePadded(
      acc0: PolyMul.U128, table: seq<seq<PolyMul.U128>>, ghost h: PolyMul.U128, ghost key: Poly, msg: seq<Byte>,
      marked: bool)
    returns (acc: PolyMul.U128)
    requires TableFor(table, h, key) && PolyMul.IsU128(acc0) && AreBytes(msg)
    ensures PolyMul.IsU128(acc) && PolyMul.Bits(acc) == PolyvalFrom(PolyMul.Bits(acc0), key, AllBlocks(msg, marked))
  {
    var full := |msg| / BLOCK;
    acc := Update(acc0, table, h, key, msg, full);
    ghost var whole := WholeBlocks(msg, full);
    if |msg| % BLOCK != 0 {
      var last := LastBlock(msg, marked);
      acc := UpdateBlock(acc, table, h, key, last);
      PolyvalConcat(PolyMul.Bits(acc0), key, whole, [BitsOf(last)]);
    } else {
      assert AllBlocks(msg, marked) == whole;
    }
  }

  /** `initHash` */
  method InitHash(
      table: seq<seq<PolyMul.U128>>, ghost h: PolyMul.U128, ghost key: Poly, tweak: seq<Byte>, modifier: nat)
    returns (acc: PolyMul.U128)
    requires TableFor(table, h, key) && AreBytes(tweak)
    ensures PolyMul.IsU128(acc) && PolyMul.Bits(acc) == PolyvalFrom(Zero(), key, TweakBlocks(tweak, modifier))
  {
    acc := PolyMul.U128(RbLimbs.Zero(), RbLimbs.Zero());
    assert PolyMul.Bits(acc) == Zero();
    var first := NumberBlock(|tweak| * 8 * 2 + modifier);
    acc := UpdateBlock(acc, table, h, key, first);
    acc := UpdatePadded(acc, table, h, key, tweak, false);
    PolyvalConcat(Zero(), key, [BitsOf(first)], AllBlocks(tweak, false));
  }

  // ------------------------------------------------- the key

  /** AES under some key. */
  datatype Aes = Aes(enc: Block -> Block, dec: Block -> Block)

  function Enc(aes: Aes, b: Block): Block { (aes.enc)(b) }

  function Dec(aes: Aes, b: Block): Block { (aes.dec)(b) }

  ghost predicate AesAt(aes: Aes, b: Block) {
    IsBlock(Enc(aes, b)) && IsBlock(Dec(aes, b)) && Dec(aes, Enc(aes, b)) == b && Enc(aes, Dec(aes, b)) == b
  }

  ghost predicate AesOk(aes: Aes) {
    forall b: Block {:trigger AesAt(aes, b)} :: IsBlock(b) ==> AesAt(aes, b)
  }

  datatype Key = Key(aes: Aes, hashKey: Block, l: Block, h: PolyMul.U128, table: seq<seq<PolyMul.U128>>,
                     initDiv: PolyMul.U128, initAwk: PolyMul.U128)

  ghost predicate KeyOk(key: Key, tweak: seq<Byte>) {
    && AesOk(key.aes) && AreBytes(tweak) && IsBlock(key.hashKey) && IsBlock(key.l)
    && TableFor(key.table, key.h, BitsOf(key.hashKey))
    && PolyMul.IsU128(key.initDiv)
    && PolyMul.Bits(key.initDiv) == PolyvalFrom(Zero(), BitsOf(key.hashKey), TweakBlocks(tweak, 2))
    && PolyMul.IsU128(key.initAwk)
    && PolyMul.Bits(key.initAwk) == PolyvalFrom(Zero(), BitsOf(key.hashKey), TweakBlocks(tweak, 3))
  }

  /** The constructor of `Key`. */
  method MakeKey(aes: Aes, tweak: seq<Byte>) returns (key: Key)
    requires AesOk(aes) && AreBytes(tweak)
    ensures KeyOk(key, tweak) && key.aes == aes
    ensures key.hashKey == Enc(aes, NumberBlock(0)) && key.l == Enc(aes, NumberBlock(1))
  {
    assert AesAt(aes, NumberBlock(0)) && AesAt(aes, NumberBlock(1));
    var hashKey, l := Enc(aes, NumberBlock(0)), Enc(aes, NumberBlock(1));
    var h := PolyMul.PolyvalKey(Load128(hashKey));
    var table := PolyMul.MakeMulTable(h);
    var initDiv := InitHash(table, h, BitsOf(hashKey), tweak, 2);
    var initAwk := InitHash(table, h, BitsOf(hashKey), tweak, 3);
    key := Key(aes, hashKey, l, h, table, initDiv, initAwk);
  }

  /** The hash of a message under a key, as a block. */
  ghost function HashBlock(key: Key, tweak: seq<Byte>, msg: seq<Byte>): (b: Block)
    requires KeyOk(key, tweak) && AreBytes(msg)
    ensures IsBlock(b)
  {
    Packed(HashOf(BitsOf(key.hashKey), tweak, msg), BLOCK)
  }

  /** `hash` is POLYVAL of the tweak and the message. */
  method Hash(key: Key, ghost tweak: seq<Byte>, msg: seq<Byte>) returns (b: Block)
    requires KeyOk(key, tweak) && AreBytes(msg)
    ensures b == HashBlock(key, tweak, msg)
  {
    var start := if |msg| % BLOCK == 0 then key.initDiv else key.initAwk;
    var acc := UpdatePadded(start, key.table, key.h, BitsOf(key.hashKey), msg, true);
    PolyvalConcat(Zero(), BitsOf(key.hashKey), TweakBlocks(tweak, if |msg| % BLOCK == 0 then 2 else 3),
      AllBlocks(msg, true));
    b := Store128(acc);
  }

  // ------------------------------------------------- the key stream

  function XorBytes(a: seq<Byte>, b: seq<Byte>): (r: seq<Byte>)
    requires AreBytes(a) && AreBytes(b) && |a| == |b|
    ensures |r| == |a| && AreBytes(r) && forall i :: 0 <= i < |a| ==> r[i] == Xor(a[i], b[i])
  {
    seq(|a|, i requires 0 <= i < |a| => Xor(a[i], b[i]))
  }

  lemma {:induction false} XorBytesTwice(a: seq<Byte>, b: seq<Byte>)
    requires AreBytes(a) && AreBytes(b) && |a| == |b|
    ensures XorBytes(XorBytes(a, b), b) == a
  {
    forall i | 0 <= i < |a| ensures Xor(Xor(a[i], b[i]), b[i]) == a[i] {
    }
  }

  /** The key stream block with the given counter. */
  function StreamBlock(aes: Aes, nonce: Block, counter: nat): Block
    requires IsBlock(nonce)
  {
    Enc(aes, XorBytes(NumberBlock(counter), nonce))
  }

  lemma {:induction false} StreamBlockOk(aes: Aes, nonce: Block, counter: nat)
    requires AesOk(aes) && IsBlock(nonce)
    ensures IsBlock(StreamBlock(aes, nonce, counter))
  {
    assert AesAt(aes, XorBytes(NumberBlock(counter), nonce));
  }

  /** Different counters give different blocks of the key stream, whatever the nonce is. */
  lemma {:induction false} StreamBlocksDiffer(aes: Aes, nonce: Block, i: nat, j: nat)
    requires AesOk(aes) && IsBlock(nonce) && i < j < 0x1_0000_0000_0000_0000
    ensures NumberBlock(i) != NumberBlock(j) && StreamBlock(aes, nonce, i) != StreamBlock(aes, nonce, j)
  {
    NumberBlockValue(i);
    NumberBlockValue(j);
    var a, b := XorBytes(NumberBlock(i), nonce), XorBytes(NumberBlock(j), nonce);
    XorBytesTwice(NumberBlock(i), nonce);
    XorBytesTwice(NumberBlock(j), nonce);
    assert AesAt(aes, a) && AesAt(aes, b);
  }

  /** So many bytes of the key stream; the counters start at one. */
  ghost function KeyStream(aes: Aes, nonce: Block, bytes: nat): (r: seq<Byte>)
    requires AesOk(aes) && IsBlock(nonce)
    ensures |r| == bytes && AreBytes(r)
    ensures forall i :: 0 <= i < bytes ==>
      IsBlock(StreamBlock(aes, nonce, i / BLOCK + 1)) && r[i] == StreamBlock(aes, nonce, i / BLOCK + 1)[i % BLOCK]
  {
    forall i: nat | i < bytes
      ensures IsBlock(StreamBlock(aes, nonce, i / BLOCK + 1)) { StreamBlockOk(aes, nonce, i / BLOCK + 1); }
    seq(bytes, i requires 0 <= i < bytes && IsBlock(StreamBlock(aes, nonce, i / BLOCK + 1)) =>
      StreamBlock(aes, nonce, i / BLOCK + 1)[i % BLOCK])
  }

  /** data is what it was, with the key stream ks added from the first block on, up to n bytes of it. */
  ghost predicate StreamedTo(data: seq<Byte>, was: seq<Byte>, ks: seq<Byte>, n: nat)
    requires |data| == |was| == BLOCK + |ks| && AreBytes(was) && AreBytes(ks)
  {
    forall q :: 0 <= q < |data| ==>
      data[q] == if BLOCK <= q < BLOCK + n && q - BLOCK < |ks| then Xor(was[q], ks[q - BLOCK]) else was[q]
  }

  lemma {:induction false} StreamedAll(data: seq<Byte>, was: seq<Byte>, ks: seq<Byte>)
    requires |data| == |was| == BLOCK + |ks| && AreBytes(was) && AreBytes(ks) && StreamedTo(data, was, ks, |ks|)
    ensures data[..BLOCK] == was[..BLOCK] && data[BLOCK..] == XorBytes(was[BLOCK..], ks)
  {
  }

  /** Adds the whole blocks of the key stream. */
  method XorStream(
      data: array<Byte>, stream: array<Block>, full: nat, ghost aes: Aes, ghost nonce: Block, ghost ks: seq<Byte>)
    requires AesOk(aes) && IsBlock(nonce) && AreBytes(data[..]) && data.Length == BLOCK + |ks|
    requires ks == KeyStream(aes, nonce, |ks|)
    requires BLOCK * full <= |ks| && full <= stream.Length
    requires forall i :: 0 <= i < full ==> stream[i] == StreamBlock(aes, nonce, i + 1)
    modifies data
    ensures AreBytes(data[..]) && StreamedTo(data[..], old(data[..]), ks, BLOCK * full)
  {
    for i := 0 to BLOCK * full
      invariant AreBytes(data[..])
      invariant forall j :: 0 <= j < full ==> stream[j] == StreamBlock(aes, nonce, j + 1)
      invariant StreamedTo(data[..], old(data[..]), ks, i)
    {
      assert ks[i] == StreamBlock(aes, nonce, i / BLOCK + 1)[i % BLOCK];
      data[BLOCK + i] := Xor(data[BLOCK + i], stream[i / BLOCK][i % BLOCK]);
    }
  }

  lemma {:induction false} Positions(full: nat, i: nat)
    requires i < BLOCK
    ensures (BLOCK * full + i) / BLOCK == full && (BLOCK * full + i) % BLOCK == i
  {
  }

  lemma {:induction false} TailByte(aes: Aes, nonce: Block, full: nat, rem: nat, i: nat)
    requires AesOk(aes) && IsBlock(nonce) && i < rem < BLOCK
    ensures IsBlock(StreamBlock(aes, nonce, full + 1))
    ensures KeyStream(aes, nonce, BLOCK * full + rem)[BLOCK * full + i] == StreamBlock(aes, nonce, full + 1)[i]
  {
    StreamBlockOk(aes, nonce, full + 1);
    Positions(full, i);
    var ks, j := KeyStream(aes, nonce, BLOCK * full + rem), BLOCK * full + i;
    assert ks[j] == StreamBlock(aes, nonce, j / BLOCK + 1)[j % BLOCK];
  }

  lemma {:induction false} TailStream(aes: Aes, nonce: Block, full: nat, rem: nat)
    requires AesOk(aes) && IsBlock(nonce) && rem < BLOCK
    ensures IsBlock(StreamBlock(aes, nonce, full + 1))
    ensures KeyStream(aes, nonce, BLOCK * full + rem)[BLOCK * full..] == StreamBlock(aes, nonce, full + 1)[..rem]
  {
    StreamBlockOk(aes, nonce, full + 1);
    var tail, last := KeyStream(aes, nonce, BLOCK * full + rem)[BLOCK * full..], StreamBlock(aes, nonce, full + 1);
    forall i | 0 <= i < rem ensures tail[i] == last[i] {
      TailByte(aes, nonce, full, rem, i);
    }
  }

  /** Adds the last, incomplete block. */
  method XorTail(data: array<Byte>, from: nat, rem: nat, last: Block, ghost was: seq<Byte>, ghost ks: seq<Byte>)
    requires AreBytes(data[..]) && AreBytes(was) && AreBytes(ks) && |was| == data.Length == BLOCK + |ks|
    requires |ks| == from + rem && rem < BLOCK && IsBlock(last) && ks[from..] == last[..rem]
    requires StreamedTo(data[..], was, ks, from)
    modifies data
    ensures AreBytes(data[..]) && StreamedTo(data[..], was, ks, |ks|)
  {
    var off := BLOCK + from;
    for i := 0 to rem
      invariant AreBytes(data[..]) && StreamedTo(data[..], was, ks, from + i)
    {
      assert ks[from + i] == ks[from..][i] == last[i];
      data[off + i] := Xor(data[off + i], last[i]);
    }
  }

  /** The encrypted counters of the whole blocks, in a buffer of fixed size. */
  method FillStream(aes: Aes, nonce: Block, full: nat) returns (stream: array<Block>)
    requires IsBlock(nonce) && full <= STREAM_BLOCKS
    ensures fresh(stream) && stream.Length == STREAM_BLOCKS
    ensures forall i :: 0 <= i < full ==> stream[i] == StreamBlock(aes, nonce, i + 1)
  {
    stream := new Block[STREAM_BLOCKS](_ => seq(BLOCK, _ => seq(BYTE, _ => false)));
    for i := 0 to full
      invariant forall j :: 0 <= j < i ==> stream[j] == StreamBlock(aes, nonce, j + 1)
    {
      stream[i] := StreamBlock(aes, nonce, i + 1);
    }
  }

  /** `xctr`, in place, on everything behind the first block. */
  method Xctr(aes: Aes, data: array<Byte>, nonce: Block)
    requires AesOk(aes) && IsBlock(nonce) && AreBytes(data[..]) && data.Length >= BLOCK
    requires (data.Length - BLOCK) / BLOCK <= STREAM_BLOCKS
    modifies data
    ensures AreBytes(data[..]) && data[..BLOCK] == old(data[..BLOCK])
    ensures data[BLOCK..] == XorBytes(old(data[BLOCK..]), KeyStream(aes, nonce, data.Length - BLOCK))
  {
    var bytes := data.Length - BLOCK;
    var full, rem := bytes / BLOCK, bytes % BLOCK;
    assert bytes == BLOCK * full + rem;
    ghost var was, ks := data[..], KeyStream(aes, nonce, bytes);
    var stream := FillStream(aes, nonce, full);
    XorStream(data, stream, full, aes, nonce, ks);
    if rem != 0 {
      TailStream(aes, nonce, full, rem);
      XorTail(data, BLOCK * full, rem, StreamBlock(aes, nonce, full + 1), was, ks);
    }
    StreamedAll(data[..], was, ks);
    assert was[BLOCK..] == old(data[BLOCK..]) && was[..BLOCK] == old(data[..BLOCK]);
  }

  // ------------------------------------------------- the cipher

  ghost function Encrypted(key: Key, tweak: seq<Byte>, x: seq<Byte>): (r: seq<Byte>)
    requires KeyOk(key, tweak) && AreBytes(x) && |x| >= BLOCK
    ensures |r| == |x| && AreBytes(r)
  {
    var head, tail := x[..BLOCK], x[BLOCK..];
    var mm := XorBytes(head, HashBlock(key, tweak, tail));
    assert AesAt(key.aes, mm);
    var uu := Enc(key.aes, mm);
    var s := XorBytes(XorBytes(mm, uu), key.l);
    var tail' := XorBytes(tail, KeyStream(key.aes, s, |tail|));
    XorBytes(uu, HashBlock(key, tweak, tail')) + tail'
  }

  ghost function Decrypted(key: Key, tweak: seq<Byte>, y: seq<Byte>): (r: seq<Byte>)
    requires KeyOk(key, tweak) && AreBytes(y) && |y| >= BLOCK
    ensures |r| == |y| && AreBytes(r)
  {
    var head, tail := y[..BLOCK], y[BLOCK..];
    var uu := XorBytes(head, HashBlock(key, tweak, tail));
    assert AesAt(key.aes, uu);
    var mm := Dec(key.aes, uu);
    var s := XorBytes(XorBytes(mm, uu), key.l);
    var tail' := XorBytes(tail, KeyStream(key.aes, s, |tail|));
    XorBytes(mm, HashBlock(key, tweak, tail')) + tail'
  }

  /** Decryption undoes encryption, for every length and any AES. */
  lemma {:induction false} DecryptEncrypt(key: Key, tweak: seq<Byte>, x: seq<Byte>)
    requires KeyOk(key, tweak) && AreBytes(x) && |x| >= BLOCK
    ensures Decrypted(key, tweak, Encrypted(key, tweak, x)) == x
  {
    var head, tail := x[..BLOCK], x[BLOCK..];
    var mm := XorBytes(head, HashBlock(key, tweak, tail));
    assert AesAt(key.aes, mm);
    var uu := Enc(key.aes, mm);
    var s := XorBytes(XorBytes(mm, uu), key.l);
    var tail' := XorBytes(tail, KeyStream(key.aes, s, |tail|));
    var y := Encrypted(key, tweak, x);
    assert y[BLOCK..] == tail' && y[..BLOCK] == XorBytes(uu, HashBlock(key, tweak, tail'));
    XorBytesTwice(uu, HashBlock(key, tweak, tail'));
    XorBytesTwice(tail, KeyStream(key.aes, s, |tail|));
    XorBytesTwice(head, HashBlock(key, tweak, tail));
    assert head + tail == x;
  }

  lemma {:induction false} EncryptDecrypt(key: Key, tweak: seq<Byte>, y: seq<Byte>)
    requires KeyOk(key, tweak) && AreBytes(y) && |y| >= BLOCK
    ensures Encrypted(key, tweak, Decrypted(key, tweak, y)) == y
  {
    var head, tail := y[..BLOCK], y[BLOCK..];
    var uu := XorBytes(head, HashBlock(key, tweak, tail));
    assert AesAt(key.aes, uu);
    var mm := Dec(key.aes, uu);
    var s := XorBytes(XorBytes(mm, uu), key.l);
    var tail' := XorBytes(tail, KeyStream(key.aes, s, |tail|));
    var x := Decrypted(key, tweak, y);
    assert x[BLOCK..] == tail' && x[..BLOCK] == XorBytes(mm, HashBlock(key, tweak, tail'));
    XorBytesTwice(mm, HashBlock(key, tweak, tail'));
    XorBytesTwice(tail, KeyStream(key.aes, s, |tail|));
    XorBytesTwice(head, HashBlock(key, tweak, tail));
    assert head + tail == y;
  }

  method WriteHead(data: array<Byte>, b: Block)
    requires data.Length >= BLOCK && IsBlock(b) && AreBytes(data[..])
    modifies data
    ensures AreBytes(data[..]) && data[..] == b + old(data[BLOCK..])
  {
    for i := 0 to BLOCK
      invariant forall q :: 0 <= q < data.Length ==> data[q] == if q < i then b[q] else old(data[q])
    {
      data[i] := b[i];
    }
  }

  /** `crypt`. False stands for the exception; the length may not exceed what the key stream buffer holds. */
  method Crypt(data: array<Byte>, key: Key, ghost tweak: seq<Byte>, encrypt: bool) returns (ok: bool)
    requires KeyOk(key, tweak) && AreBytes(data[..]) && data.Length < BLOCK * (STREAM_BLOCKS + 2)
    modifies data
    ensures ok <==> data.Length >= BLOCK
    ensures AreBytes(data[..])
    ensures data[..] == if !ok then old(data[..])
                        else if encrypt then Encrypted(key, tweak, old(data[..]))
                          else Decrypted(key, tweak, old(data[..]))
  {
    if data.Length < BLOCK {
      return false;
    }
    var first := HashedHead(data, key, tweak);
    assert AesAt(key.aes, first);
    if encrypt {
      CryptTail(data, key, tweak, first, Enc(key.aes, first), Enc(key.aes, first));
    } else {
      CryptTail(data, key, tweak, Dec(key.aes, first), first, Dec(key.aes, first));
    }
    return true;
  }

  /** The head with the hash of the tail added. */
  method HashedHead(data: array<Byte>, key: Key, ghost tweak: seq<Byte>) returns (r: Block)
    requires KeyOk(key, tweak) && AreBytes(data[..]) && data.Length >= BLOCK
    ensures r == XorBytes(data[..BLOCK], HashBlock(key, tweak, data[BLOCK..])) && IsBlock(r)
  {
    assert forall i :: 0 <= i < data.Length ==> data[i] == data[..][i];
    var d := Hash(key, tweak, data[BLOCK..]);
    r := XorBytes(data[..BLOCK], d);
  }

  /** The key stream goes to the tail, and the hash of the new tail to the head. */
  method CryptTail(data: array<Byte>, key: Key, ghost tweak: seq<Byte>, mm: Block, uu: Block, second: Block)
    requires KeyOk(key, tweak) && AreBytes(data[..]) && BLOCK <= data.Length < BLOCK * (STREAM_BLOCKS + 2)
    requires IsBlock(mm) && IsBlock(uu) && IsBlock(second)
    modifies data
    ensures AreBytes(data[..])
    ensures var tail := old(data[BLOCK..]);
            AreBytes(tail) &&
            var tail' := XorBytes(tail, KeyStream(key.aes, XorBytes(XorBytes(mm, uu), key.l), |tail|));
            data[..] == XorBytes(second, HashBlock(key, tweak, tail')) + tail'
  {
    assert forall i :: 0 <= i < data.Length ==> data[i] == data[..][i];
    var s := XorBytes(XorBytes(mm, uu), key.l);
    Xctr(key.aes, data, s);
    assert forall i :: 0 <= i < data.Length ==> data[i] == data[..][i];
    var d := Hash(key, tweak, data[BLOCK..]);
    WriteHead(data, XorBytes(second, d));
  }

  /** Encrypting and then decrypting leaves the buffer as it was. */
  method CryptTwice(data: array<Byte>, key: Key, ghost tweak: seq<Byte>)
    requires KeyOk(key, tweak) && AreBytes(data[..]) && BLOCK <= data.Length < BLOCK * (STREAM_BLOCKS + 2)
    modifies data
    ensures data[..] == old(data[..])
  {
    DecryptEncrypt(key, tweak, data[..]);
    var _ := Crypt(data, key, tweak, true);
    var _ := Crypt(data, key, tweak, false);
  }
}
