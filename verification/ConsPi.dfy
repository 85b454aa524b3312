/** The wide permutation built from a small one (`ConsPi` of permutation/cons.h).

    The plain description permutes the first n of N bits, adds a round constant and rotates the state by s bits, round
    after round.  The code never rotates: it moves an offset into a byte buffer, and rotates once at the end. */
module ConsPi {

  const BYTE := 8

  /** A byte is the sequence of its eight bits, least significant first. */
  type Byte = seq<bool>

  predicate IsByte(b: Byte) { |b| == BYTE }

  predicate AreBytes(data: seq<Byte>) { forall i :: 0 <= i < |data| ==> IsByte(data[i]) }

  /** `getByteBit` */
  function BitAt(data: seq<Byte>, i: nat): bool
    requires AreBytes(data) && i < BYTE * |data|
  {
    data[i / BYTE][i % BYTE]
  }

  /** `setByteBit` */
  function SetBit(data: seq<Byte>, i: nat, bit: bool): (r: seq<Byte>)
    requires AreBytes(data) && i < BYTE * |data|
    ensures |r| == |data| && AreBytes(r)
    ensures forall j :: 0 <= j < BYTE * |data| ==> BitAt(r, j) == if j == i then bit else BitAt(data, j)
  {
    data[i / BYTE := data[i / BYTE][i % BYTE := bit]]
  }

  /** Bit i of the state that starts at bit off of the buffer and wraps around. */
  function Wrap(i: nat, total: nat): (r: nat)
    requires i < 2 * total
    ensures r < total
  {
    if i < total then i else i - total
  }

  ghost function View(data: seq<Byte>, off: nat): (r: seq<bool>)
    requires AreBytes(data) && (off < BYTE * |data| || off == 0)
    ensures |r| == BYTE * |data|
    ensures forall i :: 0 <= i < |r| ==> r[i] == BitAt(data, Wrap(i + off, BYTE * |data|))
  {
    seq(BYTE * |data|, i requires 0 <= i < BYTE * |data| => BitAt(data, Wrap(i + off, BYTE * |data|)))
  }

  // ------------------------------------------------- moving bits between the buffers

  /** `packShifted`: the first bits of the state, byte by byte if the offset is on a byte, else bit by bit. */
  method PackShifted(data: array<Byte>, off: nat, buf: array<Byte>)
    requires AreBytes(data[..]) && AreBytes(buf[..]) && off < BYTE * data.Length && buf.Length <= data.Length
    requires data != buf
    modifies buf
    ensures AreBytes(buf[..]) && View(buf[..], 0) == View(data[..], off)[..BYTE * buf.Length]
  {
    if off % BYTE == 0 {
      PackAligned(data, off, buf);
    } else {
      PackUnaligned(data, off, buf);
    }
  }

  method PackAligned(data: array<Byte>, off: nat, buf: array<Byte>)
    requires AreBytes(data[..]) && off < BYTE * data.Length && off % BYTE == 0 && buf.Length <= data.Length
    requires data != buf
    modifies buf
    ensures AreBytes(buf[..]) && View(buf[..], 0) == View(data[..], off)[..BYTE * buf.Length]
  {
    var nBytes, totalBytes, start := buf.Length, data.Length, off / BYTE;
    var first := if nBytes < totalBytes - start then nBytes else totalBytes - start;
    for i := 0 to first
      invariant forall j :: 0 <= j < i ==> buf[j] == data[start + j]
    {
      buf[i] := data[start + i];
    }
    for i := first to nBytes
      invariant forall j :: 0 <= j < first ==> buf[j] == data[start + j]
      invariant forall j :: first <= j < i ==> buf[j] == data[j - first]
    {
      buf[i] := data[i - first];
    }
    AlignedView(data[..], buf[..], off);
  }

  method PackUnaligned(data: array<Byte>, off: nat, buf: array<Byte>)
    requires AreBytes(data[..]) && off < BYTE * data.Length && buf.Length <= data.Length && data != buf
    modifies buf
    ensures AreBytes(buf[..]) && View(buf[..], 0) == View(data[..], off)[..BYTE * buf.Length]
  {
    var total := BYTE * data.Length;
    for i := 0 to buf.Length
      invariant forall j :: 0 <= j < i ==> buf[j] == seq(BYTE, _ => false)
    {
      buf[i] := seq(BYTE, _ => false);
    }
    for i := 0 to BYTE * buf.Length
      invariant AreBytes(buf[..])
      invariant forall j :: 0 <= j < i ==> BitAt(buf[..], j) == BitAt(data[..], Wrap(off + j, total))
      invariant forall j :: i <= j < BYTE * buf.Length ==> !BitAt(buf[..], j)
    {
      if BitAt(data[..], Wrap(off + i, total)) {
        WriteBit(buf, i, true);
      }
    }
  }

  /** Sets one bit of a buffer in place. */
  method WriteBit(buf: array<Byte>, i: nat, bit: bool)
    requires AreBytes(buf[..]) && i < BYTE * buf.Length
    modifies buf
    ensures buf[..] == SetBit(old(buf[..]), i, bit) && AreBytes(buf[..])
  {
    buf[i / BYTE] := buf[i / BYTE][i % BYTE := bit];
  }

  /** When the offset is on a byte, whole bytes wrap around. */
  lemma {:induction false} AlignedView(data: seq<Byte>, buf: seq<Byte>, off: nat)
    requires AreBytes(data) && off < BYTE * |data| && off % BYTE == 0 && |buf| <= |data|
    requires forall j :: 0 <= j < |buf| ==> buf[j] == data[Wrap(off / BYTE + j, |data|)]
    ensures AreBytes(buf) && View(buf, 0) == View(data, off)[..BYTE * |buf|]
  {
    var start := off / BYTE;
    forall i | 0 <= i < BYTE * |buf| ensures BitAt(buf, i) == BitAt(data, Wrap(i + off, BYTE * |data|)) {
      assert Wrap(i + off, BYTE * |data|) / BYTE == Wrap(start + i / BYTE, |data|);
      assert Wrap(i + off, BYTE * |data|) % BYTE == i % BYTE;
    }
  }

  /** Which bit of the state bit q of the buffer is. */
  function Position(q: nat, off: nat, total: nat): (r: nat)
    requires q < total && off < total
    ensures r < total && Wrap(r + off, total) == q
  {
    if q >= off then q - off else q + total - off
  }

  lemma {:induction false} UnpackedView(before: seq<Byte>, data: seq<Byte>, bits: seq<bool>, off: nat)
    requires AreBytes(before) && AreBytes(data) && |before| == |data| && off < BYTE * |data| && |bits| <= BYTE * |data|
    requires forall q :: 0 <= q < BYTE * |data| ==>
      BitAt(data, q) == var i := Position(q, off, BYTE * |data|); if i < |bits| then bits[i] else BitAt(before, q)
    ensures View(data, off) == bits + View(before, off)[|bits|..]
  {
    forall i | 0 <= i < BYTE * |data| ensures View(data, off)[i] == (bits + View(before, off)[|bits|..])[i] {
      assert Position(Wrap(i + off, BYTE * |data|), off, BYTE * |data|) == i;
    }
  }

  lemma {:induction false} AlignedPosition(q: nat, off: nat, bytes: nat)
    requires off % BYTE == 0 && off < BYTE * bytes && q < BYTE * bytes
    ensures Position(q, off, BYTE * bytes) / BYTE == Position(q / BYTE, off / BYTE, bytes)
    ensures Position(q, off, BYTE * bytes) % BYTE == q % BYTE
  {
  }

  lemma {:induction false} AlignedUnpacked(before: seq<Byte>, data: seq<Byte>, buf: seq<Byte>, off: nat)
    requires AreBytes(before) && AreBytes(buf) && |before| == |data| && |buf| <= |data| && off < BYTE * |data|
    requires off % BYTE == 0
    requires forall q :: 0 <= q < |data| ==>
      data[q] == var i := Position(q, off / BYTE, |data|); if i < |buf| then buf[i] else before[q]
    ensures AreBytes(data) && View(data, off) == View(buf, 0) + View(before, off)[BYTE * |buf|..]
  {
    forall q | 0 <= q < BYTE * |data|
      ensures BitAt(data, q) == var i := Position(q, off, BYTE * |data|); if i < BYTE * |buf| then View(buf, 0)[i]
        else BitAt(before, q)
    {
      AlignedPosition(q, off, |data|);
    }
    UnpackedView(before, data, View(buf, 0), off);
  }

  /** `unpackShifted`: the first bits of the state are overwritten. */
  method UnpackShifted(buf: array<Byte>, data: array<Byte>, off: nat)
    requires AreBytes(data[..]) && AreBytes(buf[..]) && off < BYTE * data.Length && buf.Length <= data.Length
    requires data != buf
    modifies data
    ensures AreBytes(data[..])
    ensures View(data[..], off) == View(buf[..], 0) + View(old(data[..]), off)[BYTE * buf.Length..]
  {
    if off % BYTE == 0 {
      UnpackAligned(buf, data, off);
    } else {
      UnpackUnaligned(buf, data, off);
    }
  }

  method UnpackAligned(buf: array<Byte>, data: array<Byte>, off: nat)
    requires AreBytes(data[..]) && AreBytes(buf[..]) && off < BYTE * data.Length && buf.Length <= data.Length
    requires data != buf
    requires off % BYTE == 0
    modifies data
    ensures AreBytes(data[..])
    ensures View(data[..], off) == View(buf[..], 0) + View(old(data[..]), off)[BYTE * buf.Length..]
  {
    ghost var before := data[..];
    var nBytes, totalBytes, start := buf.Length, data.Length, off / BYTE;
    var first := if nBytes < totalBytes - start then nBytes else totalBytes - start;
    for i := 0 to first
      invariant forall q :: 0 <= q < totalBytes ==>
        data[q] == if start <= q < start + i then buf[q - start] else before[q]
    {
      data[start + i] := buf[i];
    }
    for i := first to nBytes
      invariant forall q :: 0 <= q < totalBytes ==>
        data[q] == if start <= q < start + first then buf[q - start] else if q < i - first then buf[q + first]
          else before[q]
    {
      data[i - first] := buf[i];
    }
    AlignedUnpacked(before, data[..], buf[..], off);
  }

  method UnpackUnaligned(buf: array<Byte>, data: array<Byte>, off: nat)
    requires AreBytes(data[..]) && AreBytes(buf[..]) && off < BYTE * data.Length && buf.Length <= data.Length
    requires data != buf
    modifies data
    ensures AreBytes(data[..])
    ensures View(data[..], off) == View(buf[..], 0) + View(old(data[..]), off)[BYTE * buf.Length..]
  {
    ghost var before := data[..];
    var total := BYTE * data.Length;
    for i := 0 to BYTE * buf.Length
      invariant AreBytes(data[..])
      invariant forall q :: 0 <= q < total ==>
        BitAt(data[..], q) == var p := Position(q, off, total); if p < i then BitAt(buf[..], p) else BitAt(before, q)
    {
      WriteBit(data, Wrap(off + i, total), BitAt(buf[..], i));
    }
    UnpackedView(before, data[..], View(buf[..], 0), off);
  }

  /** `materialize`: rotates the buffer so that the state starts at its first bit. */
  method Materialize(data: array<Byte>, off: nat)
    requires AreBytes(data[..]) && off < BYTE * data.Length
    modifies data
    ensures AreBytes(data[..]) && View(data[..], 0) == View(old(data[..]), off)
  {
    if off == 0 {
      return;
    }
    var before := data[..];
    if off % BYTE == 0 {
      var rotated := before[off / BYTE..] + before[..off / BYTE];
      AlignedView(before, rotated, off);
      Overwrite(data, rotated);
      return;
    }
    var tmp := new Byte[data.Length](_ => seq(BYTE, _ => false));
    var total := BYTE * data.Length;
    for i := 0 to total
      invariant AreBytes(tmp[..]) && data[..] == before
      invariant forall j :: 0 <= j < i ==> BitAt(tmp[..], j) == BitAt(before, Wrap(j + off, total))
    {
      WriteBit(tmp, i, BitAt(data[..], Wrap(i + off, total)));
    }
    assert View(tmp[..], 0) == View(before, off);
    Overwrite(data, tmp[..]);
  }

  method Overwrite(data: array<Byte>, v: seq<Byte>)
    requires |v| == data.Length
    modifies data
    ensures data[..] == v
  {
    for i := 0 to data.Length
      invariant forall j :: 0 <= j < i ==> data[j] == v[j]
    {
      data[i] := v[i];
    }
  }

  // ------------------------------------------------- the plain description

  /** The small permutation, on the bits of its buffer. */
  datatype Small = Small(apply: seq<bool> -> seq<bool>, invert: seq<bool> -> seq<bool>)

  function Applied(f: Small, x: seq<bool>): seq<bool> { (f.apply)(x) }

  function Inverted(f: Small, x: seq<bool>): seq<bool> { (f.invert)(x) }

  ghost predicate InvertibleAt(f: Small, x: seq<bool>) {
    && |Applied(f, x)| == |Inverted(f, x)| == |x|
    && Inverted(f, Applied(f, x)) == x && Applied(f, Inverted(f, x)) == x
  }

  ghost predicate SmallOk(f: Small, n: nat) {
    forall x {:trigger InvertibleAt(f, x)} :: |x| == n ==> InvertibleAt(f, x)
  }

  /** n bits of the small permutation, N bits of state, step s, and which of the two parties it is for. */
  datatype Params = Params(n: nat, N: nat, s: nat, party: bool)

  /** The number of rounds. */
  function Rounds(q: Params): (r: nat)
    requires 0 < q.s && q.n < q.N
    ensures r >= 3
  {
    5 * ((q.N - q.n) / q.s + 1) - 2
  }

  /** The window moves by s bits a round; the rounds are five times as many as it takes to move it over the rest of the
      state, less two. */
  lemma {:induction false} RoundsCover(q: Params) returns (t: nat)
    requires 0 < q.s && q.n < q.N
    ensures t > 0 && Rounds(q) + 2 == 5 * t && (t - 1) * q.s <= q.N - q.n < t * q.s
  {
    var rest := q.N - q.n;
    t := rest / q.s + 1;
    assert rest == (t - 1) * q.s + rest % q.s;
  }

  /** Bit b of a number. */
  predicate BitOf(v: nat, b: nat) {
    if b == 0 then v % 2 == 1 else BitOf(v / 2, b - 1)
  }

  /** `bitsNeeded` */
  function BitsNeeded(x: nat): (bits: nat)
    ensures bits >= 1
  {
    if x / 2 == 0 then 1 else BitsNeeded(x / 2) + 1
  }

  /** The constant of a round: its number, and a further bit for the second party. */
  predicate ConstantBit(q: Params, round: nat, b: nat)
    requires 0 < q.s && q.n < q.N
  {
    BitOf(round, b) != (q.party && b == BitsNeeded(Rounds(q) - 1))
  }

  function AddConstant(q: Params, x: seq<bool>, round: nat): (r: seq<bool>)
    requires 0 < q.s <= q.n < q.N == |x|
    ensures |r| == |x|
    ensures forall i :: 0 <= i < |x| ==> r[i] == (x[i] != (q.s <= i < q.n && ConstantBit(q, round, i - q.s)))
  {
    seq(|x|, i requires 0 <= i < |x| => x[i] != (q.s <= i < q.n && ConstantBit(q, round, i - q.s)))
  }

  function PermuteFirst(f: Small, n: nat, x: seq<bool>): (r: seq<bool>)
    requires SmallOk(f, n) && n <= |x|
    ensures |r| == |x|
  {
    assert InvertibleAt(f, x[..n]);
    Applied(f, x[..n]) + x[n..]
  }

  function UnpermuteFirst(f: Small, n: nat, x: seq<bool>): (r: seq<bool>)
    requires SmallOk(f, n) && n <= |x|
    ensures |r| == |x|
  {
    assert InvertibleAt(f, x[..n]);
    Inverted(f, x[..n]) + x[n..]
  }

  function RotateLeft(x: seq<bool>, s: nat): (r: seq<bool>)
    requires s <= |x|
    ensures |r| == |x|
  { x[s..] + x[..s] }

  function RotateRight(x: seq<bool>, s: nat): (r: seq<bool>)
    requires s <= |x|
    ensures |r| == |x|
  { x[|x| - s..] + x[..|x| - s] }

  /** The state after the first rounds: permute, add the constant, rotate. */
  function Forward(f: Small, q: Params, x: seq<bool>, rounds: nat): (r: seq<bool>)
    requires SmallOk(f, q.n) && 0 < q.s <= q.n < q.N == |x|
    ensures |r| == q.N
    decreases rounds
  {
    if rounds == 0 then x
    else RotateLeft(AddConstant(q, PermuteFirst(f, q.n, Forward(f, q, x, rounds - 1)), rounds), q.s)
  }

  /** The wide permutation: all rounds, the last one without constant and rotation. */
  function Encrypted(f: Small, q: Params, x: seq<bool>): (r: seq<bool>)
    requires SmallOk(f, q.n) && 0 < q.s <= q.n < q.N == |x|
    ensures |r| == q.N
  {
    PermuteFirst(f, q.n, Forward(f, q, x, Rounds(q) - 1))
  }

  /** The inverse of the given number of rounds. */
  function Backward(f: Small, q: Params, x: seq<bool>, rounds: nat): (r: seq<bool>)
    requires SmallOk(f, q.n) && 0 < q.s <= q.n < q.N == |x|
    ensures |r| == q.N
    decreases rounds
  {
    if rounds == 0 then x
    else Backward(f, q, UnpermuteFirst(f, q.n, AddConstant(q, RotateRight(x, q.s), rounds)), rounds - 1)
  }

  function Decrypted(f: Small, q: Params, x: seq<bool>): (r: seq<bool>)
    requires SmallOk(f, q.n) && 0 < q.s <= q.n < q.N == |x|
    ensures |r| == q.N
  {
    Backward(f, q, UnpermuteFirst(f, q.n, x), Rounds(q) - 1)
  }

  lemma {:induction false} FirstUndone(f: Small, n: nat, x: seq<bool>)
    requires SmallOk(f, n) && n <= |x|
    ensures UnpermuteFirst(f, n, PermuteFirst(f, n, x)) == x && PermuteFirst(f, n, UnpermuteFirst(f, n, x)) == x
  {
    var y, z := PermuteFirst(f, n, x), UnpermuteFirst(f, n, x);
    assert InvertibleAt(f, x[..n]);
    assert y[..n] == Applied(f, x[..n]) && y[n..] == x[n..];
    assert z[..n] == Inverted(f, x[..n]) && z[n..] == x[n..];
    assert x[..n] + x[n..] == x;
  }

  lemma {:induction false} RotateBack(x: seq<bool>, s: nat)
    requires s <= |x|
    ensures RotateRight(RotateLeft(x, s), s) == x && RotateLeft(RotateRight(x, s), s) == x
  {
  }

  lemma {:induction false} ConstantTwice(q: Params, x: seq<bool>, round: nat)
    requires 0 < q.s <= q.n < q.N == |x|
    ensures AddConstant(q, AddConstant(q, x, round), round) == x
  {
  }

  lemma {:induction false} RoundUndone(f: Small, q: Params, x: seq<bool>, round: nat)
    requires SmallOk(f, q.n) && 0 < q.s <= q.n < q.N == |x|
    ensures var y := RotateLeft(AddConstant(q, PermuteFirst(f, q.n, x), round), q.s);
            UnpermuteFirst(f, q.n, AddConstant(q, RotateRight(y, q.s), round)) == x
  {
    FirstUndone(f, q.n, x);
    var p := PermuteFirst(f, q.n, x);
    var y := RotateLeft(AddConstant(q, p, round), q.s);
    RotateBack(AddConstant(q, p, round), q.s);
    ConstantTwice(q, p, round);
  }

  lemma {:induction false} BackwardForward(f: Small, q: Params, x: seq<bool>, rounds: nat)
    requires SmallOk(f, q.n) && 0 < q.s <= q.n < q.N == |x|
    ensures Backward(f, q, Forward(f, q, x, rounds), rounds) == x
    decreases rounds
  {
    if rounds > 0 {
      RoundUndone(f, q, Forward(f, q, x, rounds - 1), rounds);
      BackwardForward(f, q, x, rounds - 1);
    }
  }

  /** Decrypting undoes encrypting, for every small permutation and either party. */
  lemma {:induction false} DecryptEncrypt(f: Small, q: Params, x: seq<bool>)
    requires SmallOk(f, q.n) && 0 < q.s <= q.n < q.N == |x|
    ensures Decrypted(f, q, Encrypted(f, q, x)) == x
  {
    var y := Forward(f, q, x, Rounds(q) - 1);
    FirstUndone(f, q.n, y);
    BackwardForward(f, q, x, Rounds(q) - 1);
  }

  lemma {:induction false} RoundRedone(f: Small, q: Params, y: seq<bool>, round: nat)
    requires SmallOk(f, q.n) && 0 < q.s <= q.n < q.N == |y|
    ensures var x := UnpermuteFirst(f, q.n, AddConstant(q, RotateRight(y, q.s), round));
            RotateLeft(AddConstant(q, PermuteFirst(f, q.n, x), round), q.s) == y
  {
    var z := RotateRight(y, q.s);
    FirstUndone(f, q.n, AddConstant(q, z, round));
    ConstantTwice(q, z, round);
    RotateBack(y, q.s);
  }

  lemma {:induction false} ForwardBackward(f: Small, q: Params, y: seq<bool>, rounds: nat)
    requires SmallOk(f, q.n) && 0 < q.s <= q.n < q.N == |y|
    ensures Forward(f, q, Backward(f, q, y, rounds), rounds) == y
    decreases rounds
  {
    if rounds > 0 {
      RoundRedone(f, q, y, rounds);
      ForwardBackward(f, q, UnpermuteFirst(f, q.n, AddConstant(q, RotateRight(y, q.s), rounds)), rounds - 1);
    }
  }

  /** Encrypting undoes decrypting too, so that the wide permutation is a bijection. */
  lemma {:induction false} EncryptDecrypt(f: Small, q: Params, y: seq<bool>)
    requires SmallOk(f, q.n) && 0 < q.s <= q.n < q.N == |y|
    ensures Encrypted(f, q, Decrypted(f, q, y)) == y
  {
    FirstUndone(f, q.n, y);
    ForwardBackward(f, q, UnpermuteFirst(f, q.n, y), Rounds(q) - 1);
  }

  lemma {:induction false} ForwardStep(f: Small, q: Params, x: seq<bool>, y: seq<bool>, round: nat)
    requires SmallOk(f, q.n) && 0 < q.s <= q.n < q.N == |x| && round > 0 && y == Forward(f, q, x, round - 1)
    ensures RotateLeft(AddConstant(q, PermuteFirst(f, q.n, y), round), q.s) == Forward(f, q, x, round)
  {
  }

  lemma {:induction false} BackwardStep(f: Small, q: Params, x: seq<bool>, round: nat)
    requires SmallOk(f, q.n) && 0 < q.s <= q.n < q.N == |x| && round > 0
    ensures Backward(f, q, x, round)
      == Backward(f, q, UnpermuteFirst(f, q.n, AddConstant(q, RotateRight(x, q.s), round)), round - 1)
  {
  }

  // ------------------------------------------------- the round constants

  /** The party bit lies above every round number. */
  lemma {:induction false} AboveRounds(x: nat, v: nat)
    requires v <= x
    ensures !BitOf(v, BitsNeeded(x))
    decreases x
  {
    if x / 2 != 0 { AboveRounds(x / 2, v / 2); }
  }

  lemma {:induction false} BitsDetermine(x: nat, a: nat, b: nat)
    requires a <= x && b <= x && forall i :: 0 <= i < BitsNeeded(x) ==> BitOf(a, i) == BitOf(b, i)
    ensures a == b
    decreases x
  {
    assert BitOf(a, 0) == BitOf(b, 0);
    if x / 2 != 0 {
      forall i | 0 <= i < BitsNeeded(x / 2) ensures BitOf(a / 2, i) == BitOf(b / 2, i) {
        assert BitOf(a, i + 1) == BitOf(b, i + 1);
      }
      BitsDetermine(x / 2, a / 2, b / 2);
    }
  }

  lemma {:induction false} SameBits(q: Params, other: Params, a: nat, b: nat, top: nat)
    requires 0 < q.s && q.n < q.N && other == q && top == BitsNeeded(Rounds(q) - 1)
    requires forall i :: 0 <= i <= top ==> ConstantBit(q, a, i) == ConstantBit(other, b, i)
    ensures forall i :: 0 <= i < top ==> BitOf(a, i) == BitOf(b, i)
  {
    forall i | 0 <= i < top ensures BitOf(a, i) == BitOf(b, i) {
      assert ConstantBit(q, a, i) == ConstantBit(other, b, i);
    }
  }

  /** No two rounds of either party use the same constant, if the party bit fits. */
  lemma {:induction false} ConstantsDistinct(q: Params, other: Params, a: nat, b: nat)
    requires 0 < q.s <= q.n < q.N && other == q.(party := other.party) && a < Rounds(q) && b < Rounds(q)
    requires BitsNeeded(Rounds(q) - 1) < q.n - q.s
    requires forall i :: 0 <= i < q.n - q.s ==> ConstantBit(q, a, i) == ConstantBit(other, b, i)
    ensures a == b && q == other
  {
    var top := BitsNeeded(Rounds(q) - 1);
    AboveRounds(Rounds(q) - 1, a);
    AboveRounds(Rounds(q) - 1, b);
    assert ConstantBit(q, a, top) == ConstantBit(other, b, top);
    assert q.party == other.party;
    SameBits(q, other, a, b, top);
    BitsDetermine(Rounds(q) - 1, a, b);
  }

  // ------------------------------------------------- the moving offset

  /** Moving the offset; it never needs more than one turn. */
  function Moved(i: nat, total: nat): (r: nat)
    requires i < 2 * total
    ensures r == Wrap(i, total)
  {
    i % total
  }

  /** Moving the offset rotates the state. */
  lemma {:induction false} MovedForward(data: seq<Byte>, off: nat, s: nat)
    requires AreBytes(data) && off < BYTE * |data| && s <= BYTE * |data|
    ensures View(data, Wrap(off + s, BYTE * |data|)) == RotateLeft(View(data, off), s)
  {
  }

  lemma {:induction false} MovedBack(data: seq<Byte>, off: nat, s: nat)
    requires AreBytes(data) && off < BYTE * |data| && 0 < s <= BYTE * |data|
    ensures View(data, Wrap(off + BYTE * |data| - s, BYTE * |data|)) == RotateRight(View(data, off), s)
  {
  }

  function ShiftedRight(v: nat, bits: nat): nat {
    if bits == 0 then v else ShiftedRight(v, bits - 1) / 2
  }

  lemma {:induction false} ShiftedBit(v: nat, bits: nat, b: nat)
    ensures BitOf(ShiftedRight(v, bits), b) == BitOf(v, bits + b)
    decreases bits
  {
    if bits > 0 { ShiftedBit(v, bits - 1, b + 1); }
  }

  lemma {:induction false} ZeroHasNoBits(b: nat)
    ensures !BitOf(0, b)
  {
    if b > 0 { ZeroHasNoBits(b - 1); }
  }

  /** The state with the low bits of the round number added. */
  ghost function PartlyAdded(q: Params, x: seq<bool>, round: nat, bits: nat): (r: seq<bool>)
    requires 0 < q.s <= q.n < q.N == |x|
    ensures |r| == |x|
    ensures forall i :: 0 <= i < |x| ==> r[i] == (x[i] != (q.s <= i < q.s + bits && BitOf(round, i - q.s)))
  {
    seq(|x|, i requires 0 <= i < |x| => x[i] != (q.s <= i < q.s + bits && BitOf(round, i - q.s)))
  }

  lemma {:induction false} PartlyStep(q: Params, x: seq<bool>, round: nat, bit: nat)
    requires 0 < q.s <= q.n < q.N == |x| && q.s + bit < q.n
    ensures var before := PartlyAdded(q, x, round, bit);
            PartlyAdded(q, x, round, bit + 1) == if BitOf(round, bit) then before[q.s + bit := !before[q.s + bit]]
              else before
  {
  }

  /** Flips the bit at the given distance from the start of the constant. */
  method FlipAt(q: Params, data: array<Byte>, off: nat, start: nat, bit: nat)
    requires AreBytes(data[..]) && 0 < q.s <= q.n < q.N == BYTE * data.Length && off < q.N
    requires start == Wrap(off + q.s, q.N) && q.s + bit < q.n
    modifies data
    ensures AreBytes(data[..])
    ensures View(data[..], off) == View(old(data[..]), off)[q.s + bit := !View(old(data[..]), off)[q.s + bit]]
  {
    ghost var before := data[..];
    var idx := Wrap(start + bit, q.N);
    assert idx == Wrap(q.s + bit + off, q.N);
    WriteBit(data, idx, !BitAt(data[..], idx));
    forall i | 0 <= i < q.N
      ensures View(data[..], off)[i] == View(before, off)[q.s + bit := !View(before, off)[q.s + bit]][i]
    {
      assert Wrap(i + off, q.N) == idx <==> i == q.s + bit;
    }
  }

  method XorCounterBit(
      q: Params, data: array<Byte>, off: nat, start: nat, ghost round: nat, bit: nat, v: nat, ghost x: seq<bool>)
    requires AreBytes(data[..]) && 0 < q.s <= q.n < q.N == BYTE * data.Length == |x| && off < q.N
    requires start == Wrap(off + q.s, q.N)
    requires v == ShiftedRight(round, bit) && q.s + bit < q.n && View(data[..], off) == PartlyAdded(q, x, round, bit)
    modifies data
    ensures AreBytes(data[..]) && View(data[..], off) == PartlyAdded(q, x, round, bit + 1)
  {
    ShiftedBit(round, bit, 0);
    PartlyStep(q, x, round, bit);
    if v % 2 == 1 {
      FlipAt(q, data, off, start, bit);
    }
  }

  /** The loop of `xorRound`: adds the bits of the round number that fit. */
  method XorCounter(q: Params, data: array<Byte>, off: nat, start: nat, round: nat)
    requires AreBytes(data[..]) && 0 < q.s <= q.n < q.N == BYTE * data.Length && off < q.N
    requires start == Wrap(off + q.s, q.N)
    modifies data
    ensures AreBytes(data[..]) && View(data[..], off) == PartlyAdded(q, View(old(data[..]), off), round, q.n - q.s)
  {
    ghost var x := View(data[..], off);
    var len, bit, v := q.n - q.s, 0, round;
    while v != 0 && bit < len
      invariant 0 <= bit <= len && v == ShiftedRight(round, bit) && AreBytes(data[..])
      invariant View(data[..], off) == PartlyAdded(q, x, round, bit)
      decreases len - bit
    {
      XorCounterBit(q, data, off, start, round, bit, v, x);
      v, bit := v / 2, bit + 1;
    }
    AllAdded(q, x, round, bit, v);
  }

  /** `xorRound` */
  method XorRound(q: Params, data: array<Byte>, off: nat, round: nat)
    requires AreBytes(data[..]) && 0 < q.s <= q.n < q.N == BYTE * data.Length && off < q.N
    modifies data
    ensures AreBytes(data[..]) && View(data[..], off) == AddConstant(q, View(old(data[..]), off), round)
  {
    var start := Wrap(off + q.s, q.N);
    XorCounter(q, data, off, start, round);
    var roundBits := BitsNeeded(Rounds(q) - 1);
    if q.party && roundBits < q.n - q.s {
      FlipAt(q, data, off, start, roundBits);
    }
  }

  lemma {:induction false} AllAdded(q: Params, x: seq<bool>, round: nat, bit: nat, v: nat)
    requires 0 < q.s <= q.n < q.N == |x| && bit <= q.n - q.s && v == ShiftedRight(round, bit)
    requires (v == 0 || bit == q.n - q.s)
    ensures PartlyAdded(q, x, round, bit) == PartlyAdded(q, x, round, q.n - q.s)
  {
    forall i | 0 <= i < |x| ensures PartlyAdded(q, x, round, bit)[i] == PartlyAdded(q, x, round, q.n - q.s)[i] {
      if q.s + bit <= i < q.n {
        ShiftedBit(round, bit, i - q.s - bit);
        ZeroHasNoBits(i - q.s - bit);
      }
    }
  }

  /** The bytes of a sequence of bits. */
  function Packed(bits: seq<bool>, bytes: nat): (r: seq<Byte>)
    requires |bits| == BYTE * bytes
    ensures |r| == bytes && AreBytes(r) && View(r, 0) == bits
  {
    var r := seq(bytes, i requires 0 <= i < bytes => bits[BYTE * i..BYTE * i + BYTE]);
    assert forall i :: 0 <= i < |bits| ==> BitAt(r, i) == bits[i];
    r
  }

  /** `applyShift` and `applyInvShift`: the small permutation, or its inverse, on the first n bits of the state. */
  method ApplyShift(f: Small, q: Params, data: array<Byte>, off: nat, buf: array<Byte>, inverse: bool)
    requires SmallOk(f, q.n) && AreBytes(data[..]) && AreBytes(buf[..]) && off < q.N == BYTE * data.Length
    requires q.n == BYTE * buf.Length <= q.N && data != buf
    modifies data, buf
    ensures AreBytes(data[..]) && AreBytes(buf[..])
    ensures View(data[..], off) ==
      var x := View(old(data[..]), off); if inverse then UnpermuteFirst(f, q.n, x) else PermuteFirst(f, q.n, x)
  {
    PackShifted(data, off, buf);
    var bits := BitsOf(buf[..]);
    assert InvertibleAt(f, bits);
    Overwrite(buf, Packed(if inverse then Inverted(f, bits) else Applied(f, bits), buf.Length));
    UnpackShifted(buf, data, off);
  }

  function BitsOf(data: seq<Byte>): (r: seq<bool>)
    requires AreBytes(data)
    ensures r == View(data, 0)
  {
    seq(BYTE * |data|, i requires 0 <= i < BYTE * |data| => BitAt(data, i))
  }

  /** One round: the permutation, the constant, and the offset in place of the rotation. */
  method EncryptRound(f: Small, q: Params, data: array<Byte>, off: nat, buf: array<Byte>, round: nat)
    returns (next: nat)
    requires SmallOk(f, q.n) && AreBytes(data[..]) && AreBytes(buf[..]) && off < q.N == BYTE * data.Length
    requires 0 < q.s <= q.n == BYTE * buf.Length < q.N && data != buf
    modifies data, buf
    ensures AreBytes(data[..]) && AreBytes(buf[..]) && next < q.N
    ensures View(data[..], next)
      == RotateLeft(AddConstant(q, PermuteFirst(f, q.n, View(old(data[..]), off)), round), q.s)
  {
    ghost var x := View(data[..], off);
    ApplyShift(f, q, data, off, buf, false);
    ghost var y := View(data[..], off);
    XorRound(q, data, off, round);
    ghost var z := View(data[..], off);
    assert z == AddConstant(q, y, round) && y == PermuteFirst(f, q.n, x);
    next := Moved(off + q.s, q.N);
    MovedForward(data[..], off, q.s);
    assert View(data[..], next) == RotateLeft(z, q.s);
  }

  method DecryptRound(f: Small, q: Params, data: array<Byte>, off: nat, buf: array<Byte>, round: nat)
    returns (next: nat)
    requires SmallOk(f, q.n) && AreBytes(data[..]) && AreBytes(buf[..]) && off < q.N == BYTE * data.Length
    requires 0 < q.s <= q.n == BYTE * buf.Length < q.N && data != buf
    modifies data, buf
    ensures AreBytes(data[..]) && AreBytes(buf[..]) && next < q.N
    ensures View(data[..], next)
      == UnpermuteFirst(f, q.n, AddConstant(q, RotateRight(View(old(data[..]), off), q.s), round))
  {
    ghost var x := View(data[..], off);
    next := Moved(off + q.N - q.s, q.N);
    MovedBack(data[..], off, q.s);
    ghost var y := View(data[..], next);
    assert y == RotateRight(x, q.s);
    XorRound(q, data, next, round);
    ghost var z := View(data[..], next);
    assert z == AddConstant(q, y, round);
    ApplyShift(f, q, data, next, buf, true);
    assert View(data[..], next) == UnpermuteFirst(f, q.n, z);
  }

  /** All rounds but the last one. */
  method EncryptRounds(f: Small, q: Params, data: array<Byte>, buf: array<Byte>) returns (off: nat)
    requires SmallOk(f, q.n) && AreBytes(data[..]) && AreBytes(buf[..]) && data != buf
    requires 0 < q.s <= q.n == BYTE * buf.Length < q.N == BYTE * data.Length
    modifies data, buf
    ensures AreBytes(data[..]) && AreBytes(buf[..]) && off < q.N
    ensures View(data[..], off) == Forward(f, q, View(old(data[..]), 0), Rounds(q) - 1)
  {
    ghost var x := View(data[..], 0);
    ghost var y := x;
    off := 0;
    for round := 1 to Rounds(q)
      invariant AreBytes(data[..]) && AreBytes(buf[..]) && off < q.N && View(data[..], off) == y
      invariant y == Forward(f, q, x, round - 1)
    {
      off := EncryptRound(f, q, data, off, buf, round);
      ForwardStep(f, q, x, y, round);
      y := View(data[..], off);
    }
  }

  /** `encryptBytes` computes the plain description. */
  method EncryptBytes(f: Small, q: Params, data: array<Byte>)
    requires SmallOk(f, q.n) && AreBytes(data[..]) && q.n % BYTE == 0 && 0 < q.s <= q.n < q.N == BYTE * data.Length
    modifies data
    ensures AreBytes(data[..]) && View(data[..], 0) == Encrypted(f, q, View(old(data[..]), 0))
  {
    var buf := new Byte[q.n / BYTE](_ => seq(BYTE, _ => false));
    var off := EncryptRounds(f, q, data, buf);
    ghost var y := View(data[..], off);
    ApplyShift(f, q, data, off, buf, false);
    ghost var z := View(data[..], off);
    assert z == PermuteFirst(f, q.n, y);
    Materialize(data, off);
    assert View(data[..], 0) == z;
  }

  /** `decryptBytes` computes the plain inverse, and so gives back what `encryptBytes` was given. */
  method DecryptBytes(f: Small, q: Params, data: array<Byte>)
    requires SmallOk(f, q.n) && AreBytes(data[..]) && q.n % BYTE == 0 && 0 < q.s <= q.n < q.N == BYTE * data.Length
    modifies data
    ensures AreBytes(data[..]) && View(data[..], 0) == Decrypted(f, q, View(old(data[..]), 0))
  {
    ghost var x := View(data[..], 0);
    var off: nat := 0;
    var buf := new Byte[q.n / BYTE](_ => seq(BYTE, _ => false));
    ApplyShift(f, q, data, off, buf, true);
    var round := Rounds(q) - 1;
    while round >= 1
      invariant 0 <= round < Rounds(q) && AreBytes(data[..]) && AreBytes(buf[..]) && off < q.N
      invariant Backward(f, q, View(data[..], off), round) == Decrypted(f, q, x)
    {
      BackwardStep(f, q, View(data[..], off), round);
      off := DecryptRound(f, q, data, off, buf, round);
      round := round - 1;
    }
    Materialize(data, off);
  }

  lemma {:induction false} ViewInjective(a: seq<Byte>, b: seq<Byte>)
    requires AreBytes(a) && AreBytes(b) && |a| == |b| && View(a, 0) == View(b, 0)
    ensures a == b
  {
    forall i | 0 <= i < |a| ensures a[i] == b[i] {
      forall o | 0 <= o < BYTE ensures a[i][o] == b[i][o] {
        var j := BYTE * i + o;
        assert j / BYTE == i && j % BYTE == o;
        assert View(a, 0)[j] == View(b, 0)[j];
      }
    }
  }

  /** Both, one after the other, leave the buffer as it was. */
  method EncryptThenDecrypt(f: Small, q: Params, data: array<Byte>)
    requires SmallOk(f, q.n) && AreBytes(data[..]) && q.n % BYTE == 0 && 0 < q.s <= q.n < q.N == BYTE * data.Length
    modifies data
    ensures data[..] == old(data[..])
  {
    ghost var before := data[..];
    EncryptBytes(f, q, data);
    DecryptBytes(f, q, data);
    DecryptEncrypt(f, q, View(before, 0));
    ViewInjective(data[..], before);
  }
}
