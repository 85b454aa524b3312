/** SNEIK-f512 (thirdparty/sneik/sneik_f512.c) and its inverse (`invert` of permutation/sneik.h), on the bytes of the
    state, and as a small permutation for `ConsPi`. */
module Sneik {
  import opened BitOps
  import opened Words32
  import opened SneikLinear
  import opened SneikRounds
  import ConsPi

  const MAX_ROUNDS := 16
  const STATE_BYTES := 64
  const STATE_BITS := 512

  type U32 = x: Word | IsWord(x) witness seq(BITS, _ => false)

  // ------------------------------------------------- the mixing of one word

  function MixedWord(x: U32, before: U32, before2: U32, after: U32, after2: U32): U32 {
    Xor(LinB(Plus(Xor(LinA(Plus(x, before)), before2), after2)), after)
  }

  function UnmixedWord(y: U32, before: U32, before2: U32, after: U32, after2: U32): U32 {
    Minus(InvLinA(Xor(Minus(InvLinB(Xor(y, after)), after2), before2)), before)
  }

  lemma {:induction false} UnmixedMixed(x: U32, before: U32, before2: U32, after: U32, after2: U32)
    ensures UnmixedWord(MixedWord(x, before, before2, after, after2), before, before2, after, after2) == x
  {
    var a := Plus(x, before);
    var b := Xor(LinA(a), before2);
    var c := Plus(b, after2);
    XorLaws(LinB(c), after);
    InvLinUndo(c);
    MinusPlus(b, after2);
    XorLaws(LinA(a), before2);
    InvLinUndo(a);
    MinusPlus(x, before);
  }

  lemma {:induction false} MixedUnmixed(y: U32, before: U32, before2: U32, after: U32, after2: U32)
    ensures MixedWord(UnmixedWord(y, before, before2, after, after2), before, before2, after, after2) == y
  {
    var a := InvLinB(Xor(y, after));
    var b := Xor(Minus(a, after2), before2);
    MinusPlus(InvLinA(b), before);
    InvLinUndo(b);
    XorLaws(Minus(a, after2), before2);
    MinusPlus(a, after2);
    InvLinUndo(Xor(y, after));
    XorLaws(y, after);
  }

  const MIXING: Mixer<U32> := Mixer<U32>.Mixer(
    (x: U32, before: U32, before2: U32, after: U32, after2: U32) => MixedWord(x, before, before2, after, after2),
    (y: U32, before: U32, before2: U32, after: U32, after2: U32) => UnmixedWord(y, before, before2, after, after2),
    (x: U32, c: U32) => Xor(x, c))

  lemma {:induction false} MixingLaws(x: U32, before: U32, before2: U32, after: U32, after2: U32)
    ensures MixLaws(MIXING, x, before, before2, after, after2)
  {
    UnmixedMixed(x, before, before2, after, after2);
    MixedUnmixed(x, before, before2, after, after2);
  }

  lemma {:induction false} MixingOk()
    ensures MixerOk(MIXING)
  {
    forall x: U32, before: U32, before2: U32, after: U32, after2: U32
      ensures MixLaws(MIXING, x, before, before2, after, after2)
    {
      MixingLaws(x, before, before2, after, after2);
    }
    forall x: U32, c: U32 ensures SneikRounds.AddLaws(MIXING, x, c) {
      XorLaws(x, c);
    }
  }

  // ------------------------------------------------- constants

  const ROUND_CONSTANTS: seq<nat> :=
    [0xEF, 0xE0, 0xD9, 0xD6, 0xBA, 0xB5, 0x8C, 0x83, 0x10, 0x1F, 0x26, 0x29, 0x45, 0x4A, 0x73, 0x7C]

  predicate Bit(v: nat, unit: nat)
    requires unit > 0
  {
    v / unit % 2 == 1
  }

  function Differ(a: nat, b: nat, unit: nat): nat
    requires unit > 0
  {
    if Bit(a, unit) != Bit(b, unit) then 1 else 0
  }

  /** In how many bits two bytes differ. */
  function Distance(a: nat, b: nat): nat {
    Differ(a, b, 1) + Differ(a, b, 2) + Differ(a, b, 4) + Differ(a, b, 8) +
    Differ(a, b, 16) + Differ(a, b, 32) + Differ(a, b, 64) + Differ(a, b, 128)
  }

  /** Every bit of a constant is a sum of bits of its index, up to a complement. */
  lemma {:induction false} ConstantBits(i: nat)
    requires i < MAX_ROUNDS
    ensures var c, x, y, z, w := ROUND_CONSTANTS[i], Bit(i, 1), Bit(i, 2), Bit(i, 4), Bit(i, 8);
      && Bit(c, 1) != (x == (z == w)) && Bit(c, 2) != (x == (y == w))
      && Bit(c, 4) == (x == (y == (z == w))) && Bit(c, 8) == (x == w)
      && Bit(c, 16) == (y == (z == w)) && Bit(c, 32) == (y == w)
      && Bit(c, 64) == (z == w) && Bit(c, 128) == !w
  {
  }

  lemma {:induction false} IndexFromBits(i: nat)
    requires i < 16
    ensures i == (if Bit(i, 1) then 1 else 0) + (if Bit(i, 2) then 2 else 0) + (if Bit(i, 4) then 4 else 0)
      + if Bit(i, 8) then 8 else 0
  {
  }

  /** The later constants are the complements of the first eight, those of the small permutation, and any two constants
      differ in at least four of their eight bits. */
  lemma {:induction false} ConstantsApart()
    ensures |ROUND_CONSTANTS| == MAX_ROUNDS == 2 * ROUNDS
    ensures forall i :: 0 <= i < ROUNDS ==> ROUND_CONSTANTS[i] + ROUND_CONSTANTS[i + ROUNDS] == 0xFF
    ensures forall i, j :: 0 <= i < j < MAX_ROUNDS ==> Distance(ROUND_CONSTANTS[i], ROUND_CONSTANTS[j]) >= 4
  {
    forall i, j | 0 <= i < j < MAX_ROUNDS ensures Distance(ROUND_CONSTANTS[i], ROUND_CONSTANTS[j]) >= 4 {
      ConstantBits(i);
      ConstantBits(j);
      IndexFromBits(i);
      IndexFromBits(j);
    }
  }

  /** The constants of the first rounds. */
  function Constants(rounds: nat): (r: seq<U32>)
    requires rounds <= MAX_ROUNDS
    ensures |r| == rounds && forall i :: 0 <= i < rounds ==> r[i] == FromNat(ROUND_CONSTANTS[i], BITS)
  {
    seq(rounds, i requires 0 <= i < rounds => FromNat(ROUND_CONSTANTS[i], BITS))
  }

  // ------------------------------------------------- the state as bits

  function ToWords(bits: seq<bool>): (v: seq<U32>)
    requires |bits| == STATE_BITS
    ensures |v| == WORDS && forall i :: 0 <= i < WORDS ==> v[i] == bits[BITS * i..BITS * i + BITS]
  {
    seq(WORDS, i requires 0 <= i < WORDS => bits[BITS * i..BITS * i + BITS])
  }

  function FromWords(v: seq<U32>): (bits: seq<bool>)
    requires |v| == WORDS
    ensures |bits| == STATE_BITS && forall q :: 0 <= q < STATE_BITS ==> bits[q] == v[q / BITS][q % BITS]
  {
    seq(STATE_BITS, q requires 0 <= q < STATE_BITS => v[q / BITS][q % BITS])
  }

  lemma {:induction false} WordsRoundTrip(bits: seq<bool>, v: seq<U32>)
    requires |bits| == STATE_BITS && |v| == WORDS
    ensures FromWords(ToWords(bits)) == bits && ToWords(FromWords(v)) == v
  {
    forall i | 0 <= i < WORDS ensures ToWords(FromWords(v))[i] == v[i] {
      forall o | 0 <= o < BITS ensures ToWords(FromWords(v))[i][o] == v[i][o] {
        assert (BITS * i + o) / BITS == i && (BITS * i + o) % BITS == o;
      }
    }
  }

  /** SNEIK-f512 and its inverse on the 512 bits of the state. */
  function Permute(bits: seq<bool>, dom: U32, rounds: nat): (r: seq<bool>)
    requires |bits| == STATE_BITS && rounds <= MAX_ROUNDS
    ensures |r| == STATE_BITS
  {
    FromWords(Forward(MIXING, ToWords(bits), Constants(rounds), dom))
  }

  function Unpermute(bits: seq<bool>, dom: U32, rounds: nat): (r: seq<bool>)
    requires |bits| == STATE_BITS && rounds <= MAX_ROUNDS
    ensures |r| == STATE_BITS
  {
    FromWords(Backward(MIXING, ToWords(bits), Constants(rounds), dom))
  }

  /** For every state, every domain byte and every number of rounds that has constants, each undoes the other. */
  lemma {:induction false} UnpermutePermute(bits: seq<bool>, dom: U32, rounds: nat)
    requires |bits| == STATE_BITS && rounds <= MAX_ROUNDS
    ensures Unpermute(Permute(bits, dom, rounds), dom, rounds) == bits
    ensures Permute(Unpermute(bits, dom, rounds), dom, rounds) == bits
  {
    MixingOk();
    var v, rcs := ToWords(bits), Constants(rounds);
    BackwardForward(MIXING, v, rcs, dom);
    WordsRoundTrip(bits, Forward(MIXING, v, rcs, dom));
    WordsRoundTrip(bits, Backward(MIXING, v, rcs, dom));
  }

  /** As the small permutation of a wide one. */
  const DOMAIN: U32 := seq(BITS, _ => false)
  const ROUNDS := 8

  const SMALL: ConsPi.Small := ConsPi.Small(
    x => if |x| == STATE_BITS then Permute(x, DOMAIN, ROUNDS) else x,
    x => if |x| == STATE_BITS then Unpermute(x, DOMAIN, ROUNDS) else x)

  lemma {:induction false} SmallIsOk()
    ensures ConsPi.SmallOk(SMALL, STATE_BITS)
  {
    forall x | |x| == STATE_BITS ensures ConsPi.InvertibleAt(SMALL, x) {
      UnpermutePermute(x, DOMAIN, ROUNDS);
    }
  }

  // ------------------------------------------------- bytes and words

  function Widened(b: ConsPi.Byte): (r: U32)
    requires ConsPi.IsByte(b)
    ensures r == b + seq(24, _ => false)
  {
    b + seq(24, _ => false)
  }

  /** `load32` */
  function Load32(b0: ConsPi.Byte, b1: ConsPi.Byte, b2: ConsPi.Byte, b3: ConsPi.Byte): (r: U32)
    requires ConsPi.IsByte(b0) && ConsPi.IsByte(b1) && ConsPi.IsByte(b2) && ConsPi.IsByte(b3)
    ensures r == b0 + b1 + b2 + b3
  {
    Or(Or(Or(Widened(b0), Shl(Widened(b1), 8)), Shl(Widened(b2), 16)), Shl(Widened(b3), 24))
  }

  /** The low byte of x >> s. */
  function StoreByte(x: U32, s: nat): (r: ConsPi.Byte)
    requires s <= 24
    ensures ConsPi.IsByte(r) && forall i :: 0 <= i < 8 ==> r[i] == x[s + i]
  {
    Shr(x, s)[..8]
  }

  method LoadWords(state: array<ConsPi.Byte>) returns (vec: array<U32>)
    requires state.Length == STATE_BYTES && ConsPi.AreBytes(state[..])
    ensures fresh(vec) && vec.Length == WORDS && vec[..] == ToWords(ConsPi.BitsOf(state[..]))
  {
    vec := new U32[WORDS](_ => seq(BITS, _ => false));
    for i := 0 to WORDS
      invariant forall j :: 0 <= j < i ==>
        vec[j] == state[4 * j] + state[4 * j + 1] + state[4 * j + 2] + state[4 * j + 3]
    {
      vec[i] := Load32(state[4 * i], state[4 * i + 1], state[4 * i + 2], state[4 * i + 3]);
    }
    forall i | 0 <= i < WORDS ensures vec[i] == ToWords(ConsPi.BitsOf(state[..]))[i] {
      WordIsBytes(state[..], i);
    }
  }

  lemma {:induction false} BitOfFour(a: ConsPi.Byte, b: ConsPi.Byte, c: ConsPi.Byte, d: ConsPi.Byte, o: nat)
    requires |a| == |b| == |c| == |d| == ConsPi.BYTE && o < BITS
    ensures (a + b + c + d)[o] == [a, b, c, d][o / 8][o % 8]
  {
  }

  lemma {:induction false} WordIsBytes(state: seq<ConsPi.Byte>, i: nat)
    requires |state| == STATE_BYTES && ConsPi.AreBytes(state) && i < WORDS
    ensures ToWords(ConsPi.BitsOf(state))[i] == state[4 * i] + state[4 * i + 1] + state[4 * i + 2] + state[4 * i + 3]
  {
    forall o | 0 <= o < BITS
      ensures ToWords(ConsPi.BitsOf(state))[i][o]
        == (state[4 * i] + state[4 * i + 1] + state[4 * i + 2] + state[4 * i + 3])[o]
    {
      var q := BITS * i + o;
      assert q / 8 == 4 * i + o / 8 && q % 8 == o % 8;
      assert ConsPi.BitAt(state, q) == state[4 * i + o / 8][o % 8];
      BitOfFour(state[4 * i], state[4 * i + 1], state[4 * i + 2], state[4 * i + 3], o);
    }
  }

  method StoreWords(vec: array<U32>, state: array<ConsPi.Byte>)
    requires state.Length == STATE_BYTES && vec.Length == WORDS && ConsPi.AreBytes(state[..])
    modifies state
    ensures ConsPi.AreBytes(state[..]) && ConsPi.BitsOf(state[..]) == FromWords(vec[..])
  {
    var v := vec[..];
    for i := 0 to WORDS
      invariant ConsPi.AreBytes(state[..])
      invariant forall q :: 0 <= q < 4 * i ==> state[q] == StoreByte(v[q / 4], 8 * (q % 4))
    {
      state[4 * i] := StoreByte(v[i], 0);
      state[4 * i + 1] := StoreByte(v[i], 8);
      state[4 * i + 2] := StoreByte(v[i], 16);
      state[4 * i + 3] := StoreByte(v[i], 24);
    }
    StoredBits(v, state[..]);
  }

  lemma {:induction false} StoredBits(v: seq<U32>, state: seq<ConsPi.Byte>)
    requires |v| == WORDS && |state| == STATE_BYTES && ConsPi.AreBytes(state)
    requires forall q :: 0 <= q < STATE_BYTES ==> state[q] == StoreByte(v[q / 4], 8 * (q % 4))
    ensures ConsPi.BitsOf(state) == FromWords(v)
  {
    forall q | 0 <= q < STATE_BITS ensures ConsPi.BitsOf(state)[q] == FromWords(v)[q] {
      assert (q / 8) / 4 == q / 32 && 8 * ((q / 8) % 4) + q % 8 == q % 32;
      assert ConsPi.BitAt(state, q) == state[q / 8][q % 8];
    }
  }

  // ------------------------------------------------- the two programs

  /** `sneik_f512` */
  method SneikF512(state: array<ConsPi.Byte>, dom: ConsPi.Byte, rounds: nat)
    requires state.Length == STATE_BYTES && ConsPi.AreBytes(state[..]) && ConsPi.IsByte(dom) && rounds <= MAX_ROUNDS
    modifies state
    ensures ConsPi.AreBytes(state[..])
    ensures ConsPi.BitsOf(state[..]) == Permute(ConsPi.BitsOf(old(state[..])), Widened(dom), rounds)
  {
    var sv := LoadWords(state);
    AllRounds(MIXING, sv, Constants(rounds), Widened(dom));
    StoreWords(sv, state);
  }

  /** The tables of the two inverse maps. They are always found. */
  method BuildTable(fn: Word -> Word) returns (table: seq<seq<Word>>, ghost inv: seq<Word>)
    requires Linear(fn) && SneikLinear.Injective(fn)
    ensures Inverts(fn, inv) && TableOk(table, inv)
  {
    var r := InvMatrix(fn);
    inv := r.value;
    table := InvTable(r.value);
  }

  /** The tables hold the inverses of the two maps. */
  ghost predicate TablesOk(tableA: seq<seq<Word>>, tableB: seq<seq<Word>>, invA: seq<Word>, invB: seq<Word>) {
    Inverts(MAP_A, invA) && TableOk(tableA, invA) && Inverts(MAP_B, invB) && TableOk(tableB, invB)
  }

  /** A mixer that unmixes as SNEIK does; the programs below are stated for any such mixer. */
  ghost predicate UnmixesAt(m: Mixer<U32>, y: U32, before: U32, before2: U32, after: U32, after2: U32) {
    Unmixed(m, y, before, before2, after, after2) == UnmixedWord(y, before, before2, after, after2)
  }

  ghost predicate AddsAt(m: Mixer<U32>, x: U32, c: U32) { Added(m, x, c) == Xor(x, c) }

  ghost predicate Unmixes(m: Mixer<U32>) {
    && (forall y, before, before2, after, after2 {:trigger UnmixesAt(m, y, before, before2, after, after2)} ::
          UnmixesAt(m, y, before, before2, after, after2))
    && (forall x, c {:trigger AddsAt(m, x, c)} :: AddsAt(m, x, c))
  }

  lemma {:induction false} MixingUnmixes()
    ensures Unmixes(MIXING)
  {
  }

  method UnmixValue(
      ghost m: Mixer<U32>, y: U32, before: U32, before2: U32, after: U32, after2: U32, tableA: seq<seq<Word>>,
      tableB: seq<seq<Word>>, ghost invA: seq<Word>, ghost invB: seq<Word>)
    returns (x: U32)
    requires Unmixes(m) && TablesOk(tableA, tableB, invA, invB)
    ensures x == Unmixed(m, y, before, before2, after, after2)
  {
    var b := Xor(y, after);
    var u := ApplyInv(b, tableB, invB);
    SlowIsClosed(invA, invB, b);
    var a := Xor(Minus(u, after2), before2);
    var w := ApplyInv(a, tableA, invA);
    SlowIsClosed(invA, invB, a);
    x := Minus(w, before);
    assert UnmixesAt(m, y, before, before2, after, after2);
  }

  /** One step of the inverse: word j is unmixed. */
  method UnmixWord(
      ghost m: Mixer<U32>, v: array<U32>, j: nat, tableA: seq<seq<Word>>, tableB: seq<seq<Word>>,
      ghost invA: seq<Word>, ghost invB: seq<Word>)
    requires Unmixes(m) && v.Length == WORDS && j < WORDS && TablesOk(tableA, tableB, invA, invB)
    modifies v
    ensures v[..] == Unmix(m, old(v[..]), j)
  {
    var x := UnmixValue(m, v[j], v[(j + 15) % WORDS], v[(j + 14) % WORDS], v[(j + 1) % WORDS], v[(j + 2) % WORDS],
      tableA, tableB, invA, invB);
    v[j] := x;
  }

  method UnmixWords(
      ghost m: Mixer<U32>, v: array<U32>, tableA: seq<seq<Word>>, tableB: seq<seq<Word>>, ghost invA: seq<Word>,
      ghost invB: seq<Word>)
    requires Unmixes(m) && v.Length == WORDS && TablesOk(tableA, tableB, invA, invB)
    modifies v
    ensures v[..] == UnmixFrom(m, old(v[..]), WORDS)
  {
    ghost var before := v[..];
    for j := WORDS downto 0
      invariant UnmixFrom(m, v[..], j) == UnmixFrom(m, before, WORDS)
    {
      UnmixWord(m, v, j, tableA, tableB, invA, invB);
    }
  }

  method AddRoundConstants(ghost m: Mixer<U32>, v: array<U32>, rc: U32, dom: U32)
    requires Unmixes(m) && v.Length == WORDS
    modifies v
    ensures v[..] == AddConstants(m, old(v[..]), rc, dom)
  {
    assert AddsAt(m, v[1], dom) && AddsAt(m, v[0], rc);
    v[1] := Xor(v[1], dom);
    v[0] := Xor(v[0], rc);
  }

  /** The round loop of `invert`. */
  method InvertWords(ghost m: Mixer<U32>, v: array<U32>, rcs: seq<U32>, dom: U32)
    requires Unmixes(m) && v.Length == WORDS
    modifies v
    ensures v[..] == Backward(m, old(v[..]), rcs, dom)
  {
    MapsLinear();
    MapsInjective();
    ghost var invA, invB;
    var tableA, tableB;
    tableA, invA := BuildTable(MAP_A);
    tableB, invB := BuildTable(MAP_B);
    ghost var start := v[..];
    assert rcs[..|rcs|] == rcs;
    for round := |rcs| downto 0
      invariant Backward(m, v[..], rcs[..round], dom) == Backward(m, start, rcs, dom)
    {
      BackwardStep(m, v[..], rcs, round, dom);
      UnmixWords(m, v, tableA, tableB, invA, invB);
      AddRoundConstants(m, v, rcs[round], dom);
    }
  }

  /** `invert` */
  method Invert(state: array<ConsPi.Byte>, dom: ConsPi.Byte, rounds: nat)
    requires state.Length == STATE_BYTES && ConsPi.AreBytes(state[..]) && ConsPi.IsByte(dom) && rounds <= MAX_ROUNDS
    modifies state
    ensures ConsPi.AreBytes(state[..])
    ensures ConsPi.BitsOf(state[..]) == Unpermute(ConsPi.BitsOf(old(state[..])), Widened(dom), rounds)
  {
    MixingUnmixes();
    var v := LoadWords(state);
    InvertWords(MIXING, v, Constants(rounds), Widened(dom));
    StoreWords(v, state);
  }

  /** The permutation, then its inverse: the bytes of the state are as before. */
  method PermuteThenInvert(state: array<ConsPi.Byte>, dom: ConsPi.Byte, rounds: nat)
    requires state.Length == STATE_BYTES && ConsPi.AreBytes(state[..]) && ConsPi.IsByte(dom) && rounds <= MAX_ROUNDS
    modifies state
    ensures state[..] == old(state[..])
  {
    ghost var before := state[..];
    SneikF512(state, dom, rounds);
    Invert(state, dom, rounds);
    UnpermutePermute(ConsPi.BitsOf(before), Widened(dom), rounds);
    ConsPi.ViewInjective(state[..], before);
  }
}
