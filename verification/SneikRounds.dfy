/** The round structure of SNEIK-f512 (thirdparty/sneik/sneik_f512.c) and of its inverse (permutation/sneik.h): sixteen
    words in a ring, each mixed in turn with two neighbours on either side.

    The mixing of a word is a parameter; all that matters here is that it can be undone while the neighbours are
    known. */
module SneikRounds {

  const WORDS := 16

  /** How a word is mixed with the one before it, the one before that, the one after it and the one after that; how
      this is undone; and how a constant is added. */
  datatype Mixer<!W> = Mixer(mix: (W, W, W, W, W) -> W, unmix: (W, W, W, W, W) -> W, add: (W, W) -> W)

  function Mixed<W>(m: Mixer<W>, x: W, before: W, before2: W, after: W, after2: W): W {
    (m.mix)(x, before, before2, after, after2)
  }

  function Unmixed<W>(m: Mixer<W>, y: W, before: W, before2: W, after: W, after2: W): W {
    (m.unmix)(y, before, before2, after, after2)
  }

  function Added<W>(m: Mixer<W>, x: W, c: W): W { (m.add)(x, c) }

  ghost predicate MixLaws<W>(m: Mixer<W>, x: W, before: W, before2: W, after: W, after2: W) {
    && Unmixed(m, Mixed(m, x, before, before2, after, after2), before, before2, after, after2) == x
    && Mixed(m, Unmixed(m, x, before, before2, after, after2), before, before2, after, after2) == x
  }

  ghost predicate AddLaws<W>(m: Mixer<W>, x: W, c: W) { Added(m, Added(m, x, c), c) == x }

  ghost predicate MixerOk<W(!new)>(m: Mixer<W>) {
    && (forall x, before, before2, after, after2 {:trigger MixLaws(m, x, before, before2, after, after2)} ::
          MixLaws(m, x, before, before2, after, after2))
    && (forall x, c {:trigger AddLaws(m, x, c)} :: AddLaws(m, x, c))
  }

  // ------------------------------------------------- mixing in place

  /** The word at distance d behind word j. */
  function At<W>(v: seq<W>, j: nat, d: nat): W
    requires |v| == WORDS
  {
    v[(j + d) % WORDS]
  }

  function Mix<W>(m: Mixer<W>, v: seq<W>, j: nat): (r: seq<W>)
    requires |v| == WORDS && j < WORDS
    ensures |r| == WORDS
  {
    v[j := Mixed(m, v[j], At(v, j, 15), At(v, j, 14), At(v, j, 1), At(v, j, 2))]
  }

  function Unmix<W>(m: Mixer<W>, v: seq<W>, j: nat): (r: seq<W>)
    requires |v| == WORDS && j < WORDS
    ensures |r| == WORDS
  {
    v[j := Unmixed(m, v[j], At(v, j, 15), At(v, j, 14), At(v, j, 1), At(v, j, 2))]
  }

  lemma {:induction false} UnmixMix<W(!new)>(m: Mixer<W>, v: seq<W>, j: nat)
    requires MixerOk(m) && |v| == WORDS && j < WORDS
    ensures Unmix(m, Mix(m, v, j), j) == v && Mix(m, Unmix(m, v, j), j) == v
  {
    assert MixLaws(m, v[j], At(v, j, 15), At(v, j, 14), At(v, j, 1), At(v, j, 2));
  }

  /** The first words mixed, in order. */
  function MixTo<W>(m: Mixer<W>, v: seq<W>, j: nat): (r: seq<W>)
    requires |v| == WORDS && j <= WORDS
    ensures |r| == WORDS
  {
    if j == 0 then v else Mix(m, MixTo(m, v, j - 1), j - 1)
  }

  /** The first words unmixed, last one first. */
  function UnmixFrom<W>(m: Mixer<W>, v: seq<W>, j: nat): (r: seq<W>)
    requires |v| == WORDS && j <= WORDS
    ensures |r| == WORDS
    decreases j
  {
    if j == 0 then v else UnmixFrom(m, Unmix(m, v, j - 1), j - 1)
  }

  lemma {:induction false} UnmixMixAll<W(!new)>(m: Mixer<W>, v: seq<W>, j: nat)
    requires MixerOk(m) && |v| == WORDS && j <= WORDS
    ensures UnmixFrom(m, MixTo(m, v, j), j) == v && MixTo(m, UnmixFrom(m, v, j), j) == v
    decreases j
  {
    if j > 0 {
      UnmixMix(m, MixTo(m, v, j - 1), j - 1);
      UnmixMixAll(m, v, j - 1);
      UnmixMix(m, v, j - 1);
      UnmixMixAll(m, Unmix(m, v, j - 1), j - 1);
    }
  }

  // ------------------------------------------------- rounds

  function AddConstants<W>(m: Mixer<W>, v: seq<W>, rc: W, dom: W): (r: seq<W>)
    requires |v| == WORDS
    ensures |r| == WORDS
  {
    v[0 := Added(m, v[0], rc)][1 := Added(m, v[1], dom)]
  }

  /** The state after the rounds with the given constants. */
  function Forward<W>(m: Mixer<W>, v: seq<W>, rcs: seq<W>, dom: W): (r: seq<W>)
    requires |v| == WORDS
    ensures |r| == WORDS
    decreases |rcs|
  {
    if rcs == [] then v
    else MixTo(m, AddConstants(m, Forward(m, v, rcs[..|rcs| - 1], dom), rcs[|rcs| - 1], dom), WORDS)
  }

  function Backward<W>(m: Mixer<W>, v: seq<W>, rcs: seq<W>, dom: W): (r: seq<W>)
    requires |v| == WORDS
    ensures |r| == WORDS
    decreases |rcs|
  {
    if rcs == [] then v
    else Backward(m, AddConstants(m, UnmixFrom(m, v, WORDS), rcs[|rcs| - 1], dom), rcs[..|rcs| - 1], dom)
  }

  lemma {:induction false} BackwardStep<W>(m: Mixer<W>, v: seq<W>, rcs: seq<W>, i: nat, dom: W)
    requires |v| == WORDS && i < |rcs|
    ensures Backward(m, v, rcs[..i + 1], dom)
      == Backward(m, AddConstants(m, UnmixFrom(m, v, WORDS), rcs[i], dom), rcs[..i], dom)
  {
    assert rcs[..i + 1][..i] == rcs[..i];
  }

  lemma {:induction false} ConstantsTwice<W(!new)>(m: Mixer<W>, v: seq<W>, rc: W, dom: W)
    requires MixerOk(m) && |v| == WORDS
    ensures AddConstants(m, AddConstants(m, v, rc, dom), rc, dom) == v
  {
    assert AddLaws(m, v[0], rc) && AddLaws(m, v[1], dom);
  }

  /** Going back undoes going forward, and the other way round, for any constants. */
  lemma {:induction false} BackwardForward<W(!new)>(m: Mixer<W>, v: seq<W>, rcs: seq<W>, dom: W)
    requires MixerOk(m) && |v| == WORDS
    ensures Backward(m, Forward(m, v, rcs, dom), rcs, dom) == v && Forward(m, Backward(m, v, rcs, dom), rcs, dom) == v
    decreases |rcs|
  {
    if rcs != [] {
      var init, rc := rcs[..|rcs| - 1], rcs[|rcs| - 1];
      var before := Forward(m, v, init, dom);
      UnmixMixAll(m, AddConstants(m, before, rc, dom), WORDS);
      ConstantsTwice(m, before, rc, dom);
      BackwardForward(m, v, init, dom);
      var u := UnmixFrom(m, v, WORDS);
      ConstantsTwice(m, u, rc, dom);
      UnmixMixAll(m, v, WORDS);
      BackwardForward(m, AddConstants(m, u, rc, dom), init, dom);
    }
  }

  // ------------------------------------------------- rolling registers

  /** Registers and array before word j is mixed: t0 is word j, t1 the next one, t2 and t3 those before; the array
      is up to date except for the words 0 and 1 while they have not been mixed in this round. */
  ghost predicate Rolling<W>(v: seq<W>, vec: seq<W>, j: nat, t0: W, t1: W, t2: W, t3: W) {
    && |v| == |vec| == WORDS && j <= WORDS
    && t0 == At(v, j, 0) && t1 == At(v, j, 1) && t2 == At(v, j, 14) && t3 == At(v, j, 15)
    && forall p :: 0 <= p < WORDS && (p >= 2 || p < j) ==> vec[p] == v[p]
  }

  /** `MIX_F` */
  method MixF<W>(m: Mixer<W>, ghost v: seq<W>, j: nat, vec: array<W>, t0: W, t1: W, t2: W, t3: W) returns (u0: W, u2: W)
    requires j < WORDS && vec.Length == WORDS && Rolling(v, vec[..], j, t0, t1, t2, t3)
    modifies vec
    ensures Rolling(Mix(m, v, j), vec[..], j + 1, t1, u2, t3, u0)
  {
    u2 := vec[(j + 2) % WORDS];
    u0 := Mixed(m, t0, t3, t2, t1, u2);
    vec[j] := u0;
  }

  /** Four words in a row; the registers change their roles and are back in place afterwards. */
  method MixFour<W>(m: Mixer<W>, ghost start: seq<W>, pos: nat, vec: array<W>, w0: W, w1: W, w2: W, w3: W)
    returns (x0: W, x1: W, x2: W, x3: W)
    requires |start| == WORDS == vec.Length && pos + 4 <= WORDS
    requires Rolling(MixTo(m, start, pos), vec[..], pos, w0, w1, w2, w3)
    modifies vec
    ensures Rolling(MixTo(m, start, pos + 4), vec[..], pos + 4, x0, x1, x2, x3)
  {
    x0, x1, x2, x3 := w0, w1, w2, w3;
    x0, x2 := MixF(m, MixTo(m, start, pos), pos, vec, x0, x1, x2, x3);
    x1, x3 := MixF(m, MixTo(m, start, pos + 1), pos + 1, vec, x1, x2, x3, x0);
    x2, x0 := MixF(m, MixTo(m, start, pos + 2), pos + 2, vec, x2, x3, x0, x1);
    x3, x1 := MixF(m, MixTo(m, start, pos + 3), pos + 3, vec, x3, x0, x1, x2);
  }

  /** One round: the constants go to the registers only, the words are mixed in four groups of four. */
  method MixRound<W>(m: Mixer<W>, ghost v: seq<W>, vec: array<W>, rc: W, dom: W, w0: W, w1: W, w2: W, w3: W)
    returns (x0: W, x1: W, x2: W, x3: W)
    requires vec.Length == WORDS && vec[..] == v && Rolling(v, v, 0, w0, w1, w2, w3)
    modifies vec
    ensures vec[..] == MixTo(m, AddConstants(m, v, rc, dom), WORDS) && Rolling(vec[..], vec[..], 0, x0, x1, x2, x3)
  {
    ghost var start := AddConstants(m, v, rc, dom);
    x0, x1, x2, x3 := Added(m, w0, rc), Added(m, w1, dom), w2, w3;
    var pos := 0;
    while pos < WORDS
      invariant 0 <= pos <= WORDS && pos % 4 == 0 && Rolling(MixTo(m, start, pos), vec[..], pos, x0, x1, x2, x3)
    {
      x0, x1, x2, x3 := MixFour(m, start, pos, vec, x0, x1, x2, x3);
      pos := pos + 4;
    }
  }

  /** The round loop of `sneik_f512`. */
  method AllRounds<W>(m: Mixer<W>, vec: array<W>, rcs: seq<W>, dom: W)
    requires vec.Length == WORDS
    modifies vec
    ensures vec[..] == Forward(m, old(vec[..]), rcs, dom)
  {
    ghost var v := vec[..];
    var w0, w1, w2, w3 := vec[0], vec[1], vec[14], vec[15];
    for i := 0 to |rcs|
      invariant vec[..] == Forward(m, v, rcs[..i], dom) && Rolling(vec[..], vec[..], 0, w0, w1, w2, w3)
    {
      assert rcs[..i + 1][..i] == rcs[..i];
      w0, w1, w2, w3 := MixRound(m, vec[..], vec, rcs[i], dom, w0, w1, w2, w3);
    }
    assert rcs[..|rcs|] == rcs;
  }
}
