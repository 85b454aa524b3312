/** The oblivious PRF (`RsOprfSender` and `RsOprfReceiver` of volePSI/RsOprf.cpp).

    A vector oblivious linear evaluation gives the receiver a and c, the sender b and d, with a + b = c * d. The
    receiver solves a table p of the binned key-value store that holds the hashes of its items, and sends p + c;
    because decoding is linear in the table, both parties then hold the same value at each of these items. */
module Oprf {
  import opened Prelude
  import opened Fields
  import Baxos

  /** The number of blocks in one message. */
  const CHUNK := 0x1000_0000

  const LANES := 8

  // ------------------------------------------------- the parameters

  /** `store` is the key-value store, whose keys are field elements; `fixed` is the fixed-key hash, `keyed` the keyed
      one, `digest` the commitment. */
  datatype Suite<!H, !F, !D> = Suite(store: Baxos.Params<F, H, F>, fixed: F -> F, keyed: (F, F) -> F, digest: F -> D)

  function FixedHash<H, F, D>(u: Suite<H, F, D>, x: F): F { (u.fixed)(x) }

  function KeyedHash<H, F, D>(u: Suite<H, F, D>, key: F, x: F): F { (u.keyed)(key, x) }

  function Digest<H, F, D>(u: Suite<H, F, D>, x: F): D { (u.digest)(x) }

  ghost predicate SuiteOk<H(!new), F(!new), D>(u: Suite<H, F, D>) { Baxos.ParamsOk(u.store) }

  /** The vector is a table of the store. */
  ghost predicate IsTable<H, F, D>(u: Suite<H, F, D>, table: seq<F>) {
    u.store.bins > 0 && |table| == u.store.bins * Baxos.SizePer(u.store)
  }

  /** What the store decodes x to. */
  ghost function Decoded<H, F, D>(u: Suite<H, F, D>, x: F, table: seq<F>): F
    requires IsTable(u, table)
  {
    Baxos.ValueAt(u.store, Baxos.HashOf(u.store, x), table)
  }

  // ------------------------------------------------- why the parties agree

  lemma {:induction false} NoZeroDivisors<F(!new)>(k: Field<F>, a: F, b: F)
    requires IsField(k)
    ensures Mul(k, a, b) == k.zero <==> a == k.zero || b == k.zero
  {
    MulZero(k, a);
    MulZero(k, b);
    if a != k.zero {
      assert MulLaws(k, a, Inv(k, a), b);
      assert MulLaws(k, Inv(k, a), a, b);
      MulOne(k, b);
      MulZero(k, Inv(k, a));
    }
  }

  ghost predicate IsVole<F>(k: Field<F>, a: seq<F>, b: seq<F>, c: seq<F>, d: F) {
    |a| == |b| == |c| && VecAdd(k, a, b) == VecScale(k, d, c)
  }

  /** The sender's vector after it has received p + c. */
  ghost function Masked<F>(k: Field<F>, b: seq<F>, d: F, p: seq<F>, c: seq<F>): (r: seq<F>)
    requires |b| == |p| == |c|
    ensures |r| == |b|
  {
    VecAdd(k, b, VecScale(k, d, VecAdd(k, p, c)))
  }

  /** The sender's value before the last hash, and the receiver's. */
  ghost function SenderValue<H(!new), F(!new), D>(u: Suite<H, F, D>, b: seq<F>, d: F, x: F): F
    requires IsTable(u, b)
  {
    Add(u.store.k, Decoded(u, x, b), Mul(u.store.k, d, FixedHash(u, x)))
  }

  lemma {:induction false} DecodedIsDot<H, F(!new), D>(u: Suite<H, F, D>, x: F, table: seq<F>)
    requires IsField(u.store.k) && IsTable(u, table)
    ensures Decoded(u, x, table) == Dot(u.store.k, Baxos.FullRow(u.store, Baxos.HashOf(u.store, x)), table)
  {
    Baxos.DecodingIsLinear(u.store, Baxos.HashOf(u.store, x), table);
  }

  /** For every x, whether in the receiver's set or not, the two values differ by d * (Decode(x, p) + h(x)). */
  lemma {:induction false} Difference<H(!new), F(!new), D>(
      u: Suite<H, F, D>, a: seq<F>, b: seq<F>, c: seq<F>, d: F, p: seq<F>, x: F)
    requires SuiteOk(u) && IsTable(u, p) && IsTable(u, a) && IsVole(u.store.k, a, b, c, d)
    ensures var b' := Masked(u.store.k, b, d, p, c);
            Add(u.store.k, SenderValue(u, b', d, x), Decoded(u, x, a))
              == Mul(u.store.k, d, Add(u.store.k, Decoded(u, x, p), FixedHash(u, x)))
  {
    var k, r := u.store.k, Baxos.FullRow(u.store, Baxos.HashOf(u.store, x));
    var A, B, C, P, H := Dot(k, r, a), Dot(k, r, b), Dot(k, r, c), Dot(k, r, p), FixedHash(u, x);
    DotAddRight(k, r, a, b);
    DotScaleRight(k, r, d, c);
    assert Add(k, A, B) == Mul(k, d, C);
    DotAddRight(k, r, p, c);
    DotScaleRight(k, r, d, VecAdd(k, p, c));
    DotAddRight(k, r, b, VecScale(k, d, VecAdd(k, p, c)));
    DecodedIsDot(u, x, p);
    DecodedIsDot(u, x, a);
    DecodedIsDot(u, x, VecAdd(k, b, VecScale(k, d, VecAdd(k, p, c))));
    DifferenceAlgebra(k, A, B, C, P, H, d);
  }

  lemma {:induction false} DifferenceAlgebra<F(!new)>(k: Field<F>, A: F, B: F, C: F, P: F, H: F, d: F)
    requires IsField(k) && Add(k, A, B) == Mul(k, d, C)
    ensures Add(k, Add(k, Add(k, B, Mul(k, d, Add(k, P, C))), Mul(k, d, H)), A) == Mul(k, d, Add(k, P, H))
  {
    var dp, dc, dh := Mul(k, d, P), Mul(k, d, C), Mul(k, d, H);
    assert MulLaws(k, d, P, C) && MulLaws(k, d, P, H);
    calc {
      Add(k, Add(k, Add(k, B, Add(k, dp, dc)), dh), A);
      { assert AddLaws(k, Add(k, B, Add(k, dp, dc)), dh, A) && AddLaws(k, dh, A, A); }
      Add(k, Add(k, B, Add(k, dp, dc)), Add(k, A, dh));
      { assert AddLaws(k, dp, dc, B); AddSwap(k, B, Add(k, dp, dc), A, dh); }
      Add(k, Add(k, B, A), Add(k, Add(k, dp, dc), dh));
      { assert AddLaws(k, A, B, B) && AddLaws(k, dp, dc, dh) && AddLaws(k, dc, dh, dh) && AddLaws(k, dc, dp, dh); }
      Add(k, dc, Add(k, dc, Add(k, dp, dh)));
      { AddCancel(k, Add(k, dp, dh), dc); }
      Add(k, dp, dh);
    }
  }

  /** So the two values are equal exactly when p decodes x to its hash, or d happens to be zero. */
  lemma {:induction false} AgreeIff<H(!new), F(!new), D>(
      u: Suite<H, F, D>, a: seq<F>, b: seq<F>, c: seq<F>, d: F, p: seq<F>, x: F)
    requires SuiteOk(u) && IsTable(u, p) && IsTable(u, a) && IsVole(u.store.k, a, b, c, d)
    ensures var b' := Masked(u.store.k, b, d, p, c);
            SenderValue(u, b', d, x) == Decoded(u, x, a) <==> d == u.store.k.zero || Decoded(u, x, p) == FixedHash(u, x)
  {
    var b' := Masked(u.store.k, b, d, p, c);
    Difference(u, a, b, c, d, p, x);
    AddEqZero(u.store.k, SenderValue(u, b', d, x), Decoded(u, x, a));
    AddEqZero(u.store.k, Decoded(u, x, p), FixedHash(u, x));
    NoZeroDivisors(u.store.k, d, Add(u.store.k, Decoded(u, x, p), FixedHash(u, x)));
  }

  // ------------------------------------------------- masking the table, chunk by chunk

  /** How many of size entries the loop over eight at a time handles. */
  function FullLanes(size: nat): (r: nat)
    ensures r <= size < r + LANES && r % LANES == 0
  {
    size / LANES * LANES
  }

  /** The table after c has been added to the entries from lo up to hi. */
  function MaskRange<F>(k: Field<F>, p: seq<F>, c: seq<F>, lo: nat, hi: nat): (r: seq<F>)
    requires |p| == |c| && hi <= |p|
    ensures |r| == |p| && forall i :: 0 <= i < |p| ==> r[i] == if lo <= i < hi then Add(k, p[i], c[i]) else p[i]
  {
    seq(|p|, i requires 0 <= i < |p| => if lo <= i < hi then Add(k, p[i], c[i]) else p[i])
  }

  function Prepend<F>(data: seq<F>, more: Option<seq<F>>): Option<seq<F>> {
    if more.Some? then Some(data + more.value) else None
  }

  lemma {:induction false} PrependTwice<F>(a: seq<F>, b: seq<F>, more: Option<seq<F>>)
    ensures Prepend(a, Prepend(b, more)) == Prepend(a + b, more) && Prepend([], more) == more
  {
    if more.Some? {
      assert a + (b + more.value) == a + b + more.value && [] + more.value == more.value;
    }
  }

  /** What the receiver sends from entry off on; None if it goes on to use a buffer that it has handed over. The size
      that ends the tail loop and selects the message is that of the rest of p, not that of the chunk. */
  function Stream<F>(k: Field<F>, p: seq<F>, c: seq<F>, off: nat, chunk: nat): (r: Option<seq<F>>)
    requires |p| == |c| && off <= |p| && chunk > 0
    decreases |p| - off
  {
    if off == |p| then Some([])
    else
      var size := Min(|p| - off, chunk);
      var rest := if |p| - off != size then |p| - off - size else |p| - off;
      var masked := MaskRange(k, p, c, off, off + Max(FullLanes(size), rest));
      if rest != size then
        Prepend(masked[off..off + size], Stream(k, masked, c, off + size, chunk))
      else if off + size == |p| then Some(masked[off..])
      else None
  }

  /** Below two chunks the stream is p + c. */
  lemma {:induction false} StreamMasks<F>(k: Field<F>, p: seq<F>, c: seq<F>, chunk: nat)
    requires |p| == |c| < 2 * chunk && chunk % LANES == 0
    ensures Stream(k, p, c, 0, chunk) == Some(VecAdd(k, p, c))
  {
    var n := |p|;
    if n > chunk {
      var masked := MaskRange(k, p, c, 0, chunk);
      assert FullLanes(chunk) == chunk;
      assert Stream(k, p, c, 0, chunk) == Prepend(masked[0..chunk], Stream(k, masked, c, chunk, chunk));
      StreamLast(k, masked, c, chunk, chunk);
      assert masked[0..chunk] + MaskRange(k, masked, c, chunk, n)[chunk..] == VecAdd(k, p, c);
    } else if n > 0 {
      StreamLast(k, p, c, 0, chunk);
      assert MaskRange(k, p, c, 0, n) == VecAdd(k, p, c);
    }
  }

  lemma {:induction false} StreamLast<F>(k: Field<F>, p: seq<F>, c: seq<F>, off: nat, chunk: nat)
    requires |p| == |c| && off < |p| <= off + chunk
    ensures Stream(k, p, c, off, chunk) == Some(MaskRange(k, p, c, off, |p|)[off..])
  {
    var size := |p| - off;
    assert Max(FullLanes(size), size) == size;
  }

  /** From two chunks on it is not: with p all zero and c all one, either a zero is sent in place of a one or a buffer
      is used after it was handed over. */
  lemma {:induction false} StreamBroken<F(!new)>(k: Field<F>, p: seq<F>, c: seq<F>, chunk: nat)
    requires IsField(k) && |p| == |c| >= 2 * chunk && chunk > 0 && chunk % LANES == 0
    requires forall i :: 0 <= i < |p| ==> p[i] == k.zero && c[i] == k.one
    ensures Stream(k, p, c, 0, chunk) != Some(VecAdd(k, p, c))
  {
    var n := |p|;
    assert FullLanes(chunk) == chunk;
    assert MulLaws(k, k.one, k.one, k.one);
    AddCancel(k, k.zero, k.one);
    if n > 2 * chunk {
      var masked := MaskRange(k, p, c, 0, n - chunk);
      var more := Stream(k, masked, c, chunk, chunk);
      assert Stream(k, p, c, 0, chunk) == Prepend(masked[0..chunk], more);
      SecondChunk(k, masked, c, chunk);
      if more.Some? {
        assert (masked[0..chunk] + more.value)[chunk] == more.value[0] == k.zero;
        assert VecAdd(k, p, c)[chunk] == k.one;
      }
    }
  }

  lemma {:induction false} SecondChunk<F>(k: Field<F>, p: seq<F>, c: seq<F>, chunk: nat)
    requires |p| == |c| > 2 * chunk > 0 && chunk % LANES == 0
    ensures var r := Stream(k, p, c, chunk, chunk);
            r.Some? ==> |r.value| > 0 && r.value[0] == Add(k, p[chunk], c[chunk])
  {
    assert FullLanes(chunk) == chunk;
  }

  ghost function Constant<F>(x: F, n: nat): (r: seq<F>)
    ensures |r| == n && forall i :: 0 <= i < n ==> r[i] == x
  {
    seq(n, _ => x)
  }

  /** The receiver's masking is right for all tables of a size if and only if the size is below two chunks. */
  lemma {:induction false} MaskingRightIff<F(!new)>(k: Field<F>, n: nat, chunk: nat)
    requires IsField(k) && chunk > 0 && chunk % LANES == 0
    ensures (forall p, c {:trigger Stream(k, p, c, 0, chunk)} :: |p| == |c| == n ==>
      Stream(k, p, c, 0, chunk) == Some(VecAdd(k, p, c)))
            <==> n < 2 * chunk
  {
    if n < 2 * chunk {
      forall p, c {:trigger Stream(k, p, c, 0, chunk)} | |p| == |c| == n
        ensures Stream(k, p, c, 0, chunk) == Some(VecAdd(k, p, c)) {
        StreamMasks(k, p, c, chunk);
      }
    } else {
      var p, c := Constant(k.zero, n), Constant(k.one, n);
      StreamBroken(k, p, c, chunk);
      assert Stream(k, p, c, 0, chunk) != Some(VecAdd(k, p, c));
    }
  }

  /** Adds c to the entries of p from lo up to hi: eight at a time while they last, then one by one. */
  method MaskEntries<F>(k: Field<F>, p: array<F>, c: seq<F>, lo: nat, main: nat, hi: nat)
    requires |c| == p.Length && lo + main <= p.Length && hi <= p.Length && main % LANES == 0
    modifies p
    ensures p[..] == MaskRange(k, old(p[..]), c, lo, Max(lo + main, hi))
  {
    ghost var before := p[..];
    var i := 0;
    while i < main
      invariant 0 <= i <= main && i % LANES == 0
      invariant p[..] == MaskRange(k, before, c, lo, lo + i)
    {
      for j := 0 to LANES
        invariant p[..] == MaskRange(k, before, c, lo, lo + i + j)
      {
        p[lo + i + j] := Add(k, p[lo + i + j], c[lo + i + j]);
      }
      i := i + LANES;
    }
    i := lo + main;
    while i < hi
      invariant lo + main <= i <= Max(lo + main, hi)
      invariant p[..] == MaskRange(k, before, c, lo, i)
    {
      p[i] := Add(k, p[i], c[i]);
      i := i + 1;
    }
  }

  method MaskChunk<F>(k: Field<F>, p: array<F>, c: seq<F>, off: nat, chunk: nat) returns (size: nat, rest: nat)
    requires |c| == p.Length && off < p.Length && chunk > 0
    modifies p
    ensures size == Min(p.Length - off, chunk) && rest == if p.Length - off != size then p.Length - off - size else size
    ensures p[..] == MaskRange(k, old(p[..]), c, off, off + Max(FullLanes(size), rest))
  {
    size := Min(p.Length - off, chunk);
    rest := if p.Length - off != size then p.Length - off - size else p.Length - off;
    MaskEntries(k, p, c, off, FullLanes(size), off + rest);
  }

  lemma {:induction false} StreamNext<F>(
      k: Field<F>, p: seq<F>, c: seq<F>, off: nat, chunk: nat, size: nat, rest: nat, masked: seq<F>)
    requires |p| == |c| && off < |p| && chunk > 0 && size == Min(|p| - off, chunk)
    requires rest == if |p| - off != size then |p| - off - size else |p| - off
    requires masked == MaskRange(k, p, c, off, off + Max(FullLanes(size), rest))
    ensures Stream(k, p, c, off, chunk) ==
            if rest != size then Prepend(masked[off..off + size], Stream(k, masked, c, off + size, chunk))
            else if off + size == |p| then Some(masked[off..]) else None
  {
  }

  /** Masks one chunk; what is left to be sent is then the stream of the masked table. */
  method MaskNext<F>(k: Field<F>, p: array<F>, c: seq<F>, off: nat, chunk: nat) returns (size: nat, rest: nat)
    requires |c| == p.Length && off < p.Length && chunk > 0
    modifies p
    ensures off + size <= p.Length && (rest != size ==> size > 0)
    ensures Stream(k, old(p[..]), c, off, chunk) ==
            if rest != size then Prepend(p[..][off..off + size], Stream(k, p[..], c, off + size, chunk))
            else if off + size == p.Length then Some(p[..][off..]) else None
  {
    ghost var before := p[..];
    size, rest := MaskChunk(k, p, c, off, chunk);
    StreamNext(k, before, c, off, chunk, size, rest, p[..]);
  }

  /** The masking loop of the receiver. None stands for the use of a buffer that was handed over. */
  method MaskAndSend<F>(k: Field<F>, p: array<F>, c: seq<F>, chunk: nat) returns (sent: Option<seq<F>>)
    requires |c| == p.Length && chunk > 0 && chunk % LANES == 0
    modifies p
    ensures sent == Stream(k, old(p[..]), c, 0, chunk)
  {
    ghost var all := Stream(k, p[..], c, 0, chunk);
    var off, data := 0, [];
    PrependTwice([], [], all);
    while off < p.Length
      invariant off <= p.Length && all == Prepend(data, Stream(k, p[..], c, off, chunk))
    {
      var size, rest := MaskNext(k, p, c, off, chunk);
      if rest != size {
        PrependTwice(data, p[..][off..off + size], Stream(k, p[..], c, off + size, chunk));
        data := data + p[..][off..off + size];
        off := off + size;
      } else if off + size == p.Length {
        return Some(data + p[..][off..]);
      } else {
        return None;
      }
    }
    assert data + [] == data;
    return Some(data);
  }

  // ------------------------------------------------- the sender

  class Sender<H(!new), F(!new), D(!new)> {
    const u: Suite<H, F, D>
    const malicious: bool
    var b: array<F>
    var d: F
    var w: F

    constructor (u: Suite<H, F, D>, malicious: bool, b: array<F>, d: F, w: F)
      ensures this.u == u && this.malicious == malicious && this.b == b && this.d == d && this.w == w
    {
      this.u, this.malicious, this.b, this.d, this.w := u, malicious, b, d, w;
    }

    ghost predicate Valid()
      reads this, b
    {
      SuiteOk(u) && IsTable(u, b[..])
    }

    /** Adds d times what was received to b, chunk by chunk. */
    method Absorb(received: seq<F>, chunk: nat)
      requires |received| == b.Length && chunk > 0
      modifies b
      ensures b[..] == VecAdd(u.store.k, old(b[..]), VecScale(u.store.k, d, received))
    {
      ghost var before := b[..];
      var off := 0;
      while off < b.Length
        invariant off <= b.Length
        invariant b[..] == Absorbed(before, received, off)
      {
        var size := Min(b.Length - off, chunk);
        AbsorbChunk(before, received, off, size);
        off := off + size;
      }
    }

    /** b with the first entries done. */
    ghost function Absorbed(before: seq<F>, received: seq<F>, upTo: nat): (r: seq<F>)
      requires |before| == |received|
      reads this
      ensures |r| == |before| && forall i :: 0 <= i < |r| ==>
        r[i] == if i < upTo then Add(u.store.k, before[i], Mul(u.store.k, d, received[i])) else before[i]
    {
      seq(|before|, i requires 0 <= i < |before| reads this =>
        if i < upTo then Add(u.store.k, before[i], Mul(u.store.k, d, received[i])) else before[i])
    }

    method AbsorbChunk(ghost before: seq<F>, received: seq<F>, off: nat, size: nat)
      requires |received| == |before| == b.Length && off + size <= b.Length && b[..] == Absorbed(before, received, off)
      modifies b
      ensures b[..] == Absorbed(before, received, off + size)
    {
      var main := FullLanes(size);
      var i := 0;
      while i < main
        invariant 0 <= i <= main && i % LANES == 0
        invariant b[..] == Absorbed(before, received, off + i)
      {
        for j := 0 to LANES
          invariant b[..] == Absorbed(before, received, off + i + j)
        {
          AbsorbOne(before, received, off + i + j);
        }
        i := i + LANES;
      }
      while i < size
        invariant main <= i <= size
        invariant b[..] == Absorbed(before, received, off + i)
      {
        AbsorbOne(before, received, off + i);
        i := i + 1;
      }
    }

    method AbsorbOne(ghost before: seq<F>, received: seq<F>, i: nat)
      requires |received| == |before| == b.Length && i < b.Length && b[..] == Absorbed(before, received, i)
      modifies b
      ensures b[..] == Absorbed(before, received, i + 1)
    {
      assert b[..][i] == before[i];
      b[i] := Add(u.store.k, b[i], Mul(u.store.k, d, received[i]));
    }

    /** The value of the function at x: the last hash over the sender's value. */
    ghost function Output(x: F): F
      requires Valid()
      reads this, b
    {
      var v := SenderValue(u, b[..], d, x);
      if malicious then KeyedHash(u, Add(u.store.k, v, w), x) else FixedHash(u, v)
    }

    /** The first i entries are outputs, the others still what the store decodes. */
    ghost predicate EvaluatedTo(xs: seq<F>, out: seq<F>, i: nat)
      requires Valid()
      reads this, b
    {
      |out| == |xs| && forall j :: 0 <= j < |xs| ==> out[j] == if j < i then Output(xs[j]) else Decoded(u, xs[j], b[..])
    }

    /** `eval`, with any number of threads. */
    method Eval(xs: seq<F>, threads: nat) returns (output: seq<F>)
      requires Valid()
      ensures |output| == |xs| && forall i :: 0 <= i < |xs| ==> output[i] == Output(xs[i])
      ensures forall i :: 0 <= i < |xs| ==>
        var v := Add(u.store.k, Decoded(u, xs[i], b[..]), Mul(u.store.k, d, (u.fixed)(xs[i])));
        output[i] == if malicious then (u.keyed)(Add(u.store.k, v, w), xs[i]) else (u.fixed)(v)
    {
      var out := new F[|xs|](_ => u.store.k.zero);
      Baxos.Decode(u.store, xs, b[..], false, out, threads);
      EvalEntries(xs, out);
      output := out[..];
    }

    /** Eight entries at a time while they last, then one by one. */
    method EvalEntries(xs: seq<F>, out: array<F>)
      requires Valid() && out != b && EvaluatedTo(xs, out[..], 0)
      modifies out
      ensures EvaluatedTo(xs, out[..], |xs|)
    {
      var main := FullLanes(|xs|);
      var i := 0;
      while i < main
        invariant 0 <= i <= main && i % LANES == 0 && EvaluatedTo(xs, out[..], i)
      {
        for j := 0 to LANES
          invariant EvaluatedTo(xs, out[..], i + j)
        {
          EvalOne(xs, out, i + j);
        }
        i := i + LANES;
      }
      while i < |xs|
        invariant main <= i <= |xs| && EvaluatedTo(xs, out[..], i)
      {
        EvalOne(xs, out, i);
        i := i + 1;
      }
    }

    method EvalOne(xs: seq<F>, out: array<F>, i: nat)
      requires Valid() && out != b && i < |xs| && EvaluatedTo(xs, out[..], i)
      modifies out
      ensures EvaluatedTo(xs, out[..], i + 1)
    {
      ghost var before := out[..];
      assert out[i] == before[i] == Decoded(u, xs[i], b[..]);
      var o := Add(u.store.k, out[i], Mul(u.store.k, d, FixedHash(u, xs[i])));
      if malicious {
        o := Add(u.store.k, o, w);
        o := KeyedHash(u, o, xs[i]);
      } else {
        o := FixedHash(u, o);
      }
      out[i] := o;
      assert out[..] == before[i := Output(xs[i])];
    }
  }

  /** Different values have different fixed-key hashes, and under different keys an item has different keyed ones. */
  ghost predicate Injective<H, F(!new), D>(u: Suite<H, F, D>) {
    && (forall v, v' {:trigger FixedHash(u, v), FixedHash(u, v')} :: FixedHash(u, v) == FixedHash(u, v') ==> v == v')
    && (forall v, v', x {:trigger KeyedHash(u, v, x), KeyedHash(u, v', x)} ::
          KeyedHash(u, v, x) == KeyedHash(u, v', x) ==> v == v')
  }

  /** Nothing that the last hash makes of two values is the same unless the values are. */
  lemma {:induction false} LastHashesAgreeIff<H, F(!new), D>(
      u: Suite<H, F, D>, malicious: bool, w: F, v: F, v': F, x: F)
    requires IsXorGroup(u.store.k) && Injective(u)
    ensures if malicious then (u.keyed)(Add(u.store.k, v, w), x) == (u.keyed)(Add(u.store.k, v', w), x) <==> v == v'
            else (u.fixed)(v) == (u.fixed)(v') <==> v == v'
  {
    if malicious {
      AddCancel(u.store.k, v, w);
      AddCancel(u.store.k, v', w);
      assert KeyedHash(u, Add(u.store.k, v, w), x) == KeyedHash(u, Add(u.store.k, v', w), x) ==>
          Add(u.store.k, v, w) == Add(u.store.k, v', w);
    } else {
      assert FixedHash(u, v) == FixedHash(u, v') ==> v == v';
    }
  }

  // ------------------------------------------------- the receiver

  function FixedHashes<H, F, D>(u: Suite<H, F, D>, xs: seq<F>): (hs: seq<F>)
    ensures |hs| == |xs| && forall i :: 0 <= i < |xs| ==> hs[i] == FixedHash(u, xs[i])
  {
    seq(|xs|, i requires 0 <= i < |xs| => FixedHash(u, xs[i]))
  }

  class Receiver<H(!new), F(!new, ==), D(!new, ==)> {
    const u: Suite<H, F, D>
    const malicious: bool
    var a: seq<F>
    var c: seq<F>

    constructor (u: Suite<H, F, D>, malicious: bool, a: seq<F>, c: seq<F>)
      ensures this.u == u && this.malicious == malicious && this.a == a && this.c == c
    {
      this.u, this.malicious, this.a, this.c := u, malicious, a, c;
    }

    ghost predicate Valid()
      reads this
    {
      SuiteOk(u) && IsTable(u, a) && IsTable(u, c)
    }

    /** The start of `receive`: the table that holds the hash of every item; per is the room of a thread in a bin. */
    method SolveTable(xs: seq<F>, threads: nat, per: nat, blank: H) returns (r: Baxos.SolveOutcome, p: array<F>)
      requires Valid()
      ensures fresh(p) && IsTable(u, p[..])
      ensures r.AllSolved? <==> Baxos.Solvable(u.store, Baxos.Hashes(u.store, xs), Max(threads, 1), per)
      ensures r.AllSolved? ==> forall i :: 0 <= i < |xs| ==> Decoded(u, xs[i], p[..]) == (u.fixed)(xs[i])
    {
      p := new F[|a|](_ => u.store.k.zero);
      r := Baxos.Solve(u.store, xs, FixedHashes(u, xs), p, threads, per, blank);
    }

    /** The end of `receive`. None stands for an exception: ws does not match the digest received before. */
    method Finish(xs: seq<F>, commitment: D, ws: F, wr: F, threads: nat) returns (outputs: Option<seq<F>>)
      requires Valid()
      ensures outputs.None? <==> malicious && commitment != Digest(u, ws)
      ensures outputs.Some? ==> |outputs.value| == |xs|
      ensures outputs.Some? ==> forall i :: 0 <= i < |xs| ==>
        var v := Decoded(u, xs[i], a);
        outputs.value[i] ==
          if malicious then (u.keyed)(Add(u.store.k, v, Add(u.store.k, ws, wr)), xs[i]) else (u.fixed)(v)
    {
      var buffer := new F[|xs|](_ => u.store.k.zero);
      Baxos.Decode(u.store, xs, a, false, buffer, threads);
      if malicious && commitment != Digest(u, ws) {
        return None;
      }
      var w, out := Add(u.store.k, ws, wr), buffer[..];
      for i := 0 to |xs|
        invariant |out| == |xs|
        invariant forall j :: i <= j < |xs| ==> out[j] == Decoded(u, xs[j], a)
        invariant forall j :: 0 <= j < i ==>
          var v := Decoded(u, xs[j], a);
          out[j] == if malicious then KeyedHash(u, Add(u.store.k, v, w), xs[j]) else FixedHash(u, v)
      {
        out := out[i := if malicious then KeyedHash(u, Add(u.store.k, out[i], w), xs[i]) else FixedHash(u, out[i])];
      }
      return Some(out);
    }
  }

  /** What a run starts from: both parties have the same parameters and hold the two parts of a correlation. */
  ghost predicate SetUp<H(!new), F(!new), D(!new)>(sender: Sender<H, F, D>, receiver: Receiver<H, F, D>)
    reads sender, sender.b, receiver
  {
    && sender.Valid() && receiver.Valid() && sender.u == receiver.u && sender.malicious == receiver.malicious
    && IsVole(sender.u.store.k, receiver.a, sender.b[..], receiver.c, sender.d)
  }

  /** The values of the two parties at x agree exactly if the table decodes x to its hash, or d is zero. */
  ghost predicate AgreeAt<H(!new), F(!new), D(!new)>(
      sender: Sender<H, F, D>, receiver: Receiver<H, F, D>, table: seq<F>, x: F)
    requires sender.Valid() && receiver.Valid() && sender.u == receiver.u && IsTable(sender.u, table)
    reads sender, sender.b, receiver
  {
    SenderValue(sender.u, sender.b[..], sender.d, x) == Decoded(sender.u, x, receiver.a) <==>
    sender.d == sender.u.store.k.zero || Decoded(sender.u, x, table) == FixedHash(sender.u, x)
  }

  /** The last hashes of the two parties at x, over what a decodes and over the sender's value, agree exactly if the
      table decodes x to its hash, or d is zero. */
  ghost predicate OutputsAgreeAt<H(!new), F(!new), D(!new)>(
      sender: Sender<H, F, D>, receiver: Receiver<H, F, D>, table: seq<F>, x: F)
    requires sender.Valid() && receiver.Valid() && sender.u == receiver.u && IsTable(sender.u, table)
    reads sender, sender.b, receiver
  {
    var u, v := sender.u, Decoded(sender.u, x, receiver.a);
    (if sender.malicious then (u.keyed)(Add(u.store.k, v, sender.w), x) else (u.fixed)(v)) == sender.Output(x) <==>
    sender.d == u.store.k.zero || Decoded(u, x, table) == (u.fixed)(x)
  }

  /** The messages after the table has been solved. */
  method Exchange<H(!new), F(!new, ==), D(!new, ==)>(
      sender: Sender<H, F, D>, receiver: Receiver<H, F, D>, xs: seq<F>, p: array<F>, ws: F, wr: F, threads: nat)
    returns (outputs: seq<F>)
    requires SetUp(sender, receiver) && p != sender.b && IsTable(sender.u, p[..]) && p.Length < 2 * CHUNK
    modifies sender`w, sender.b, p
    ensures sender.b == old(sender.b) && sender.d == old(sender.d) && sender.Valid() && |outputs| == |xs|
    ensures sender.b[..] == Masked(sender.u.store.k, old(sender.b[..]), sender.d, old(p[..]), receiver.c)
    ensures sender.w == Add(sender.u.store.k, wr, ws)
    ensures forall i :: 0 <= i < |xs| ==>
      var u, v := sender.u, Decoded(sender.u, xs[i], receiver.a);
      outputs[i] == if sender.malicious then (u.keyed)(Add(u.store.k, v, sender.w), xs[i]) else (u.fixed)(v)
  {
    var u := sender.u;
    ghost var b, table := sender.b[..], p[..];
    var commitment := Digest(u, ws);
    sender.w := Add(u.store.k, wr, ws);
    var sent := MaskAndSend(u.store.k, p, receiver.c, CHUNK);
    StreamMasks(u.store.k, table, receiver.c, CHUNK);
    sender.Absorb(sent.value, CHUNK);
    var r := receiver.Finish(xs, commitment, ws, wr, threads);
    assert AddLaws(u.store.k, ws, wr, wr);
    outputs := r.value;
  }

  /** The whole protocol after the correlation has been set up: the receiver solves its table, the parties exchange
      their messages, and the sender evaluates its function at items of its own.  The table is solved exactly if the
      store can hold the items.  Then the outputs of the receiver are the values of the sender's function at the
      receiver's items, so wherever the two parties have the same item they have the same output.  Anywhere else the
      values before the last hash, and the last hashes too if they are injective, agree exactly if the table happens to
      decode the item to its hash, or d is zero. */
  method Run<H(!new), F(!new, ==), D(!new, ==)>(
      sender: Sender<H, F, D>, receiver: Receiver<H, F, D>, xs: seq<F>, ys: seq<F>, ws: F, wr: F, threads: nat,
      per: nat, blank: H)
    returns (r: Baxos.SolveOutcome, outputs: seq<F>, evaluated: seq<F>, ghost table: seq<F>)
    requires SetUp(sender, receiver) && |receiver.a| < 2 * CHUNK
    modifies sender`w, sender.b
    ensures sender.Valid() && sender.b == old(sender.b) && sender.d == old(sender.d)
    ensures r.AllSolved? <==> Baxos.Solvable(sender.u.store, Baxos.Hashes(sender.u.store, xs), Max(threads, 1), per)
    ensures r.AllSolved? ==> sender.w == Add(sender.u.store.k, wr, ws)
    ensures r.AllSolved? ==> IsTable(sender.u, table)
    ensures r.AllSolved? ==> forall i :: 0 <= i < |xs| ==>
      Decoded(sender.u, xs[i], table) == (sender.u.fixed)(xs[i])
    ensures r.AllSolved? ==>
      sender.b[..] == Masked(sender.u.store.k, old(sender.b[..]), sender.d, table, receiver.c)
    ensures r.AllSolved? ==> |outputs| == |xs| && forall i :: 0 <= i < |xs| ==>
      var u, v := sender.u, SenderValue(sender.u, sender.b[..], sender.d, xs[i]);
      outputs[i] == if sender.malicious then (u.keyed)(Add(u.store.k, v, sender.w), xs[i]) else (u.fixed)(v)
    ensures r.AllSolved? ==> |outputs| == |xs| && forall i :: 0 <= i < |xs| ==> outputs[i] == sender.Output(xs[i])
    ensures r.AllSolved? ==> |evaluated| == |ys| && forall j :: 0 <= j < |ys| ==> evaluated[j] == sender.Output(ys[j])
    ensures r.AllSolved? ==> forall i, j :: 0 <= i < |xs| && 0 <= j < |ys| && xs[i] == ys[j] ==>
      outputs[i] == evaluated[j]
    ensures r.AllSolved? ==> forall x {:trigger AgreeAt(sender, receiver, table, x)} ::
      AgreeAt(sender, receiver, table, x)
    ensures r.AllSolved? && Injective(sender.u) ==> forall x {:trigger OutputsAgreeAt(sender, receiver, table, x)} ::
      OutputsAgreeAt(sender, receiver, table, x)
    ensures !r.AllSolved? ==> sender.b[..] == old(sender.b[..]) && sender.w == old(sender.w)
  {
    var u := sender.u;
    ghost var b := sender.b[..];
    var p;
    r, p := receiver.SolveTable(xs, threads, per, blank);
    if !r.AllSolved? {
      return r, [], [], [];
    }
    table := p[..];
    outputs := Exchange(sender, receiver, xs, p, ws, wr, threads);
    forall i | 0 <= i < |xs| ensures outputs[i] == sender.Output(xs[i]) {
      AgreeIff(u, receiver.a, b, receiver.c, sender.d, table, xs[i]);
    }
    forall x ensures AgreeAt(sender, receiver, table, x) {
      AgreeIff(u, receiver.a, b, receiver.c, sender.d, table, x);
    }
    if Injective(u) {
      forall x ensures OutputsAgreeAt(sender, receiver, table, x) {
        assert AgreeAt(sender, receiver, table, x);
        LastHashesAgreeIff(u, sender.malicious, sender.w, Decoded(u, x, receiver.a),
                           SenderValue(u, sender.b[..], sender.d, x), x);
      }
    }
    evaluated := sender.Eval(ys, threads);
  }
}
