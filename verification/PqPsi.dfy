/** The two-party run (pqpsi/protocols/recv.cpp and send.cpp).

    The receiver hides its public keys in a key-value store, the sender answers with a store of encapsulations, and
    the receiver counts the rows that decapsulate.  Permutation, mask and KEM are parameters; the stores are those of
    `RbFlat`, and each store travels over the channels of `Net`. */
module PqPsi {
  import opened Prelude
  import opened Fields
  import opened XorSystem
  import opened RbRows
  import opened RbCodec
  import opened RbFlat
  import Net
  import ConsPi

  type Byte = ConsPi.Byte

  // ------------------------------------------------- what the run depends on

  /** A wide-block permutation on rows. */
  datatype Perm<!F> = Perm(enc: seq<F> -> seq<F>, dec: seq<F> -> seq<F>)

  /** Encapsulation may fail on a row that is no public key; R is the randomness it draws. */
  datatype Kem<!F, !S, !R> = Kem(encap: (seq<F>, R) -> Option<seq<F>>, decap: (S, seq<F>) -> bool)

  /** How a block lies in memory. */
  datatype Layout<!F> = Layout(bytes: F -> seq<Byte>, block: seq<Byte> -> F)

  datatype Setup<!K, !F, !S, !R> = Setup(
    k: Field<F>, h: RbHash<K>, n: nat, w: nat, s: nat,
    mask: K -> seq<F>, pi: nat -> Perm<F>, bobPi: bool, kem: Kem<F, S, R>, layout: Layout<F>)

  function Permuted<F>(pi: Perm<F>, v: seq<F>): seq<F> { (pi.enc)(v) }

  function Unpermuted<F>(pi: Perm<F>, v: seq<F>): seq<F> { (pi.dec)(v) }

  function MaskFor<K, F, S, R>(c: Setup<K, F, S, R>, x: K): seq<F> { (c.mask)(x) }

  function Encap<K, F, S, R>(c: Setup<K, F, S, R>, pk: seq<F>, r: R): Option<seq<F>> { (c.kem.encap)(pk, r) }

  function Decap<K, F, S, R>(c: Setup<K, F, S, R>, sk: S, row: seq<F>): bool { (c.kem.decap)(sk, row) }

  function BytesOf<F>(l: Layout<F>, x: F): seq<Byte> { (l.bytes)(x) }

  function BlockOf<F>(l: Layout<F>, b: seq<Byte>): F { (l.block)(b) }

  const RECEIVER := 0
  const SENDER := 1

  /** The permutation of party me, and that of its peer. */
  function OwnPi<K, F, S, R>(c: Setup<K, F, S, R>, me: nat): Perm<F> { (c.pi)(me % 2) }

  function PeerPi<K, F, S, R>(c: Setup<K, F, S, R>, me: nat): Perm<F> { (c.pi)(1 - me % 2) }

  ghost predicate PermOk<F(!new)>(pi: Perm<F>, s: nat) {
    forall v {:trigger Permuted(pi, v)} {:trigger Unpermuted(pi, v)} :: |v| == s ==>
      |Permuted(pi, v)| == s && |Unpermuted(pi, v)| == s && Unpermuted(pi, Permuted(pi, v)) == v
  }

  ghost predicate MaskOk<K(!new), F, S, R>(c: Setup<K, F, S, R>) {
    forall x {:trigger MaskFor(c, x)} :: |MaskFor(c, x)| == c.s
  }

  ghost predicate EncapOk<K, F(!new), S, R(!new)>(c: Setup<K, F, S, R>) {
    forall pk, r {:trigger Encap(c, pk, r)} :: Encap(c, pk, r).Some? ==> |Encap(c, pk, r).value| == c.s
  }

  ghost predicate LayoutOk<F(!new)>(l: Layout<F>) {
    forall x {:trigger BytesOf(l, x)} :: |BytesOf(l, x)| == Net.BLOCK_BYTES && BlockOf(l, BytesOf(l, x)) == x
  }

  /** All but the permutations. */
  ghost predicate PartsOk<K(!new), F(!new), S, R(!new)>(c: Setup<K, F, S, R>) {
    ParamsOk(c.k, c.h, c.n, c.w) && c.s > 0 && MaskOk(c) && EncapOk(c) && LayoutOk(c.layout)
  }

  ghost predicate SetupOk<K(!new), F(!new), S, R(!new)>(c: Setup<K, F, S, R>) {
    PartsOk(c) && PermOk((c.pi)(0), c.s) && PermOk((c.pi)(1), c.s)
  }

  /** Each party undoes the permutation that the other one applies. */
  lemma {:induction false} PeerIsOwn<K, F, S, R>(c: Setup<K, F, S, R>)
    ensures OwnPi(c, RECEIVER) == PeerPi(c, SENDER) == (c.pi)(0)
    ensures OwnPi(c, SENDER) == PeerPi(c, RECEIVER) == (c.pi)(1)
  {
    assert SENDER % 2 == 1 && RECEIVER % 2 == 0;
  }

  // ------------------------------------------------- rows of a buffer

  ghost function RowsOf<F>(a: array<F>, m: nat, s: nat): (r: seq<seq<F>>)
    requires a.Length == m * s
    reads a
    ensures TableOk(r, m, s)
  {
    Unflatten(a[..], m, s)
  }

  method PutRow<F>(dst: array<F>, i: nat, ghost m: nat, s: nat, v: seq<F>)
    requires dst.Length == m * s && i < m && |v| == s
    modifies dst
    ensures RowsOf(dst, m, s) == old(RowsOf(dst, m, s))[i := v]
  {
    var row := Copied(v);
    WriteTableRow(row, dst, i, m, s);
  }

  method GetRow<F>(src: array<F>, i: nat, ghost m: nat, s: nat) returns (v: seq<F>)
    requires src.Length == m * s && i < m
    ensures v == RowsOf(src, m, s)[i]
  {
    SliceIsRow(src, m, s, i);
    v := src[i * s..i * s + s];
  }

  /** `precomputeMasks` */
  method PrecomputeMasks<K(!new), F(!new), S, R(!new)>(c: Setup<K, F, S, R>, items: seq<K>) returns (masks: array<F>)
    requires SetupOk(c)
    ensures fresh(masks) && masks.Length == |items| * c.s
    ensures forall x :: 0 <= x < |items| ==> RowsOf(masks, |items|, c.s)[x] == MaskFor(c, items[x])
  {
    masks := new F[|items| * c.s](_ => c.k.zero);
    for i := 0 to |items|
      invariant forall x :: 0 <= x < i ==> RowsOf(masks, |items|, c.s)[x] == MaskFor(c, items[x])
    {
      PutRow(masks, i, |items|, c.s, MaskFor(c, items[i]));
    }
  }

  // ------------------------------------------------- hiding rows

  /** row is v as it goes into a store: permuted, if so configured, and masked with the item. */
  ghost predicate Hides<K, F, S, R>(c: Setup<K, F, S, R>, pi: Perm<F>, wrap: bool, v: seq<F>, x: K, row: seq<F>) {
    var u := if wrap then Permuted(pi, v) else v;
    |u| == |MaskFor(c, x)| && row == VecAdd(c.k, u, MaskFor(c, x))
  }

  /** shown is what the other party makes of a row. */
  ghost predicate Shows<K, F, S, R>(c: Setup<K, F, S, R>, pi: Perm<F>, wrap: bool, row: seq<F>, x: K, shown: seq<F>) {
    |row| == |MaskFor(c, x)| &&
    var u := VecAdd(c.k, row, MaskFor(c, x));
    shown == if wrap then Unpermuted(pi, u) else u
  }

  /** Showing undoes hiding with the same item, and only that. */
  lemma {:induction false} ShowsHidden<K(!new), F(!new), S, R(!new)>(
      c: Setup<K, F, S, R>, pi: Perm<F>, wrap: bool, v: seq<F>, x: K, row: seq<F>, shown: seq<F>)
    requires SetupOk(c) && PermOk(pi, c.s) && |v| == c.s && Hides(c, pi, wrap, v, x, row)
    requires Shows(c, pi, wrap, row, x, shown)
    ensures shown == v
  {
    var u := if wrap then Permuted(pi, v) else v;
    VecLaws(c.k, u, MaskFor(c, x), u);
  }

  /** The loops of step 2 and 3 of the receiver and of steps 6 and 7 of the sender. */
  method HideRows<K(!new), F(!new), S, R(!new)>(
      c: Setup<K, F, S, R>, pi: Perm<F>, wrap: bool, items: seq<K>, src: array<F>, masks: array<F>, rows: array<F>)
    requires SetupOk(c) && PermOk(pi, c.s) && rows != src && rows != masks
    requires src.Length == masks.Length == rows.Length == |items| * c.s
    requires forall x :: 0 <= x < |items| ==> RowsOf(masks, |items|, c.s)[x] == MaskFor(c, items[x])
    modifies rows
    ensures forall x :: 0 <= x < |items| ==>
      Hides(c, pi, wrap, RowsOf(src, |items|, c.s)[x], items[x], RowsOf(rows, |items|, c.s)[x])
  {
    ghost var m, from := |items|, RowsOf(src, |items|, c.s);
    for i := 0 to |items|
      invariant RowsOf(src, m, c.s) == from
      invariant forall x :: 0 <= x < m ==> RowsOf(masks, m, c.s)[x] == MaskFor(c, items[x])
      invariant forall x :: 0 <= x < i ==> Hides(c, pi, wrap, from[x], items[x], RowsOf(rows, m, c.s)[x])
    {
      var v := GetRow(src, i, m, c.s);
      assert |v| == |MaskFor(c, items[i])| == c.s && (wrap ==> |Permuted(pi, v)| == c.s);
      PutRow(rows, i, m, c.s, if wrap then Permuted(pi, v) else v);
      AddToOutput(c.k, rows, i, m, masks, i, m, c.s);
    }
  }

  /** The loops of steps 3 and 4 of the sender and of steps 8 and 9 of the receiver. */
  method ShowRows<K(!new), F(!new), S, R(!new)>(
      c: Setup<K, F, S, R>, pi: Perm<F>, wrap: bool, items: seq<K>, masks: array<F>, rows: array<F>)
    requires SetupOk(c) && PermOk(pi, c.s) && rows != masks && masks.Length == rows.Length == |items| * c.s
    requires forall x :: 0 <= x < |items| ==> RowsOf(masks, |items|, c.s)[x] == MaskFor(c, items[x])
    modifies rows
    ensures forall x :: 0 <= x < |items| ==>
      Shows(c, pi, wrap, old(RowsOf(rows, |items|, c.s))[x], items[x], RowsOf(rows, |items|, c.s)[x])
  {
    ghost var m, from := |items|, RowsOf(rows, |items|, c.s);
    for i := 0 to |items|
      invariant forall x :: 0 <= x < m ==> RowsOf(masks, m, c.s)[x] == MaskFor(c, items[x])
      invariant forall x :: i <= x < m ==> RowsOf(rows, m, c.s)[x] == from[x]
      invariant forall x :: 0 <= x < i ==> Shows(c, pi, wrap, from[x], items[x], RowsOf(rows, m, c.s)[x])
    {
      AddToOutput(c.k, rows, i, m, masks, i, m, c.s);
      if wrap {
        var u := GetRow(rows, i, m, c.s);
        assert |Unpermuted(pi, u)| == c.s;
        PutRow(rows, i, m, c.s, Unpermuted(pi, u));
      }
    }
  }

  ghost function ValuesAt<K(!new), F(!new), S, R(!new)>(c: Setup<K, F, S, R>, table: seq<F>, items: seq<K>)
    : (r: seq<seq<F>>)
    requires SetupOk(c) && |table| == c.n * c.s
    ensures |r| == |items| && forall x :: 0 <= x < |items| ==> r[x] == ValueAt(c, table, items[x])
    ensures Rectangular(r, c.s)
  {
    seq(|items|, x requires 0 <= x < |items| => ValueAt(c, table, items[x]))
  }

  /** The table is the solution that elimination finds for the values that it holds, or the blank one if the bands are
      dependent.  So those values, or the blank table, settle every entry of it. */
  ghost predicate Canonical<K(!new), F(!new), S, R(!new)>(
      c: Setup<K, F, S, R>, items: seq<K>, blank: seq<F>, table: seq<F>)
    requires SetupOk(c)
  {
    && |table| == c.n * c.s
    && if BandsDependent(c.h, items, c.n, c.w) then table == blank
       else Solved(c.k, c.h, items, ValuesAt(c, table, items), c.n, c.w, c.s) == Some(Unflatten(table, c.n, c.s))
  }

  /** `RBEncode` into a buffer; its result is not looked at, so that a failed encoding leaves the buffer as it was. */
  method EncodeTable<K(!new), F(!new), S, R(!new)>(c: Setup<K, F, S, R>, items: seq<K>, rows: array<F>, buf0: seq<F>)
    returns (buf: seq<F>)
    requires SetupOk(c) && |items| > 0 && rows.Length == |items| * c.s && |buf0| == c.n * c.s
    ensures |buf| == c.n * c.s
    ensures BandsDependent(c.h, items, c.n, c.w) ==> buf == buf0
    ensures !BandsDependent(c.h, items, c.n, c.w) ==>
      forall x :: 0 <= x < |items| ==>
        DecodedValue(c.k, c.h, Unflatten(buf, c.n, c.s), items[x], c.n, c.w, c.s) == RowsOf(rows, |items|, c.s)[x]
    ensures Canonical(c, items, buf0, buf)
  {
    var r := FlatEncode(c.k, c.h, items, rows[..], c.s, c.n, c.w);
    buf := if r.Built? then r.table else buf0;
    assert r.Built? ==> ValuesAt(c, buf, items) == RowsOf(rows, |items|, c.s);
  }

  method DecodeTable<K(!new), F(!new), S, R(!new)>(c: Setup<K, F, S, R>, items: seq<K>, buf: seq<F>)
    returns (rows: array<F>)
    requires SetupOk(c) && |buf| == c.n * c.s
    ensures fresh(rows) && rows.Length == |items| * c.s
    ensures forall x :: 0 <= x < |items| ==>
      RowsOf(rows, |items|, c.s)[x] == DecodedValue(c.k, c.h, Unflatten(buf, c.n, c.s), items[x], c.n, c.w, c.s)
  {
    ExactSize(c.n, c.s);
    var d := FlatDecode(c.k, c.h, buf, c.s, items, c.n, c.w);
    rows := Copied(d.table);
  }

  // ------------------------------------------------- encapsulating and counting

  /** `encapRows`: one encapsulation per row; a row that is no public key ends the run. */
  method EncapRows<K(!new), F(!new), S, R(!new)>(c: Setup<K, F, S, R>, rows: array<F>, m: nat, rnd: seq<R>)
    returns (ok: bool, ct: array<F>)
    requires SetupOk(c) && rows.Length == m * c.s && |rnd| == m
    ensures fresh(ct) && ct.Length == m * c.s
    ensures ok <==> forall x :: 0 <= x < m ==> Encap(c, RowsOf(rows, m, c.s)[x], rnd[x]).Some?
    ensures ok ==> forall x :: 0 <= x < m ==> Encap(c, RowsOf(rows, m, c.s)[x], rnd[x]) == Some(RowsOf(ct, m, c.s)[x])
  {
    ct := new F[m * c.s](_ => c.k.zero);
    ghost var from := RowsOf(rows, m, c.s);
    for i := 0 to m
      invariant RowsOf(rows, m, c.s) == from
      invariant forall x :: 0 <= x < i ==> Encap(c, from[x], rnd[x]) == Some(RowsOf(ct, m, c.s)[x])
    {
      var v := GetRow(rows, i, m, c.s);
      var e := Encap(c, v, rnd[i]);
      if e.None? {
        return false, ct;
      }
      PutRow(ct, i, m, c.s, e.value);
    }
    return true, ct;
  }

  /** How many of the entries from a up to b hold. */
  ghost function CountIn(p: seq<bool>, a: nat, b: nat): nat
    requires a <= b <= |p|
    decreases b
  {
    if a == b then 0 else CountIn(p, a, b - 1) + if p[b - 1] then 1 else 0
  }

  lemma {:induction false} CountSplit(p: seq<bool>, a: nat, b: nat, e: nat)
    requires a <= b <= e <= |p|
    ensures CountIn(p, a, e) == CountIn(p, a, b) + CountIn(p, b, e)
    decreases e
  {
    if b < e { CountSplit(p, a, b, e - 1); }
  }

  /** Which rows decapsulate. */
  ghost function Hits<K, F, S, R>(c: Setup<K, F, S, R>, sk: seq<S>, rows: seq<seq<F>>): (r: seq<bool>)
    requires |sk| == |rows|
    ensures |r| == |sk| && forall i :: 0 <= i < |r| ==> r[i] == Decap(c, sk[i], rows[i])
  {
    seq(|sk|, i requires 0 <= i < |sk| => Decap(c, sk[i], rows[i]))
  }

  method CountRange<K, F(!new), S, R>(c: Setup<K, F, S, R>, sk: seq<S>, rows: array<F>, from: nat, to: nat)
    returns (hits: nat)
    requires rows.Length == |sk| * c.s && from <= to <= |sk|
    ensures hits == CountIn(Hits(c, sk, RowsOf(rows, |sk|, c.s)), from, to)
  {
    hits := 0;
    for i := from to to
      invariant hits == CountIn(Hits(c, sk, RowsOf(rows, |sk|, c.s)), from, i)
    {
      var v := GetRow(rows, i, |sk|, c.s);
      if Decap(c, sk[i], v) {
        hits := hits + 1;
      }
    }
  }

  /** `countDecapHits` and `countEcHits`: one loop, or one partial count per thread. */
  method CountHits<K, F(!new), S, R>(c: Setup<K, F, S, R>, sk: seq<S>, rows: array<F>, multiThread: bool, workers: nat)
    returns (hits: nat)
    requires rows.Length == |sk| * c.s && workers > 0
    ensures hits == CountIn(Hits(c, sk, RowsOf(rows, |sk|, c.s)), 0, |sk|)
  {
    if !multiThread || |sk| < 64 {
      hits := CountRange(c, sk, rows, 0, |sk|);
      return;
    }
    var threads := Min(workers, |sk|);
    var chunk := (|sk| + threads - 1) / threads;
    Net.EnoughPerPart(|sk|, threads);
    hits := CountParts(c, sk, rows, threads, chunk);
  }

  ghost function PartFrom(size: nat, t: nat, chunk: nat): nat { Min(size, t * chunk) }

  lemma {:induction false} PartsMeet(size: nat, t: nat, chunk: nat)
    ensures PartFrom(size, t, chunk) <= PartFrom(size, t + 1, chunk) <= size
    ensures PartFrom(size, t + 1, chunk) == Min(size, t * chunk + chunk)
  {
    assert (t + 1) * chunk == t * chunk + chunk;
  }

  ghost predicate PartialOk(p: seq<bool>, t: nat, chunk: nat, count: nat) {
    var a, b := PartFrom(|p|, t, chunk), PartFrom(|p|, t + 1, chunk);
    a <= b <= |p| && count == CountIn(p, a, b)
  }

  ghost predicate PartialsOk(p: seq<bool>, chunk: nat, partial: seq<nat>) {
    forall u {:trigger PartialOk(p, u, chunk, partial[u])} :: 0 <= u < |partial| ==> PartialOk(p, u, chunk, partial[u])
  }

  /** The count of each thread. */
  method CountPartials<K, F(!new), S, R>(c: Setup<K, F, S, R>, sk: seq<S>, rows: array<F>, threads: nat, chunk: nat)
    returns (partial: seq<nat>)
    requires rows.Length == |sk| * c.s
    ensures |partial| == threads && PartialsOk(Hits(c, sk, RowsOf(rows, |sk|, c.s)), chunk, partial)
  {
    ghost var p := Hits(c, sk, RowsOf(rows, |sk|, c.s));
    partial := [];
    for t := 0 to threads
      invariant |partial| == t && PartialsOk(p, chunk, partial)
    {
      PartsMeet(|sk|, t, chunk);
      var from := Min(|sk|, t * chunk);
      var to := Min(|sk|, t * chunk + chunk);
      var local := CountRange(c, sk, rows, from, to);
      OneMorePartial(p, chunk, partial, local);
      partial := partial + [local];
    }
  }

  lemma {:induction false} OneMorePartial(p: seq<bool>, chunk: nat, partial: seq<nat>, local: nat)
    requires PartialsOk(p, chunk, partial) && PartialOk(p, |partial|, chunk, local)
    ensures PartialsOk(p, chunk, partial + [local])
  {
    forall u | 0 <= u < |partial| + 1 ensures PartialOk(p, u, chunk, (partial + [local])[u]) {
      assert u < |partial| ==> PartialOk(p, u, chunk, partial[u]);
    }
  }

  method SumPartials(ghost p: seq<bool>, ghost chunk: nat, partial: seq<nat>) returns (hits: nat)
    requires PartialsOk(p, chunk, partial) && |partial| * chunk >= |p|
    ensures hits == CountIn(p, 0, |p|)
  {
    hits := 0;
    for t := 0 to |partial|
      invariant hits == CountIn(p, 0, PartFrom(|p|, t, chunk))
    {
      assert PartialOk(p, t, chunk, partial[t]);
      hits := hits + partial[t];
      CountSplit(p, 0, PartFrom(|p|, t, chunk), PartFrom(|p|, t + 1, chunk));
    }
  }

  method CountParts<K, F(!new), S, R>(c: Setup<K, F, S, R>, sk: seq<S>, rows: array<F>, threads: nat, chunk: nat)
    returns (hits: nat)
    requires rows.Length == |sk| * c.s && threads * chunk >= |sk|
    ensures hits == CountIn(Hits(c, sk, RowsOf(rows, |sk|, c.s)), 0, |sk|)
  {
    var partial := CountPartials(c, sk, rows, threads, chunk);
    hits := SumPartials(Hits(c, sk, RowsOf(rows, |sk|, c.s)), chunk, partial);
  }

  // ------------------------------------------------- a table on the wire

  /** x is byte q of the buffer. */
  ghost predicate ByteAt<F>(l: Layout<F>, v: seq<F>, q: nat, x: Byte) {
    && q < Net.BLOCK_BYTES * |v| && |BytesOf(l, v[q / Net.BLOCK_BYTES])| == Net.BLOCK_BYTES
    && x == BytesOf(l, v[q / Net.BLOCK_BYTES])[q % Net.BLOCK_BYTES]
  }

  /** The bytes of a buffer of blocks. */
  function Serialized<F(!new)>(l: Layout<F>, v: seq<F>): (b: seq<Byte>)
    requires LayoutOk(l)
    ensures |b| == Net.BLOCK_BYTES * |v|
    ensures forall q :: 0 <= q < |b| ==> ByteAt(l, v, q, b[q])
  {
    assert forall q :: 0 <= q < Net.BLOCK_BYTES * |v| ==> |BytesOf(l, v[q / Net.BLOCK_BYTES])| == Net.BLOCK_BYTES;
    seq(Net.BLOCK_BYTES * |v|, q
      requires 0 <= q < Net.BLOCK_BYTES * |v| && |BytesOf(l, v[q / Net.BLOCK_BYTES])| == Net.BLOCK_BYTES =>
      BytesOf(l, v[q / Net.BLOCK_BYTES])[q % Net.BLOCK_BYTES])
  }

  /** The blocks of a buffer of bytes. */
  function Deserialized<F>(l: Layout<F>, b: seq<Byte>): (v: seq<F>)
    requires |b| % Net.BLOCK_BYTES == 0
    ensures |v| == |b| / Net.BLOCK_BYTES
    ensures forall i :: 0 <= i < |v| ==>
      v[i] == BlockOf(l, b[Net.BLOCK_BYTES * i..Net.BLOCK_BYTES * i + Net.BLOCK_BYTES])
  {
    seq(|b| / Net.BLOCK_BYTES, i requires 0 <= i < |b| / Net.BLOCK_BYTES =>
      BlockOf(l, b[Net.BLOCK_BYTES * i..Net.BLOCK_BYTES * i + Net.BLOCK_BYTES]))
  }

  lemma {:induction false} DeserializeSerialized<F(!new)>(l: Layout<F>, v: seq<F>)
    requires LayoutOk(l)
    ensures Deserialized(l, Serialized(l, v)) == v
  {
    var b := Serialized(l, v);
    forall i | 0 <= i < |v| ensures Deserialized(l, b)[i] == v[i] {
      var part := b[Net.BLOCK_BYTES * i..Net.BLOCK_BYTES * i + Net.BLOCK_BYTES];
      forall o | 0 <= o < Net.BLOCK_BYTES ensures part[o] == BytesOf(l, v[i])[o] {
        var q := Net.BLOCK_BYTES * i + o;
        assert q / Net.BLOCK_BYTES == i && q % Net.BLOCK_BYTES == o;
      }
      assert part == BytesOf(l, v[i]);
    }
  }

  /** One table from end to end. */
  method Ship<F(!new)>(l: Layout<F>, link: Net.Link<Byte>, table: seq<F>, multiThread: bool) returns (received: seq<F>)
    requires LayoutOk(l) && |link.queues| > 0 && link.Empty()
    modifies link
    ensures received == table && |link.queues| == old(|link.queues|) && link.Empty()
  {
    var bytes := Serialized(l, table);
    var buf := new Byte[|bytes|];
    Net.Transfer(link, bytes, buf, multiThread);
    DeserializeSerialized(l, table);
    received := Deserialized(l, buf[..]);
  }

  // ------------------------------------------------- the steps of the two parties

  ghost function ValueAt<K(!new), F(!new), S, R(!new)>(c: Setup<K, F, S, R>, table: seq<F>, x: K): (v: seq<F>)
    requires SetupOk(c) && |table| == c.n * c.s
    ensures |v| == c.s
  {
    DecodedValue(c.k, c.h, Unflatten(table, c.n, c.s), x, c.n, c.w, c.s)
  }

  lemma {:induction false} SumOfZeros<F(!new)>(k: Field<F>, coeffs: seq<bool>, table: seq<seq<F>>, s: nat, n: nat)
    requires IsXorGroup(k) && n <= |coeffs| && TableOk(table, |coeffs|, s)
    requires forall c :: 0 <= c < |table| ==> table[c] == ZeroVec(k, s)
    ensures Sum(k, coeffs, table, s, n) == ZeroVec(k, s)
  {
    if n > 0 {
      SumOfZeros(k, coeffs, table, s, n - 1);
      VecLaws(k, ZeroVec(k, s), ZeroVec(k, s), ZeroVec(k, s));
    }
  }

  /** A table of zeros holds zeros at every item. */
  lemma {:induction false} ZerosHoldZero<K(!new), F(!new), S, R(!new)>(c: Setup<K, F, S, R>, table: seq<F>, x: K)
    requires SetupOk(c) && |table| == c.n * c.s && forall i :: 0 <= i < |table| ==> table[i] == c.k.zero
    ensures ValueAt(c, table, x) == ZeroVec(c.k, c.s)
  {
    var rows := Unflatten(table, c.n, c.s);
    forall i | 0 <= i < c.n ensures rows[i] == ZeroVec(c.k, c.s) {
      UnflattenRow(table, c.n, c.s, i);
      assert rows[i] == table[i * c.s..i * c.s + c.s];
    }
    SumOfZeros(c.k, KeyCoeffs(c.h, x, c.n, c.w), rows, c.s, c.n);
  }

  /** What the first table holds at an item of the receiver: the hidden public key, or zeros if its encoding failed. */
  ghost predicate Holds<K(!new), F(!new), S, R(!new)>(
      c: Setup<K, F, S, R>, failed: bool, first: seq<F>, x: K, pk: seq<F>)
    requires SetupOk(c) && |first| == c.n * c.s
  {
    if failed then ValueAt(c, first, x) == ZeroVec(c.k, c.s)
    else Hides(c, (c.pi)(0), true, pk, x, ValueAt(c, first, x))
  }

  /** The receiver up to its message: at each of its items the first table holds the hidden public key, or nothing. */
  method ReceiverStart<K(!new), F(!new), S, R(!new)>(c: Setup<K, F, S, R>, items: seq<K>, pk: array<F>)
    returns (masks: array<F>, table: seq<F>)
    requires SetupOk(c) && |items| > 0 && pk.Length == |items| * c.s
    ensures fresh(masks) && masks.Length == |items| * c.s && |table| == c.n * c.s
    ensures forall x :: 0 <= x < |items| ==> RowsOf(masks, |items|, c.s)[x] == MaskFor(c, items[x])
    ensures forall x :: 0 <= x < |items| ==>
      Holds(c, BandsDependent(c.h, items, c.n, c.w), table, items[x], RowsOf(pk, |items|, c.s)[x])
    ensures 0 <= c.n * c.s && Canonical(c, items, ZeroVec(c.k, c.n * c.s), table)
    ensures !BandsDependent(c.h, items, c.n, c.w) ==> forall x :: 0 <= x < |items| ==>
      var u := Permuted((c.pi)(0), RowsOf(pk, |items|, c.s)[x]);
      |u| == |MaskFor(c, items[x])| && ValueAt(c, table, items[x]) == VecAdd(c.k, u, MaskFor(c, items[x]))
  {
    PeerIsOwn(c);
    masks := PrecomputeMasks(c, items);
    var rows := new F[|items| * c.s](_ => c.k.zero);
    HideRows(c, OwnPi(c, RECEIVER), true, items, pk, masks, rows);
    NatProduct(c.n, c.s);
    table := EncodeTable(c, items, rows, ZeroVec(c.k, c.n * c.s));
    if BandsDependent(c.h, items, c.n, c.w) {
      forall x | 0 <= x < |items| ensures ValueAt(c, table, items[x]) == ZeroVec(c.k, c.s) {
        ZerosHoldZero(c, table, items[x]);
      }
    }
  }

  /** What the first table shows the sender at an item: the row of the item without its mask, unpermuted. */
  ghost function KeyAt<K(!new), F(!new), S, R(!new)>(c: Setup<K, F, S, R>, first: seq<F>, y: K): (pk: seq<F>)
    requires SetupOk(c) && |first| == c.n * c.s
    ensures |pk| == c.s
  {
    var mask := MaskFor(c, y);
    assert |mask| == c.s;
    var u := VecAdd(c.k, ValueAt(c, first, y), mask);
    assert |Unpermuted((c.pi)(0), u)| == c.s;
    Unpermuted((c.pi)(0), u)
  }

  /** The sender's answer holds, at an item of its own, the hidden encapsulation under what the first table shows. */
  ghost predicate Answers<K(!new), F(!new), S, R(!new)>(c: Setup<K, F, S, R>, first: seq<F>, second: seq<F>, y: K, r: R)
    requires SetupOk(c) && |first| == |second| == c.n * c.s
  {
    var ct := Encap(c, KeyAt(c, first, y), r);
    ct.Some? && Hides(c, (c.pi)(1), c.bobPi, ct.value, y, ValueAt(c, second, y))
  }

  /** The whole sender: it fails exactly if a row that it is shown is no public key.  If its encoding fails, it sends
      back what it has received. */
  method Sender<K(!new), F(!new), S, R(!new)>(c: Setup<K, F, S, R>, items: seq<K>, first: seq<F>, rnd: seq<R>)
    returns (ok: bool, second: seq<F>)
    requires SetupOk(c) && |items| > 0 && |first| == c.n * c.s && |rnd| == |items|
    ensures |second| == c.n * c.s && (ok ==> Canonical(c, items, first, second))
    ensures BandsDependent(c.h, items, c.n, c.w) ==> second == first
    ensures ok && !BandsDependent(c.h, items, c.n, c.w) ==>
      forall x :: 0 <= x < |items| ==> Answers(c, first, second, items[x], rnd[x])
    ensures ok && !BandsDependent(c.h, items, c.n, c.w) ==> forall x :: 0 <= x < |items| ==>
      var ct := Encap(c, KeyAt(c, first, items[x]), rnd[x]);
      ct.Some? && var u := if c.bobPi then Permuted((c.pi)(1), ct.value) else ct.value;
      |u| == |MaskFor(c, items[x])| && ValueAt(c, second, items[x]) == VecAdd(c.k, u, MaskFor(c, items[x]))
    ensures ok <==> forall x :: 0 <= x < |items| ==> Encap(c, KeyAt(c, first, items[x]), rnd[x]).Some?
  {
    PeerIsOwn(c);
    ghost var m := |items|;
    var masks := PrecomputeMasks(c, items);
    var rows := DecodeTable(c, items, first);
    ShowRows(c, PeerPi(c, SENDER), true, items, masks, rows);
    ghost var keys := RowsOf(rows, m, c.s);
    assert forall x :: 0 <= x < m ==> keys[x] == KeyAt(c, first, items[x]);
    var ct;
    ok, ct := EncapRows(c, rows, |items|, rnd);
    if !ok {
      return false, first;
    }
    ghost var cts := RowsOf(ct, m, c.s);
    second := HideAndEncode(c, items, ct, masks, rows, first);
    if !BandsDependent(c.h, items, c.n, c.w) {
      AllAnswer(c, items, first, second, rnd, cts);
    }
  }

  lemma {:induction false} AllAnswer<K(!new), F(!new), S, R(!new)>(
      c: Setup<K, F, S, R>, items: seq<K>, first: seq<F>, second: seq<F>, rnd: seq<R>, cts: seq<seq<F>>)
    requires SetupOk(c) && |first| == |second| == c.n * c.s && |rnd| == |items| == |cts|
    requires forall x :: 0 <= x < |items| ==> Encap(c, KeyAt(c, first, items[x]), rnd[x]) == Some(cts[x])
    requires forall x :: 0 <= x < |items| ==>
      Hides(c, (c.pi)(1), c.bobPi, cts[x], items[x], ValueAt(c, second, items[x]))
    ensures forall x :: 0 <= x < |items| ==> Answers(c, first, second, items[x], rnd[x])
    ensures forall x :: 0 <= x < |items| ==>
      var ct := Encap(c, KeyAt(c, first, items[x]), rnd[x]);
      ct.Some? && var u := if c.bobPi then Permuted((c.pi)(1), ct.value) else ct.value;
      |u| == |MaskFor(c, items[x])| && ValueAt(c, second, items[x]) == VecAdd(c.k, u, MaskFor(c, items[x]))
  {
    forall x | 0 <= x < |items| ensures Answers(c, first, second, items[x], rnd[x]) {
      assert Hides(c, (c.pi)(1), c.bobPi, cts[x], items[x], ValueAt(c, second, items[x]));
    }
  }

  /** The last steps of the sender. */
  method HideAndEncode<K(!new), F(!new), S, R(!new)>(
      c: Setup<K, F, S, R>, items: seq<K>, ct: array<F>, masks: array<F>, rows: array<F>, first: seq<F>)
    returns (second: seq<F>)
    requires SetupOk(c) && |items| > 0 && |first| == c.n * c.s && rows != ct && rows != masks
    requires ct.Length == masks.Length == rows.Length == |items| * c.s
    requires forall x :: 0 <= x < |items| ==> RowsOf(masks, |items|, c.s)[x] == MaskFor(c, items[x])
    modifies rows
    ensures |second| == c.n * c.s && (BandsDependent(c.h, items, c.n, c.w) ==> second == first)
    ensures Canonical(c, items, first, second)
    ensures !BandsDependent(c.h, items, c.n, c.w) ==> forall x :: 0 <= x < |items| ==>
      Hides(c, (c.pi)(1), c.bobPi, RowsOf(ct, |items|, c.s)[x], items[x], ValueAt(c, second, items[x]))
  {
    HideRows(c, OwnPi(c, SENDER), c.bobPi, items, ct, masks, rows);
    second := EncodeTable(c, items, rows, first);
  }

  /** The receiver after the sender's message: the rows handed to the decapsulation. */
  method ReceiverShow<K(!new), F(!new), S, R(!new)>(
      c: Setup<K, F, S, R>, items: seq<K>, masks: array<F>, second: seq<F>)
    returns (rows: array<F>)
    requires SetupOk(c) && |second| == c.n * c.s && masks.Length == |items| * c.s
    requires forall x :: 0 <= x < |items| ==> RowsOf(masks, |items|, c.s)[x] == MaskFor(c, items[x])
    ensures fresh(rows) && rows.Length == |items| * c.s
    ensures forall x :: 0 <= x < |items| ==>
      Shows(c, (c.pi)(1), c.bobPi, ValueAt(c, second, items[x]), items[x], RowsOf(rows, |items|, c.s)[x])
    ensures forall x :: 0 <= x < |items| ==> |MaskFor(c, items[x])| == c.s
    ensures forall x :: 0 <= x < |items| ==>
      var u := VecAdd(c.k, ValueAt(c, second, items[x]), MaskFor(c, items[x]));
      RowsOf(rows, |items|, c.s)[x] == if c.bobPi then Unpermuted((c.pi)(1), u) else u
  {
    PeerIsOwn(c);
    rows := DecodeTable(c, items, second);
    ShowRows(c, PeerPi(c, RECEIVER), c.bobPi, items, masks, rows);
  }

  /** The end of the receiver: the rows, and how many of them decapsulate. */
  method ReceiverCount<K(!new), F(!new), S, R(!new)>(
      c: Setup<K, F, S, R>, items: seq<K>, masks: array<F>, second: seq<F>, sk: seq<S>, multiThread: bool, workers: nat)
    returns (hits: nat, ghost shown: seq<seq<F>>)
    requires SetupOk(c) && |second| == c.n * c.s && masks.Length == |items| * c.s && |sk| == |items| && workers > 0
    requires forall x :: 0 <= x < |items| ==> RowsOf(masks, |items|, c.s)[x] == MaskFor(c, items[x])
    ensures |shown| == |items| && hits == CountIn(Hits(c, sk, shown), 0, |items|)
    ensures forall x :: 0 <= x < |items| ==>
      Shows(c, (c.pi)(1), c.bobPi, ValueAt(c, second, items[x]), items[x], shown[x])
  {
    var rows := ReceiverShow(c, items, masks, second);
    shown := RowsOf(rows, |items|, c.s);
    hits := CountHits(c, sk, rows, multiThread, workers);
  }

  // ------------------------------------------------- the whole run

  /** The key that the sender sees at an item of the receiver: its public key, or the mask if the encoding failed. */
  ghost function KeySeen<K, F, S, R>(c: Setup<K, F, S, R>, failed: bool, x: K, pk: seq<F>): seq<F> {
    if failed then Unpermuted((c.pi)(0), MaskFor(c, x)) else pk
  }

  /** What the receiver is shown if the sender sends the first table back. */
  ghost function Echo<K, F, S, R>(c: Setup<K, F, S, R>, failed: bool, x: K, pk: seq<F>): seq<F> {
    var v := if failed then MaskFor(c, x) else Permuted((c.pi)(0), pk);
    if c.bobPi then Unpermuted((c.pi)(1), v) else v
  }

  /** Unmasking the first table at an item of the receiver. */
  lemma {:induction false} Unmasked<K(!new), F(!new), S, R(!new)>(
      c: Setup<K, F, S, R>, failed: bool, first: seq<F>, x: K, pk: seq<F>)
    requires SetupOk(c) && |first| == c.n * c.s && |pk| == c.s && Holds(c, failed, first, x, pk)
    ensures |MaskFor(c, x)| == c.s
    ensures VecAdd(c.k, ValueAt(c, first, x), MaskFor(c, x))
      == if failed then MaskFor(c, x) else Permuted((c.pi)(0), pk)
  {
    var mask, u := MaskFor(c, x), Permuted((c.pi)(0), pk);
    assert |mask| == c.s && |u| == c.s;
    VecLaws(c.k, mask, mask, mask);
    VecLaws(c.k, u, mask, u);
  }

  /** At a common item the receiver is shown exactly the encapsulation under the key that the sender has seen. */
  lemma {:induction false} CommonItem<K(!new), F(!new), S, R(!new)>(
      c: Setup<K, F, S, R>, failed: bool, first: seq<F>, second: seq<F>, x: K, r: R, pk: seq<F>, shown: seq<F>)
    requires SetupOk(c) && |first| == |second| == c.n * c.s && |pk| == c.s
    requires Holds(c, failed, first, x, pk) && Answers(c, first, second, x, r)
    requires Shows(c, (c.pi)(1), c.bobPi, ValueAt(c, second, x), x, shown)
    ensures Encap(c, KeySeen(c, failed, x, pk), r) == Some(shown)
  {
    Unmasked(c, failed, first, x, pk);
    assert failed || Unpermuted((c.pi)(0), Permuted((c.pi)(0), pk)) == pk;
    assert KeyAt(c, first, x) == KeySeen(c, failed, x, pk);
    var ct := Encap(c, KeyAt(c, first, x), r);
    assert |ct.value| == c.s;
    ShowsHidden(c, (c.pi)(1), c.bobPi, ct.value, x, ValueAt(c, second, x), shown);
  }

  /** If the first table comes back, the receiver is shown its own row. */
  lemma {:induction false} EchoedItem<K(!new), F(!new), S, R(!new)>(
      c: Setup<K, F, S, R>, failed: bool, first: seq<F>, x: K, pk: seq<F>, shown: seq<F>)
    requires SetupOk(c) && |first| == c.n * c.s && |pk| == c.s && Holds(c, failed, first, x, pk)
    requires Shows(c, (c.pi)(1), c.bobPi, ValueAt(c, first, x), x, shown)
    ensures shown == Echo(c, failed, x, pk)
  {
    PeerIsOwn(c);
    Unmasked(c, failed, first, x, pk);
  }

  /** Which of the receiver's items the sender has too. */
  ghost function Common<K>(xs: seq<K>, ys: seq<K>): (r: seq<bool>)
    ensures |r| == |xs| && forall i :: 0 <= i < |xs| ==> r[i] == (xs[i] in ys)
  {
    seq(|xs|, i requires 0 <= i < |xs| => xs[i] in ys)
  }

  lemma {:induction false} CountMonotone(p: seq<bool>, q: seq<bool>, b: nat)
    requires b <= |p| == |q| && forall i :: 0 <= i < |p| && p[i] ==> q[i]
    ensures CountIn(p, 0, b) <= CountIn(q, 0, b)
  {
    if b > 0 { CountMonotone(p, q, b - 1); }
  }

  lemma {:induction false} OneMoreElement<K>(xs: seq<K>, ys: seq<K>, b: nat)
    requires 0 < b <= |xs| && forall i, j :: 0 <= i < j < |xs| ==> xs[i] != xs[j]
    ensures |Elems(xs[..b]) * Elems(ys)| == |Elems(xs[..b - 1]) * Elems(ys)| + if xs[b - 1] in ys then 1 else 0
  {
    var x, before, after := xs[b - 1], Elems(xs[..b - 1]) * Elems(ys), Elems(xs[..b]) * Elems(ys);
    assert xs[..b] == xs[..b - 1] + [x];
    ElemsPush(xs[..b - 1], x);
    assert x !in Elems(xs[..b - 1]);
    if x in ys {
      assert after == before + {x};
    } else {
      assert after == before;
    }
  }

  /** For distinct items the common ones are as many as the intersection has. */
  lemma {:induction false} CommonIsIntersection<K>(xs: seq<K>, ys: seq<K>, b: nat)
    requires b <= |xs| && forall i, j :: 0 <= i < j < |xs| ==> xs[i] != xs[j]
    ensures CountIn(Common(xs, ys), 0, b) == |Elems(xs[..b]) * Elems(ys)|
  {
    if b > 0 {
      CommonIsIntersection(xs, ys, b - 1);
      OneMoreElement(xs, ys, b);
    }
  }

  /** The receiver's keys decapsulate whatever is encapsulated under them. */
  ghost predicate KeysWork<K, F, S, R(!new)>(c: Setup<K, F, S, R>, sk: seq<S>, pks: seq<seq<F>>) {
    |sk| == |pks| && forall i, r {:trigger Encap(c, pks[i], r)} :: 0 <= i < |pks| && Encap(c, pks[i], r).Some? ==>
      Decap(c, sk[i], Encap(c, pks[i], r).value)
  }

  /** The second table answers every item of the sender, unless its encoding failed. */
  ghost predicate AnswersAll<K(!new), F(!new), S, R(!new)>(
      c: Setup<K, F, S, R>, ys: seq<K>, rnd: seq<R>, first: seq<F>, second: seq<F>)
    requires SetupOk(c) && |rnd| == |ys| && |first| == |second| == c.n * c.s
  {
    if BandsDependent(c.h, ys, c.n, c.w) then second == first
    else forall j :: 0 <= j < |ys| ==> Answers(c, first, second, ys[j], rnd[j])
  }

  /** What has gone back and forth when the run is over: the answer of the sender, or the first table again if its
      encoding failed, and what it shows the receiver. */
  ghost predicate Transcript<K(!new), F(!new), S, R(!new)>(
      c: Setup<K, F, S, R>, xs: seq<K>, ys: seq<K>, rnd: seq<R>, first: seq<F>, second: seq<F>, shown: seq<seq<F>>)
    requires SetupOk(c) && |rnd| == |ys| && |first| == c.n * c.s
  {
    && Canonical(c, ys, first, second) && AnswersAll(c, ys, rnd, first, second) && |shown| == |xs|
    && forall i :: 0 <= i < |xs| ==>
      Shows(c, (c.pi)(1), c.bobPi, ValueAt(c, second, xs[i]), xs[i], shown[i])
  }

  /** The first table holds every item of the receiver, and is settled by that. */
  ghost predicate HoldsAll<K(!new), F(!new), S, R(!new)>(
      c: Setup<K, F, S, R>, xs: seq<K>, pks: seq<seq<F>>, first: seq<F>)
    requires SetupOk(c)
  {
    && 0 <= c.n * c.s && Canonical(c, xs, ZeroVec(c.k, c.n * c.s), first) && |pks| == |xs|
    && forall i :: 0 <= i < |xs| ==>
      |pks[i]| == c.s && Holds(c, BandsDependent(c.h, xs, c.n, c.w), first, xs[i], pks[i])
  }

  /** The rows that are shown to the receiver: at a common item the encapsulation under the key that the sender has
      seen, or everywhere its own row if the encoding of the sender failed. */
  ghost predicate ShownRight<K(!new), F(!new), S, R>(
      c: Setup<K, F, S, R>, xs: seq<K>, ys: seq<K>, pks: seq<seq<F>>, rnd: seq<R>, shown: seq<seq<F>>)
    requires ParamsOk(c.k, c.h, c.n, c.w)
  {
    && |pks| == |shown| == |xs| && |rnd| == |ys|
    && var failed := BandsDependent(c.h, xs, c.n, c.w);
       if BandsDependent(c.h, ys, c.n, c.w) then
         forall i :: 0 <= i < |xs| ==> shown[i] == Echo(c, failed, xs[i], pks[i])
       else forall i, j :: 0 <= i < |xs| && 0 <= j < |ys| && xs[i] == ys[j] ==>
         Encap(c, KeySeen(c, failed, xs[i], pks[i]), rnd[j]) == Some(shown[i])
  }

  /** The bands of both parties are independent, and the receiver's keys work. */
  ghost predicate AllWorks<K(!new), F(!new), S, R(!new)>(
      c: Setup<K, F, S, R>, xs: seq<K>, ys: seq<K>, sk: seq<S>, pks: seq<seq<F>>)
    requires SetupOk(c)
  {
    !BandsDependent(c.h, xs, c.n, c.w) && !BandsDependent(c.h, ys, c.n, c.w) && KeysWork(c, sk, pks)
  }

  /** What the transcript means for the receiver. */
  lemma {:induction false} TranscriptMeans<K(!new), F(!new), S, R(!new)>(
      c: Setup<K, F, S, R>, xs: seq<K>, ys: seq<K>, sk: seq<S>, pks: seq<seq<F>>, rnd: seq<R>, first: seq<F>,
      second: seq<F>, shown: seq<seq<F>>, hits: nat)
    requires SetupOk(c) && |xs| == |ys| == |sk| == |rnd| && HoldsAll(c, xs, pks, first)
    requires Transcript(c, xs, ys, rnd, first, second, shown) && hits == CountIn(Hits(c, sk, shown), 0, |xs|)
    ensures ShownRight(c, xs, ys, pks, rnd, shown)
    ensures AllWorks(c, xs, ys, sk, pks) ==>
      && hits >= |Elems(xs) * Elems(ys)|
      && (hits == |Elems(xs) * Elems(ys)| <==>
          forall i :: 0 <= i < |xs| && xs[i] !in ys ==> !Decap(c, sk[i], shown[i]))
  {
    var failed := BandsDependent(c.h, xs, c.n, c.w);
    if BandsDependent(c.h, ys, c.n, c.w) {
      AllEchoed(c, failed, first, xs, pks, shown);
    } else {
      AllAnswered(c, failed, first, second, xs, ys, rnd, pks, shown);
      if !failed && KeysWork(c, sk, pks) {
        IndependentDistinct(c.h, xs, c.n, c.w);
        HitsAreIntersection(c, xs, ys, sk, pks, rnd, shown);
      }
    }
  }

  ghost predicate LinkReady(link: Net.Link<Byte>)
    reads link
  {
    |link.queues| > 0 && link.Empty()
  }

  /** The messages: the first table goes forth, and unless the run ends early the second one comes back. */
  method SenderTurn<K(!new), F(!new), S, R(!new)>(
      c: Setup<K, F, S, R>, ys: seq<K>, first: seq<F>, rnd: seq<R>, forth: Net.Link<Byte>, back: Net.Link<Byte>,
      multiThread: bool)
    returns (ok: bool, second: seq<F>)
    requires SetupOk(c) && |ys| == |rnd| > 0 && |first| == c.n * c.s
    requires LinkReady(forth) && LinkReady(back) && forth != back
    modifies forth, back
    ensures ok <==> forall j :: 0 <= j < |ys| ==> Encap(c, KeyAt(c, first, ys[j]), rnd[j]).Some?
    ensures ok ==> LinkReady(forth) && LinkReady(back)
    ensures ok ==> Canonical(c, ys, first, second) && AnswersAll(c, ys, rnd, first, second)
  {
    var received := Ship(c.layout, forth, first, multiThread);
    ok, second := Sender(c, ys, received, rnd);
    if ok {
      second := Ship(c.layout, back, second, multiThread);
    }
  }

  /** Both parties, over any number of channels.  The run ends early exactly if the sender cannot encapsulate under what
      the first table shows it at one of its items.  The results of the two encodings are not looked at; they succeed
      unless the band rows of a party's items are dependent.  After a failed encoding of the receiver the sender
      encapsulates under unpermuted masks, after a failed one of the sender the receiver gets its own table back. */
  method Run<K(!new), F(!new), S, R(!new)>(
      c: Setup<K, F, S, R>, xs: seq<K>, ys: seq<K>, sk: seq<S>, pk: array<F>, rnd: seq<R>, forth: Net.Link<Byte>,
      back: Net.Link<Byte>, multiThread: bool, workers: nat)
    returns (ok: bool, hits: nat, ghost first: seq<F>, ghost second: seq<F>, ghost shown: seq<seq<F>>)
    requires SetupOk(c) && |xs| == |ys| == |sk| == |rnd| > 0 && pk.Length == |xs| * c.s && workers > 0
    requires LinkReady(forth) && LinkReady(back) && forth != back
    modifies forth, back
    ensures HoldsAll(c, xs, old(RowsOf(pk, |xs|, c.s)), first)
    ensures ok <==> forall j :: 0 <= j < |ys| ==> Encap(c, KeyAt(c, first, ys[j]), rnd[j]).Some?
    ensures (forall v, r {:trigger Encap(c, v, r)} :: |v| == c.s ==> Encap(c, v, r).Some?) ==> ok
    ensures ok ==> LinkReady(forth) && LinkReady(back) && Transcript(c, xs, ys, rnd, first, second, shown)
    ensures ok ==> ShownRight(c, xs, ys, old(RowsOf(pk, |xs|, c.s)), rnd, shown)
    ensures ok ==> hits == CountIn(Hits(c, sk, shown), 0, |xs|)
    ensures ok && AllWorks(c, xs, ys, sk, old(RowsOf(pk, |xs|, c.s))) ==>
      && hits >= |Elems(xs) * Elems(ys)|
      && (hits == |Elems(xs) * Elems(ys)| <==>
          forall i :: 0 <= i < |xs| && xs[i] !in ys ==> !Decap(c, sk[i], shown[i]))
  {
    var masks, table := ReceiverStart(c, xs, pk);
    first := table;
    ghost var pks := RowsOf(pk, |xs|, c.s);
    var answer;
    ok, answer := SenderTurn(c, ys, table, rnd, forth, back, multiThread);
    second := answer;
    if !ok {
      return false, 0, first, second, [];
    }
    hits, shown := ReceiverCount(c, xs, masks, answer, sk, multiThread, workers);
    TranscriptMeans(c, xs, ys, sk, pks, rnd, first, second, shown, hits);
  }

  lemma {:induction false} AllEchoed<K(!new), F(!new), S, R(!new)>(
      c: Setup<K, F, S, R>, failed: bool, first: seq<F>, xs: seq<K>, pks: seq<seq<F>>, shown: seq<seq<F>>)
    requires SetupOk(c) && |first| == c.n * c.s && |pks| == |shown| == |xs|
    requires forall i :: 0 <= i < |xs| ==> |pks[i]| == c.s && Holds(c, failed, first, xs[i], pks[i])
    requires forall i :: 0 <= i < |xs| ==>
      Shows(c, (c.pi)(1), c.bobPi, ValueAt(c, first, xs[i]), xs[i], shown[i])
    ensures forall i :: 0 <= i < |xs| ==> shown[i] == Echo(c, failed, xs[i], pks[i])
  {
    forall i | 0 <= i < |xs| ensures shown[i] == Echo(c, failed, xs[i], pks[i]) {
      EchoedItem(c, failed, first, xs[i], pks[i], shown[i]);
    }
  }

  lemma {:induction false} AllAnswered<K(!new), F(!new), S, R(!new)>(
      c: Setup<K, F, S, R>, failed: bool, first: seq<F>, second: seq<F>, xs: seq<K>, ys: seq<K>, rnd: seq<R>,
      pks: seq<seq<F>>, shown: seq<seq<F>>)
    requires SetupOk(c) && |first| == |second| == c.n * c.s && |pks| == |shown| == |xs| && |rnd| == |ys|
    requires forall i :: 0 <= i < |xs| ==> |pks[i]| == c.s && Holds(c, failed, first, xs[i], pks[i])
    requires forall j :: 0 <= j < |ys| ==> Answers(c, first, second, ys[j], rnd[j])
    requires forall i :: 0 <= i < |xs| ==>
      Shows(c, (c.pi)(1), c.bobPi, ValueAt(c, second, xs[i]), xs[i], shown[i])
    ensures forall i, j :: 0 <= i < |xs| && 0 <= j < |ys| && xs[i] == ys[j] ==>
      Encap(c, KeySeen(c, failed, xs[i], pks[i]), rnd[j]) == Some(shown[i])
  {
    forall i, j | 0 <= i < |xs| && 0 <= j < |ys| && xs[i] == ys[j]
      ensures Encap(c, KeySeen(c, failed, xs[i], pks[i]), rnd[j]) == Some(shown[i])
    {
      assert Answers(c, first, second, ys[j], rnd[j]);
      CommonItem(c, failed, first, second, xs[i], rnd[j], pks[i], shown[i]);
    }
  }

  /** The number of hits: at least the size of the intersection, and exactly that if no other row decapsulates. */
  lemma {:induction false} HitsAreIntersection<K(!new), F(!new), S, R(!new)>(
      c: Setup<K, F, S, R>, xs: seq<K>, ys: seq<K>, sk: seq<S>, pks: seq<seq<F>>, rnd: seq<R>, shown: seq<seq<F>>)
    requires |xs| == |ys| == |sk| == |rnd| == |shown| && KeysWork(c, sk, pks)
    requires forall i, j :: 0 <= i < j < |xs| ==> xs[i] != xs[j]
    requires forall i, j :: 0 <= i < |xs| && 0 <= j < |ys| && xs[i] == ys[j] ==>
      Encap(c, pks[i], rnd[j]) == Some(shown[i])
    ensures var common := |Elems(xs) * Elems(ys)|;
            && CountIn(Hits(c, sk, shown), 0, |xs|) >= common
            && ((forall i :: 0 <= i < |xs| && xs[i] !in ys ==> !Decap(c, sk[i], shown[i])) <==>
                CountIn(Hits(c, sk, shown), 0, |xs|) == common)
  {
    var hits, both := Hits(c, sk, shown), Common(xs, ys);
    CommonIsIntersection(xs, ys, |xs|);
    assert xs[..|xs|] == xs;
    forall i | 0 <= i < |xs| && both[i] ensures hits[i] {
      var j :| 0 <= j < |ys| && ys[j] == xs[i];
      assert Encap(c, pks[i], rnd[j]) == Some(shown[i]);
    }
    CountMonotone(both, hits, |xs|);
    CountEqualIff(both, hits, |xs|);
  }

  lemma {:induction false} CountEqualIff(p: seq<bool>, q: seq<bool>, b: nat)
    requires b <= |p| == |q| && forall i :: 0 <= i < |p| && p[i] ==> q[i]
    ensures CountIn(p, 0, b) == CountIn(q, 0, b) <==> forall i :: 0 <= i < b && !p[i] ==> !q[i]
  {
    if b > 0 {
      CountEqualIff(p, q, b - 1);
      CountMonotone(p, q, b - 1);
    }
  }
}
