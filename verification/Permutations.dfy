/** The wide permutations of this repository as permutations of a run (`permute` and `unpermute` of
    pqpsi/protocols/tools/base.h): the blocks of a row are seen as bytes, HCTR2 or the construction over SNEIK is
    applied to these in place, and the bytes are seen as blocks again. */
module Permutations {
  import opened ConsPi
  import opened PqPsi
  import Hctr2
  import Sneik

  // ------------------------------------------------- rows as bytes

  ghost predicate BlockAsBytes<F>(l: Layout<F>, b: seq<Byte>) {
    BytesOf(l, BlockOf(l, b)) == b
  }

  /** Every block is sixteen bytes, and every sixteen bytes are a block. */
  ghost predicate ByteLayout<F(!new)>(l: Layout<F>) {
    && LayoutOk(l) && (forall x {:trigger BytesOf(l, x)} :: AreBytes(BytesOf(l, x)))
    && (forall b {:trigger BlockAsBytes(l, b)} :: |b| == Net.BLOCK_BYTES && AreBytes(b) ==> BlockAsBytes(l, b))
  }

  lemma {:induction false} SerializedBytes<F(!new)>(l: Layout<F>, v: seq<F>)
    requires ByteLayout(l)
    ensures AreBytes(Serialized(l, v))
  {
    var b := Serialized(l, v);
    forall q | 0 <= q < |b| ensures IsByte(b[q]) {
      assert AreBytes(BytesOf(l, v[q / Net.BLOCK_BYTES]));
    }
  }

  lemma {:induction false} SerializeDeserialized<F(!new)>(l: Layout<F>, b: seq<Byte>)
    requires ByteLayout(l) && AreBytes(b) && |b| % Net.BLOCK_BYTES == 0
    ensures Serialized(l, Deserialized(l, b)) == b
  {
    var v := Deserialized(l, b);
    forall q | 0 <= q < |b| ensures Serialized(l, v)[q] == b[q] {
      var i := q / Net.BLOCK_BYTES;
      var part := b[Net.BLOCK_BYTES * i..Net.BLOCK_BYTES * i + Net.BLOCK_BYTES];
      assert BlockAsBytes(l, part);
    }
  }

  /** The row of s blocks that the bytes are. */
  function RowFrom<F>(l: Layout<F>, b: seq<Byte>, s: nat): (v: seq<F>)
    requires |b| == Net.BLOCK_BYTES * s
    ensures |v| == s
  {
    Deserialized(l, b)
  }

  // ------------------------------------------------- a permutation of bytes on rows

  /** pi maps a row as enc and dec map its bytes. */
  ghost predicate ActsAt<F(!new)>(
      pi: Perm<F>, l: Layout<F>, enc: seq<Byte> -> seq<Byte>, dec: seq<Byte> -> seq<Byte>, v: seq<F>)
    requires LayoutOk(l)
  {
    var b := Serialized(l, v);
    && |enc(b)| == |dec(b)| == |b|
    && Permuted(pi, v) == RowFrom(l, enc(b), |v|) && Unpermuted(pi, v) == RowFrom(l, dec(b), |v|)
  }

  /** On the bytes of a row, dec undoes enc. */
  ghost predicate UndoesAt(enc: seq<Byte> -> seq<Byte>, dec: seq<Byte> -> seq<Byte>, b: seq<Byte>) {
    AreBytes(enc(b)) && |enc(b)| == |b| && dec(enc(b)) == b
  }

  lemma {:induction false} WidePermOk<F(!new)>(
      pi: Perm<F>, l: Layout<F>, enc: seq<Byte> -> seq<Byte>, dec: seq<Byte> -> seq<Byte>, s: nat)
    requires ByteLayout(l)
    requires forall v {:trigger ActsAt(pi, l, enc, dec, v)} :: |v| == s ==> ActsAt(pi, l, enc, dec, v)
    requires forall b {:trigger UndoesAt(enc, dec, b)} :: |b| == Net.BLOCK_BYTES * s && AreBytes(b) ==>
      UndoesAt(enc, dec, b)
    ensures PermOk(pi, s)
  {
    forall v | |v| == s
      ensures |Permuted(pi, v)| == s && |Unpermuted(pi, v)| == s && Unpermuted(pi, Permuted(pi, v)) == v
    {
      var b := Serialized(l, v);
      assert ActsAt(pi, l, enc, dec, v);
      SerializedBytes(l, v);
      assert UndoesAt(enc, dec, b);
      var w := Permuted(pi, v);
      SerializeDeserialized(l, enc(b));
      assert ActsAt(pi, l, enc, dec, w);
      DeserializeSerialized(l, v);
    }
  }

  // ------------------------------------------------- HCTR2

  /** pi applies HCTR2 to the bytes of rows of s blocks. */
  ghost predicate RunsHctr2<F(!new)>(pi: Perm<F>, l: Layout<F>, key: Hctr2.Key, tweak: seq<Byte>, s: nat) {
    && ByteLayout(l) && Hctr2.KeyOk(key, tweak) && s > 0
    && forall v {:trigger Hctr2At(pi, l, key, tweak, v)} :: |v| == s ==> Hctr2At(pi, l, key, tweak, v)
  }

  ghost predicate Hctr2At<F(!new)>(pi: Perm<F>, l: Layout<F>, key: Hctr2.Key, tweak: seq<Byte>, v: seq<F>)
    requires ByteLayout(l) && Hctr2.KeyOk(key, tweak) && |v| > 0
  {
    SerializedBytes(l, v);
    var b := Serialized(l, v);
    && Permuted(pi, v) == RowFrom(l, Hctr2.Encrypted(key, tweak, b), |v|)
    && Unpermuted(pi, v) == RowFrom(l, Hctr2.Decrypted(key, tweak, b), |v|)
  }

  lemma {:induction false} Hctr2PermOk<F(!new)>(pi: Perm<F>, l: Layout<F>, key: Hctr2.Key, tweak: seq<Byte>, s: nat)
    requires RunsHctr2(pi, l, key, tweak, s)
    ensures PermOk(pi, s)
  {
    var enc := (b: seq<Byte>) => if AreBytes(b) && |b| >= Hctr2.BLOCK then Hctr2.Encrypted(key, tweak, b) else b;
    var dec := (b: seq<Byte>) => if AreBytes(b) && |b| >= Hctr2.BLOCK then Hctr2.Decrypted(key, tweak, b) else b;
    forall v: seq<F> | |v| == s ensures ActsAt(pi, l, enc, dec, v) {
      assert Hctr2At(pi, l, key, tweak, v);
      SerializedBytes(l, v);
    }
    forall b | |b| == Net.BLOCK_BYTES * s && AreBytes(b) ensures UndoesAt(enc, dec, b) {
      Hctr2.DecryptEncrypt(key, tweak, b);
    }
    WidePermOk(pi, l, enc, dec, s);
  }

  /** A run whose parties use HCTR2, each with a key of its own, is a run as required. */
  lemma {:induction false} SetupWithHctr2<K(!new), F(!new), S, R(!new)>(
      c: Setup<K, F, S, R>, keys: seq<Hctr2.Key>, tweaks: seq<seq<Byte>>)
    requires PartsOk(c) && |keys| == |tweaks| == 2
    requires RunsHctr2((c.pi)(0), c.layout, keys[RECEIVER], tweaks[RECEIVER], c.s)
    requires RunsHctr2((c.pi)(1), c.layout, keys[SENDER], tweaks[SENDER], c.s)
    ensures SetupOk(c)
  {
    Hctr2PermOk((c.pi)(0), c.layout, keys[RECEIVER], tweaks[RECEIVER], c.s);
    Hctr2PermOk((c.pi)(1), c.layout, keys[SENDER], tweaks[SENDER], c.s);
  }

  // ------------------------------------------------- the construction over SNEIK

  ghost predicate ConsPiParams(q: Params, s: nat) {
    q.n == Sneik.STATE_BITS && 0 < q.s <= q.n < q.N == BYTE * (Net.BLOCK_BYTES * s)
  }

  /** The construction on bytes. */
  ghost function ConsPiBytes(q: Params, s: nat, encrypt: bool, b: seq<Byte>): (r: seq<Byte>)
    requires ConsPiParams(q, s) && |b| == Net.BLOCK_BYTES * s && AreBytes(b)
    ensures |r| == |b| && AreBytes(r)
  {
    Sneik.SmallIsOk();
    var x := BitsOf(b);
    Packed(if encrypt then Encrypted(Sneik.SMALL, q, x) else Decrypted(Sneik.SMALL, q, x), |b|)
  }

  lemma {:induction false} ConsPiBytesUndone(q: Params, s: nat, b: seq<Byte>)
    requires ConsPiParams(q, s) && |b| == Net.BLOCK_BYTES * s && AreBytes(b)
    ensures ConsPiBytes(q, s, false, ConsPiBytes(q, s, true, b)) == b
  {
    Sneik.SmallIsOk();
    DecryptEncrypt(Sneik.SMALL, q, BitsOf(b));
    ViewInjective(ConsPiBytes(q, s, false, ConsPiBytes(q, s, true, b)), b);
  }

  /** pi applies the construction over SNEIK to the bytes of rows of s blocks. */
  ghost predicate RunsConsPi<F(!new)>(pi: Perm<F>, l: Layout<F>, q: Params, s: nat) {
    && ByteLayout(l) && ConsPiParams(q, s)
    && forall v {:trigger ConsPiAt(pi, l, q, v)} :: |v| == s ==> ConsPiAt(pi, l, q, v)
  }

  ghost predicate ConsPiAt<F(!new)>(pi: Perm<F>, l: Layout<F>, q: Params, v: seq<F>)
    requires ByteLayout(l) && ConsPiParams(q, |v|)
  {
    SerializedBytes(l, v);
    var b := Serialized(l, v);
    && Permuted(pi, v) == RowFrom(l, ConsPiBytes(q, |v|, true, b), |v|)
    && Unpermuted(pi, v) == RowFrom(l, ConsPiBytes(q, |v|, false, b), |v|)
  }

  lemma {:induction false} ConsPiPermOk<F(!new)>(pi: Perm<F>, l: Layout<F>, q: Params, s: nat)
    requires RunsConsPi(pi, l, q, s)
    ensures PermOk(pi, s)
  {
    var enc := (b: seq<Byte>) => if AreBytes(b) && |b| == Net.BLOCK_BYTES * s then ConsPiBytes(q, s, true, b) else b;
    var dec := (b: seq<Byte>) => if AreBytes(b) && |b| == Net.BLOCK_BYTES * s then ConsPiBytes(q, s, false, b) else b;
    forall v: seq<F> | |v| == s ensures ActsAt(pi, l, enc, dec, v) {
      assert ConsPiAt(pi, l, q, v);
      SerializedBytes(l, v);
    }
    forall b | |b| == Net.BLOCK_BYTES * s && AreBytes(b) ensures UndoesAt(enc, dec, b) {
      ConsPiBytesUndone(q, s, b);
    }
    WidePermOk(pi, l, enc, dec, s);
  }

  /** A run whose parties use the construction, which differs by the party bit, is a run as required. */
  lemma {:induction false} SetupWithConsPi<K(!new), F(!new), S, R(!new)>(c: Setup<K, F, S, R>, q: Params)
    requires PartsOk(c) && RunsConsPi((c.pi)(0), c.layout, q.(party := false), c.s)
    requires RunsConsPi((c.pi)(1), c.layout, q.(party := true), c.s)
    ensures SetupOk(c)
  {
    ConsPiPermOk((c.pi)(0), c.layout, q.(party := false), c.s);
    ConsPiPermOk((c.pi)(1), c.layout, q.(party := true), c.s);
  }

  // ------------------------------------------------- in place

  method RowBytes<F(!new)>(l: Layout<F>, row: seq<F>) returns (data: array<Byte>)
    requires ByteLayout(l)
    ensures fresh(data) && data[..] == Serialized(l, row) && AreBytes(data[..])
  {
    SerializedBytes(l, row);
    var bytes := Serialized(l, row);
    data := new Byte[|bytes|](i requires 0 <= i < |bytes| => bytes[i]);
  }

  /** `permute` and `unpermute` with HCTR2: what the source computes is what the run applies. */
  method CryptRow<F(!new)>(
      pi: Perm<F>, l: Layout<F>, key: Hctr2.Key, ghost tweak: seq<Byte>, row: seq<F>, encrypt: bool)
    returns (r: seq<F>)
    requires 0 < |row| <= Hctr2.STREAM_BLOCKS + 1 && RunsHctr2(pi, l, key, tweak, |row|)
    ensures r == if encrypt then Permuted(pi, row) else Unpermuted(pi, row)
  {
    assert Hctr2At(pi, l, key, tweak, row);
    var data := RowBytes(l, row);
    var _ := Hctr2.Crypt(data, key, tweak, encrypt);
    r := RowFrom(l, data[..], |row|);
  }

  /** The same with the construction over SNEIK. */
  method ConsPiRow<F(!new)>(pi: Perm<F>, l: Layout<F>, q: Params, row: seq<F>, encrypt: bool) returns (r: seq<F>)
    requires RunsConsPi(pi, l, q, |row|)
    ensures r == if encrypt then Permuted(pi, row) else Unpermuted(pi, row)
  {
    assert ConsPiAt(pi, l, q, row);
    Sneik.SmallIsOk();
    var data := RowBytes(l, row);
    ghost var after := ConsPiBytes(q, |row|, encrypt, data[..]);
    if encrypt {
      EncryptBytes(Sneik.SMALL, q, data);
    } else {
      DecryptBytes(Sneik.SMALL, q, data);
    }
    ViewInjective(data[..], after);
    r := RowFrom(l, data[..], |row|);
  }
}
