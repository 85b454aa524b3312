/** Band rows (`RBRows` of okvs/rb/rows.h): how a key becomes an equation, and the stable order of the rows. */
module RbRows {
  import opened XorSystem
  import opened XorRank
  import opened RbLimbs

  // ------------------------------------------------- band rows as equations

  /** Whether the row that starts at column start selects column c. */
  predicate Coeff(start: nat, bits: Row, c: nat)
    requires IsRow(bits)
  {
    start <= c < start + ROW_BITS && BitAt(bits, c - start)
  }

  ghost function Coeffs(start: nat, bits: Row, n: nat): (r: seq<bool>)
    requires IsRow(bits)
    ensures |r| == n && forall c :: 0 <= c < n ==> r[c] == Coeff(start, bits, c)
  {
    seq(n, c requires 0 <= c < n => Coeff(start, bits, c))
  }

  /** A row of w bits that ends before column n. */
  ghost predicate BandOk(start: nat, bits: Row, n: nat, w: nat) {
    && IsRow(bits) && w <= ROW_BITS && start + w <= n
    && forall i :: w <= i < ROW_BITS ==> !BitAt(bits, i)
  }

  /** The two AES-based hashes of a key: one for the start, one for the 256 mask bits. */
  datatype RbHash<!K> = RbHash(start: K -> nat, mask: K -> Row)

  function StartHash<K>(h: RbHash<K>, key: K): nat { (h.start)(key) }

  function MaskOf<K>(h: RbHash<K>, key: K): Row { (h.mask)(key) }

  ghost predicate HashOk<K(!new)>(h: RbHash<K>) {
    forall key {:trigger MaskOf(h, key)} :: IsRow(MaskOf(h, key))
  }

  function KeyStart<K>(h: RbHash<K>, key: K, n: nat, w: nat): (s: nat)
    requires w <= n
    ensures s + w <= n
  {
    StartHash(h, key) % (n - w + 1)
  }

  /** The start is what the hash leaves when whole ranges of starts are taken off, and every start that keeps the band
      inside the matrix is that of some hash. */
  lemma {:induction false} StartFromHash<K>(h: RbHash<K>, key: K, n: nat, w: nat) returns (q: nat)
    requires w <= n
    ensures (h.start)(key) == q * (n - w + 1) + KeyStart(h, key, n, w)
    ensures (h.start)(key) + w <= n ==> KeyStart(h, key, n, w) == (h.start)(key)
  {
    var hash, range := StartHash(h, key), n - w + 1;
    q := hash / range;
    assert hash == q * range + hash % range;
  }

  /** Bit i of the band of a key: the mask cut to w bits, with the first bit standing in for an empty mask. */
  ghost predicate KeyBit<K>(h: RbHash<K>, key: K, w: nat, i: nat)
    requires IsRow(MaskOf(h, key)) && w <= ROW_BITS && i < ROW_BITS
  {
    var mask := MaskOf(h, key);
    if exists j :: 0 <= j < w && BitAt(mask, j) then i < w && BitAt(mask, i) else i == 0
  }

  /** The row of the matrix for a key. */
  ghost function KeyCoeffs<K>(h: RbHash<K>, key: K, n: nat, w: nat): (r: seq<bool>)
    requires IsRow(MaskOf(h, key)) && w <= ROW_BITS && w <= n
    ensures |r| == n
  {
    var s := KeyStart(h, key, n, w);
    seq(n, c requires 0 <= c < n => s <= c < s + ROW_BITS && KeyBit(h, key, w, c - s))
  }

  /** A band of width one selects the start column alone, whatever the mask is. */
  lemma {:induction false} OneWideRow<K>(h: RbHash<K>, key: K, n: nat)
    requires IsRow(MaskOf(h, key)) && n > 0
    ensures forall c :: 0 <= c < n ==> (KeyCoeffs(h, key, n, 1)[c] <==> c == (h.start)(key) % n)
  {
    forall i | 0 <= i < ROW_BITS ensures KeyBit(h, key, 1, i) <==> i == 0 {
      assert !BitAt(MaskOf(h, key), 0) ==> !exists j :: 0 <= j < 1 && BitAt(MaskOf(h, key), j);
    }
  }

  /** Both the encoder and the decoder build the band of a key like this. */
  method KeyBand<K(!new)>(h: RbHash<K>, key: K, n: nat, w: nat) returns (start: nat, bits: Row)
    requires HashOk(h) && 1 <= w <= ROW_BITS && w <= n
    ensures BandOk(start, bits, n, w) && start == KeyStart(h, key, n, w) == (h.start)(key) % (n - w + 1)
    ensures IsRow(MaskOf(h, key)) && MaskOf(h, key) == (h.mask)(key)
    ensures var mask, empty := MaskOf(h, key), forall j :: 0 <= j < w ==> !BitAt(MaskOf(h, key), j);
            forall i :: 0 <= i < ROW_BITS ==> BitAt(bits, i) == if empty then i == 0 else i < w && BitAt(mask, i)
    ensures Coeffs(start, bits, n) == KeyCoeffs(h, key, n, w)
  {
    start := KeyStart(h, key, n, w);
    var mask := MaskOf(h, key);
    var trimmed := TrimBits(mask, w);
    bits := EnsureBits(trimmed);
    assert HasBits(trimmed) <==> exists j :: 0 <= j < w && BitAt(mask, j) by {
      if j :| 0 <= j < w && BitAt(mask, j) { assert BitAt(trimmed, j); }
      if j :| 0 <= j < ROW_BITS && BitAt(trimmed, j) { assert j < w && BitAt(mask, j); }
    }
    forall i | 0 <= i < ROW_BITS ensures BitAt(bits, i) == KeyBit(h, key, w, i) {
    }
  }

  // ------------------------------------------------- the stable order of the rows

  /** Where the i-th of the ordered rows belongs among those before it, searching down from p. */
  function Place(starts: seq<nat>, order: seq<nat>, i: nat, p: nat): (r: nat)
    requires p <= i < |order| && forall j :: 0 <= j < |order| ==> order[j] < |starts|
    ensures r <= p
  {
    if p > 0 && starts[order[p - 1]] > starts[order[i]] then Place(starts, order, i, p - 1) else p
  }

  /** Moves the i-th row to its place. */
  function SortStep(starts: seq<nat>, order: seq<nat>, i: nat): (r: seq<nat>)
    requires i < |order| && forall j :: 0 <= j < |order| ==> order[j] < |starts|
    ensures |r| == |order| && forall j :: 0 <= j < |r| ==> r[j] == order[Source(Place(starts, order, i, i), i, j)]
    ensures forall j :: 0 <= j < |r| ==> r[j] < |starts|
  {
    var p := Place(starts, order, i, i);
    order[..p] + [order[i]] + order[p..i] + order[i + 1..]
  }

  /** Which position moves to position j, when the row at i is moved down to p. */
  function Source(p: nat, i: nat, j: nat): (r: nat)
    requires p <= i
    ensures j <= i ==> r <= i
    ensures j > i ==> r == j
  {
    if j < p || j > i then j else if j == p then i else j - 1
  }

  function SortFrom(starts: seq<nat>, order: seq<nat>, i: nat): (r: seq<nat>)
    requires i <= |order| && forall j :: 0 <= j < |order| ==> order[j] < |starts|
    ensures |r| == |order| && forall j :: 0 <= j < |r| ==> r[j] < |starts|
    decreases |order| - i
  {
    if i == |order| then order else SortFrom(starts, SortStep(starts, order, i), i + 1)
  }

  function Identity(n: nat): (r: seq<nat>)
    ensures |r| == n && forall i :: 0 <= i < n ==> r[i] == i
  { seq(n, i => i) }

  /** The stable order by start column. */
  function StableOrder(starts: seq<nat>): (r: seq<nat>)
    ensures |r| == |starts| && forall j :: 0 <= j < |r| ==> r[j] < |starts|
  {
    SortFrom(starts, Identity(|starts|), 0)
  }

  /** Ordered by start, and by original position among equal starts, up to i. */
  ghost predicate Ordered(starts: seq<nat>, order: seq<nat>, i: nat) {
    && i <= |order| && (forall j :: 0 <= j < |order| ==> order[j] < |starts|)
    && forall a, b :: 0 <= a < b < i ==>
         starts[order[a]] < starts[order[b]] || (starts[order[a]] == starts[order[b]] && order[a] < order[b])
  }

  /** The rows from i on are still in their original places, behind all rows with a smaller index. */
  ghost predicate Waiting(order: seq<nat>, i: nat) {
    && i <= |order|
    && (forall j :: i <= j < |order| ==> order[j] == j)
    && (forall j :: 0 <= j < i ==> order[j] < i)
  }

  lemma {:induction false} PlaceOk(starts: seq<nat>, order: seq<nat>, i: nat, p: nat)
    requires p <= i < |order| && Ordered(starts, order, i)
    requires forall j :: p <= j < i ==> starts[order[j]] > starts[order[i]]
    ensures var r := Place(starts, order, i, p);
            && (forall j :: r <= j < i ==> starts[order[j]] > starts[order[i]])
            && (forall j :: 0 <= j < r ==> starts[order[j]] <= starts[order[i]])
  {
    if p > 0 && starts[order[p - 1]] > starts[order[i]] {
      PlaceOk(starts, order, i, p - 1);
    }
  }

  lemma {:induction false} SortStepOk(starts: seq<nat>, order: seq<nat>, i: nat)
    requires i < |order| && Ordered(starts, order, i) && Waiting(order, i)
    ensures Ordered(starts, SortStep(starts, order, i), i + 1) && Waiting(SortStep(starts, order, i), i + 1)
  {
    PlaceOk(starts, order, i, i);
  }

  lemma {:induction false} SortFromOk(starts: seq<nat>, order: seq<nat>, i: nat)
    requires i <= |order| && Ordered(starts, order, i) && Waiting(order, i)
    ensures Ordered(starts, SortFrom(starts, order, i), |order|)
    decreases |order| - i
  {
    if i < |order| {
      SortStepOk(starts, order, i);
      SortFromOk(starts, SortStep(starts, order, i), i + 1);
    }
  }

  /** The order is sorted and stable. */
  lemma {:induction false} StableOrderOk(starts: seq<nat>)
    ensures Ordered(starts, StableOrder(starts), |starts|)
  {
    SortFromOk(starts, Identity(|starts|), 0);
  }

  // ------------------------------------------------- solving in another order

  ghost function Pick<T>(s: seq<T>, order: seq<nat>): (r: seq<T>)
    requires forall j :: 0 <= j < |order| ==> order[j] < |s|
    ensures |r| == |order| && forall j :: 0 <= j < |r| ==> r[j] == s[order[j]]
  {
    seq(|order|, j requires 0 <= j < |order| => s[order[j]])
  }

  lemma {:induction false} SortStepKeeps<F(!new)>(
      starts: seq<nat>, eqs: seq<Equation<F>>, n: nat, s: nat, order: seq<nat>, i: nat)
    requires Shaped(eqs, n, s) && |eqs| == |starts| && i < |order|
    requires forall j :: 0 <= j < |order| ==> order[j] < |starts|
    ensures Dependent(Pick(eqs, SortStep(starts, order, i)), n) <==> Dependent(Pick(eqs, order), n)
  {
    var p := Place(starts, order, i, i);
    var q := Pick(eqs, order);
    var a, t, e, b := q[..p], q[p..i], q[i], q[i + 1..];
    DependentPassed(a, t, e, b, n);
    assert q == a + t + [e] + b;
    PickMoved(eqs, starts, order, i);
  }

  lemma {:induction false} PickMoved<T>(s: seq<T>, starts: seq<nat>, order: seq<nat>, i: nat)
    requires |s| == |starts| && i < |order| && forall j :: 0 <= j < |order| ==> order[j] < |starts|
    ensures var p, q := Place(starts, order, i, i), Pick(s, order);
            Pick(s, SortStep(starts, order, i)) == q[..p] + [q[i]] + q[p..i] + q[i + 1..]
  {
  }

  lemma {:induction false} SortStepComplete(starts: seq<nat>, order: seq<nat>, i: nat, x: nat)
    requires i < |order| && (forall j :: 0 <= j < |order| ==> order[j] < |starts|) && x in order
    ensures x in SortStep(starts, order, i)
  {
    var p := Place(starts, order, i, i);
    var j :| 0 <= j < |order| && order[j] == x;
    var at := if j < p then j else if j < i then j + 1 else if j == i then p else j;
    assert SortStep(starts, order, i)[at] == x;
  }

  lemma {:induction false} SortFromComplete(starts: seq<nat>, order: seq<nat>, i: nat, x: nat)
    requires i <= |order| && (forall j :: 0 <= j < |order| ==> order[j] < |starts|) && x in order
    ensures x in SortFrom(starts, order, i)
    decreases |order| - i
  {
    if i < |order| {
      SortStepComplete(starts, order, i, x);
      SortFromComplete(starts, SortStep(starts, order, i), i + 1, x);
    }
  }

  lemma {:induction false} SortFromKeeps<F(!new)>(
      starts: seq<nat>, eqs: seq<Equation<F>>, n: nat, s: nat, order: seq<nat>, i: nat)
    requires Shaped(eqs, n, s) && |eqs| == |starts| && i <= |order|
    requires forall j :: 0 <= j < |order| ==> order[j] < |starts|
    ensures Dependent(Pick(eqs, SortFrom(starts, order, i)), n) <==> Dependent(Pick(eqs, order), n)
    decreases |order| - i
  {
    if i < |order| {
      SortStepKeeps(starts, eqs, n, s, order, i);
      SortFromKeeps(starts, eqs, n, s, SortStep(starts, order, i), i + 1);
    }
  }

  /** Sorting neither loses an equation nor changes whether the equations are dependent. */
  lemma {:induction false} SortKeeps<F(!new)>(starts: seq<nat>, eqs: seq<Equation<F>>, n: nat, s: nat)
    requires Shaped(eqs, n, s) && |eqs| == |starts|
    ensures Dependent(Pick(eqs, StableOrder(starts)), n) <==> Dependent(eqs, n)
    ensures forall x: nat :: x < |eqs| ==> x in StableOrder(starts)
  {
    SortFromKeeps(starts, eqs, n, s, Identity(|starts|), 0);
    assert Pick(eqs, Identity(|starts|)) == eqs;
    forall x: nat | x < |eqs| ensures x in StableOrder(starts) {
      assert Identity(|starts|)[x] == x;
      SortFromComplete(starts, Identity(|starts|), 0, x);
    }
  }
}
