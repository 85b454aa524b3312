/** The binned key-value store (`Baxos` of volePSI/PaxosImpl.h): the hash of a key selects a bin, and every bin is a
    `Paxos` store in its own segment of the table. */
module Baxos {
  import opened Prelude
  import opened Fields
  import opened Triangulation
  import opened PaxosMatrix
  import opened Paxos
  import opened BaxosBins

  /** `hash` is AES under the seed, `binHash` the number of which the bin is the remainder. */
  datatype Params<!K, !H, !F> = Params(
    k: Field<F>, hash: K -> H, binHash: H -> nat, hasher: Hasher<H, F>,
    n: nat, denseSize: nat, weight: nat, bins: nat, itemsPerBin: nat)

  function HashOf<K, H, F>(x: Params<K, H, F>, key: K): H { (x.hash)(key) }

  function BinOf<K, H, F>(x: Params<K, H, F>, h: H): (b: nat)
    requires x.bins > 0
    ensures b < x.bins
  {
    (x.binHash)(h) % x.bins
  }

  ghost predicate ParamsOk<K, H(!new), F(!new)>(x: Params<K, H, F>) {
    && IsField(x.k) && HasherOk(x.hasher, x.n, x.weight) && 0 < x.weight <= x.n && x.denseSize > 0
    && x.bins > 0
  }

  function SizePer<K, H, F>(x: Params<K, H, F>): nat { x.n + x.denseSize }

  function Hashes<K, H, F>(x: Params<K, H, F>, keys: seq<K>): (r: seq<H>)
    ensures |r| == |keys| && forall i :: 0 <= i < |keys| ==> r[i] == HashOf(x, keys[i])
  {
    seq(|keys|, i requires 0 <= i < |keys| => HashOf(x, keys[i]))
  }

  function Bins<K, H, F>(x: Params<K, H, F>, hs: seq<H>): (r: seq<nat>)
    requires x.bins > 0
    ensures |r| == |hs| && forall i :: 0 <= i < |hs| ==> r[i] == BinOf(x, hs[i]) < x.bins
  {
    seq(|hs|, i requires 0 <= i < |hs| => BinOf(x, hs[i]))
  }

  // ------------------------------------------------- the meaning of a table

  lemma {:induction false} SegmentFits(b: nat, bins: nat, size: nat)
    requires b < bins
    ensures 0 <= b * size && b * size + size <= bins * size
  {
    assert (b + 1) * size <= bins * size;
  }

  /** The segment of a bin. */
  ghost function Segment<F>(p: seq<F>, b: nat, bins: nat, size: nat): (r: seq<F>)
    requires b < bins && |p| == bins * size
    ensures |r| == size
  {
    SegmentFits(b, bins, size);
    p[b * size..b * size + size]
  }

  /** The entry of the row of a hash times a segment. */
  ghost function Entry<K, H, F>(x: Params<K, H, F>, h: H, segment: seq<F>): F
    requires |segment| == SizePer(x)
  {
    Dot(x.k, HRow(x.k, x.n, x.denseSize, RowOf(x.hasher, h), DenseOf(x.hasher, h)), segment)
  }

  /** What a hash decodes to. */
  ghost function ValueAt<K, H, F>(x: Params<K, H, F>, h: H, p: seq<F>): F
    requires x.bins > 0 && |p| == x.bins * SizePer(x)
  {
    Entry(x, h, Segment(p, BinOf(x, h), x.bins, SizePer(x)))
  }

  /** The row of a hash in the matrix of all bins. */
  ghost function FullRow<K, H, F>(x: Params<K, H, F>, h: H): (r: seq<F>)
    requires x.bins > 0
    ensures |r| == x.bins * SizePer(x)
  {
    var b := BinOf(x, h);
    SegmentFits(b, x.bins, SizePer(x));
    ZeroVec(x.k, b * SizePer(x)) + HRow(x.k, x.n, x.denseSize, RowOf(x.hasher, h), DenseOf(x.hasher, h))
      + ZeroVec(x.k, x.bins * SizePer(x) - b * SizePer(x) - SizePer(x))
  }

  /** A hash decodes to the product of its row with the segment that its number selects. */
  lemma {:induction false} ValueFromSegment<K, H, F>(x: Params<K, H, F>, h: H, p: seq<F>) returns (at: nat)
    requires x.bins > 0 && |p| == x.bins * SizePer(x)
    ensures at == (x.binHash)(h) % x.bins * SizePer(x) && at + SizePer(x) <= |p|
    ensures ValueAt(x, h, p) == Dot(x.k, HRow(x.k, x.n, x.denseSize, RowOf(x.hasher, h), DenseOf(x.hasher, h)),
                                    p[at..at + SizePer(x)])
  {
    SegmentFits(BinOf(x, h), x.bins, SizePer(x));
    at := BinOf(x, h) * SizePer(x);
  }

  lemma {:induction false} DotOfParts<F(!new)>(k: Field<F>, a: seq<F>, b: seq<F>, p: seq<F>, q: seq<F>)
    requires IsField(k) && |a| == |p| && |b| == |q|
    ensures Dot(k, a + b, p + q) == Add(k, Dot(k, a, p), Dot(k, b, q))
  {
    DotConcat(k, a, b, p, q, |b|);
  }

  /** Decoding is linear in the table: it is the inner product with the row of the hash. */
  lemma {:induction false} DecodingIsLinear<K, H, F(!new)>(x: Params<K, H, F>, h: H, p: seq<F>)
    requires IsField(x.k) && x.bins > 0 && |p| == x.bins * SizePer(x)
    ensures ValueAt(x, h, p) == Dot(x.k, FullRow(x, h), p)
  {
    var k, b, size := x.k, BinOf(x, h), SizePer(x);
    SegmentFits(b, x.bins, size);
    var at := b * size;
    var row := HRow(k, x.n, x.denseSize, RowOf(x.hasher, h), DenseOf(x.hasher, h));
    var before, mine, after := p[..at], p[at..at + size], p[at + size..];
    var z0, z1 := ZeroVec(k, at), ZeroVec(k, |p| - at - size);
    assert p == before + mine + after;
    DotOfParts(k, z0 + row, z1, before + mine, after);
    DotOfParts(k, z0, row, before, mine);
    DotToZeroTerms(k, z0, before, at);
    DotToZeroTerms(k, z1, after, |after|);
    AddCancel(k, Dot(k, row, mine), k.zero);
    assert AddLaws(k, Dot(k, row, mine), k.zero, k.zero);
  }

  // ------------------------------------------------- solving one bin

  ghost function RowsFor<K, H, F>(x: Params<K, H, F>, hs: seq<H>): (r: seq<seq<nat>>)
    ensures |r| == |hs| && forall i :: 0 <= i < |hs| ==> r[i] == RowOf(x.hasher, hs[i])
  {
    seq(|hs|, i requires 0 <= i < |hs| => RowOf(x.hasher, hs[i]))
  }

  ghost function DenseFor<K, H, F>(x: Params<K, H, F>, hs: seq<H>): (r: seq<F>)
    ensures |r| == |hs| && forall i :: 0 <= i < |hs| ==> r[i] == DenseOf(x.hasher, hs[i])
  {
    seq(|hs|, i requires 0 <= i < |hs| => DenseOf(x.hasher, hs[i]))
  }

  /** No column of the bin is heavier than the weight lists have room for. */
  ghost predicate Light<K, H, F>(x: Params<K, H, F>, hs: seq<H>) {
    LightRows(RowsFor(x, hs), x.n)
  }

  /** A bin with these hashes is encoded. */
  ghost predicate BinEncodable<K, H, F(!new)>(x: Params<K, H, F>, hs: seq<H>) {
    Light(x, hs) && Encodable(x.k, x.n, RowsFor(x, hs), DenseFor(x, hs), x.denseSize)
  }

  /** The segment solves all items of the bin. */
  ghost predicate BinSolved<K, H, F>(x: Params<K, H, F>, items: seq<Item<H, F>>, segment: seq<F>) {
    |segment| == SizePer(x) && forall i :: 0 <= i < |items| ==> Entry(x, items[i].hash, segment) == items[i].value
  }

  function HashesIn<H, F>(items: seq<Item<H, F>>): (r: seq<H>)
    ensures |r| == |items| && forall i :: 0 <= i < |r| ==> r[i] == items[i].hash
  {
    seq(|items|, i requires 0 <= i < |items| => items[i].hash)
  }

  function ValuesIn<H, F>(items: seq<Item<H, F>>): (r: seq<F>)
    ensures |r| == |items| && forall i :: 0 <= i < |r| ==> r[i] == items[i].value
  {
    seq(|items|, i requires 0 <= i < |items| => items[i].value)
  }

  method SolveBin<K, H(!new), F(!new, ==)>(x: Params<K, H, F>, items: seq<Item<H, F>>)
    returns (o: Outcome, segment: seq<F>)
    requires ParamsOk(x)
    ensures o.Encoded? ==> BinSolved(x, items, segment)
    ensures o.TooHeavy? <==> !Light(x, HashesIn(items))
    ensures o.TooHeavy? ||
            EndsBy(x.k, x.n, RowsFor(x, HashesIn(items)), DenseFor(x, HashesIn(items)), x.denseSize, o)
    ensures o.Encoded? <==> BinEncodable(x, HashesIn(items))
    ensures |segment| == SizePer(x)
  {
    var store := new Store<H, F>(x.k, x.hasher, x.n, x.denseSize, x.weight);
    var output := new F[SizePer(x)](_ => x.k.zero);
    var hs, vs := HashesIn(items), ValuesIn(items);
    assert store.KeyRows(hs) == RowsFor(x, hs) && store.KeyDense(hs) == DenseFor(x, hs);
    var ok := store.SetInput(hs);
    if !ok {
      return TooHeavy, output[..];
    }
    o := store.Encode(vs, output);
    segment := output[..];
    if o.Encoded? {
      forall i | 0 <= i < |items| ensures Entry(x, items[i].hash, segment) == items[i].value {
        assert RowSolved(x.k, x.n, store.rows, store.dense, vs, segment, i);
      }
    }
  }

  // ------------------------------------------------- solving all bins

  datatype SolveOutcome = AllSolved | WrongSize | Overflow | TooManyItems | BinFailed(o: Outcome)

  /** The items of bin b. */
  ghost function BinItems<H, F>(items: seq<Item<H, F>>, bins: seq<nat>, b: nat): (r: seq<Item<H, F>>)
    requires |items| == |bins|
  {
    var m := Members(bins, 0, |bins|, b);
    seq(|m|, j requires 0 <= j < |m| => items[m[j]])
  }

  function Items<H, F>(hs: seq<H>, values: seq<F>): (r: seq<Item<H, F>>)
    requires |hs| == |values|
    ensures |r| == |hs| && forall i :: 0 <= i < |r| ==> r[i] == Item(hs[i], values[i])
  {
    seq(|hs|, i requires 0 <= i < |hs| => Item(hs[i], values[i]))
  }

  /** Why a bin may fail: either it has a column beyond the weight lists, or the run on its rows says why. */
  ghost predicate FailsAt<K, H, F(!new)>(x: Params<K, H, F>, items: seq<Item<H, F>>, bins: seq<nat>, b: nat, o: Outcome)
    requires |items| == |bins|
  {
    var mine := HashesIn(BinItems(items, bins, b));
    && !o.Encoded? && (o.TooHeavy? <==> !Light(x, mine))
    && (o.TooHeavy? || EndsBy(x.k, x.n, RowsFor(x, mine), DenseFor(x, mine), x.denseSize, o))
  }

  /** Segment b of the table solves bin b. */
  ghost predicate SegmentSolved<K, H, F>(x: Params<K, H, F>, items: seq<Item<H, F>>, bins: seq<nat>, p: seq<F>, b: nat)
    requires |items| == |bins| && |p| == x.bins * SizePer(x) && b < x.bins
  {
    BinSolved(x, BinItems(items, bins, b), Segment(p, b, x.bins, SizePer(x)))
  }

  /** The hashes of bin b. */
  ghost function BinHashes<K, H, F>(x: Params<K, H, F>, hs: seq<H>, b: nat): (r: seq<H>)
    requires x.bins > 0
  {
    var m := Members(Bins(x, hs), 0, |hs|, b);
    seq(|m|, j requires 0 <= j < |m| => hs[m[j]])
  }

  lemma {:induction false} HashesOfItems<K, H, F>(x: Params<K, H, F>, hs: seq<H>, values: seq<F>, b: nat)
    requires x.bins > 0 && |hs| == |values|
    ensures HashesIn(BinItems(Items(hs, values), Bins(x, hs), b)) == BinHashes(x, hs, b)
  {
  }

  /** Exactly the keys whose hash number leaves the remainder b are in bin b. */
  lemma {:induction false} InBinIff<K, H, F>(x: Params<K, H, F>, keys: seq<K>, b: nat, i: nat)
    requires x.bins > 0 && i < |keys|
    ensures i in Members(Bins(x, Hashes(x, keys)), 0, |keys|, b) <==> (x.binHash)((x.hash)(keys[i])) % x.bins == b
  {
    var bins := Bins(x, Hashes(x, keys));
    var j := MembersComplete(bins, 0, |keys|, i);
    assert Members(bins, 0, |keys|, bins[i])[j] == i;
  }

  /** Bin b has no more items than it may have, and is encoded. */
  ghost predicate BinFits<K, H, F(!new)>(x: Params<K, H, F>, hs: seq<H>, b: nat)
    requires x.bins > 0
  {
    |BinHashes(x, hs, b)| <= x.itemsPerBin && BinEncodable(x, BinHashes(x, hs, b))
  }

  /** When the bins are filled and solved. */
  ghost predicate BinsSolvable<K, H, F(!new)>(x: Params<K, H, F>, hs: seq<H>, threads: nat, per: nat)
    requires x.bins > 0
  {
    && NoneOverfull(Bins(x, hs), x.bins, threads, per)
    && forall b {:trigger BinFits(x, hs, b)} :: 0 <= b < x.bins ==> BinFits(x, hs, b)
  }

  /** When `solve` succeeds; a single bin is not filled by threads and has no limit. */
  ghost predicate Solvable<K, H, F(!new)>(x: Params<K, H, F>, hs: seq<H>, threads: nat, per: nat)
    requires x.bins > 0
  {
    if x.bins == 1 then BinEncodable(x, hs) else BinsSolvable(x, hs, threads, per)
  }

  lemma {:induction false} FewMembers(bins: seq<nat>, a: nat, e: nat, b: nat)
    requires a <= e <= |bins|
    ensures |Members(bins, a, e, b)| <= e - a
    decreases e
  {
    if a < e { FewMembers(bins, a, e - 1, b); }
  }

  lemma {:induction false} ApartBin<K, H(!new), F(!new)>(x: Params<K, H, F>, hs: seq<H>)
    requires ParamsOk(x) && AllApart(RowsFor(x, hs)) && x.n >= |hs| + 2
    ensures BinEncodable(x, hs)
  {
    HashedRowsOk(x, hs, RowsFor(x, hs));
    ApartEncodable(x.k, x.n, RowsFor(x, hs), DenseFor(x, hs), x.denseSize);
  }

  /** For example, a single key is solved, if there is room for it and its bin has three columns. */
  lemma {:induction false} LoneKeySolvable<K, H(!new), F(!new)>(
      x: Params<K, H, F>, hs: seq<H>, threads: nat, per: nat)
    requires ParamsOk(x) && |hs| == 1 && x.n >= 3 && x.itemsPerBin > 0 && per > 0 && threads > 0
    ensures Solvable(x, hs, threads, per)
  {
    var bins := Bins(x, hs);
    ApartBin(x, hs);
    forall t, b | 0 <= t < threads && 0 <= b < x.bins ensures !Overfull(bins, t, b, threads, per) {
      SharesMeet(1, t, threads);
      FewMembers(bins, Begin(1, t, threads), Begin(1, t + 1, threads), b);
    }
    forall b | 0 <= b < x.bins ensures BinFits(x, hs, b) {
      FewMembers(bins, 0, 1, b);
      ApartBin(x, BinHashes(x, hs, b));
    }
  }

  /** If every segment solves its bin, every key decodes to its value. */
  lemma {:induction false} AllKeysSolved<K, H, F>(x: Params<K, H, F>, hs: seq<H>, values: seq<F>, p: seq<F>)
    requires x.bins > 0 && |hs| == |values| && |p| == x.bins * SizePer(x)
    requires forall b {:trigger SegmentSolved(x, Items(hs, values), Bins(x, hs), p, b)} ::
      0 <= b < x.bins ==> SegmentSolved(x, Items(hs, values), Bins(x, hs), p, b)
    ensures forall i :: 0 <= i < |hs| ==> ValueAt(x, hs[i], p) == values[i]
  {
    var items, bins := Items(hs, values), Bins(x, hs);
    forall i | 0 <= i < |hs| ensures ValueAt(x, hs[i], p) == values[i] {
      var b := bins[i];
      assert SegmentSolved(x, items, bins, p, b);
      var j := MembersComplete(bins, 0, |bins|, i);
      assert BinItems(items, bins, b)[j] == items[i];
    }
  }

  /** Writes the segment of one bin. */
  method WriteSegment<F>(p: array<F>, b: nat, ghost bins: nat, size: nat, v: seq<F>)
    requires b < bins && p.Length == bins * size && |v| == size
    modifies p
    ensures Segment(p[..], b, bins, size) == v
    ensures forall c :: 0 <= c < bins && c != b ==> Segment(p[..], c, bins, size) == Segment(old(p[..]), c, bins, size)
  {
    SegmentFits(b, bins, size);
    var at := b * size;
    for i := 0 to size
      invariant forall q :: 0 <= q < p.Length ==> p[q] == if at <= q < at + i then v[q - at] else old(p[q])
    {
      p[at + i] := v[i];
    }
    forall c | 0 <= c < bins && c != b ensures Segment(p[..], c, bins, size) == Segment(old(p[..]), c, bins, size) {
      SegmentFits(c, bins, size);
      if c < b { SegmentFits(c, b, size); } else { SegmentFits(b, c, size); }
    }
  }

  /** The bins from b on are filled but not merged. */
  ghost predicate RestReady<T>(a: array2<T>, sizes: array2<nat>, src: seq<T>, bins: seq<nat>, per: nat, b: nat)
    reads a, sizes
  {
    a.Length0 == sizes.Length1 && forall c {:trigger BinReady(BinRow(a, c), SizesOf(sizes, c), src, bins, c, per)} ::
      b <= c < a.Length0 ==> BinReady(BinRow(a, c), SizesOf(sizes, c), src, bins, c, per)
  }

  ghost predicate SolvedBelow<K, H, F>(x: Params<K, H, F>, items: seq<Item<H, F>>, bins: seq<nat>, p: seq<F>, b: nat) {
    && |items| == |bins| && |p| == x.bins * SizePer(x) && b <= x.bins
    && forall c {:trigger SegmentSolved(x, items, bins, p, c)} :: 0 <= c < b ==> SegmentSolved(x, items, bins, p, c)
  }

  /** One bin: its stretches are moved together, the items are solved, the segment is written. */
  method SolveNext<K, H(!new), F(!new, ==)>(
      x: Params<K, H, F>, a: array2<Item<H, F>>, sizes: array2<nat>, per: nat, p: array<F>, b: nat,
      ghost items: seq<Item<H, F>>, ghost bins: seq<nat>)
    returns (r: SolveOutcome)
    requires ParamsOk(x) && b < x.bins == a.Length0 == sizes.Length1 && a.Length1 == per * sizes.Length0
    requires a as object != sizes && p as object != a && p as object != sizes
    requires RestReady(a, sizes, items, bins, per, b) && SolvedBelow(x, items, bins, p[..], b)
    requires p.Length == x.bins * SizePer(x)
    modifies a, p
    ensures r.AllSolved? ==> RestReady(a, sizes, items, bins, per, b + 1) && SolvedBelow(x, items, bins, p[..], b + 1)
    ensures r.AllSolved? <==> |Members(bins, 0, |bins|, b)| <= x.itemsPerBin &&
                              BinEncodable(x, HashesIn(BinItems(items, bins, b)))
    ensures !r.Overflow? && !r.WrongSize?
    ensures r.TooManyItems? ==> |Members(bins, 0, |bins|, b)| > x.itemsPerBin
    ensures r.BinFailed? ==> FailsAt(x, items, bins, b, r.o)
  {
    assert BinReady(BinRow(a, b), SizesOf(sizes, b), items, bins, b, per);
    label start:
    var size := MergeBin(a, sizes, items, bins, per, b);
    if size > x.itemsPerBin {
      return TooManyItems;
    }
    var mine := seq(size, j requires 0 <= j < size && a.Length1 >= size && b < a.Length0 reads a => a[b, j]);
    assert mine == BinItems(items, bins, b);
    var o, segment := SolveBin(x, mine);
    if !o.Encoded? {
      return BinFailed(o);
    }
    WriteSegment(p, b, x.bins, SizePer(x), segment);
    forall c | 0 <= c < b + 1 ensures SegmentSolved(x, items, bins, p[..], c) {
      assert c < b ==> old@start(SegmentSolved(x, items, bins, p[..], c));
    }
    forall c | b + 1 <= c < a.Length0 ensures BinReady(BinRow(a, c), SizesOf(sizes, c), items, bins, c, per) {
      assert old@start(BinReady(BinRow(a, c), SizesOf(sizes, c), items, bins, c, per));
    }
    return AllSolved;
  }

  /** All keys decode to their values. */
  ghost predicate Decodes<K, H, F>(x: Params<K, H, F>, keys: seq<K>, values: seq<F>, p: seq<F>)
    requires |keys| == |values| && x.bins > 0
  {
    |p| == x.bins * SizePer(x) && forall i :: 0 <= i < |keys| ==> ValueAt(x, HashOf(x, keys[i]), p) == values[i]
  }

  /** The many-bin case of `implParSolve`; per is the room that each thread has in each bin. */
  method SolveBins<K, H(!new), F(!new, ==)>(
      x: Params<K, H, F>, hs: seq<H>, values: seq<F>, p: array<F>, threads: nat, per: nat, blank: H)
    returns (r: SolveOutcome)
    requires ParamsOk(x) && |hs| == |values| && threads > 0 && p.Length == x.bins * SizePer(x)
    modifies p
    ensures r.AllSolved? <==> BinsSolvable(x, hs, threads, per)
    ensures r.AllSolved? ==> forall i :: 0 <= i < |hs| ==> ValueAt(x, hs[i], p[..]) == values[i]
    ensures !r.WrongSize?
    ensures r.TooManyItems? ==> exists b :: 0 <= b < x.bins && |Members(Bins(x, hs), 0, |hs|, b)| > x.itemsPerBin
    ensures r.BinFailed? ==> exists b :: 0 <= b < x.bins && FailsAt(x, Items(hs, values), Bins(x, hs), b, r.o)
    ensures r.Overflow? ==> exists t, b ::
      0 <= t < threads && 0 <= b < x.bins && Overfull(Bins(x, hs), t, b, threads, per)
  {
    var items, bins := Items(hs, values), Bins(x, hs);
    NatProduct(per, threads);
    var a := new Item<H, F>[x.bins, per * threads]((_, _) => Item(blank, x.k.zero));
    var sizes := new nat[threads, x.bins]((_, _) => 0);
    var ok := FillBins(a, sizes, items, bins, per);
    if !ok {
      return Overflow;
    }
    forall c | 0 <= c < x.bins ensures BinReady(BinRow(a, c), SizesOf(sizes, c), items, bins, c, per) {
      PlacedIsReady(a, sizes, items, bins, per, c);
    }
    for b := 0 to x.bins
      invariant RestReady(a, sizes, items, bins, per, b) && SolvedBelow(x, items, bins, p[..], b)
      invariant forall c {:trigger BinFits(x, hs, c)} :: 0 <= c < b ==> BinFits(x, hs, c)
    {
      HashesOfItems(x, hs, values, b);
      r := SolveNext(x, a, sizes, per, p, b, items, bins);
      if !r.AllSolved? {
        assert !BinFits(x, hs, b);
        return;
      }
    }
    AllKeysSolved(x, hs, values, p[..]);
    return AllSolved;
  }

  lemma {:induction false} OneBin<K, H, F>(x: Params<K, H, F>, hs: seq<H>, values: seq<F>)
    requires x.bins == 1 && |hs| == |values|
    ensures BinItems(Items(hs, values), Bins(x, hs), 0) == Items(hs, values)
  {
    EveryMember(Bins(x, hs), |hs|);
  }

  lemma {:induction false} EveryMember(bins: seq<nat>, e: nat)
    requires e <= |bins| && forall i :: 0 <= i < |bins| ==> bins[i] == 0
    ensures |Members(bins, 0, e, 0)| == e && forall j :: 0 <= j < e ==> Members(bins, 0, e, 0)[j] == j
  {
    if e > 0 { EveryMember(bins, e - 1); }
  }

  /** `solve`: if it ends without an exception and no bin overflows, the table decodes every key to its value. */
  method Solve<K, H(!new), F(!new, ==)>(
      x: Params<K, H, F>, keys: seq<K>, values: seq<F>, p: array<F>, numThreads: nat, per: nat, blank: H)
    returns (r: SolveOutcome)
    requires ParamsOk(x) && |keys| == |values|
    modifies p
    ensures r.WrongSize? <==> p.Length != x.bins * SizePer(x)
    ensures r.AllSolved? <==> p.Length == x.bins * SizePer(x) &&
                              Solvable(x, Hashes(x, keys), Max(numThreads, 1), per)
    ensures r.AllSolved? ==> Decodes(x, keys, values, p[..])
    ensures r.BinFailed? ==> var hs := Hashes(x, keys);
                             exists b :: 0 <= b < x.bins && FailsAt(x, Items(hs, values), Bins(x, hs), b, r.o)
    ensures r.TooManyItems? ==> var bins := Bins(x, Hashes(x, keys));
                                exists b :: 0 <= b < x.bins && |Members(bins, 0, |bins|, b)| > x.itemsPerBin
    ensures r.Overflow? ==> var threads := Max(numThreads, 1);
                            exists t, b :: 0 <= t < threads && 0 <= b < x.bins &&
                                           Overfull(Bins(x, Hashes(x, keys)), t, b, threads, per)
  {
    if p.Length != x.bins * SizePer(x) {
      return WrongSize;
    }
    var hs := Hashes(x, keys);
    if x.bins == 1 {
      OneBin(x, hs, values);
      assert HashesIn(Items(hs, values)) == hs;
      var o, segment := SolveBin(x, Items(hs, values));
      if !o.Encoded? {
        assert FailsAt(x, Items(hs, values), Bins(x, hs), 0, o);
        return BinFailed(o);
      }
      WriteSegment(p, 0, 1, SizePer(x), segment);
      AllKeysSolved(x, hs, values, p[..]);
      return AllSolved;
    }
    r := SolveBins(x, hs, values, p, Max(numThreads, 1), per, blank);
  }

  // ------------------------------------------------- decoding

  const BATCH_SIZE := 32
  const DECODE_SIZE := 512

  /** A hash that waits to be decoded, and where its value goes. */
  datatype Slot<+H> = Slot(hash: H, index: nat)

  /** What becomes of an output entry: the value is written over it, or added to it. */
  function Result<F>(k: Field<F>, add: bool, before: F, v: F): F {
    if add then Add(k, before, v) else v
  }

  ghost predicate SlotsOk<H>(slots: seq<Slot<H>>, size: nat) {
    && (forall q :: 0 <= q < |slots| ==> slots[q].index < size)
    && (forall q, r :: 0 <= q < r < |slots| ==> slots[q].index != slots[r].index)
  }

  /** The outputs after the first slots have been decoded. */
  ghost predicate DecodedTo<K, H, F>(
      x: Params<K, H, F>, slots: seq<Slot<H>>, segment: seq<F>, add: bool, before: seq<F>, after: seq<F>, m: nat)
    requires |segment| == SizePer(x) && |before| == |after| && m <= |slots| && SlotsOk(slots, |before|)
  {
    && (forall q :: 0 <= q < m ==>
          after[slots[q].index] == Result(x.k, add, before[slots[q].index], Entry(x, slots[q].hash, segment)))
    && (forall i :: 0 <= i < |before| && (forall q :: 0 <= q < m ==> slots[q].index != i) ==> after[i] == before[i])
  }

  lemma {:induction false} DecodedOneMore<K, H, F>(
      x: Params<K, H, F>, slots: seq<Slot<H>>, segment: seq<F>, add: bool, before: seq<F>, after: seq<F>, m: nat)
    requires |segment| == SizePer(x) && |before| == |after| && m < |slots| && SlotsOk(slots, |before|)
    requires DecodedTo(x, slots, segment, add, before, after, m)
    ensures var i := slots[m].index;
            DecodedTo(x, slots, segment, add, before,
              after[i := Result(x.k, add, after[i], Entry(x, slots[m].hash, segment))], m + 1)
  {
  }

  lemma {:induction false} HashedRowsOk<K, H(!new), F(!new)>(x: Params<K, H, F>, hs: seq<H>, rows: seq<seq<nat>>)
    requires ParamsOk(x) && |rows| == |hs| && forall i :: 0 <= i < |hs| ==> rows[i] == RowOf(x.hasher, hs[i])
    ensures RowsOk(rows, x.n) && forall i :: 0 <= i < |rows| ==> |rows[i]| == x.weight
  {
    forall i | 0 <= i < |hs| ensures KeyOk(x.hasher, x.n, x.weight, hs[i]) { }
  }

  /** The 32-fold part of `implDecodeBin`: the rows of a batch, decoded together. */
  method DecodeHashes<K, H(!new), F(!new)>(x: Params<K, H, F>, hs: seq<H>, segment: seq<F>) returns (values: seq<F>)
    requires ParamsOk(x) && |segment| == SizePer(x)
    ensures |values| == |hs| && forall i :: 0 <= i < |hs| ==> values[i] == Entry(x, hs[i], segment)
  {
    var rows := seq(|hs|, i requires 0 <= i < |hs| => RowOf(x.hasher, hs[i]));
    var dense := seq(|hs|, i requires 0 <= i < |hs| => DenseOf(x.hasher, hs[i]));
    HashedRowsOk(x, hs, rows);
    values := DecodeBatch(x.k, x.n, x.weight, rows, dense, segment);
  }

  method WriteOne<K, H(!new), F(!new)>(
      x: Params<K, H, F>, slots: seq<Slot<H>>, ghost segment: seq<F>, add: bool, out: array<F>, ghost before: seq<F>,
      m: nat, v: F)
    requires |segment| == SizePer(x) && |before| == out.Length && m < |slots| && SlotsOk(slots, out.Length)
    requires DecodedTo(x, slots, segment, add, before, out[..], m) && v == Entry(x, slots[m].hash, segment)
    modifies out
    ensures DecodedTo(x, slots, segment, add, before, out[..], m + 1)
  {
    ghost var after := out[..];
    DecodedOneMore(x, slots, segment, add, before, after, m);
    var i := slots[m].index;
    out[i] := Result(x.k, add, out[i], v);
    assert out[..] == after[i := out[i]];
  }

  /** One batch of slots. */
  method DecodeGroup<K, H(!new), F(!new)>(
      x: Params<K, H, F>, slots: seq<Slot<H>>, segment: seq<F>, add: bool, out: array<F>, ghost before: seq<F>, i: nat)
    requires ParamsOk(x) && |segment| == SizePer(x) && |before| == out.Length && i + BATCH_SIZE <= |slots|
    requires SlotsOk(slots, out.Length)
    requires DecodedTo(x, slots, segment, add, before, out[..], i)
    modifies out
    ensures DecodedTo(x, slots, segment, add, before, out[..], i + BATCH_SIZE)
  {
    var hs := seq(BATCH_SIZE, j requires 0 <= j < BATCH_SIZE => slots[i + j].hash);
    var values := DecodeHashes(x, hs, segment);
    WriteGroup(x, slots, segment, add, out, before, i, values);
  }

  method WriteGroup<K, H(!new), F(!new)>(
      x: Params<K, H, F>, slots: seq<Slot<H>>, ghost segment: seq<F>, add: bool, out: array<F>, ghost before: seq<F>,
      i: nat, values: seq<F>)
    requires |segment| == SizePer(x) && |before| == out.Length && i + |values| <= |slots| && SlotsOk(slots, out.Length)
    requires DecodedTo(x, slots, segment, add, before, out[..], i)
    requires forall j :: 0 <= j < |values| ==> values[j] == Entry(x, slots[i + j].hash, segment)
    modifies out
    ensures DecodedTo(x, slots, segment, add, before, out[..], i + |values|)
  {
    for j := 0 to |values|
      invariant DecodedTo(x, slots, segment, add, before, out[..], i + j)
    {
      WriteOne(x, slots, segment, add, out, before, i + j, values[j]);
    }
  }

  /** `implDecodeBin` */
  method DecodeBin<K, H(!new), F(!new)>(
      x: Params<K, H, F>, slots: seq<Slot<H>>, segment: seq<F>, add: bool, out: array<F>)
    requires ParamsOk(x) && |segment| == SizePer(x) && SlotsOk(slots, out.Length)
    modifies out
    ensures DecodedTo(x, slots, segment, add, old(out[..]), out[..], |slots|)
  {
    ghost var before := out[..];
    var main := |slots| / BATCH_SIZE * BATCH_SIZE;
    var i := 0;
    while i < main
      invariant 0 <= i <= main && i % BATCH_SIZE == 0 && DecodedTo(x, slots, segment, add, before, out[..], i)
    {
      DecodeGroup(x, slots, segment, add, out, before, i);
      i := i + BATCH_SIZE;
    }
    while i < |slots|
      invariant main <= i <= |slots| && DecodedTo(x, slots, segment, add, before, out[..], i)
    {
      var h := slots[i].hash;
      assert KeyOk(x.hasher, x.n, x.weight, h);
      var v := DecodeRow(x.k, x.n, RowOf(x.hasher, h), DenseOf(x.hasher, h), segment);
      WriteOne(x, slots, segment, add, out, before, i, v);
      i := i + 1;
    }
  }

  // ------------------------------------------------- batching the inputs of a thread

  ghost predicate Waits<H>(slots: seq<Slot<H>>, i: nat) {
    exists q :: 0 <= q < |slots| && slots[q].index == i
  }

  /** The hashes that wait for bin b are those of distinct inputs from begin up to i that belong there. */
  ghost predicate QueueOk<K, H, F>(x: Params<K, H, F>, hs: seq<H>, slots: seq<Slot<H>>, b: nat, begin: nat, i: nat)
    requires x.bins > 0
  {
    && i <= |hs| && SlotsOk(slots, |hs|)
    && forall q :: 0 <= q < |slots| ==>
      begin <= slots[q].index < i && slots[q].hash == hs[slots[q].index] && BinOf(x, slots[q].hash) == b
  }

  /** An output is final once its input has been taken up and no longer waits; until then it is untouched. */
  ghost predicate OutputOk<K, H, F>(
      x: Params<K, H, F>, hs: seq<H>, p: seq<F>, add: bool, before: seq<F>, after: seq<F>, waiting: seq<seq<Slot<H>>>,
      begin: nat, i: nat, j: nat)
    requires x.bins > 0 && |p| == x.bins * SizePer(x) && |before| == |after| == |hs| && |waiting| == x.bins && j < |hs|
  {
    after[j] ==
      if begin <= j < i && !Waits(waiting[BinOf(x, hs[j])], j) then Result(x.k, add, before[j], ValueAt(x, hs[j], p))
      else before[j]
  }

  ghost predicate Decoding<K, H, F>(
      x: Params<K, H, F>, hs: seq<H>, p: seq<F>, add: bool, before: seq<F>, after: seq<F>, waiting: seq<seq<Slot<H>>>,
      begin: nat, i: nat)
  {
    && x.bins > 0 && |p| == x.bins * SizePer(x) && |before| == |after| == |hs| && |waiting| == x.bins
    && (forall b {:trigger QueueOk(x, hs, waiting[b], b, begin, i)} :: 0 <= b < x.bins ==>
      QueueOk(x, hs, waiting[b], b, begin, i))
    && (forall j {:trigger OutputOk(x, hs, p, add, before, after, waiting, begin, i, j)} ::
          0 <= j < |hs| ==> OutputOk(x, hs, p, add, before, after, waiting, begin, i, j))
  }

  lemma {:induction false} Enqueued<K, H, F>(
      x: Params<K, H, F>, hs: seq<H>, p: seq<F>, add: bool, before: seq<F>, after: seq<F>, waiting: seq<seq<Slot<H>>>,
      begin: nat, i: nat)
    requires Decoding(x, hs, p, add, before, after, waiting, begin, i) && begin <= i < |hs|
    ensures var b := BinOf(x, hs[i]);
            Decoding(x, hs, p, add, before, after, waiting[b := waiting[b] + [Slot(hs[i], i)]], begin, i + 1)
  {
    var bin, next := BinOf(x, hs[i]), i + 1;
    var waiting' := waiting[bin := waiting[bin] + [Slot(hs[i], i)]];
    forall b | 0 <= b < x.bins ensures QueueOk(x, hs, waiting'[b], b, begin, next) {
      assert QueueOk(x, hs, waiting[b], b, begin, i);
    }
    forall j | 0 <= j < |hs| ensures OutputOk(x, hs, p, add, before, after, waiting', begin, next, j) {
      assert OutputOk(x, hs, p, add, before, after, waiting, begin, i, j);
      var b := BinOf(x, hs[j]);
      if j == i {
        assert waiting'[b][|waiting[b]|].index == i;
      } else if begin <= j < i {
        assert Waits(waiting'[b], j) <==> Waits(waiting[b], j) by {
          if q :| 0 <= q < |waiting[b]| && waiting[b][q].index == j { assert waiting'[b][q].index == j; }
          if q :| 0 <= q < |waiting'[b]| && waiting'[b][q].index == j { assert waiting[b][q].index == j; }
        }
      }
    }
  }

  lemma {:induction false} Flushed<K, H, F>(
      x: Params<K, H, F>, hs: seq<H>, p: seq<F>, add: bool, before: seq<F>, mid: seq<F>, after: seq<F>,
      waiting: seq<seq<Slot<H>>>, begin: nat, i: nat, bin: nat)
    requires Decoding(x, hs, p, add, before, mid, waiting, begin, i) && bin < x.bins && |after| == |mid|
    requires SlotsOk(waiting[bin], |mid|)
    requires DecodedTo(x, waiting[bin], Segment(p, bin, x.bins, SizePer(x)), add, mid, after, |waiting[bin]|)
    ensures Decoding(x, hs, p, add, before, after, waiting[bin := []], begin, i)
  {
    var waiting' := waiting[bin := []];
    assert QueueOk(x, hs, waiting[bin], bin, begin, i);
    forall b | 0 <= b < x.bins ensures QueueOk(x, hs, waiting'[b], b, begin, i) {
      assert QueueOk(x, hs, waiting[b], b, begin, i);
    }
    forall j | 0 <= j < |hs| ensures OutputOk(x, hs, p, add, before, after, waiting', begin, i, j) {
      assert OutputOk(x, hs, p, add, before, mid, waiting, begin, i, j);
      var b := BinOf(x, hs[j]);
      if Waits(waiting[bin], j) {
        var q :| 0 <= q < |waiting[bin]| && waiting[bin][q].index == j;
        assert b == bin && begin <= j < i;
      } else {
        assert after[j] == mid[j];
      }
    }
  }

  method GetSegment<F>(p: seq<F>, b: nat, ghost bins: nat, size: nat) returns (r: seq<F>)
    requires b < bins && |p| == bins * size
    ensures r == Segment(p, b, bins, size)
  {
    SegmentFits(b, bins, size);
    r := p[b * size..b * size + size];
  }

  /** Decodes what waits for a bin. */
  method Flush<K, H(!new), F(!new)>(
      x: Params<K, H, F>, ghost hs: seq<H>, p: seq<F>, add: bool, ghost before: seq<F>, out: array<F>,
      waiting: array<seq<Slot<H>>>, ghost begin: nat, ghost i: nat, b: nat)
    requires ParamsOk(x) && Decoding(x, hs, p, add, before, out[..], waiting[..], begin, i) && b < x.bins
    requires out as object != waiting
    modifies out, waiting
    ensures Decoding(x, hs, p, add, before, out[..], waiting[..], begin, i) && waiting[..] == old(waiting[..])[b := []]
  {
    ghost var mid, w := out[..], waiting[..];
    assert QueueOk(x, hs, w[b], b, begin, i);
    var segment := GetSegment(p, b, x.bins, SizePer(x));
    DecodeBin(x, waiting[b], segment, add, out);
    Flushed(x, hs, p, add, before, mid, out[..], w, begin, i, b);
    waiting[b] := [];
  }

  /** `implDecodeBatch`: the inputs of one thread. */
  method DecodeShare<K, H(!new), F(!new)>(
      x: Params<K, H, F>, hs: seq<H>, p: seq<F>, add: bool, out: array<F>, begin: nat, end: nat)
    requires ParamsOk(x) && |p| == x.bins * SizePer(x) && out.Length == |hs| && begin <= end <= |hs|
    modifies out
    ensures forall j :: 0 <= j < |hs| ==>
      out[j] == if begin <= j < end then Result(x.k, add, old(out[j]), ValueAt(x, hs[j], p)) else old(out[j])
  {
    ghost var before := out[..];
    var decodeSize := Min(DECODE_SIZE, end - begin);
    var waiting := new seq<Slot<H>>[x.bins](_ => []);
    for i := begin to end
      invariant Decoding(x, hs, p, add, before, out[..], waiting[..], begin, i)
      invariant begin < end ==> forall c :: 0 <= c < x.bins ==> |waiting[c]| < decodeSize
    {
      ghost var w := waiting[..];
      Enqueued(x, hs, p, add, before, out[..], w, begin, i);
      var b := BinOf(x, hs[i]);
      waiting[b] := waiting[b] + [Slot(hs[i], i)];
      assert waiting[..] == w[b := w[b] + [Slot(hs[i], i)]];
      if |waiting[b]| == decodeSize {
        Flush(x, hs, p, add, before, out, waiting, begin, i + 1, b);
      }
    }
    for b := 0 to x.bins
      invariant Decoding(x, hs, p, add, before, out[..], waiting[..], begin, end)
      invariant forall c :: 0 <= c < b ==> waiting[c] == []
    {
      if |waiting[b]| != 0 {
        Flush(x, hs, p, add, before, out, waiting, begin, end, b);
      }
    }
    forall j | 0 <= j < |hs|
      ensures out[j] == if begin <= j < end then Result(x.k, add, before[j], ValueAt(x, hs[j], p)) else before[j]
    {
      assert OutputOk(x, hs, p, add, before, out[..], waiting[..], begin, end, j);
      assert waiting[..][BinOf(x, hs[j])] == [];
    }
  }

  /** `decode`, with any number of threads: every output is written, or added to, exactly once. */
  method Decode<K, H(!new), F(!new)>(
      x: Params<K, H, F>, keys: seq<K>, p: seq<F>, add: bool, out: array<F>, numThreads: nat)
    requires ParamsOk(x) && |p| == x.bins * SizePer(x) && out.Length == |keys|
    modifies out
    ensures forall i :: 0 <= i < |keys| ==>
      var v := ValueAt(x, HashOf(x, keys[i]), p);
      out[i] == if add then Add(x.k, old(out[i]), v) else v
  {
    var hs, n := Hashes(x, keys), |keys|;
    if x.bins == 1 {
      var slots := seq(n, i requires 0 <= i < n => Slot(hs[i], i));
      var segment := GetSegment(p, 0, 1, SizePer(x));
      DecodeBin(x, slots, segment, add, out);
      assert forall i :: 0 <= i < n ==> slots[i].index == i && BinOf(x, hs[i]) == 0;
      return;
    }
    var threads := Max(numThreads, 1);
    assert Begin(n, 0, threads) == 0 by { SharesMeet(n, 0, threads); }
    for t := 0 to threads
      invariant Begin(n, t, threads) <= n
      invariant forall j :: 0 <= j < n ==>
        out[j] == if j < Begin(n, t, threads) then Result(x.k, add, old(out[j]), ValueAt(x, hs[j], p)) else old(out[j])
    {
      SharesMeet(n, t, threads);
      DecodeShare(x, hs, p, add, out, Begin(n, t, threads), Begin(n, t + 1, threads));
    }
    assert Begin(n, threads, threads) == n by { SharesMeet(n, 0, threads); }
  }

  /** Solving, then decoding with any numbers of threads, returns every value. */
  method SolveThenDecode<K, H(!new), F(!new, ==)>(
      x: Params<K, H, F>, keys: seq<K>, values: seq<F>, solvers: nat, decoders: nat, per: nat, blank: H)
    returns (r: SolveOutcome, decoded: seq<F>)
    requires ParamsOk(x) && |keys| == |values|
    ensures r.AllSolved? <==> Solvable(x, Hashes(x, keys), Max(solvers, 1), per)
    ensures r.AllSolved? ==> decoded == values
  {
    NatProduct(x.bins, SizePer(x));
    var p := new F[x.bins * SizePer(x)](_ => x.k.zero);
    r := Solve(x, keys, values, p, solvers, per, blank);
    decoded := [];
    if r.AllSolved? {
      var out := new F[|keys|](_ => x.k.zero);
      Decode(x, keys, p[..], false, out, decoders);
      decoded := out[..];
    }
  }
}
