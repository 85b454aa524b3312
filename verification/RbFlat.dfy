/** The flat form of the random band store (the second and third `RBEncode` and the last `RBDecode` of
    okvs/rb/codec.h): right-hand sides and table are single buffers, a row holds the offset of its right-hand side.

    The flat elimination is followed on the nested rows that the buffers stand for, so that both forms build the
    same table. */
module RbFlat {
  import opened Prelude
  import opened Fields
  import opened XorSystem
  import opened RbLimbs
  import opened RbRows
  import opened RbCodec

  // ------------------------------------------------- buffers

  lemma {:induction false} ChunkFits(i: nat, m: nat, s: nat)
    requires i < m
    ensures 0 <= i * s && i * s + s <= m * s
  {
    assert (i + 1) * s <= m * s;
  }

  lemma {:induction false} OneLess(m: nat, s: nat)
    requires m > 0
    ensures 0 <= (m - 1) * s && m * s == (m - 1) * s + s
  {
  }

  /** The m rows of s blocks in a buffer. */
  ghost function Unflatten<F>(flat: seq<F>, m: nat, s: nat): (r: seq<seq<F>>)
    requires |flat| == m * s
    ensures TableOk(r, m, s)
    decreases m
  {
    if m == 0 then [] else (
      OneLess(m, s);
      [flat[..s]] + Unflatten(flat[s..], m - 1, s))
  }

  /** Row i begins at block i * s. */
  lemma {:induction false} UnflattenRow<F>(flat: seq<F>, m: nat, s: nat, i: nat)
    requires |flat| == m * s && i < m
    ensures 0 <= i * s && i * s + s <= |flat| && Unflatten(flat, m, s)[i] == flat[i * s..i * s + s]
    decreases m
  {
    OneLess(m, s);
    ChunkFits(i, m, s);
    if i > 0 {
      OneLess(i, s);
      UnflattenRow(flat[s..], m - 1, s, i - 1);
      assert flat[s..][(i - 1) * s..(i - 1) * s + s] == flat[i * s..i * s + s];
    }
  }

  ghost function Spliced<F>(flat: seq<F>, a: nat, v: seq<F>): (r: seq<F>)
    requires a + |v| <= |flat|
    ensures |r| == |flat|
    ensures forall i :: 0 <= i < |r| ==> r[i] == if a <= i < a + |v| then v[i - a] else flat[i]
  {
    flat[..a] + v + flat[a + |v|..]
  }

  lemma {:induction false} ChunksApart(i: nat, j: nat, s: nat)
    requires i < j
    ensures i * s + s <= j * s
  {
    ChunkFits(i, j, s);
  }

  lemma {:induction false} UnflattenSpliced<F>(flat: seq<F>, m: nat, s: nat, j: nat, v: seq<F>)
    requires |flat| == m * s && j < m && |v| == s
    ensures j * s + s <= m * s && Unflatten(Spliced(flat, j * s, v), m, s) == Unflatten(flat, m, s)[j := v]
  {
    ChunkFits(j, m, s);
    forall i | 0 <= i < m
      ensures Unflatten(Spliced(flat, j * s, v), m, s)[i] == Unflatten(flat, m, s)[j := v][i]
    {
      UnflattenRow(flat, m, s, i);
      UnflattenRow(Spliced(flat, j * s, v), m, s, i);
      if i < j { ChunksApart(i, j, s); }
      if j < i { ChunksApart(j, i, s); }
    }
  }

  /** `RBXor` on pointers. */
  method XorBlocks<F>(k: Field<F>, dst: array<F>, a: nat, src: array<F>, b: nat, s: nat)
    requires a + s <= dst.Length && b + s <= src.Length
    requires dst != src || a + s <= b || b + s <= a
    modifies dst
    ensures dst[..] == Spliced(old(dst[..]), a, VecAdd(k, old(dst[a..a + s]), old(src[b..b + s])))
  {
    for i := 0 to s
      invariant forall q :: 0 <= q < dst.Length ==>
        dst[q] == if a <= q < a + i then Add(k, old(dst[q]), old(src[b + q - a])) else old(dst[q])
    {
      dst[a + i] := Add(k, dst[a + i], src[b + i]);
    }
  }

  /** `std::memcpy` between two buffers. */
  method CopyBlocks<F>(dst: array<F>, a: nat, src: array<F>, b: nat, s: nat)
    requires a + s <= dst.Length && b + s <= src.Length && dst != src
    modifies dst
    ensures dst[..] == Spliced(old(dst[..]), a, src[b..b + s])
  {
    for i := 0 to s
      invariant forall q :: 0 <= q < dst.Length ==> dst[q] == if a <= q < a + i then src[b + q - a] else old(dst[q])
    {
      dst[a + i] := src[b + i];
    }
  }

  // ------------------------------------------------- rows with offsets

  datatype RbFlatRow = RbFlatRow(start: nat, bits: Row, rhs: nat)

  ghost predicate Apart(a: RbFlatRow, b: RbFlatRow, s: nat) {
    a.rhs + s <= b.rhs || b.rhs + s <= a.rhs
  }

  ghost predicate Fits(a: RbFlatRow, size: nat, s: nat) { a.rhs + s <= size }

  ghost predicate OffsetsOk(rows: seq<RbFlatRow>, size: nat, s: nat) {
    && (forall i {:trigger Fits(rows[i], size, s)} :: 0 <= i < |rows| ==> Fits(rows[i], size, s))
    && (forall i, j {:trigger Apart(rows[i], rows[j], s)} :: 0 <= i < |rows| && 0 <= j < |rows| && i != j ==>
          Apart(rows[i], rows[j], s))
  }

  ghost function NestedRow<F>(row: RbFlatRow, rhs: seq<F>, s: nat): RbRow<F>
    requires Fits(row, |rhs|, s)
  {
    RbRow(row.start, row.bits, rhs[row.rhs..row.rhs + s])
  }

  /** The nested rows that flat rows and their buffer stand for. */
  ghost function Nested<F>(rows: seq<RbFlatRow>, rhs: seq<F>, s: nat): (r: seq<RbRow<F>>)
    requires OffsetsOk(rows, |rhs|, s)
    ensures |r| == |rows|
    ensures forall i :: 0 <= i < |r| ==> Fits(rows[i], |rhs|, s) && r[i] == NestedRow(rows[i], rhs, s)
  {
    assert forall i :: 0 <= i < |rows| ==> Fits(rows[i], |rhs|, s);
    seq(|rows|, i requires 0 <= i < |rows| && Fits(rows[i], |rhs|, s) => NestedRow(rows[i], rhs, s))
  }

  lemma {:induction false} NestedUpdated<F>(rows: seq<RbFlatRow>, rhs: seq<F>, s: nat, j: nat, bits: Row, v: seq<F>)
    requires OffsetsOk(rows, |rhs|, s) && j < |rows| && |v| == s
    ensures var rows' := rows[j := rows[j].(bits := bits)];
            && OffsetsOk(rows', |rhs|, s) && Fits(rows[j], |rhs|, s)
            && Nested(rows', Spliced(rhs, rows[j].rhs, v), s)
              == Nested(rows, rhs, s)[j := RbRow(rows[j].start, bits, v)]
  {
    assert Fits(rows[j], |rhs|, s);
    var rows' := rows[j := rows[j].(bits := bits)];
    forall a, b | 0 <= a < |rows| && 0 <= b < |rows| && a != b ensures Apart(rows'[a], rows'[b], s) {
      assert Apart(rows[a], rows[b], s);
    }
    forall a | 0 <= a < |rows| ensures Fits(rows'[a], |rhs|, s) {
      assert Fits(rows[a], |rhs|, s);
    }
    var rhs' := Spliced(rhs, rows[j].rhs, v);
    var l, r := Nested(rows', rhs', s), Nested(rows, rhs, s)[j := RbRow(rows[j].start, bits, v)];
    forall i | 0 <= i < |rows| ensures l[i] == r[i] {
      var x := rows[i].rhs;
      if i != j {
        assert Apart(rows[i], rows[j], s) && Fits(rows[i], |rhs|, s);
        assert rhs'[x..x + s] == rhs[x..x + s];
      } else {
        assert rhs'[x..x + s] == v;
      }
    }
  }

  /** Adds the right-hand side of row i to that of row j and gives row j new bits. */
  method XorRhs<F>(k: Field<F>, rows: seq<RbFlatRow>, rhs: array<F>, s: nat, i: nat, j: nat, bits: Row)
    returns (rows': seq<RbFlatRow>)
    requires OffsetsOk(rows, rhs.Length, s) && i < |rows| && j < |rows| && i != j
    modifies rhs
    ensures |rows'| == |rows| && OffsetsOk(rows', rhs.Length, s) && rows'[i] == rows[i]
    ensures var now := Nested(rows, old(rhs[..]), s);
            Nested(rows', rhs[..], s) == now[j := RbRow(now[j].start, bits, VecAdd(k, now[j].rhs, now[i].rhs))]
  {
    ghost var flat := rhs[..];
    ghost var now := Nested(rows, flat, s);
    assert Fits(rows[i], |flat|, s) && Fits(rows[j], |flat|, s) && Apart(rows[i], rows[j], s);
    var a, b := rows[j].rhs, rows[i].rhs;
    assert rhs[a..a + s] == now[j].rhs && rhs[b..b + s] == now[i].rhs;
    XorBlocks(k, rhs, a, rhs, b, s);
    rows' := rows[j := rows[j].(bits := bits)];
    NestedUpdated(rows, flat, s, j, bits, VecAdd(k, now[j].rhs, now[i].rhs));
  }

  // ------------------------------------------------- elimination

  /** Uses flat row i on flat row j. */
  method FlatReduce<F>(
      k: Field<F>, rows: seq<RbFlatRow>, rhs: array<F>, ghost now: seq<RbRow<F>>, n: nat, w: nat, s: nat, i: nat,
      lead: nat, j: nat)
    returns (rows': seq<RbFlatRow>, ghost r: RbRow<F>)
    requires OffsetsOk(rows, rhs.Length, s) && now == Nested(rows, rhs[..], s) && i < j < |rows|
    requires RowOk(now[j], n, w, s) && RowOk(now[i], n, w, s)
    requires IsLead(rows[i].bits, lead, w) && rows[i].start <= rows[j].start <= rows[i].start + lead
    modifies rhs
    ensures |rows'| == |rows| && OffsetsOk(rows', rhs.Length, s) && rows'[i] == rows[i]
    ensures Nested(rows', rhs[..], s) == now[j := r] && RowOk(r, n, w, s) && r.start == rows[j].start
    ensures now[i].start + lead < n
    ensures AsEquation(r, n) == Reduce(k, AsEquation(now[j], n), AsEquation(now[i], n), now[i].start + lead)
  {
    ghost var e, d := now[j], now[i];
    var changed, bits := ReduceBits(rows[j].start, rows[j].bits, rows[i].start, rows[i].bits, n, w, lead);
    rows', r := rows, e;
    if changed {
      r := RbRow(e.start, bits, VecAdd(k, e.rhs, d.rhs));
      rows' := XorRhs(k, rows, rhs, s, i, j, bits);
    }
  }

  /** One step of the inner loop, on flat rows. */
  method FlatReduceAt<F>(
      k: Field<F>, rows: seq<RbFlatRow>, rhs: array<F>, ghost before: seq<RbRow<F>>, n: nat, w: nat, s: nat, i: nat,
      lead: nat, j: nat)
    returns (rows': seq<RbFlatRow>)
    requires OffsetsOk(rows, rhs.Length, s) && InRound(k, Nested(rows, rhs[..], s), before, n, w, s, i, j)
    requires i < j < |rows| && IsLead(rows[i].bits, lead, w)
    requires Pivot(System(before, n, w, s)[i]) == rows[i].start + lead
    requires rows[i].start <= rows[j].start <= rows[i].start + lead
    modifies rhs
    ensures |rows'| == |rows| && OffsetsOk(rows', rhs.Length, s) && rows'[i] == rows[i]
    ensures InRound(k, Nested(rows', rhs[..], s), before, n, w, s, i, j + 1)
  {
    ghost var now := Nested(rows, rhs[..], s);
    assert RowOk(now[j], n, w, s) && RowOk(now[i], n, w, s);
    ghost var r;
    rows', r := FlatReduce(k, rows, rhs, now, n, w, s, i, lead, j);
    RoundGoesOn(k, now, before, n, w, s, i, j, r);
  }

  /** The inner loop, on flat rows. */
  method FlatEliminateWith<F>(
      k: Field<F>, rows: seq<RbFlatRow>, rhs: array<F>, n: nat, w: nat, s: nat, i: nat, lead: nat)
    returns (rows': seq<RbFlatRow>)
    requires OffsetsOk(rows, rhs.Length, s) && RowsOk(Nested(rows, rhs[..], s), n, w, s)
    requires StartsSorted(Nested(rows, rhs[..], s))
    requires i < |rows| && IsLead(rows[i].bits, lead, w)
    modifies rhs
    ensures |rows'| == |rows| && OffsetsOk(rows', rhs.Length, s)
    ensures InRound(k, Nested(rows', rhs[..], s), Nested(rows, old(rhs[..]), s), n, w, s, i, |rows|)
    ensures Pivot(System(Nested(rows, old(rhs[..]), s), n, w, s)[i]) == rows[i].start + lead
  {
    ghost var before := Nested(rows, rhs[..], s);
    assert RowOk(before[i], n, w, s);
    PivotOfRow(before[i], n, w, s, lead);
    RoundStarts(k, before, n, w, s, i);
    var pivot := rows[i].start + lead;
    rows' := rows;
    var j := i + 1;
    while j < |rows'| && rows'[j].start <= pivot
      invariant i < j <= |rows'| == |rows| && OffsetsOk(rows', rhs.Length, s) && rows'[i] == rows[i]
      invariant InRound(k, Nested(rows', rhs[..], s), before, n, w, s, i, j)
      decreases |rows'| - j
    {
      assert before[i].start <= before[j].start == Nested(rows', rhs[..], s)[j].start;
      rows' := FlatReduceAt(k, rows', rhs, before, n, w, s, i, lead, j);
      j := j + 1;
    }
    ghost var now := Nested(rows', rhs[..], s);
    assert j < |rows'| ==> now[j].start > pivot;
    RoundEnds(k, now, before, n, w, s, i, j);
  }

  /** The forward elimination, on flat rows. */
  method FlatEliminate<F>(k: Field<F>, rows: seq<RbFlatRow>, rhs: array<F>, n: nat, w: nat, s: nat)
    returns (ok: bool, rows': seq<RbFlatRow>, pivots: seq<nat>)
    requires OffsetsOk(rows, rhs.Length, s) && RowsOk(Nested(rows, rhs[..], s), n, w, s)
    requires StartsSorted(Nested(rows, rhs[..], s))
    requires 1 <= w <= ROW_BITS
    modifies rhs
    ensures |rows'| == |rows| && OffsetsOk(rows', rhs.Length, s) && RowsOk(Nested(rows', rhs[..], s), n, w, s)
    ensures Gauss(k, System(Nested(rows, old(rhs[..]), s), n, w, s), n, s, 0) ==
            if ok then Some(System(Nested(rows', rhs[..], s), n, w, s)) else None
    ensures ok ==> PivotsOk(Nested(rows', rhs[..], s), pivots, n, w, s)
  {
    ghost var original := Nested(rows, rhs[..], s);
    rows', pivots := rows, [];
    for i := 0 to |rows|
      invariant |rows'| == |rows| && OffsetsOk(rows', rhs.Length, s)
      invariant InGauss(k, Nested(rows', rhs[..], s), original, n, w, s, i)
      invariant |pivots| == i
      invariant forall a :: 0 <= a < i ==> pivots[a] == Pivot(System(Nested(rows', rhs[..], s), n, w, s)[a]) < n
    {
      ghost var now := Nested(rows', rhs[..], s);
      assert RowOk(now[i], n, w, s);
      var lead := Lead(rows'[i].bits, w);
      PivotOfRow(now[i], n, w, s, lead);
      if lead == w {
        return false, rows', [];
      }
      pivots := pivots + [rows'[i].start + lead];
      rows' := FlatEliminateWith(k, rows', rhs, n, w, s, i, lead);
      GaussGoesOn(k, now, Nested(rows', rhs[..], s), original, n, w, s, i);
    }
    return true, rows', pivots;
  }

  // ------------------------------------------------- back fill

  /** Adds the blocks from b on to the whole of sum. */
  method AddSlice<F>(k: Field<F>, sum: array<F>, table: array<F>, b: nat)
    requires b + sum.Length <= table.Length && sum != table
    modifies sum
    ensures sum[..] == VecAdd(k, old(sum[..]), table[b..b + sum.Length])
  {
    assert sum[0..sum.Length] == sum[..];
    XorBlocks(k, sum, 0, table, b, sum.Length);
  }

  /** Adds a row of a flat table. */
  method AddTableRow<F>(k: Field<F>, sum: array<F>, table: array<F>, col: nat, ghost n: nat, s: nat)
    requires sum.Length == s && table.Length == n * s && col < n && sum != table
    modifies sum
    ensures sum[..] == VecAdd(k, old(sum[..]), Unflatten(table[..], n, s)[col])
  {
    SliceIsRow(table, n, s, col);
    var b := col * s;
    AddSlice(k, sum, table, b);
  }

  /** Writes a row of a flat table. */
  method WriteTableRow<F>(sum: array<F>, table: array<F>, p: nat, ghost n: nat, s: nat)
    requires sum.Length == s && table.Length == n * s && p < n && sum != table
    modifies table
    ensures Unflatten(table[..], n, s) == Unflatten(old(table[..]), n, s)[p := sum[..]]
  {
    ghost var flat := table[..];
    ChunkFits(p, n, s);
    CopyBlocks(table, p * s, sum, 0, s);
    assert sum[0..0 + s] == sum[..];
    UnflattenSpliced(flat, n, s, p, sum[..]);
  }

  /** The loop over the bits of a row, on the buffer sum. */
  method FlatSum<F>(k: Field<F>, start: nat, bits: Row, p: nat, sum: array<F>, table: array<F>, n: nat, w: nat, s: nat)
    requires IsRow(bits) && w <= ROW_BITS && start + w <= n && sum != table && sum.Length == s && table.Length == n * s
    modifies sum
    ensures sum[..] == BandSum(k, old(sum[..]), start, AllBits(bits), p, Unflatten(table[..], n, s), w)
  {
    ghost var v, t := sum[..], Unflatten(table[..], n, s);
    for j := 0 to w
      invariant Unflatten(table[..], n, s) == t && sum[..] == BandSum(k, v, start, AllBits(bits), p, t, j)
    {
      FlatSumStep(k, start, bits, p, sum, table, n, s, j, v, t);
    }
  }

  method FlatSumStep<F>(
      k: Field<F>, start: nat, bits: Row, p: nat, sum: array<F>, table: array<F>, n: nat, s: nat, j: nat,
      ghost v: seq<F>, ghost t: seq<seq<F>>)
    requires IsRow(bits) && j < ROW_BITS && start + j < n && sum != table && sum.Length == s == |v|
    requires table.Length == n * s && Unflatten(table[..], n, s) == t
    requires sum[..] == BandSum(k, v, start, AllBits(bits), p, t, j)
    modifies sum
    ensures sum[..] == BandSum(k, v, start, AllBits(bits), p, t, j + 1)
  {
    assert AllBits(bits)[j] == BitAt(bits, j);
    BandSumNext(k, v, start, AllBits(bits), p, t, j);
    if BitAt(bits, j) && start + j != p {
      AddTableRow(k, sum, table, start + j, n, s);
    }
  }

  /** One row of the back fill of a flat table; sum holds the right-hand side of the row. */
  method FlatFillRow<F>(
      k: Field<F>, ghost row: RbRow<F>, start: nat, bits: Row, p: nat, sum: array<F>, table: array<F>, n: nat, w: nat,
      s: nat)
    requires RowOk(row, n, w, s) && row.start == start && row.bits == bits && p < n && sum != table
    requires sum.Length == s && table.Length == n * s && sum[..] == row.rhs
    modifies sum, table
    ensures Unflatten(table[..], n, s) ==
            var before := Unflatten(old(table[..]), n, s);
            before[p := Rest(k, AsEquation(row, n), p, before, n)]
  {
    BandSumIsRest(k, row, p, Unflatten(table[..], n, s), n, w, s);
    FlatSum(k, start, bits, p, sum, table, n, w, s);
    WriteTableRow(sum, table, p, n, s);
  }

  method Copied<F>(v: seq<F>) returns (a: array<F>)
    ensures fresh(a) && a[..] == v
  {
    a := new F[|v|](q requires 0 <= q < |v| => v[q]);
  }

  /** The back fill of the second encoder: nested rows, flat table. */
  method FlatTableFill<F>(k: Field<F>, rows: seq<RbRow<F>>, pivots: seq<nat>, n: nat, w: nat, s: nat)
    returns (table: array<F>)
    requires RowsOk(rows, n, w, s) && PivotsOk(rows, pivots, n, w, s)
    ensures fresh(table) && table.Length == n * s && InFill(k, Unflatten(table[..], n, s), rows, pivots, n, w, s, 0)
  {
    table := new F[n * s](_ => k.zero);
    ZeroUnflattened(k, table[..], n, s);
    for i := |rows| downto 0
      invariant InFill(k, Unflatten(table[..], n, s), rows, pivots, n, w, s, i)
    {
      FillGoesOn(k, Unflatten(table[..], n, s), rows, pivots, n, w, s, i);
      var sum := Copied(rows[i].rhs);
      FlatFillRow(k, rows[i], rows[i].start, rows[i].bits, pivots[i], sum, table, n, w, s);
    }
  }

  lemma {:induction false} ZeroUnflattened<F>(k: Field<F>, flat: seq<F>, n: nat, s: nat)
    requires |flat| == n * s && forall q :: 0 <= q < |flat| ==> flat[q] == k.zero
    ensures Unflatten(flat, n, s) == ZeroTable(k, n, s)
  {
    forall i | 0 <= i < n ensures Unflatten(flat, n, s)[i] == ZeroTable(k, n, s)[i] {
      UnflattenRow(flat, n, s, i);
    }
  }

  method LoadRhs<F>(row: RbFlatRow, rhs: array<F>, sum: array<F>, s: nat)
    requires Fits(row, rhs.Length, s) && sum.Length == s && sum != rhs
    modifies sum
    ensures sum[..] == NestedRow(row, rhs[..], s).rhs
  {
    CopyBlocks(sum, 0, rhs, row.rhs, s);
    assert rhs[row.rhs..row.rhs + s] == NestedRow(row, rhs[..], s).rhs;
  }

  /** The back fill of the third encoder: flat rows, flat table. */
  method FlatFill<F>(k: Field<F>, rows: seq<RbFlatRow>, rhs: array<F>, pivots: seq<nat>, n: nat, w: nat, s: nat)
    returns (table: array<F>)
    requires OffsetsOk(rows, rhs.Length, s) && RowsOk(Nested(rows, rhs[..], s), n, w, s)
    requires PivotsOk(Nested(rows, rhs[..], s), pivots, n, w, s)
    ensures fresh(table) && table.Length == n * s
    ensures InFill(k, Unflatten(table[..], n, s), Nested(rows, rhs[..], s), pivots, n, w, s, 0)
  {
    table := new F[n * s](_ => k.zero);
    var sum := new F[s](_ => k.zero);
    ZeroUnflattened(k, table[..], n, s);
    ghost var nested := Nested(rows, rhs[..], s);
    for i := |rows| downto 0
      invariant nested == Nested(rows, rhs[..], s)
      invariant InFill(k, Unflatten(table[..], n, s), nested, pivots, n, w, s, i)
    {
      FlatFillNext(k, rows, rhs, pivots, sum, table, n, w, s, i);
    }
  }

  /** One turn of the back fill. */
  method FlatFillNext<F>(
      k: Field<F>, rows: seq<RbFlatRow>, rhs: array<F>, pivots: seq<nat>, sum: array<F>, table: array<F>, n: nat,
      w: nat, s: nat, i: nat)
    requires OffsetsOk(rows, rhs.Length, s) && i < |rows| && sum.Length == s && table.Length == n * s && sum != table
    requires sum != rhs && table != rhs
    requires InFill(k, Unflatten(table[..], n, s), Nested(rows, rhs[..], s), pivots, n, w, s, i + 1)
    modifies sum, table
    ensures InFill(k, Unflatten(table[..], n, s), Nested(rows, rhs[..], s), pivots, n, w, s, i)
  {
    ghost var nested := Nested(rows, rhs[..], s);
    FillGoesOn(k, Unflatten(table[..], n, s), nested, pivots, n, w, s, i);
    LoadRhs(rows[i], rhs, sum, s);
    FlatFillRow(k, nested[i], rows[i].start, rows[i].bits, pivots[i], sum, table, n, w, s);
    assert Nested(rows, rhs[..], s) == nested;
  }

  // ------------------------------------------------- from keys to flat rows

  function FlatStarts(rows: seq<RbFlatRow>): (r: seq<nat>)
    ensures |r| == |rows| && forall i :: 0 <= i < |r| ==> r[i] == rows[i].start
  {
    seq(|rows|, i requires 0 <= i < |rows| => rows[i].start)
  }

  /** `std::stable_sort` by start column. */
  function SortFlatRows(rows: seq<RbFlatRow>): (r: seq<RbFlatRow>)
    ensures |r| == |rows| && forall i :: 0 <= i < |r| ==> r[i] == rows[StableOrder(FlatStarts(rows))[i]]
  {
    var order := StableOrder(FlatStarts(rows));
    seq(|rows|, i requires 0 <= i < |rows| => rows[order[i]])
  }

  /** Sorting the flat rows sorts the nested rows they stand for; the right-hand sides stay where they are. */
  lemma {:induction false} SortFlatRowsOk<F>(rows: seq<RbFlatRow>, rhs: seq<F>, s: nat)
    requires OffsetsOk(rows, |rhs|, s)
    ensures OffsetsOk(SortFlatRows(rows), |rhs|, s)
    ensures Nested(SortFlatRows(rows), rhs, s) == SortRows(Nested(rows, rhs, s))
  {
    PickedApart(rows, SortFlatRows(rows), StableOrder(FlatStarts(rows)), |rhs|, s);
    var order, l, nested := StableOrder(FlatStarts(rows)), Nested(SortFlatRows(rows), rhs, s), Nested(rows, rhs, s);
    assert FlatStarts(rows) == Starts(nested);
    forall i | 0 <= i < |l| ensures l[i] == SortRows(nested)[i] {
      assert l[i] == NestedRow(rows[order[i]], rhs, s) == nested[order[i]];
    }
  }

  lemma {:induction false} PickedApart(rows: seq<RbFlatRow>, r: seq<RbFlatRow>, order: seq<nat>, size: nat, s: nat)
    requires OffsetsOk(rows, size, s) && |r| == |rows| && order == StableOrder(FlatStarts(rows))
    requires forall i :: 0 <= i < |r| ==> r[i] == rows[order[i]]
    ensures OffsetsOk(r, size, s)
  {
    StableOrderOk(FlatStarts(rows));
    forall i | 0 <= i < |r| ensures Fits(r[i], size, s) {
      assert Fits(rows[order[i]], size, s);
    }
    forall a, b | 0 <= a < |r| && 0 <= b < |r| && a != b ensures Apart(r[a], r[b], s) {
      assert order[a] != order[b];
      assert Apart(rows[order[a]], rows[order[b]], s);
    }
  }

  /** Before sorting, row i keeps its right-hand side at i * s. */
  ghost predicate InPlace(rows: seq<RbFlatRow>, s: nat) {
    forall i :: 0 <= i < |rows| ==> rows[i].rhs == i * s
  }

  lemma {:induction false} InPlaceOk<F>(rows: seq<RbFlatRow>, rhs: seq<F>, s: nat)
    requires InPlace(rows, s) && |rhs| == |rows| * s
    ensures OffsetsOk(rows, |rhs|, s)
    ensures forall i :: 0 <= i < |rows| ==> Nested(rows, rhs, s)[i].rhs == Unflatten(rhs, |rows|, s)[i]
  {
    forall i | 0 <= i < |rows|
      ensures Fits(rows[i], |rhs|, s) && rhs[rows[i].rhs..rows[i].rhs + s] == Unflatten(rhs, |rows|, s)[i] {
      UnflattenRow(rhs, |rows|, s, i);
    }
    forall i, j | 0 <= i < |rows| && 0 <= j < |rows| && i != j ensures Apart(rows[i], rows[j], s) {
      if i < j { ChunksApart(i, j, s); } else { ChunksApart(j, i, s); }
    }
  }

  /** The start and the bits of row i are those of key i. */
  ghost predicate BandOfKey<K(!new)>(row: RbFlatRow, h: RbHash<K>, key: K, n: nat, w: nat)
    requires HashOk(h) && w <= ROW_BITS && w <= n
  {
    && BandOk(row.start, row.bits, n, w) && row.start == KeyStart(h, key, n, w)
    && Coeffs(row.start, row.bits, n) == KeyCoeffs(h, key, n, w)
  }

  ghost predicate BandsOfKeys<K(!new)>(rows: seq<RbFlatRow>, h: RbHash<K>, keys: seq<K>, n: nat, w: nat)
    requires HashOk(h) && w <= ROW_BITS && w <= n && |rows| <= |keys|
  {
    forall j {:trigger BandOfKey(rows[j], h, keys[j], n, w)} :: 0 <= j < |rows| ==> BandOfKey(rows[j], h, keys[j], n, w)
  }

  lemma {:induction false} FlatRowsOfKeys<K(!new), F>(
      rows: seq<RbFlatRow>, rhs: seq<F>, h: RbHash<K>, keys: seq<K>, n: nat, w: nat, s: nat)
    requires HashOk(h) && w <= ROW_BITS && w <= n && |rows| == |keys| && |rhs| == |keys| * s
    requires InPlace(rows, s) && BandsOfKeys(rows, h, keys, n, w)
    ensures OffsetsOk(rows, |rhs|, s)
    ensures RowsOfKeys(Nested(rows, rhs, s), h, keys, Unflatten(rhs, |keys|, s), n, w, s)
  {
    InPlaceOk(rows, rhs, s);
    var nested, values := Nested(rows, rhs, s), Unflatten(rhs, |keys|, s);
    forall j | 0 <= j < |rows| ensures RowOfKey(nested[j], h, keys[j], values[j], n, w, s) {
      assert BandOfKey(rows[j], h, keys[j], n, w);
    }
  }

  /** `RBRowsFlat` */
  method PrepareFlatRows<K(!new), F(!new)>(
      k: Field<F>, h: RbHash<K>, keys: seq<K>, values: seq<F>, n: nat, w: nat, s: nat)
    returns (rows: seq<RbFlatRow>, rhs: array<F>)
    requires ParamsOk(k, h, n, w) && |values| == |keys| * s
    ensures fresh(rhs) && rhs[..] == values && OffsetsOk(rows, rhs.Length, s)
    ensures var nested := Nested(rows, rhs[..], s);
            && RowsOk(nested, n, w, s) && StartsSorted(nested)
            && System(nested, n, w, s) == SortedSystem(h, keys, Unflatten(values, |keys|, s), n, w)
  {
    rows := [];
    rhs := Copied(values);
    for i := 0 to |keys|
      invariant |rows| == i && InPlace(rows, s) && BandsOfKeys(rows, h, keys, n, w) && rhs[..] == values
    {
      var start, bits := KeyBand(h, keys[i], n, w);
      ghost var before := rows;
      rows := rows + [RbFlatRow(start, bits, i * s)];
      forall j | 0 <= j < |rows| ensures BandOfKey(rows[j], h, keys[j], n, w) {
        if j < i { assert BandOfKey(before[j], h, keys[j], n, w); }
      }
    }
    FlatRowsSorted(rows, values, h, keys, n, w, s);
    rows := SortFlatRows(rows);
  }

  lemma {:induction false} FlatRowsSorted<K(!new), F>(
      rows: seq<RbFlatRow>, rhs: seq<F>, h: RbHash<K>, keys: seq<K>, n: nat, w: nat, s: nat)
    requires HashOk(h) && w <= ROW_BITS && w <= n && |rows| == |keys| && |rhs| == |keys| * s
    requires InPlace(rows, s) && BandsOfKeys(rows, h, keys, n, w)
    ensures OffsetsOk(SortFlatRows(rows), |rhs|, s)
    ensures var nested := Nested(SortFlatRows(rows), rhs, s);
            && RowsOk(nested, n, w, s) && StartsSorted(nested)
            && System(nested, n, w, s) == SortedSystem(h, keys, Unflatten(rhs, |keys|, s), n, w)
  {
    FlatRowsOfKeys(rows, rhs, h, keys, n, w, s);
    SortFlatRowsOk(rows, rhs, s);
    SortRowsOk(Nested(rows, rhs, s), h, keys, Unflatten(rhs, |keys|, s), n, w, s);
  }

  // ------------------------------------------------- encoding

  /** The flat elimination and back fill together. */
  method SolveFlat<F>(k: Field<F>, rows0: seq<RbFlatRow>, rhs: array<F>, n: nat, w: nat, s: nat)
    returns (ok: bool, flat: seq<F>)
    requires OffsetsOk(rows0, rhs.Length, s) && 1 <= w <= ROW_BITS
    requires RowsOk(Nested(rows0, rhs[..], s), n, w, s) && StartsSorted(Nested(rows0, rhs[..], s))
    modifies rhs
    ensures ok ==> |flat| == n * s
    ensures Solve(k, System(Nested(rows0, old(rhs[..]), s), n, w, s), n, s) == if ok then Some(Unflatten(flat, n, s))
      else None
  {
    var rows, pivots;
    ok, rows, pivots := FlatEliminate(k, rows0, rhs, n, w, s);
    if !ok {
      return false, [];
    }
    var table := FlatFill(k, rows, rhs, pivots, n, w, s);
    return true, table[..];
  }

  /** The third `RBEncode`: flat values, flat table. It succeeds on the same inputs as the nested one and builds the
      same table. */
  method FlatEncode<K(!new), F(!new)>(k: Field<F>, h: RbHash<K>, keys: seq<K>, values: seq<F>, s: nat, n: nat, w: nat)
    returns (r: Outcome<seq<F>>)
    requires ParamsOk(k, h, n, w)
    ensures keys == [] ==> r == Built([])
    ensures r.Rejected? <==> keys != [] && (s == 0 || |values| != |keys| * s)
    ensures keys != [] && !r.Rejected? ==>
      var nested := Unflatten(values, |keys|, s);
      && (r.Dropped? <==> BandsDependent(h, keys, n, w))
      && (r.Built? ==> |r.table| == n * s)
      && (r.Built? ==> Solved(k, h, keys, nested, n, w, s) == Some(Unflatten(r.table, n, s)))
      && (r.Built? ==> forall x :: 0 <= x < |keys| ==>
            DecodedValue(k, h, Unflatten(r.table, n, s), keys[x], n, w, s) == nested[x])
  {
    if |keys| == 0 {
      return Built([]);
    }
    if s == 0 || |values| != |keys| * s {
      return Rejected;
    }
    ghost var nested := Unflatten(values, |keys|, s);
    var rows, rhs := PrepareFlatRows(k, h, keys, values, n, w, s);
    var ok, flat := SolveFlat(k, rows, rhs, n, w, s);
    UnsolvedIffDependent(k, h, keys, nested, n, w, s);
    if !ok {
      return Dropped;
    }
    SolvedDecodes(k, h, keys, nested, n, w, s);
    return Built(flat);
  }

  /** The second `RBEncode`: nested values, flat table. It too builds the table of the nested encoder. */
  method MixedEncode<K(!new), F(!new)>(
      k: Field<F>, h: RbHash<K>, keys: seq<K>, values: seq<seq<F>>, s: nat, n: nat, w: nat)
    returns (r: Outcome<seq<F>>)
    requires ParamsOk(k, h, n, w)
    ensures keys == [] ==> r == Built([])
    ensures r.Rejected? <==> keys != [] && !(Accepted(keys, values) && |values[0]| == s)
    ensures r.Dropped? <==> Accepted(keys, values) && |values[0]| == s && BandsDependent(h, keys, n, w)
    ensures r.Built? && keys != [] ==>
      && |r.table| == n * s && Solved(k, h, keys, values, n, w, s) == Some(Unflatten(r.table, n, s))
      && forall x :: 0 <= x < |keys| ==> DecodedValue(k, h, Unflatten(r.table, n, s), keys[x], n, w, s) == values[x]
  {
    if |keys| == 0 {
      return Built([]);
    }
    if |values| == 0 || |values[0]| != s || !Accepted(keys, values) {
      return Rejected;
    }
    var sorted := PrepareRows(k, h, keys, values, n, w, s);
    var rows := Copied(sorted);
    var ok, pivots := Eliminate(k, rows, n, w, s);
    UnsolvedIffDependent(k, h, keys, values, n, w, s);
    if !ok {
      return Dropped;
    }
    var table := FlatTableFill(k, rows[..], pivots, n, w, s);
    SolvedDecodes(k, h, keys, values, n, w, s);
    return Built(table[..]);
  }

  // ------------------------------------------------- decoding

  lemma {:induction false} SliceIsRow<F>(a: array<F>, m: nat, s: nat, i: nat)
    requires a.Length == m * s && i < m
    ensures 0 <= i * s && i * s + s <= m * s && a[i * s..i * s + s] == Unflatten(a[..], m, s)[i]
  {
    UnflattenRow(a[..], m, s, i);
    assert a[..][i * s..i * s + s] == a[i * s..i * s + s];
  }

  /** Adds one table row to one row of the output. */
  method AddToOutput<F>(
      k: Field<F>, out: array<F>, i: nat, ghost m: nat, table: array<F>, col: nat, ghost n: nat, s: nat)
    requires out != table && out.Length == m * s && i < m && table.Length == n * s && col < n
    modifies out
    ensures var before := Unflatten(old(out[..]), m, s);
            Unflatten(out[..], m, s) == before[i := VecAdd(k, before[i], Unflatten(table[..], n, s)[col])]
  {
    ChunkFits(i, m, s);
    ChunkFits(col, n, s);
    SliceIsRow(out, m, s, i);
    SliceIsRow(table, n, s, col);
    ghost var flat := out[..];
    ghost var v := VecAdd(k, Unflatten(flat, m, s)[i], Unflatten(table[..], n, s)[col]);
    var a, b := i * s, col * s;
    XorBlocks(k, out, a, table, b, s);
    assert out[..] == Spliced(flat, a, v);
    UnflattenSpliced(flat, m, s, i, v);
  }

  /** One key of the flat `RBDecode`. */
  method FlatDecodeKey<K(!new), F(!new)>(
      k: Field<F>, h: RbHash<K>, table: array<F>, key: K, n: nat, w: nat, s: nat, out: array<F>, i: nat, ghost m: nat)
    requires HashOk(h) && 1 <= w <= ROW_BITS && w <= n && table.Length == n * s
    requires out != table && out.Length == m * s && i < m && Unflatten(out[..], m, s)[i] == ZeroVec(k, s)
    modifies out
    ensures Unflatten(out[..], m, s) ==
            Unflatten(old(out[..]), m, s)[i := DecodedValue(k, h, Unflatten(table[..], n, s), key, n, w, s)]
  {
    var start, bits := KeyBand(h, key, n, w);
    ghost var t := Unflatten(table[..], n, s);
    BandSumIsSum(k, start, bits, t, n, w, s);
    FlatAddBand(k, table, start, bits, n, w, s, out, i, m);
  }

  /** The loop over the bits of a band, on one row of the output. */
  method FlatAddBand<F(!new)>(
      k: Field<F>, table: array<F>, start: nat, bits: Row, n: nat, w: nat, s: nat, out: array<F>, i: nat, ghost m: nat)
    requires IsRow(bits) && w <= ROW_BITS && start + w <= n && table.Length == n * s && out != table
    requires out.Length == m * s && i < m
    modifies out
    ensures var before := Unflatten(old(out[..]), m, s);
            Unflatten(out[..], m, s)
              == before[i := BandSum(k, before[i], start, AllBits(bits), n, Unflatten(table[..], n, s), w)]
  {
    ghost var t, before := Unflatten(table[..], n, s), Unflatten(out[..], m, s);
    for j := 0 to w
      invariant Unflatten(table[..], n, s) == t
      invariant Unflatten(out[..], m, s) == before[i := BandSum(k, before[i], start, AllBits(bits), n, t, j)]
    {
      assert AllBits(bits)[j] == BitAt(bits, j);
      if BitAt(bits, j) {
        AddToOutput(k, out, i, m, table, start + j, n, s);
      }
    }
  }

  /** The table sizes, column counts and widths that the decoder refuses. */
  predicate BadTable(size: nat, s: nat, columns: nat, w: nat) {
    s == 0 || size % s != 0 || (columns != 0 && columns != size / s) || w > ROW_BITS || w > size / s
  }

  /** The last `RBDecode`: flat table, flat output. */
  method FlatDecode<K(!new), F(!new)>(
      k: Field<F>, h: RbHash<K>, table: seq<F>, s: nat, keys: seq<K>, columns: nat, w: nat)
    returns (r: Outcome<seq<F>>)
    requires HashOk(h) && 1 <= w
    ensures table == [] ==> r == Built([])
    ensures r.Rejected? <==> table != [] && BadTable(|table|, s, columns, w)
    ensures !r.Dropped?
    ensures r.Built? && table != [] ==>
      var n := |table| / s;
      && |table| == n * s && |r.table| == |keys| * s
      && forall x :: 0 <= x < |keys| ==>
           Unflatten(r.table, |keys|, s)[x] == DecodedValue(k, h, Unflatten(table, n, s), keys[x], n, w, s)
  {
    if |table| == 0 {
      return Built([]);
    }
    if BadTable(|table|, s, columns, w) {
      return Rejected;
    }
    var n, m := |table| / s, |keys|;
    var t := Copied(table);
    var out := new F[m * s](_ => k.zero);
    ZeroUnflattened(k, out[..], m, s);
    for i := 0 to m
      invariant t[..] == table
      invariant forall x :: i <= x < m ==> Unflatten(out[..], m, s)[x] == ZeroVec(k, s)
      invariant forall x :: 0 <= x < i ==>
        Unflatten(out[..], m, s)[x] == DecodedValue(k, h, Unflatten(table, n, s), keys[x], n, w, s)
    {
      FlatDecodeKey(k, h, t, keys[i], n, w, s, out, i, m);
    }
    return Built(out[..]);
  }

  // ------------------------------------------------- the two forms together

  lemma {:induction false} UnflattenInjective<F>(a: seq<F>, b: seq<F>, m: nat, s: nat)
    requires |a| == |b| == m * s && s > 0 && Unflatten(a, m, s) == Unflatten(b, m, s)
    ensures a == b
  {
    forall q | 0 <= q < |a| ensures a[q] == b[q] {
      SameEntry(a, b, m, s, q);
    }
  }

  lemma {:induction false} SameEntry<F>(a: seq<F>, b: seq<F>, m: nat, s: nat, q: nat)
    requires |a| == |b| == m * s && s > 0 && q < |a| && Unflatten(a, m, s) == Unflatten(b, m, s)
    ensures a[q] == b[q]
  {
    RowIndex(q, m, s);
    var i, o := q / s, q % s;
    UnflattenAt(a, m, s, i, o);
    UnflattenAt(b, m, s, i, o);
  }

  lemma {:induction false} UnflattenAt<F>(a: seq<F>, m: nat, s: nat, i: nat, o: nat)
    requires |a| == m * s && i < m && o < s
    ensures i * s + o < m * s && Unflatten(a, m, s)[i][o] == a[i * s + o]
  {
    UnflattenRow(a, m, s, i);
  }

  lemma {:induction false} RowIndex(q: nat, m: nat, s: nat)
    requires s > 0 && q < m * s
    ensures q / s < m && q == (q / s) * s + q % s
  {
    var i := q / s;
    assert i >= m ==> i * s >= m * s;
  }

  lemma {:induction false} ExactSize(n: nat, s: nat)
    requires s > 0 && n > 0
    ensures n * s > 0 && (n * s) / s == n && (n * s) % s == 0
  {
    var size := n * s;
    var q, r := size / s, size % s;
    assert size == q * s + r;
    assert q < n ==> q * s + s <= n * s by { if q < n { ChunkFits(q, n, s); } }
    assert q > n ==> n * s + s <= q * s by { if q > n { ChunkFits(n, q, s); } }
  }

  /** Encoding flat values, then decoding the same keys. */
  method FlatEncodeThenDecode<K(!new), F(!new)>(
      k: Field<F>, h: RbHash<K>, keys: seq<K>, values: seq<F>, s: nat, n: nat, w: nat)
    returns (ok: bool, decoded: seq<F>)
    requires ParamsOk(k, h, n, w) && s > 0 && |values| == |keys| * s
    ensures ok <==> keys == [] || !BandsDependent(h, keys, n, w)
    ensures ok ==> decoded == values
  {
    var e := FlatEncode(k, h, keys, values, s, n, w);
    if !e.Built? {
      return false, [];
    }
    if |keys| == 0 {
      return true, [];
    }
    ExactSize(n, s);
    var d := FlatDecode(k, h, e.table, s, keys, n, w);
    assert Unflatten(d.table, |keys|, s) == Unflatten(values, |keys|, s);
    UnflattenInjective(d.table, values, |keys|, s);
    return true, d.table;
  }

  /** The nested and the flat encoder accept the same keys and build the same table. */
  method BothEncoders<K(!new), F(!new)>(
      k: Field<F>, h: RbHash<K>, keys: seq<K>, flat: seq<F>, nested: seq<seq<F>>, s: nat, n: nat, w: nat)
    returns (a: Outcome<seq<seq<F>>>, b: Outcome<seq<F>>)
    requires ParamsOk(k, h, n, w) && s > 0 && |keys| > 0 && |flat| == |keys| * s && nested == Unflatten(flat, |keys|, s)
    ensures !a.Rejected? && !b.Rejected? && (a.Built? <==> b.Built?)
    ensures a.Built? ==> |b.table| == n * s && a.table == Unflatten(b.table, n, s)
  {
    a := Encode(k, h, keys, nested, n, w);
    b := FlatEncode(k, h, keys, flat, s, n, w);
  }
}
