/** Splitting one message over several channels (pqpsi/protocols/net.h).

    A channel is the queue of bytes that are under way on it.  Both ends cut the message with `Chunks`; the bytes of
    each chunk travel on a channel of their own and are written back at the offset of the chunk. */
module Net {
  import opened Prelude

  const BLOCK_BYTES := 16
  const MIN_PARALLEL_BYTES := 16 * 1024

  /** A piece of the message: where it begins and how long it is. */
  datatype Chunk = Chunk(first: nat, len: nat)

  /** The pieces follow each other without gap or overlap, from zero to end. */
  ghost predicate Tiles(parts: seq<Chunk>, end: nat) {
    && (parts != [] ==> parts[0].first == 0)
    && (forall i :: 0 < i < |parts| ==> parts[i].first == parts[i - 1].first + parts[i - 1].len)
    && end == if parts == [] then 0 else parts[|parts| - 1].first + parts[|parts| - 1].len
  }

  ghost predicate WholeBlocks(parts: seq<Chunk>, unit: nat)
    requires unit > 0
  {
    forall i :: 0 <= i < |parts| ==> parts[i].len > 0 && parts[i].len % unit == 0
  }

  // ------------------------------------------------- the cut

  /** The first i pieces, counted in units, of a message of total units; each has at most per units. */
  ghost function Pieces(total: nat, per: nat, i: nat): (r: seq<Chunk>)
    ensures |r| <= i
  {
    if i == 0 then [] else Pieces(total, per, i - 1) + Piece(total, (i - 1) * per, per)
  }

  ghost function Piece(total: nat, begin: nat, per: nat): (r: seq<Chunk>)
    ensures |r| <= 1
  {
    var end := Min(total, begin + per);
    if begin < end then [Chunk(begin, end - begin)] else []
  }

  /** The same pieces, counted in bytes. */
  ghost function Scaled(parts: seq<Chunk>, unit: nat): (r: seq<Chunk>)
    ensures |r| == |parts| && forall i :: 0 <= i < |r| ==> r[i] == Grown(parts[i], unit)
  {
    seq(|parts|, i requires 0 <= i < |parts| => Grown(parts[i], unit))
  }

  ghost function Grown(c: Chunk, unit: nat): Chunk { Chunk(c.first * unit, c.len * unit) }

  lemma {:induction false} NextProduct(i: nat, per: nat)
    requires i > 0
    ensures 0 <= (i - 1) * per && i * per == (i - 1) * per + per
  {
  }

  lemma {:induction false} EnoughPerPart(total: nat, use: nat)
    requires 0 < use
    ensures use * ((total + use - 1) / use) >= total
  {
    var t := total + use - 1;
    assert t == use * (t / use) + t % use;
  }

  lemma {:induction false} MultipleOf(q: nat, unit: nat)
    requires 0 < unit
    ensures (q * unit) % unit == 0
  {
    var p := q * unit;
    var d, r := p / unit, p % unit;
    assert p == d * unit + r;
    assert (q - d) * unit == r;
    assert q - d >= 1 ==> (q - d) * unit >= unit;
    assert q - d < 0 ==> (q - d) * unit < 0;
  }

  lemma {:induction false} PiecesTile(total: nat, per: nat, i: nat)
    ensures Tiles(Pieces(total, per, i), Min(total, i * per))
    ensures forall j :: 0 <= j < |Pieces(total, per, i)| ==> Pieces(total, per, i)[j].len > 0
  {
    if i > 0 {
      PiecesTile(total, per, i - 1);
      NextProduct(i, per);
      PieceTiles(Pieces(total, per, i - 1), total, (i - 1) * per, per);
    }
  }

  lemma {:induction false} PieceTiles(parts: seq<Chunk>, total: nat, begin: nat, per: nat)
    requires Tiles(parts, Min(total, begin)) && forall j :: 0 <= j < |parts| ==> parts[j].len > 0
    ensures Tiles(parts + Piece(total, begin, per), Min(total, begin + per))
    ensures var more := parts + Piece(total, begin, per); forall j :: 0 <= j < |more| ==> more[j].len > 0
  {
    var end := Min(total, begin + per);
    var more := parts + Piece(total, begin, per);
    if begin < end {
      assert more == parts + [Chunk(begin, end - begin)];
      forall i | 0 < i < |more| ensures more[i].first == more[i - 1].first + more[i - 1].len {
        assert i < |parts| ==> more[i] == parts[i];
      }
    } else {
      assert more == parts;
    }
  }

  lemma {:induction false} ScaledTiles(parts: seq<Chunk>, end: nat, unit: nat)
    requires unit > 0 && Tiles(parts, end) && forall i :: 0 <= i < |parts| ==> parts[i].len > 0
    ensures Tiles(Scaled(parts, unit), end * unit) && WholeBlocks(Scaled(parts, unit), unit)
  {
    forall i | 0 <= i < |parts|
      ensures 0 <= parts[i].first * unit && parts[i].len * unit > 0 && (parts[i].len * unit) % unit == 0
      ensures (parts[i].first + parts[i].len) * unit == parts[i].first * unit + parts[i].len * unit
    {
      ScaledChunk(parts[i].first, parts[i].len, unit);
    }
  }

  lemma {:induction false} ScaledChunk(first: nat, len: nat, unit: nat)
    requires unit > 0 && len > 0
    ensures 0 <= first * unit && len * unit > 0 && (len * unit) % unit == 0
    ensures (first + len) * unit == first * unit + len * unit
  {
    MultipleOf(len, unit);
  }

  /** One of the two loops of `chunks`: at most use pieces of whole units. */
  method Cut(total: nat, use: nat, unit: nat) returns (parts: seq<Chunk>)
    requires 0 < use && 0 < unit
    ensures parts == Scaled(Pieces(total, (total + use - 1) / use, use), unit)
  {
    var per := (total + use - 1) / use;
    parts := [];
    for i := 0 to use
      invariant parts == Scaled(Pieces(total, per, i), unit)
    {
      NatProduct(i, per);
      var begin := i * per;
      var end := Min(total, begin + per);
      if begin < end {
        NatProduct(begin, unit);
        NatProduct(end - begin, unit);
        parts := parts + [Chunk(begin * unit, (end - begin) * unit)];
      }
    }
  }

  /** How both ends cut a message of so many bytes for n channels. */
  ghost function Plan(bytes: nat, n: nat): seq<Chunk> {
    if bytes == 0 || n == 0 then []
    else if bytes % BLOCK_BYTES == 0 then
      var use := Min(n, bytes / BLOCK_BYTES);
      Scaled(Pieces(bytes / BLOCK_BYTES, (bytes / BLOCK_BYTES + use - 1) / use, use), BLOCK_BYTES)
    else
      var use := Min(n, bytes);
      Scaled(Pieces(bytes, (bytes + use - 1) / use, use), 1)
  }

  lemma {:induction false} CutTiles(total: nat, use: nat, unit: nat)
    requires 0 < use && 0 < unit
    ensures var parts := Scaled(Pieces(total, (total + use - 1) / use, use), unit);
            |parts| <= use && 0 <= total * unit && Tiles(parts, total * unit) && WholeBlocks(parts, unit)
  {
    EnoughPerPart(total, use);
    PiecesTile(total, (total + use - 1) / use, use);
    ScaledTiles(Pieces(total, (total + use - 1) / use, use), total, unit);
  }

  /** The pieces lie end to end and cover the whole message, there are no more of them than channels, and whole
      blocks stay together if the message consists of blocks. */
  lemma {:induction false} PlanTiles(bytes: nat, n: nat)
    requires n > 0
    ensures |Plan(bytes, n)| <= n && Tiles(Plan(bytes, n), bytes)
    ensures WholeBlocks(Plan(bytes, n), if bytes % BLOCK_BYTES == 0 then BLOCK_BYTES else 1)
  {
    if bytes == 0 {
      return;
    }
    if bytes % BLOCK_BYTES == 0 {
      CutTiles(bytes / BLOCK_BYTES, Min(n, bytes / BLOCK_BYTES), BLOCK_BYTES);
    } else {
      CutTiles(bytes, Min(n, bytes), 1);
    }
  }

  lemma {:induction false} PiecesFull(total: nat, per: nat, i: nat, j: nat)
    requires per > 0 && j < i
    ensures 0 <= j * per
    ensures j * per < total ==> j < |Pieces(total, per, i)|
    ensures j * per < total ==> Pieces(total, per, i)[j] == Chunk(j * per, Min(total, j * per + per) - j * per)
    ensures total <= j * per ==> |Pieces(total, per, i)| <= j
  {
    NatProduct(j, per);
    PiecesCount(total, per, i - 1);
    if j < i - 1 {
      PiecesFull(total, per, i - 1, j);
      NextProduct(i, per);
      EarlierProduct(j, i - 1, per);
    }
  }

  lemma {:induction false} EarlierProduct(a: nat, b: nat, per: nat)
    requires a <= b
    ensures 0 <= a * per <= b * per
  {
    assert b * per == a * per + (b - a) * per;
  }

  /** As long as the message lasts every piece is there. */
  lemma {:induction false} PiecesCount(total: nat, per: nat, i: nat)
    requires per > 0
    ensures 0 <= i * per && (i * per < total ==> |Pieces(total, per, i)| == i)
  {
    NatProduct(i, per);
    if i > 0 {
      NextProduct(i, per);
      PiecesCount(total, per, i - 1);
    }
  }

  /** The pieces have the same length, as short as the number of channels allows; only the last one may be shorter. */
  lemma {:induction false} PlanEven(bytes: nat, n: nat)
    requires n > 0 && bytes > 0
    ensures var parts, unit := Plan(bytes, n), if bytes % BLOCK_BYTES == 0 then BLOCK_BYTES else 1;
      && parts != [] && parts[0].len * n >= bytes && (parts[0].len - unit) * n < bytes
      && (forall i :: 0 <= i < |parts| - 1 ==> parts[i].len == parts[0].len)
      && parts[|parts| - 1].len <= parts[0].len
  {
    var unit := if bytes % BLOCK_BYTES == 0 then BLOCK_BYTES else 1;
    var total := if unit == 1 then bytes else bytes / BLOCK_BYTES;
    var use := Min(n, total);
    var per := (total + use - 1) / use;
    PerPart(total, n);
    EvenPieces(total, per, use);
    var pieces := Pieces(total, per, use);
    assert Plan(bytes, n) == Scaled(pieces, unit);
    assert total * unit == bytes;
    ScaledBound(per, n, total, unit);
    forall i | 0 <= i < |pieces| ensures pieces[i].len <= per && pieces[i].len * unit <= per * unit {
      EarlierProduct(pieces[i].len, per, unit);
    }
  }

  lemma {:induction false} RoundedUp(total: nat, use: nat)
    requires 0 < use && 0 < total
    ensures var per := (total + use - 1) / use; 0 < per && use * (per - 1) < total <= use * per
  {
    var t := total + use - 1;
    var per := t / use;
    assert t == use * per + t % use;
    assert use * (per - 1) == use * per - use;
    assert per == 0 ==> use * per == 0;
  }

  /** The length of a piece is the number of units over the number of channels, rounded up. */
  lemma {:induction false} PerPart(total: nat, n: nat)
    requires n > 0 && total > 0
    ensures var use := Min(n, total); var per := (total + use - 1) / use;
            0 < per <= total && per * n >= total && (per - 1) * n < total
  {
    var use := Min(n, total);
    var per := (total + use - 1) / use;
    RoundedUp(total, use);
    EarlierProduct(1, use, per - 1);
    if n > total {
      OnePer(total, per);
    }
  }

  lemma {:induction false} OnePer(total: nat, per: nat)
    requires 0 < total && 0 < per && total * (per - 1) < total
    ensures per == 1
  {
    assert per >= 2 ==> total * (per - 1) >= total;
  }

  lemma {:induction false} ScaledBound(per: nat, n: nat, total: nat, unit: nat)
    requires per > 0 && unit > 0 && per * n >= total && (per - 1) * n < total
    ensures per * unit * n >= total * unit && (per * unit - unit) * n < total * unit
  {
    assert per * unit * n == (per * n) * unit;
    assert (per * unit - unit) * n == ((per - 1) * n) * unit;
    assert ((per * n) - total) * unit >= 0;
    assert (total - (per - 1) * n) * unit > 0;
  }

  lemma {:induction false} EvenPieces(total: nat, per: nat, use: nat)
    requires 0 < per <= total && use > 0
    ensures var p := Pieces(total, per, use);
      && p != [] && p[0].len == per && (forall j :: 0 <= j < |p| ==> p[j].len <= per)
      && forall j :: 0 <= j < |p| - 1 ==> p[j].len == per
  {
    var p := Pieces(total, per, use);
    PiecesFull(total, per, use, 0);
    forall j: nat | j < |p| ensures p[j].len <= per && (j < |p| - 1 ==> p[j].len == per) {
      PiecesFull(total, per, use, j);
      if j < |p| - 1 {
        PiecesFull(total, per, use, j + 1);
        NextProduct(j + 1, per);
      }
    }
  }

  /** `chunks` */
  method Chunks(bytes: nat, n: nat) returns (parts: seq<Chunk>)
    ensures parts == Plan(bytes, n)
    ensures n > 0 ==> |parts| <= n && Tiles(parts, bytes)
  {
    if n > 0 { PlanTiles(bytes, n); }
    if bytes == 0 || n == 0 {
      return [];
    }
    if bytes % BLOCK_BYTES == 0 {
      var blocks := bytes / BLOCK_BYTES;
      parts := Cut(blocks, Min(n, blocks), BLOCK_BYTES);
    } else {
      parts := Cut(bytes, Min(n, bytes), 1);
    }
  }

  // ------------------------------------------------- sending and receiving

  predicate ShouldSplit(multiThread: bool, channels: nat, bytes: nat) {
    multiThread && channels > 1 && bytes >= MIN_PARALLEL_BYTES
  }

  /** The chunk that goes over each of the first channels. */
  ghost function Routes(multiThread: bool, channels: nat, bytes: nat): seq<Chunk> {
    if ShouldSplit(multiThread, channels, bytes) then Plan(bytes, channels) else [Chunk(0, bytes)]
  }

  method Route(multiThread: bool, channels: nat, bytes: nat) returns (parts: seq<Chunk>)
    requires channels > 0
    ensures parts == Routes(multiThread, channels, bytes)
    ensures |parts| <= channels && Tiles(parts, bytes)
  {
    if !ShouldSplit(multiThread, channels, bytes) {
      parts := [Chunk(0, bytes)];
    } else {
      parts := Chunks(bytes, channels);
    }
  }

  /** Every chunk of a tiling lies inside of the message. */
  lemma {:induction false} ChunkInside(parts: seq<Chunk>, bytes: nat, j: nat)
    requires Tiles(parts, bytes) && j < |parts|
    ensures parts[j].first + parts[j].len <= bytes
    decreases |parts| - j
  {
    if j + 1 < |parts| {
      ChunkInside(parts, bytes, j + 1);
    }
  }

  /** Chunks do not overlap. */
  lemma {:induction false} ChunksDisjoint(parts: seq<Chunk>, bytes: nat, i: nat, j: nat)
    requires Tiles(parts, bytes) && i < j < |parts|
    ensures parts[i].first + parts[i].len <= parts[j].first
    decreases j
  {
    if i + 1 < j {
      ChunksDisjoint(parts, bytes, i, j - 1);
    }
  }

  /** Every byte of the message lies in some chunk. */
  lemma {:induction false} ByteCovered(parts: seq<Chunk>, bytes: nat, q: nat) returns (i: nat)
    requires Tiles(parts, bytes) && q < bytes
    ensures i < |parts| && parts[i].first <= q < parts[i].first + parts[i].len
  {
    i := |parts| - 1;
    while parts[i].first > q
      invariant i < |parts| && q < parts[i].first + parts[i].len
      decreases i
    {
      assert parts[0].first == 0;
      i := i - 1;
    }
  }

  /** What a message adds to the bytes under way on channel i. */
  ghost function Part<B>(data: seq<B>, parts: seq<Chunk>, i: nat): seq<B>
    requires Tiles(parts, |data|)
  {
    if i < |parts| then
      ChunkInside(parts, |data|, i);
      data[parts[i].first..parts[i].first + parts[i].len]
    else []
  }

  /** The channels that lead to one party. */
  class Link<B(==)> {
    var queues: seq<seq<B>>

    constructor (channels: nat)
      requires channels > 0
      ensures |queues| == channels && Empty()
    {
      queues := seq(channels, _ => []);
    }

    predicate Empty()
      reads this
    {
      forall i :: 0 <= i < |queues| ==> queues[i] == []
    }

    /** `net::send` */
    method Send(data: seq<B>, multiThread: bool)
      requires |queues| > 0
      modifies this
      ensures |queues| == old(|queues|) && Tiles(Routes(multiThread, |queues|, |data|), |data|)
      ensures forall i :: 0 <= i < |queues| ==>
        queues[i] == old(queues[i]) + Part(data, Routes(multiThread, |queues|, |data|), i)
    {
      var parts := Route(multiThread, |queues|, |data|);
      for i := 0 to |parts|
        invariant |queues| == old(|queues|)
        invariant forall j :: 0 <= j < |queues| ==>
          queues[j] == old(queues[j]) + if j < i then Part(data, parts, j) else []
      {
        ChunkInside(parts, |data|, i);
        var c := parts[i];
        queues := queues[i := queues[i] + data[c.first..c.first + c.len]];
      }
    }

    /** `net::recv` and the jobs of `net::asyncRecv`: each channel delivers the bytes of its chunk. */
    method Receive(buf: array<B>, multiThread: bool, ghost data: seq<B>)
      requires |queues| > 0 && |data| == buf.Length && Tiles(Routes(multiThread, |queues|, |data|), |data|)
      requires forall i :: 0 <= i < |queues| ==> queues[i] == Part(data, Routes(multiThread, |queues|, |data|), i)
      modifies this, buf
      ensures buf[..] == data && |queues| == old(|queues|) && Empty()
    {
      var parts := Route(multiThread, |queues|, buf.Length);
      for i := 0 to |parts|
        invariant |queues| == old(|queues|) && |parts| <= |queues|
        invariant forall j {:trigger queues[j]} :: 0 <= j < |queues| ==>
          queues[j] == if j < i then [] else Part(data, parts, j)
        invariant AllDelivered(buf[..], data, parts, i)
      {
        TakeChunk(buf, parts, data, i);
      }
      Reassembled(buf[..], data, parts);
    }

    /** Writes what channel i delivers at the offset of chunk i. */
    method TakeChunk(buf: array<B>, parts: seq<Chunk>, ghost data: seq<B>, i: nat)
      requires Tiles(parts, |data|) && |data| == buf.Length && i < |parts| <= |queues|
      requires queues[i] == Part(data, parts, i)
      requires AllDelivered(buf[..], data, parts, i)
      modifies this, buf
      ensures queues == old(queues)[i := []]
      ensures AllDelivered(buf[..], data, parts, i + 1)
    {
      var c := parts[i];
      ChunkInside(parts, |data|, i);
      ghost var before := buf[..];
      for o := 0 to c.len
        invariant queues == old(queues)
        invariant forall q :: 0 <= q < buf.Length ==>
          buf[q] == if c.first <= q < c.first + o then data[q] else before[q]
      {
        buf[c.first + o] := queues[i][o];
      }
      assert queues[i][c.len..] == [];
      queues := queues[i := queues[i][c.len..]];
      forall j | 0 <= j <= i ensures Delivered(buf[..], data, parts, j) {
        if j < i {
          assert Delivered(before, data, parts, j);
        }
      }
    }
  }

  ghost predicate AllDelivered<B>(buf: seq<B>, data: seq<B>, parts: seq<Chunk>, i: nat) {
    |buf| == |data| && i <= |parts| && forall j {:trigger Delivered(buf, data, parts, j)} :: 0 <= j < i ==>
      Delivered(buf, data, parts, j)
  }

  lemma {:induction false} Reassembled<B>(buf: seq<B>, data: seq<B>, parts: seq<Chunk>)
    requires Tiles(parts, |data|) && AllDelivered(buf, data, parts, |parts|)
    ensures buf == data
  {
    forall q | 0 <= q < |data| ensures buf[q] == data[q] {
      var i := ByteCovered(parts, |data|, q);
      assert Delivered(buf, data, parts, i);
    }
  }

  /** The bytes of chunk j have arrived. */
  ghost predicate Delivered<B>(buf: seq<B>, data: seq<B>, parts: seq<Chunk>, j: nat)
    requires j < |parts| && |buf| == |data|
  {
    forall q {:trigger buf[q]} {:trigger data[q]} ::
      parts[j].first <= q < parts[j].first + parts[j].len && q < |data| ==> buf[q] == data[q]
  }

  /** One message from end to end, for any number of channels. */
  method Transfer<B(==)>(link: Link<B>, data: seq<B>, buf: array<B>, multiThread: bool)
    requires |link.queues| > 0 && link.Empty() && buf.Length == |data|
    modifies link, buf
    ensures buf[..] == data && |link.queues| == old(|link.queues|) && link.Empty()
  {
    link.Send(data, multiThread);
    link.Receive(buf, multiThread, data);
  }
}
