/** Sorting items into bins with several threads (the first half of `Baxos::implParSolve` in volePSI/PaxosImpl.h).

    Every thread has a stretch of its own in the row of each bin; afterwards the stretches of a bin are moved together
    in place.  An item is a hash and its value, which the source keeps in two parallel buffers. */
module BaxosBins {
  import opened Prelude

  datatype Item<+H, +F> = Item(hash: H, value: F)

  // ------------------------------------------------- the items of a bin

  /** The inputs from a up to e that belong to bin b, in order. */
  ghost function Members(bins: seq<nat>, a: nat, e: nat, b: nat): (r: seq<nat>)
    requires e <= |bins|
    ensures forall j :: 0 <= j < |r| ==> a <= r[j] < e && bins[r[j]] == b
    decreases e
  {
    if e <= a then [] else Members(bins, a, e - 1, b) + if bins[e - 1] == b then [e - 1] else []
  }

  lemma {:induction false} MembersConcat(bins: seq<nat>, a: nat, m: nat, e: nat, b: nat)
    requires a <= m <= e <= |bins|
    ensures Members(bins, a, e, b) == Members(bins, a, m, b) + Members(bins, m, e, b)
    decreases e
  {
    if m < e { MembersConcat(bins, a, m, e - 1, b); }
  }

  /** Every input is in its bin. */
  lemma {:induction false} MembersComplete(bins: seq<nat>, a: nat, e: nat, i: nat) returns (j: nat)
    requires a <= i < e <= |bins|
    ensures j < |Members(bins, a, e, bins[i])| && Members(bins, a, e, bins[i])[j] == i
    decreases e
  {
    if i == e - 1 {
      j := |Members(bins, a, e - 1, bins[i])|;
    } else {
      j := MembersComplete(bins, a, e - 1, i);
    }
  }

  lemma {:induction false} MembersIncrease(bins: seq<nat>, a: nat, e: nat, b: nat)
    requires e <= |bins|
    ensures forall i, j :: 0 <= i < j < |Members(bins, a, e, b)| ==>
      Members(bins, a, e, b)[i] < Members(bins, a, e, b)[j]
    decreases e
  {
    if a < e { MembersIncrease(bins, a, e - 1, b); }
  }

  // ------------------------------------------------- the share of a thread

  /** Where the share of thread t begins; that of the next thread is where it ends. */
  function Begin(n: nat, t: nat, threads: nat): nat
    requires threads > 0
  {
    NatProduct(n, t);
    (n * t) / threads
  }

  lemma {:induction false} DivMonotone(a: nat, b: nat, d: nat)
    requires a <= b && d > 0
    ensures a / d <= b / d
  {
    var p, q := a / d, b / d;
    assert a == p * d + a % d && b == q * d + b % d;
    assert q < p ==> (q + 1) * d <= p * d;
  }

  lemma {:induction false} ProductMonotone(n: nat, a: nat, b: nat)
    requires a <= b
    ensures 0 <= n * a <= n * b
  {
    assert n * b == n * a + n * (b - a);
  }

  lemma {:induction false} SharesOrdered(n: nat, t: nat, u: nat, threads: nat)
    requires t <= u && threads > 0
    ensures Begin(n, t, threads) <= Begin(n, u, threads)
  {
    ProductMonotone(n, t, u);
    DivMonotone(n * t, n * u, threads);
  }

  /** The shares follow each other and cover all inputs. */
  lemma {:induction false} SharesMeet(n: nat, t: nat, threads: nat)
    requires t < threads
    ensures Begin(n, t, threads) <= Begin(n, t + 1, threads) <= n
    ensures Begin(n, 0, threads) == 0 && Begin(n, threads, threads) == n
  {
    SharesOrdered(n, t, t + 1, threads);
    SharesOrdered(n, t + 1, threads, threads);
    WholeDivides(n, threads);
  }

  /** The shares are as even as they can be: none is larger than another one by more than one input. */
  lemma {:induction false} SharesEven(n: nat, t: nat, threads: nat)
    requires t < threads
    ensures n / threads <= Begin(n, t + 1, threads) - Begin(n, t, threads) <= n / threads + 1
  {
    NatProduct(n, t);
    ProductMonotone(n, t, t + 1);
    assert n * (t + 1) == n * t + n;
    DivOfSum(n * t, n, threads);
  }

  lemma {:induction false} QuotientBetween(a: nat, q: nat, d: nat)
    requires d > 0 && q * d <= a < (q + 2) * d
    ensures q <= a / d <= q + 1
  {
    var r := a / d;
    assert a == r * d + a % d;
    assert r < q ==> (r + 1) * d <= q * d;
    assert r >= q + 2 ==> (q + 2) * d <= r * d;
  }

  lemma {:induction false} Distribute(p: nat, q: nat, d: nat)
    ensures (p + q) * d == p * d + q * d
  {
  }

  lemma {:induction false} Division(a: nat, d: nat)
    requires d > 0
    ensures a / d * d <= a < a / d * d + d
  {
  }

  lemma {:induction false} DivOfSum(a: nat, b: nat, d: nat)
    requires d > 0
    ensures a / d + b / d <= (a + b) / d <= a / d + b / d + 1
  {
    var p, q := a / d, b / d;
    Division(a, d);
    Division(b, d);
    Distribute(p, q, d);
    Distribute(p + q, 2, d);
    QuotientBetween(a + b, p + q, d);
  }

  lemma {:induction false} WholeDivides(n: nat, d: nat)
    requires d > 0
    ensures (n * d) / d == n
  {
    var p := n * d;
    var q, r := p / d, p % d;
    assert p == q * d + r;
    assert (n - q) * d == r;
    assert n - q >= 1 ==> (n - q) * d >= d;
    assert n - q < 0 ==> (n - q) * d < 0;
  }

  // ------------------------------------------------- where the items are

  /** The entries of row b from position at on are the given inputs. */
  ghost predicate Holds<T>(row: seq<T>, at: nat, src: seq<T>, members: seq<nat>) {
    && at + |members| <= |row|
    && forall j :: 0 <= j < |members| ==> members[j] < |src| && row[at + j] == src[members[j]]
  }

  ghost function BinRow<T>(a: array2<T>, b: nat): (r: seq<T>)
    requires b < a.Length0
    reads a
    ensures |r| == a.Length1 && forall q :: 0 <= q < |r| ==> r[q] == a[b, q]
  {
    seq(a.Length1, q requires 0 <= q < a.Length1 reads a => a[b, q])
  }

  /** Thread u has put its inputs below done into bin b. */
  ghost predicate Placed<T>(
      row: seq<T>, size: nat, src: seq<T>, bins: seq<nat>, from: nat, done: nat, b: nat, at: nat, per: nat)
    requires done <= |bins| == |src|
  {
    var m := Members(bins, from, done, b);
    size == |m| <= per && Holds(row, at, src, m)
  }

  /** Moving entries down in place, first one first, is safe because they never land behind their source. */
  method MoveDown<T>(a: array2<T>, b: nat, dst: nat, src: nat, size: nat)
    requires b < a.Length0 && dst <= src && src + size <= a.Length1
    modifies a
    ensures forall c, q :: 0 <= c < a.Length0 && 0 <= q < a.Length1 ==>
      a[c, q] == if c == b && dst <= q < dst + size then old(a[b, src + q - dst]) else old(a[c, q])
  {
    for j := 0 to size
      invariant forall c, q :: 0 <= c < a.Length0 && 0 <= q < a.Length1 ==>
        a[c, q] == if c == b && dst <= q < dst + j then old(a[b, src + q - dst]) else old(a[c, q])
    {
      a[b, dst + j] := a[b, src + j];
    }
  }

  // ------------------------------------------------- filling the bins

  /** How far thread u has come while thread t is at input i. */
  ghost function DoneBy(n: nat, u: nat, t: nat, i: nat, threads: nat): nat
    requires threads > 0
  {
    if u < t then Begin(n, u + 1, threads) else if u == t then i else Begin(n, u, threads)
  }

  ghost predicate AllPlaced<T>(a: array2<T>, sizes: array2<nat>, src: seq<T>, bins: seq<nat>, per: nat, t: nat, i: nat)
    reads a, sizes
  {
    && sizes.Length0 > 0 && a.Length0 == sizes.Length1 && |src| == |bins|
    && (forall u, b {:trigger PlacedAt(a, sizes, src, bins, per, t, i, u, b)} ::
          0 <= u < sizes.Length0 && 0 <= b < sizes.Length1 ==> PlacedAt(a, sizes, src, bins, per, t, i, u, b))
  }

  ghost predicate PlacedAt<T>(
      a: array2<T>, sizes: array2<nat>, src: seq<T>, bins: seq<nat>, per: nat, t: nat, i: nat, u: nat, b: nat)
    requires u < sizes.Length0 && b < sizes.Length1 && a.Length0 == sizes.Length1 && |src| == |bins|
    reads a, sizes
  {
    var threads, n := sizes.Length0, |bins|;
    var done := DoneBy(n, u, t, i, threads);
    && done <= n && 0 <= per * u
    && Placed(BinRow(a, b), sizes[u, b], src, bins, Begin(n, u, threads), done, b, per * u, per)
  }

  lemma {:induction false} SlotsApart(per: nat, u: nat, j: nat, t: nat, k: nat)
    requires j < per && k < per && u != t
    ensures per * u + j != per * t + k
  {
    if u < t {
      ProductMonotone(per, u + 1, t);
      assert per * (u + 1) == per * u + per;
    } else {
      ProductMonotone(per, t + 1, u);
      assert per * (t + 1) == per * t + per;
    }
  }

  lemma {:induction false} SlotFits(per: nat, t: nat, threads: nat)
    requires t < threads
    ensures 0 <= per * t && per * t + per <= per * threads
  {
    ProductMonotone(per, t + 1, threads);
    assert per * (t + 1) == per * t + per;
  }

  /** Puts input i into its bin. */
  method PutItem<T>(a: array2<T>, sizes: array2<nat>, src: seq<T>, bins: seq<nat>, per: nat, t: nat, i: nat)
    requires AllPlaced(a, sizes, src, bins, per, t, i) && t < sizes.Length0
    requires Begin(|bins|, t, sizes.Length0) <= i < |bins| && bins[i] < sizes.Length1
    requires a.Length1 == per * sizes.Length0 && sizes[t, bins[i]] < per && a as object != sizes
    modifies a, sizes
    ensures AllPlaced(a, sizes, src, bins, per, t, i + 1)
  {
    var bin := bins[i];
    var bs := sizes[t, bin];
    SlotFits(per, t, sizes.Length0);
    assert PlacedAt(a, sizes, src, bins, per, t, i, t, bin);
    label before:
    sizes[t, bin] := bs + 1;
    a[bin, per * t + bs] := src[i];
    ghost var next := i + 1;
    forall u, b | 0 <= u < sizes.Length0 && 0 <= b < sizes.Length1
      ensures PlacedAt(a, sizes, src, bins, per, t, next, u, b) {
      assert old@before(PlacedAt(a, sizes, src, bins, per, t, i, u, b));
      var row, row' := old@before(BinRow(a, b)), BinRow(a, b);
      assert row' == if b == bin then row[per * t + bs := src[i]] else row;
      if b == bin && u != t {
        OtherStretch(row, per, u, t, bs, src[i], src,
          Members(bins, Begin(|bins|, u, sizes.Length0), DoneBy(|bins|, u, t, i, sizes.Length0), b));
      }
    }
  }

  lemma {:induction false} OtherStretch<T>(
      row: seq<T>, per: nat, u: nat, t: nat, bs: nat, x: T, src: seq<T>, members: seq<nat>)
    requires u != t && bs < per && 0 <= per * t && per * t + bs < |row| && 0 <= per * u && |members| <= per
    requires Holds(row, per * u, src, members)
    ensures Holds(row[per * t + bs := x], per * u, src, members)
  {
    forall j {:trigger members[j]} | 0 <= j < |members|
      ensures row[per * t + bs := x][per * u + j] == row[per * u + j] {
      SlotsApart(per, u, j, t, bs);
    }
  }

  lemma {:induction false} NothingPlaced<T>(a: array2<T>, sizes: array2<nat>, src: seq<T>, bins: seq<nat>, per: nat)
    requires sizes.Length0 > 0 && a.Length0 == sizes.Length1 && a.Length1 == per * sizes.Length0 && |src| == |bins|
    requires forall u, b :: 0 <= u < sizes.Length0 && 0 <= b < sizes.Length1 ==> sizes[u, b] == 0
    ensures AllPlaced(a, sizes, src, bins, per, 0, 0)
  {
    var threads, t, i := sizes.Length0, 0, 0;
    forall u, b | 0 <= u < threads && 0 <= b < sizes.Length1 ensures PlacedAt(a, sizes, src, bins, per, t, i, u, b) {
      SharesMeet(|bins|, u, threads);
      SlotFits(per, u, threads);
    }
  }

  lemma {:induction false} NextThread<T>(
      a: array2<T>, sizes: array2<nat>, src: seq<T>, bins: seq<nat>, per: nat, t: nat)
    requires t < sizes.Length0 && AllPlaced(a, sizes, src, bins, per, t, Begin(|bins|, t + 1, sizes.Length0))
    ensures AllPlaced(a, sizes, src, bins, per, t + 1, Begin(|bins|, t + 1, sizes.Length0))
  {
    var i, next := Begin(|bins|, t + 1, sizes.Length0), t + 1;
    forall u, b | 0 <= u < sizes.Length0 && 0 <= b < sizes.Length1
      ensures PlacedAt(a, sizes, src, bins, per, next, i, u, b) {
      assert PlacedAt(a, sizes, src, bins, per, t, i, u, b);
    }
  }

  /** All threads put the inputs of their shares into the bins. False stands for a bin that a thread would overfill. */
  method FillBins<T>(a: array2<T>, sizes: array2<nat>, src: seq<T>, bins: seq<nat>, per: nat) returns (ok: bool)
    requires sizes.Length0 > 0 && a.Length0 == sizes.Length1 && a.Length1 == per * sizes.Length0 && |src| == |bins|
    requires a as object != sizes
    requires forall u, b :: 0 <= u < sizes.Length0 && 0 <= b < sizes.Length1 ==> sizes[u, b] == 0
    requires forall i :: 0 <= i < |bins| ==> bins[i] < sizes.Length1
    modifies a, sizes
    ensures ok ==> AllPlaced(a, sizes, src, bins, per, sizes.Length0, |bins|)
    ensures ok <==> NoneOverfull(bins, sizes.Length1, sizes.Length0, per)
  {
    var threads, n := sizes.Length0, |bins|;
    NothingPlaced(a, sizes, src, bins, per);
    assert Begin(n, 0, threads) == 0 by { SharesMeet(n, 0, threads); }
    for t := 0 to threads
      invariant Begin(n, t, threads) <= n && AllPlaced(a, sizes, src, bins, per, t, Begin(n, t, threads))
    {
      SharesMeet(n, t, threads);
      var begin, end := Begin(n, t, threads), Begin(n, t + 1, threads);
      for i := begin to end
        invariant AllPlaced(a, sizes, src, bins, per, t, i)
      {
        if sizes[t, bins[i]] >= per {
          TooMany(a, sizes, src, bins, per, t, i);
          assert Overfull(bins, t, bins[i], threads, per);
          return false;
        }
        PutItem(a, sizes, src, bins, per, t, i);
      }
      NextThread(a, sizes, src, bins, per, t);
    }
    assert Begin(n, threads, threads) == n by { SharesMeet(n, 0, threads); }
    NoneTooMany(a, sizes, src, bins, per);
    return true;
  }

  /** Thread t has more inputs for bin b than it has room for. */
  ghost predicate Overfull(bins: seq<nat>, t: nat, b: nat, threads: nat, per: nat)
    requires t < threads
  {
    SharesMeet(|bins|, t, threads);
    |Members(bins, Begin(|bins|, t, threads), Begin(|bins|, t + 1, threads), b)| > per
  }

  /** Every thread has room for its inputs in every bin. */
  ghost predicate NoneOverfull(bins: seq<nat>, count: nat, threads: nat, per: nat) {
    forall t, b {:trigger Overfull(bins, t, b, threads, per)} :: 0 <= t < threads && 0 <= b < count ==>
      !Overfull(bins, t, b, threads, per)
  }

  lemma {:induction false} NoneTooMany<T>(a: array2<T>, sizes: array2<nat>, src: seq<T>, bins: seq<nat>, per: nat)
    requires AllPlaced(a, sizes, src, bins, per, sizes.Length0, |bins|)
    ensures NoneOverfull(bins, sizes.Length1, sizes.Length0, per)
  {
    var threads, n := sizes.Length0, |bins|;
    forall t, b | 0 <= t < threads && 0 <= b < sizes.Length1 ensures !Overfull(bins, t, b, threads, per) {
      assert PlacedAt(a, sizes, src, bins, per, threads, n, t, b);
    }
  }

  lemma {:induction false} TooMany<T>(
      a: array2<T>, sizes: array2<nat>, src: seq<T>, bins: seq<nat>, per: nat, t: nat, i: nat)
    requires AllPlaced(a, sizes, src, bins, per, t, i) && t < sizes.Length0
    requires Begin(|bins|, t, sizes.Length0) <= i < Begin(|bins|, t + 1, sizes.Length0) <= |bins|
    requires bins[i] < sizes.Length1 && sizes[t, bins[i]] >= per
    ensures Overfull(bins, t, bins[i], sizes.Length0, per)
  {
    var b, from, to := bins[i], Begin(|bins|, t, sizes.Length0), Begin(|bins|, t + 1, sizes.Length0);
    assert PlacedAt(a, sizes, src, bins, per, t, i, t, b);
    MembersConcat(bins, from, i + 1, to, b);
    assert Members(bins, from, i + 1, b) == Members(bins, from, i, b) + [i];
  }

  // ------------------------------------------------- moving a bin together

  /** Bin b: the stretches of the threads below t have been moved together, the others are where they were. */
  ghost predicate Merging<T>(
      row: seq<T>, sizes: seq<nat>, src: seq<T>, bins: seq<nat>, b: nat, per: nat, t: nat, pos: nat)
    requires |src| == |bins| && 0 < t <= |sizes|
  {
    var n, threads := |bins|, |sizes|;
    && Begin(n, t, threads) <= n && 0 <= per * t && pos <= per * t <= |row|
    && pos == |Members(bins, 0, Begin(n, t, threads), b)| &&
      Holds(row, 0, src, Members(bins, 0, Begin(n, t, threads), b))
    && (forall u {:trigger StretchOk(row, sizes, src, bins, b, per, u)} :: t <= u < threads ==>
      StretchOk(row, sizes, src, bins, b, per, u))
  }

  ghost predicate StretchOk<T>(row: seq<T>, sizes: seq<nat>, src: seq<T>, bins: seq<nat>, b: nat, per: nat, u: nat)
    requires |src| == |bins| && u < |sizes|
  {
    var n, threads := |bins|, |sizes|;
    && Begin(n, u, threads) <= Begin(n, u + 1, threads) <= n && 0 <= per * u
    && Placed(row, sizes[u], src, bins, Begin(n, u, threads), Begin(n, u + 1, threads), b, per * u, per)
  }

  /** The row after entries have been moved down. */
  ghost function MovedDown<T>(row: seq<T>, dst: nat, src: nat, size: nat): (r: seq<T>)
    requires dst <= src && src + size <= |row|
    ensures |r| == |row|
    ensures forall q :: 0 <= q < |r| ==> r[q] == if dst <= q < dst + size then row[src + q - dst] else row[q]
  {
    seq(|row|, q requires 0 <= q < |row| => if dst <= q < dst + size then row[src + q - dst] else row[q])
  }

  lemma {:induction false} MergeStep<T>(
      row: seq<T>, sizes: seq<nat>, src: seq<T>, bins: seq<nat>, b: nat, per: nat, t: nat, pos: nat)
    requires |src| == |bins| && 0 < t < |sizes| && |row| == per * |sizes|
    requires Merging(row, sizes, src, bins, b, per, t, pos)
    ensures 0 <= per * t && per * t + sizes[t] <= |row| && pos <= per * t
    ensures Merging(MovedDown(row, pos, per * t, sizes[t]), sizes, src, bins, b, per, t + 1, pos + sizes[t])
  {
    var n, threads := |bins|, |sizes|;
    assert StretchOk(row, sizes, src, bins, b, per, t);
    SharesOrdered(n, 0, t, threads);
    SlotFits(per, t, threads);
    var row' := MovedDown(row, pos, per * t, sizes[t]);
    assert per * (t + 1) == per * t + per;
    MembersConcat(bins, 0, Begin(n, t, threads), Begin(n, t + 1, threads), b);
    forall u | t + 1 <= u < threads ensures StretchOk(row', sizes, src, bins, b, per, u) {
      assert StretchOk(row, sizes, src, bins, b, per, u);
      ProductMonotone(per, t + 1, u);
    }
  }

  ghost function SizesOf(sizes: array2<nat>, b: nat): (r: seq<nat>)
    requires b < sizes.Length1
    reads sizes
    ensures |r| == sizes.Length0 && forall u :: 0 <= u < |r| ==> r[u] == sizes[u, b]
  {
    seq(sizes.Length0, u requires 0 <= u < sizes.Length0 reads sizes => sizes[u, b])
  }

  /** All stretches of a bin are filled and have not been moved. */
  ghost predicate BinReady<T>(row: seq<T>, sizes: seq<nat>, src: seq<T>, bins: seq<nat>, b: nat, per: nat) {
    && |src| == |bins| && 0 < |sizes| && |row| == per * |sizes|
    && forall u {:trigger StretchOk(row, sizes, src, bins, b, per, u)} :: 0 <= u < |sizes| ==>
      StretchOk(row, sizes, src, bins, b, per, u)
  }

  lemma {:induction false} PlacedIsReady<T>(
      a: array2<T>, sizes: array2<nat>, src: seq<T>, bins: seq<nat>, per: nat, b: nat)
    requires AllPlaced(a, sizes, src, bins, per, sizes.Length0, |bins|) && a.Length1 == per * sizes.Length0
    requires b < sizes.Length1
    ensures BinReady(BinRow(a, b), SizesOf(sizes, b), src, bins, b, per)
  {
    var n, threads := |bins|, sizes.Length0;
    forall u | 0 <= u < threads ensures StretchOk(BinRow(a, b), SizesOf(sizes, b), src, bins, b, per, u) {
      SharesMeet(n, u, threads);
      assert PlacedAt(a, sizes, src, bins, per, threads, n, u, b);
    }
  }

  lemma {:induction false} MergeStarts<T>(row: seq<T>, sizes: seq<nat>, src: seq<T>, bins: seq<nat>, b: nat, per: nat)
    requires BinReady(row, sizes, src, bins, b, per)
    ensures Merging(row, sizes, src, bins, b, per, 1, sizes[0])
  {
    SharesMeet(|bins|, 0, |sizes|);
    SlotFits(per, 0, |sizes|);
    ProductMonotone(per, 1, |sizes|);
    assert per * 1 == per && per * 0 == 0;
    assert StretchOk(row, sizes, src, bins, b, per, 0);
  }

  /** Moves the stretches of bin b together: the row now begins with all inputs of the bin, in order. */
  method MergeBin<T>(a: array2<T>, sizes: array2<nat>, ghost src: seq<T>, ghost bins: seq<nat>, per: nat, b: nat)
    returns (size: nat)
    requires a.Length0 == sizes.Length1 && a.Length1 == per * sizes.Length0 && b < sizes.Length1 && a as object != sizes
    requires BinReady(BinRow(a, b), SizesOf(sizes, b), src, bins, b, per)
    modifies a
    ensures size == |Members(bins, 0, |bins|, b)| && Holds(BinRow(a, b), 0, src, Members(bins, 0, |bins|, b))
    ensures forall c :: 0 <= c < a.Length0 && c != b ==> BinRow(a, c) == old(BinRow(a, c))
  {
    ghost var ss := SizesOf(sizes, b);
    MergeStarts(BinRow(a, b), ss, src, bins, b, per);
    size := sizes[0, b];
    for t := 1 to sizes.Length0
      invariant ss == SizesOf(sizes, b) && Merging(BinRow(a, b), ss, src, bins, b, per, t, size)
      invariant forall c :: 0 <= c < a.Length0 && c != b ==> BinRow(a, c) == old(BinRow(a, c))
    {
      ghost var row := BinRow(a, b);
      MergeStep(row, ss, src, bins, b, per, t, size);
      MoveRow(a, b, size, per * t, sizes[t, b]);
      size := size + sizes[t, b];
    }
    SharesMeet(|bins|, 0, sizes.Length0);
  }

  method MoveRow<T>(a: array2<T>, b: nat, dst: nat, src: nat, size: nat)
    requires b < a.Length0 && dst <= src && src + size <= a.Length1
    modifies a
    ensures BinRow(a, b) == MovedDown(old(BinRow(a, b)), dst, src, size)
    ensures forall c :: 0 <= c < a.Length0 && c != b ==> BinRow(a, c) == old(BinRow(a, c))
  {
    MoveDown(a, b, dst, src, size);
  }
}
