/** From a hash to the columns of a row (`buildRow` and `buildRow32` of volePSI/PaxosImpl.h). */
module PaxosHash {
  import opened Prelude
  import opened Words

  ghost predicate Increasing(s: seq<nat>) {
    forall i, j :: 0 <= i < j < |s| ==> s[i] < s[j]
  }

  /** A row as the rest of Paxos needs it. */
  ghost predicate GoodRow(row: seq<nat>, weight: nat, n: nat) {
    |row| == weight && Distinct(row) && forall j :: 0 <= j < |row| ==> row[j] < n
  }

  // ------------------------------------------------- any weight

  /** How many entries of the increasing row the c-th free column lies above, if it lies above the first i. */
  function Skipped(row: seq<nat>, c: nat, i: nat): (r: nat)
    requires i <= |row|
    ensures i <= r <= |row|
    decreases |row| - i
  {
    if i < |row| && row[i] <= c + i then Skipped(row, c, i + 1) else i
  }

  /** The row with the c-th column that it does not use yet (counting from zero) inserted in order. */
  function WithFree(row: seq<nat>, c: nat): seq<nat> {
    var i := Skipped(row, c, 0);
    row[..i] + [c + i] + row[i..]
  }

  function RowOfDraws(draws: seq<nat>, n: nat, j: nat): (row: seq<nat>)
    requires j <= |draws| && j <= n
    ensures |row| == j
  {
    if j == 0 then [] else WithFree(RowOfDraws(draws, n, j - 1), draws[j - 1] % (n - (j - 1)))
  }

  lemma {:induction false} SkippedOk(row: seq<nat>, c: nat, i: nat)
    requires Increasing(row) && i <= |row| && forall j :: 0 <= j < i ==> row[j] < c + i
    ensures var r := Skipped(row, c, i);
            (forall j :: 0 <= j < r ==> row[j] < c + r) && (forall j :: r <= j < |row| ==> c + r < row[j])
    decreases |row| - i
  {
    if i < |row| && row[i] <= c + i {
      SkippedOk(row, c, i + 1);
    }
  }

  lemma {:induction false} WithFreeOk(row: seq<nat>, c: nat, n: nat)
    requires Increasing(row) && (forall j :: 0 <= j < |row| ==> row[j] < n) && c + |row| < n
    ensures Increasing(WithFree(row, c)) && forall j :: 0 <= j <= |row| ==> WithFree(row, c)[j] < n
  {
    SkippedOk(row, c, 0);
  }

  /** For every hash, the row is strictly increasing and below n. */
  lemma {:induction false} RowOfDrawsOk(draws: seq<nat>, n: nat, j: nat)
    requires j <= |draws| && j <= n
    ensures Increasing(RowOfDraws(draws, n, j)) && GoodRow(RowOfDraws(draws, n, j), j, n)
  {
    if j > 0 {
      RowOfDrawsOk(draws, n, j - 1);
      WithFreeOk(RowOfDraws(draws, n, j - 1), draws[j - 1] % (n - (j - 1)), n);
    }
  }

  lemma {:induction false} SkippedAll(row: seq<nat>, c: nat, i: nat)
    requires i <= |row| && forall j :: i <= j < |row| ==> row[j] <= c + j
    ensures Skipped(row, c, i) == |row|
    decreases |row| - i
  {
    if i < |row| {
      SkippedAll(row, c, i + 1);
    }
  }

  lemma {:induction false} IncreasingBound(row: seq<nat>, i: nat)
    requires Increasing(row) && i < |row|
    ensures i <= row[i] && forall j :: 0 <= j <= i ==> row[j] + (i - j) <= row[i]
  {
    if i > 0 {
      IncreasingBound(row, i - 1);
    }
  }

  /** Every increasing row below n is the row of some draws. */
  lemma {:induction false} EveryRowIsDrawn(row: seq<nat>, n: nat) returns (draws: seq<nat>)
    requires Increasing(row) && |row| <= n && forall j :: 0 <= j < |row| ==> row[j] < n
    ensures |draws| == |row| && RowOfDraws(draws, n, |row|) == row
  {
    if row == [] {
      draws := [];
    } else {
      var j := |row| - 1;
      var before := EveryRowIsDrawn(row[..j], n);
      IncreasingBound(row, j);
      draws := before + [row[j] - j];
      RowOfPrefix(before, draws, n, j);
      LastIsDrawn(row, n);
    }
  }

  /** Drawing the last column of a row adds it at the end. */
  lemma {:induction false} LastIsDrawn(row: seq<nat>, n: nat)
    requires Increasing(row) && 0 < |row| <= n && row[|row| - 1] < n && |row| - 1 <= row[|row| - 1]
    ensures var j := |row| - 1; WithFree(row[..j], (row[j] - j) % (n - j)) == row
  {
    var j := |row| - 1;
    var c := row[j] - j;
    IncreasingBound(row, j);
    assert c % (n - j) == c;
    SkippedAll(row[..j], c, 0);
    assert row == row[..j] + [c + j] + row[..j][j..];
  }

  lemma {:induction false} RowOfPrefix(draws: seq<nat>, more: seq<nat>, n: nat, j: nat)
    requires j <= |draws| <= |more| && j <= n && more[..|draws|] == draws
    ensures RowOfDraws(more, n, j) == RowOfDraws(draws, n, j)
  {
    if j > 0 {
      RowOfPrefix(draws, more, n, j - 1);
      assert more[j - 1] == more[..|draws|][j - 1];
    }
  }

  /** The general branch of `buildRow`: insertion sort in place.  draws[j] is the j-th squaring of the hash. */
  method BuildRow(draws: seq<nat>, n: nat, row: array<nat>)
    requires row.Length == |draws| <= n
    modifies row
    ensures row[..] == RowOfDraws(draws, n, |draws|)
    ensures GoodRow(row[..], |draws|, n)
  {
    for j := 0 to |draws|
      invariant row[..j] == RowOfDraws(draws, n, j)
    {
      InsertFree(row, j, draws[j] % (n - j));
    }
    RowOfDrawsOk(draws, n, |draws|);
    assert row[..|draws|] == row[..];
  }

  method InsertFree(row: array<nat>, j: nat, c: nat)
    requires j < row.Length
    modifies row
    ensures row[..j + 1] == WithFree(old(row[..j]), c)
  {
    ghost var before := row[..j];
    var colIdx, i := c, 0;
    while i < j && row[i] <= colIdx
      invariant 0 <= i <= j && colIdx == c + i
      invariant Skipped(before, c, 0) == Skipped(before, c, i)
    {
      colIdx := colIdx + 1;
      i := i + 1;
    }
    var e := j;
    while e > i
      invariant i <= e <= j
      invariant forall t :: 0 <= t < e ==> row[t] == before[t]
      invariant forall t :: e < t <= j ==> row[t] == before[t - 1]
    {
      row[e] := row[e - 1];
      e := e - 1;
    }
    row[i] := colIdx;
  }

  // ------------------------------------------------- weight three

  /** The branch of `buildRow` for weight three, on the already reduced hash words. */
  function Row3(a: nat, b: nat, c: nat): seq<nat> {
    var min := if a < b then a else b;
    var max := a + b - min;
    var b' := if max == b then b + 1 else b;
    var max' := if max == b then max + 1 else max;
    var c' := if c >= min then c + 1 else c;
    var c'' := if c' >= max' then c' + 1 else c';
    [a, b', c'']
  }

  lemma {:induction false} Row3Ok(n: nat, x: nat, y: nat, z: nat)
    requires n >= 3
    ensures GoodRow(Row3(x % n, y % (n - 1), z % (n - 2)), 3, n)
  {
  }

  /** Any three different columns are the row of some reduced words. */
  lemma {:induction false} EveryRow3(n: nat, row: seq<nat>) returns (x: nat, y: nat, z: nat)
    requires n >= 3 && GoodRow(row, 3, n)
    ensures x < n && y < n - 1 && z < n - 2 && Row3(x, y, z) == row
  {
    var a, b, c := row[0], row[1], row[2];
    x := a;
    y := if b > a then b - 1 else b;
    z := c - (if c > a then 1 else 0) - if c > b then 1 else 0;
    assert row == [a, b, c];
  }

  /** What a row is built from: three words of the hash, and the numbers drawn by squaring it. */
  datatype Drawn = Drawn(w0: nat, w1: nat, w2: nat, draws: seq<nat>)

  /** `buildRow` */
  function RowOfHash(hash: Drawn, weight: nat, n: nat): seq<nat>
    requires |hash.draws| == weight <= n
  {
    if weight == 3 then Row3(hash.w0 % n, hash.w1 % (n - 1), hash.w2 % (n - 2)) else RowOfDraws(hash.draws, n, weight)
  }

  /** For every hash and every weight, the row consists of that many different columns. */
  lemma {:induction false} RowOfHashOk(hash: Drawn, weight: nat, n: nat)
    requires |hash.draws| == weight <= n
    ensures GoodRow(RowOfHash(hash, weight, n), weight, n)
  {
    if weight == 3 {
      Row3Ok(n, hash.w0, hash.w1, hash.w2);
    } else {
      RowOfDrawsOk(hash.draws, n, weight);
    }
  }

  // ------------------------------------------------- weight three, branch-free

  const BITS := 64

  /** The largest word, and the smallest one that is negative as a signed number. */
  const MAX64 := 0xFFFF_FFFF_FFFF_FFFF
  const HALF := 0x8000_0000_0000_0000

  lemma {:induction false} EightOnes(w: nat)
    ensures Ones(w + 8) == 0x100 * Ones(w) + 0xFF
  {
    assert Ones(w + 2) == 4 * Ones(w) + 3;
    assert Ones(w + 4) == 4 * Ones(w + 2) + 3;
    assert Ones(w + 6) == 4 * Ones(w + 4) + 3;
  }

  lemma {:induction false} OnesOfWord(w: nat)
    requires w == BITS
    ensures Ones(w) == MAX64
  {
    SixteenOnes(w - 16);
    SixteenOnes(w - 32);
    SixteenOnes(w - 48);
    SixteenOnes(w - 64);
  }

  lemma {:induction false} SixteenOnes(w: nat)
    ensures Ones(w + 16) == 0x1_0000 * Ones(w) + 0xFFFF
  {
    EightOnes(w);
    EightOnes(w + 8);
  }

  lemma {:induction false} XorOfWords(a: nat, b: nat, w: nat)
    requires a <= MAX64 && b <= MAX64 && w == BITS
    ensures Xor(a, b) <= MAX64 && And(Xor(a, b), MAX64) == Xor(a, b)
  {
    OnesOfWord(w);
    XorBound(a, b, w);
    AndOnes(Xor(a, b), w);
  }

  /** The result of a lane-wise comparison: all bits set, or none. */
  function Mask(cond: bool): nat { if cond then MAX64 else 0 }

  /** A word as a signed number. */
  function Signed(x: nat): int { if x < HALF then x else x - (MAX64 + 1) }

  /** `_mm_cmpgt_epi64`: the instruction compares signed words, its replacement without vectors unsigned ones. */
  function Above(signed: bool, a: nat, b: nat): bool { if signed then Signed(a) > Signed(b) else a > b }

  /** Subtraction of 64-bit words, which wraps around. */
  function Sub(a: nat, b: nat): (r: int)
    requires a <= MAX64 && b <= MAX64
    ensures 0 <= r <= MAX64
  {
    if a < b then a + (MAX64 + 1) - b else a - b
  }

  lemma {:induction false} NotMask(cond: bool)
    ensures Xor(Mask(cond), MAX64) == Mask(!cond)
  {
    XorSelf(MAX64);
  }

  /** x + 1 if cond fails, as the lane computes it: subtracting a mask adds one. */
  function BumpUnless(x: nat, cond: bool): (r: nat)
    requires x < MAX64
    ensures r == if cond then x else x + 1
  {
    NotMask(cond);
    Sub(x, Xor(Mask(cond), MAX64))
  }

  function BumpIf(x: nat, cond: bool): (r: nat)
    requires x < MAX64
    ensures r == if cond then x + 1 else x
  {
    Sub(x, Mask(cond))
  }

  /** One of two words, selected by a mask: a if cond holds, otherwise b. */
  function SelectByMask(a: nat, b: nat, cond: bool): (r: nat)
    requires a <= MAX64 && b <= MAX64
    ensures r == if cond then a else b
  {
    XorOfWords(a, b, BITS);
    XorCancel(a, b);
    Xor(And(Xor(a, b), Mask(cond)), b)
  }

  /** The other of the two words. */
  function OtherByXor(a: nat, b: nat, x: nat): (r: nat)
    requires x == a || x == b
    ensures r == if x == a then b else a
  {
    XorCancel(a, b);
    Xor(Xor(a, b), x)
  }

  /** One lane of `buildRow32`, which has no branches. */
  function Lane3(signed: bool, a: nat, b: nat, c: nat): seq<nat>
    requires a + 2 < MAX64 && b + 2 < MAX64 && c + 2 < MAX64
  {
    var max := SelectByMask(a, b, Above(signed, a, b));
    var min := OtherByXor(a, b, max);
    var b' := BumpIf(b, max == b);
    var max' := BumpIf(max, max == b);
    var c' := BumpUnless(c, Above(signed, min, c));
    var c'' := BumpUnless(c', Above(signed, max', c'));
    [a, b', c'']
  }

  /** The branch-free lane computes the same row, with signed words as long as none of them is negative. */
  lemma {:induction false} LaneIsRow3(signed: bool, a: nat, b: nat, c: nat)
    requires a + 2 < MAX64 && b + 2 < MAX64 && c + 2 < MAX64
    requires signed ==> a < HALF && b + 1 < HALF && c + 1 < HALF
    ensures Lane3(signed, a, b, c) == Row3(a, b, c)
  {
    assert signed ==> forall x: nat, y: nat {:trigger Above(true, x, y)} :: x < HALF && y < HALF ==>
      (Above(true, x, y) <==> Above(false, x, y));
  }

  /** The lane is right for these columns of a row over n. */
  ghost predicate LaneRight(n: nat, a: nat, b: nat, c: nat)
    requires 3 <= n && n + 2 < MAX64
  {
    a < n && b < n - 1 && c < n - 2 ==> Lane3(true, a, b, c) == Row3(a, b, c)
  }

  /** With the signed comparison the lane is right for all words if and only if the size is at most 2^63. */
  lemma {:induction false} LaneRightIff(n: nat)
    requires 3 <= n && n + 2 < MAX64
    ensures (forall a: nat, b: nat, c: nat {:trigger LaneRight(n, a, b, c)} :: LaneRight(n, a, b, c)) <==> n <= HALF
  {
    if n <= HALF {
      forall a: nat, b: nat, c: nat {:trigger LaneRight(n, a, b, c)} ensures LaneRight(n, a, b, c) {
        if a < n && b < n - 1 && c < n - 2 {
          LaneIsRow3(true, a, b, c);
        }
      }
    } else {
      assert Lane3(true, HALF, 0, 0)[1] == 1 && Row3(HALF, 0, 0)[1] == 0;
      assert !LaneRight(n, HALF, 0, 0);
    }
  }

  /** `doMod32` for one value: the quotient comes from libdivide, which divides exactly. */
  function ModByDivision(x: nat, m: nat): int
    requires m > 0
  {
    x - x / m * m
  }

  lemma {:induction false} ModByDivisionOk(x: nat, m: nat)
    requires m > 0
    ensures ModByDivision(x, m) == x % m
  {
  }

  /** Reduces the i-th words of all hashes. */
  method ReduceWords(words: seq<nat>, m: nat) returns (r: seq<nat>)
    requires m > 0
    ensures |r| == |words| && forall j :: 0 <= j < |words| ==> r[j] == words[j] % m
  {
    r := [];
    for j := 0 to |words|
      invariant |r| == j && forall i :: 0 <= i < j ==> r[i] == words[i] % m
    {
      ModByDivisionOk(words[j], m);
      r := r + [ModByDivision(words[j], m)];
    }
  }

  /** Row t of a batch. */
  ghost predicate RowAt(rows: seq<nat>, t: nat, row: seq<nat>) {
    3 * t + 3 <= |rows| && rows[3 * t..3 * t + 3] == row
  }

  /** `buildRow32` for weight three: word by word, then lane by lane.  It equals one `buildRow` per hash. */
  method BuildRowBatch(signed: bool, w0: seq<nat>, w1: seq<nat>, w2: seq<nat>, n: nat, rows: array<nat>)
    requires |w0| == |w1| == |w2| && rows.Length == 3 * |w0| && 3 <= n && n + 2 < MAX64 && (signed ==> n <= HALF)
    modifies rows
    ensures forall t :: 0 <= t < |w0| ==> RowAt(rows[..], t, Row3(w0[t] % n, w1[t] % (n - 1), w2[t] % (n - 2)))
  {
    var a := ReduceWords(w0, n);
    var b := ReduceWords(w1, n - 1);
    var c := ReduceWords(w2, n - 2);
    StoreLanes(signed, a, b, c, n, rows);
    forall t | 0 <= t < |w0| ensures RowAt(rows[..], t, Row3(w0[t] % n, w1[t] % (n - 1), w2[t] % (n - 2))) {
      assert RowAt(rows[..], t, Row3(a[t], b[t], c[t]));
    }
  }

  ghost predicate Below(words: seq<nat>, m: nat) {
    forall j :: 0 <= j < |words| ==> words[j] < m
  }

  /** The first rows of a batch. */
  ghost predicate RowsAt(rows: seq<nat>, a: seq<nat>, b: seq<nat>, c: seq<nat>, t: nat)
    requires t <= |a| == |b| == |c|
  {
    forall u {:trigger RowAt(rows, u, Row3(a[u], b[u], c[u]))} :: 0 <= u < t ==> RowAt(rows, u, Row3(a[u], b[u], c[u]))
  }

  method StoreLanes(signed: bool, a: seq<nat>, b: seq<nat>, c: seq<nat>, ghost n: nat, rows: array<nat>)
    requires |a| == |b| == |c| && rows.Length == 3 * |a| && 3 <= n && n + 2 < MAX64 && (signed ==> n <= HALF)
    requires Below(a, n) && Below(b, n - 1) && Below(c, n - 2)
    modifies rows
    ensures RowsAt(rows[..], a, b, c, |a|)
  {
    for t := 0 to |a|
      invariant RowsAt(rows[..], a, b, c, t)
    {
      LaneIsRow3(signed, a[t], b[t], c[t]);
      ghost var before := rows[..];
      StoreLane(rows, t, Lane3(signed, a[t], b[t], c[t]));
      forall u | 0 <= u < t + 1 ensures RowAt(rows[..], u, Row3(a[u], b[u], c[u])) {
        assert u < t ==> RowAt(before, u, Row3(a[u], b[u], c[u]));
      }
    }
  }

  method StoreLane(rows: array<nat>, t: nat, lane: seq<nat>)
    requires |lane| == 3 && 3 * t + 3 <= rows.Length
    modifies rows
    ensures RowAt(rows[..], t, lane)
    ensures forall u: nat, row {:trigger RowAt(rows[..], u, row)} :: u < t && RowAt(old(rows[..]), u, row) ==>
      RowAt(rows[..], u, row)
  {
    ghost var before := rows[..];
    rows[3 * t] := lane[0];
    rows[3 * t + 1] := lane[1];
    rows[3 * t + 2] := lane[2];
    forall u: nat, row {:trigger RowAt(rows[..], u, row)} | u < t && RowAt(before, u, row)
      ensures RowAt(rows[..], u, row)
    {
      assert rows[..][3 * u..3 * u + 3] == before[3 * u..3 * u + 3];
    }
  }

  // ------------------------------------------------- batches of any weight

  ghost predicate AllDrawn(hashes: seq<Drawn>, weight: nat) {
    forall u :: 0 <= u < |hashes| ==> |hashes[u].draws| == weight
  }

  /** The rows of the hashes. */
  ghost function HashRows(hashes: seq<Drawn>, weight: nat, n: nat): (r: seq<seq<nat>>)
    requires weight <= n && AllDrawn(hashes, weight)
    ensures |r| == |hashes| && forall u :: 0 <= u < |r| ==> r[u] == RowOfHash(hashes[u], weight, n) && |r[u]| == weight
  {
    seq(|hashes|, u requires 0 <= u < |hashes| => (RowOfHashOk(hashes[u], weight, n); RowOfHash(hashes[u], weight, n)))
  }

  /** The first t of some rows, one behind the other. */
  ghost function Flat(list: seq<seq<nat>>, t: nat): seq<nat>
    requires t <= |list|
  {
    if t == 0 then [] else Flat(list, t - 1) + list[t - 1]
  }

  lemma {:induction false} FlatSize(list: seq<seq<nat>>, weight: nat, t: nat)
    requires t <= |list| && forall u :: 0 <= u < |list| ==> |list[u]| == weight
    ensures |Flat(list, t)| == weight * t
  {
    if t > 0 {
      FlatSize(list, weight, t - 1);
      NextMultiple(weight, t);
    }
  }

  lemma {:induction false} NextMultiple(w: nat, t: nat)
    requires t > 0
    ensures w * t == w * (t - 1) + w
  {
  }

  lemma {:induction false} FlatGrows(list: seq<seq<nat>>, t: nat, e: nat)
    requires t < e <= |list|
    ensures Flat(list, t + 1) == Flat(list, t) + list[t] && |Flat(list, t + 1)| <= |Flat(list, e)|
    decreases e
  {
    if t + 1 < e {
      FlatGrows(list, t, e - 1);
    }
  }

  lemma {:induction false} FlatFromRows(rows: seq<nat>, list: seq<seq<nat>>, t: nat)
    requires t <= |list| && 3 * t <= |rows| && forall u :: 0 <= u < t ==> RowAt(rows, u, list[u])
    ensures rows[..3 * t] == Flat(list, t)
  {
    if t > 0 {
      FlatFromRows(rows, list, t - 1);
      assert RowAt(rows, t - 1, list[t - 1]);
      assert rows[..3 * t] == rows[..3 * (t - 1)] + rows[3 * (t - 1)..3 * (t - 1) + 3];
    }
  }

  /** `buildRow32` for any weight: the batch holds the row of every hash. */
  method BuildRows(signed: bool, hashes: seq<Drawn>, weight: nat, n: nat, rows: array<nat>)
    requires rows.Length == weight * |hashes| && weight <= n && AllDrawn(hashes, weight)
    requires weight == 3 ==> n + 2 < MAX64 && (signed ==> n <= HALF)
    modifies rows
    ensures rows[..] == Flat(HashRows(hashes, weight, n), |hashes|)
  {
    if weight == 3 {
      BuildThree(signed, hashes, n, rows);
    } else {
      FlatSize(HashRows(hashes, weight, n), weight, |hashes|);
      BuildOneByOne(hashes, weight, n, rows, HashRows(hashes, weight, n));
    }
  }

  /** The words of the hashes, one kind at a time. */
  method BuildThree(signed: bool, hashes: seq<Drawn>, n: nat, rows: array<nat>)
    requires rows.Length == 3 * |hashes| && 3 <= n && n + 2 < MAX64 && (signed ==> n <= HALF) && AllDrawn(hashes, 3)
    modifies rows
    ensures rows[..] == Flat(HashRows(hashes, 3, n), |hashes|)
  {
    var w0 := seq(|hashes|, t requires 0 <= t < |hashes| => hashes[t].w0);
    var w1 := seq(|hashes|, t requires 0 <= t < |hashes| => hashes[t].w1);
    var w2 := seq(|hashes|, t requires 0 <= t < |hashes| => hashes[t].w2);
    BuildRowBatch(signed, w0, w1, w2, n, rows);
    ghost var list := HashRows(hashes, 3, n);
    forall t | 0 <= t < |hashes| ensures RowAt(rows[..], t, list[t]) {
      assert RowAt(rows[..], t, Row3(w0[t] % n, w1[t] % (n - 1), w2[t] % (n - 2)));
    }
    FlatFromRows(rows[..], list, |hashes|);
    assert rows[..rows.Length] == rows[..];
  }

  ghost predicate BuiltAt(hashes: seq<Drawn>, weight: nat, n: nat, list: seq<seq<nat>>, u: nat) {
    u < |hashes| == |list| && |hashes[u].draws| == weight <= n && list[u] == RowOfHash(hashes[u], weight, n)
  }

  /** The list holds the rows of the hashes. */
  ghost predicate AllBuilt(hashes: seq<Drawn>, weight: nat, n: nat, list: seq<seq<nat>>) {
    && |list| == |hashes| && (forall u :: 0 <= u < |list| ==> |list[u]| == weight)
    && forall u {:trigger BuiltAt(hashes, weight, n, list, u)} :: 0 <= u < |list| ==>
      BuiltAt(hashes, weight, n, list, u)
  }

  method BuildOneByOne(hashes: seq<Drawn>, weight: nat, n: nat, rows: array<nat>, ghost list: seq<seq<nat>>)
    requires weight <= n && weight != 3 && AllBuilt(hashes, weight, n, list)
    requires rows.Length == |Flat(list, |list|)|
    modifies rows
    ensures rows[..] == Flat(list, |list|)
  {
    var at := 0;
    for t := 0 to |hashes|
      invariant at == |Flat(list, t)| <= rows.Length && rows[..at] == Flat(list, t)
    {
      FlatGrows(list, t, |list|);
      BuildNext(hashes, weight, n, rows, at, t, list);
      at := at + weight;
    }
    assert rows[..rows.Length] == rows[..];
  }

  method BuildNext(
      hashes: seq<Drawn>, weight: nat, n: nat, rows: array<nat>, at: nat, t: nat, ghost list: seq<seq<nat>>)
    requires weight <= n && weight != 3 && AllBuilt(hashes, weight, n, list)
    requires t < |hashes| && at + weight <= rows.Length
    modifies rows
    ensures rows[..at + weight] == old(rows[..at]) + list[t]
  {
    assert BuiltAt(hashes, weight, n, list, t);
    var row := new nat[weight];
    BuildRow(hashes[t].draws, n, row);
    WriteAt(rows, at, row);
  }

  method WriteAt(rows: array<nat>, at: nat, row: array<nat>)
    requires at + row.Length <= rows.Length && rows != row
    modifies rows
    ensures rows[..at + row.Length] == old(rows[..at]) + row[..]
  {
    for i := 0 to row.Length
      invariant rows[..at + i] == old(rows[..at]) + row[..i]
    {
      rows[at + i] := row[i];
    }
  }
}
