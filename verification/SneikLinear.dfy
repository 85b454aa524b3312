/** Inverting the two linear maps of SNEIK (`invMatrix`, `applyInvSlow`, `invTable` and `applyInv` of
    permutation/sneik.h): Gaussian elimination over GF(2), one unit vector at a time, then tables over bytes. */
module SneikLinear {
  import opened BitOps
  import opened Prelude
  import opened Fields
  import opened Words32
  import opened MatrixInverse

  // ------------------------------------------------- linear maps and their matrices

  function Image(fn: Word -> Word, x: Word): Word { fn(x) }

  ghost predicate LinearAt(fn: Word -> Word, x: Word, y: Word)
    requires IsWord(x) && IsWord(y)
  {
    && IsWord(Image(fn, x)) && IsWord(Image(fn, y))
    && Image(fn, Xor(x, y)) == Xor(Image(fn, x), Image(fn, y))
  }

  ghost predicate Linear(fn: Word -> Word) {
    forall x: Word, y: Word {:trigger LinearAt(fn, x, y)} :: IsWord(x) && IsWord(y) ==> LinearAt(fn, x, y)
  }

  /** Only zero is mapped to zero. */
  ghost predicate Injective(fn: Word -> Word) {
    forall x: Word {:trigger Image(fn, x)} :: IsWord(x) && Image(fn, x) == Zero() ==> x == Zero()
  }

  ghost function MatrixOf(fn: Word -> Word): (m: seq<Word>)
    requires Linear(fn)
    ensures Square(m, BITS)
    ensures forall c :: 0 <= c < BITS ==> IsWord(Image(fn, Unit(c))) && forall r :: 0 <= r < BITS ==>
      m[r][c] == Image(fn, Unit(c))[r]
  {
    assert forall c :: 0 <= c < BITS ==> LinearAt(fn, Unit(c), Unit(c));
    seq(BITS, r requires 0 <= r < BITS =>
      seq(BITS, c requires 0 <= c < BITS && IsWord(Image(fn, Unit(c))) => Image(fn, Unit(c))[r]))
  }

  /** The bits of x below n. */
  ghost function Low(x: Word, n: nat): (r: Word)
    requires IsWord(x)
    ensures IsWord(r) && forall i :: 0 <= i < BITS ==> r[i] == (i < n && x[i])
  { seq(BITS, i requires 0 <= i < BITS => i < n && x[i]) }

  lemma {:induction false} LowStep(x: Word, n: nat)
    requires IsWord(x) && n < BITS
    ensures Low(x, n + 1) == if x[n] then Xor(Low(x, n), Unit(n)) else Low(x, n)
    ensures Low(x, 0) == Zero() && Low(x, BITS) == x
  {
  }

  lemma {:induction false} ImageOfZero(fn: Word -> Word)
    requires Linear(fn)
    ensures Image(fn, Zero()) == Zero()
  {
    assert LinearAt(fn, Zero(), Zero());
    XorLaws(Zero(), Zero());
    XorLaws(Image(fn, Zero()), Zero());
  }

  lemma {:induction false} DotIsImage(fn: Word -> Word, x: Word, r: nat, n: nat)
    requires Linear(fn) && IsWord(x) && r < BITS && n <= BITS
    ensures IsWord(Image(fn, Low(x, n))) && DotTo(GF2, MatrixOf(fn)[r], x, n) == Image(fn, Low(x, n))[r]
  {
    if n == 0 {
      ImageOfZero(fn);
      assert Low(x, 0) == Zero();
    } else {
      DotIsImage(fn, x, r, n - 1);
      LowStep(x, n - 1);
      assert LinearAt(fn, Low(x, n - 1), Unit(n - 1));
    }
  }

  lemma {:induction false} MatrixApplies(fn: Word -> Word, x: Word)
    requires Linear(fn) && IsWord(x)
    ensures IsWord(Image(fn, x)) && Apply(GF2, MatrixOf(fn), x) == Image(fn, x)
  {
    LowStep(x, 0);
    assert LinearAt(fn, x, x);
    forall r | 0 <= r < BITS ensures Apply(GF2, MatrixOf(fn), x)[r] == Image(fn, x)[r] {
      DotIsImage(fn, x, r, BITS);
    }
  }

  // ------------------------------------------------- elimination for one unit vector

  /** The rows and the right-hand side stand for the original system; columns below col are done. */
  ghost predicate InSolve(m0: seq<Word>, a: seq<Word>, rhs: seq<bool>, inv: seq<Word>, bit: nat, col: nat) {
    && Square(m0, BITS) && Progress(GF2, m0, a, inv, col)
    && rhs == Apply(GF2, inv, Unit(bit))
  }

  lemma {:induction false} SolveStarts(m0: seq<Word>, bit: nat)
    requires Square(m0, BITS)
    ensures InSolve(m0, m0, Unit(bit), Identity(GF2, BITS), bit, 0)
  {
    Gf2IsField();
    KeptAtStart(GF2, m0);
    ApplyIdentity(GF2, Unit(bit));
  }

  lemma {:induction false} SwapStep(
      m0: seq<Word>, a: seq<Word>, rhs: seq<bool>, inv: seq<Word>, bit: nat, col: nat, pivot: nat)
    requires InSolve(m0, a, rhs, inv, bit, col) && col <= pivot < BITS
    ensures InSolve(m0, Swapped(a, pivot, col), Swapped(rhs, pivot, col), Swapped(inv, pivot, col), bit, col)
  {
    Gf2IsField();
    KeptBySwap(GF2, m0, a, inv, pivot, col);
    ApplySwapped(GF2, inv, pivot, col, Unit(bit));
  }

  lemma {:induction false} RowAdded(m: seq<Word>, j: nat, i: nat)
    requires Square(m, BITS) && i < BITS && j < BITS
    ensures Added(GF2, m, j, i, true) == m[j := Xor(m[j], m[i])]
  {
    assert VecAdd(GF2, m[j], VecScale(GF2, true, m[i])) == Xor(m[j], m[i]);
  }

  lemma {:induction false} ReduceStep(
      m0: seq<Word>, a: seq<Word>, rhs: seq<bool>, inv: seq<Word>, bit: nat, col: nat, row: nat)
    requires InSolve(m0, a, rhs, inv, bit, col) && col < BITS && row < BITS && row != col && Cleared(GF2, a, col, row)
    requires a[row][col]
    ensures var a' := a[row := Xor(a[row], a[col])];
            && InSolve(m0, a', rhs[row := rhs[row] != rhs[col]], Added(GF2, inv, row, col, true), bit, col)
            && Cleared(GF2, a', col, row + 1)
  {
    Gf2IsField();
    AddStep(GF2, m0, a, inv, col, row);
    RowAdded(a, row, col);
    ApplyAdded(GF2, inv, row, col, true, Unit(bit));
  }

  /** The search for a pivot: the first row from col on with the bit set, or 32. */
  method FindRow(a: array<Word>, col: nat) returns (pivot: nat)
    requires a.Length == BITS && Square(a[..], BITS) && col < BITS
    ensures col <= pivot <= BITS && (forall p :: col <= p < pivot ==> !a[p][col]) && (pivot < BITS ==> a[pivot][col])
  {
    pivot := col;
    while pivot < BITS && !a[pivot][col]
      invariant col <= pivot <= BITS && forall p :: col <= p < pivot ==> !a[p][col]
    {
      pivot := pivot + 1;
    }
  }

  /** Without a pivot the matrix sends some other vector than zero to zero. */
  lemma {:induction false} NoPivotSingular(
      m0: seq<Word>, a: seq<Word>, rhs: seq<bool>, inv: seq<Word>, bit: nat, col: nat)
    returns (x: Word)
    requires InSolve(m0, a, rhs, inv, bit, col) && col < BITS && forall p :: col <= p < BITS ==> !a[p][col]
    ensures IsWord(x) && x != Zero() && Apply(GF2, m0, x) == Zero()
  {
    Gf2IsField();
    StuckOnZerosIsSingular(GF2, m0, a, inv, col);
    x :| |x| == |m0| && x != ZeroVec(GF2, |m0|) && Apply(GF2, m0, x) == ZeroVec(GF2, |m0|);
    assert ZeroVec(GF2, BITS) == Zero();
  }

  /** One column of the elimination; it fails if there is no pivot. */
  method EliminateColumn(
      ghost m0: seq<Word>, a: array<Word>, rhs: array<bool>, ghost inv0: seq<Word>, ghost bit: nat, col: nat)
    returns (ok: bool, ghost inv: seq<Word>)
    requires a.Length == rhs.Length == BITS && col < BITS && InSolve(m0, a[..], rhs[..], inv0, bit, col)
    modifies a, rhs
    ensures ok ==> InSolve(m0, a[..], rhs[..], inv, bit, col + 1)
    ensures !ok ==> exists x :: IsWord(x) && x != Zero() && Apply(GF2, m0, x) == Zero()
  {
    inv := inv0;
    var pivot := FindRow(a, col);
    if pivot == BITS {
      ghost var x := NoPivotSingular(m0, a[..], rhs[..], inv, bit, col);
      return false, inv;
    }
    SwapStep(m0, a[..], rhs[..], inv, bit, col, pivot);
    ghost var a0, rhs0 := a[..], rhs[..];
    a[pivot], a[col] := a[col], a[pivot];
    rhs[pivot], rhs[col] := rhs[col], rhs[pivot];
    inv := Swapped(inv, pivot, col);
    assert a[..] == Swapped(a0, pivot, col) && rhs[..] == Swapped(rhs0, pivot, col);
    for row := 0 to BITS
      invariant InSolve(m0, a[..], rhs[..], inv, bit, col) && Cleared(GF2, a[..], col, row)
    {
      if row != col && a[row][col] {
        ReduceStep(m0, a[..], rhs[..], inv, bit, col, row);
        a0, rhs0 := a[..], rhs[..];
        a[row] := Xor(a[row], a[col]);
        rhs[row] := rhs[row] != rhs[col];
        inv := Added(GF2, inv, row, col, true);
        assert a[..] == a0[row := Xor(a0[row], a0[col])] && rhs[..] == rhs0[row := rhs0[row] != rhs0[col]];
      }
    }
    ok := true;
  }

  /** Solves m0 * x = Unit(bit). */
  method SolveFor(m0: seq<Word>, bit: nat) returns (x: Option<Word>)
    requires Square(m0, BITS)
    ensures x.Some? ==> IsWord(x.value) && Apply(GF2, m0, x.value) == Unit(bit)
    ensures x.None? <==> Singular(GF2, m0)
  {
    var a := new Word[BITS](i requires 0 <= i < BITS => m0[i]);
    var rhs := new bool[BITS](i => i == bit);
    assert a[..] == m0 && rhs[..] == Unit(bit);
    ghost var inv := Identity(GF2, BITS);
    SolveStarts(m0, bit);
    for col := 0 to BITS
      invariant InSolve(m0, a[..], rhs[..], inv, bit, col)
    {
      var ok;
      ok, inv := EliminateColumn(m0, a, rhs, inv, bit, col);
      if !ok {
        KernelIsSingular(m0);
        return None;
      }
    }
    SolveEnds(m0, a[..], rhs[..], inv, bit);
    return Some(rhs[..]);
  }

  lemma {:induction false} SolveEnds(m0: seq<Word>, a: seq<Word>, rhs: seq<bool>, inv: seq<Word>, bit: nat)
    requires InSolve(m0, a, rhs, inv, bit, BITS)
    ensures Apply(GF2, m0, rhs) == Unit(bit) && !Singular(GF2, m0)
  {
    Gf2IsField();
    assert forall i :: 0 <= i < BITS ==> a[i] == Identity(GF2, BITS)[i];
    assert a == Identity(GF2, BITS);
    InverseFromKept(GF2, m0, inv);
    assert UndoneAt(GF2, m0, inv, Unit(bit));
    InvertibleNotSingular(GF2, inv, m0);
  }

  lemma {:induction false} KernelIsSingular(m0: seq<Word>)
    requires Square(m0, BITS) && exists z :: IsWord(z) && z != Zero() && Apply(GF2, m0, z) == Zero()
    ensures Singular(GF2, m0)
  {
    assert ZeroVec(GF2, BITS) == Zero();
  }

  /** The matrix of a map is singular exactly if the map has a kernel. */
  lemma {:induction false} SingularIff(fn: Word -> Word)
    requires Linear(fn)
    ensures Square(MatrixOf(fn), BITS) && (Singular(GF2, MatrixOf(fn)) <==> !Injective(fn))
  {
    var m := MatrixOf(fn);
    assert ZeroVec(GF2, BITS) == Zero();
    if !Injective(fn) {
      var x :| IsWord(x) && Image(fn, x) == Zero() && x != Zero();
      MatrixApplies(fn, x);
      assert Apply(GF2, m, x) == ZeroVec(GF2, |m|);
    }
    if Singular(GF2, m) {
      var x: Word :| |x| == |m| && x != ZeroVec(GF2, |m|) && Apply(GF2, m, x) == ZeroVec(GF2, |m|);
      MatrixApplies(fn, x);
    }
  }

  // ------------------------------------------------- the inverse of a linear map

  /** Column bit of the inverse is the word that the map sends to Unit(bit). */
  ghost predicate Inverts(fn: Word -> Word, inv: seq<Word>) {
    |inv| == BITS && forall bit :: 0 <= bit < BITS ==> IsWord(inv[bit]) && Image(fn, inv[bit]) == Unit(bit)
  }

  /** `invMatrix`; None stands for the exception, which exactly the maps with a kernel cause. */
  method InvMatrix(fn: Word -> Word) returns (r: Option<seq<Word>>)
    requires Linear(fn)
    ensures r.Some? ==> Inverts(fn, r.value)
    ensures r.Some? <==> Injective(fn)
  {
    SingularIff(fn);
    var rows := BuildRows(fn);
    var inv: seq<Word> := [];
    for bit := 0 to BITS
      invariant |inv| == bit && forall b :: 0 <= b < bit ==> IsWord(inv[b]) && Image(fn, inv[b]) == Unit(b)
      invariant bit > 0 ==> Injective(fn)
    {
      var x := SolveFor(rows, bit);
      if x.None? {
        return None;
      }
      MatrixApplies(fn, x.value);
      inv := inv + [x.value];
    }
    return Some(inv);
  }

  /** The matrix of the map, column by column. */
  method BuildRows(fn: Word -> Word) returns (rows: seq<Word>)
    requires Linear(fn)
    ensures rows == MatrixOf(fn)
  {
    rows := seq(BITS, _ => Zero());
    for col := 0 to BITS
      invariant Square(rows, BITS)
      invariant forall r, c :: 0 <= r < BITS && 0 <= c < BITS ==> rows[r][c] == (c < col && MatrixOf(fn)[r][c])
    {
      assert LinearAt(fn, Unit(col), Unit(col));
      var out := Image(fn, Unit(col));
      for row := 0 to BITS
        invariant Square(rows, BITS)
        invariant forall r, c :: 0 <= r < BITS && 0 <= c < BITS ==>
          rows[r][c] == ((c < col || (c == col && r < row)) && MatrixOf(fn)[r][c])
      {
        if out[row] {
          rows := rows[row := Or(rows[row], Unit(col))];
        }
      }
    }
    assert forall r :: 0 <= r < BITS ==> rows[r] == MatrixOf(fn)[r];
  }

  // ------------------------------------------------- applying the inverse

  /** The sum of the columns selected by the bits of y below n. */
  ghost function SlowSum(y: Word, inv: seq<Word>, n: nat): (r: Word)
    requires IsWord(y) && Square(inv, BITS) && n <= BITS
    ensures IsWord(r)
  {
    if n == 0 then Zero()
    else if y[n - 1] then Xor(SlowSum(y, inv, n - 1), inv[n - 1])
    else SlowSum(y, inv, n - 1)
  }

  ghost function Slow(y: Word, inv: seq<Word>): (r: Word)
    requires IsWord(y) && Square(inv, BITS)
    ensures IsWord(r)
  {
    SlowSum(y, inv, BITS)
  }

  /** `applyInvSlow` */
  method ApplyInvSlow(y: Word, inv: seq<Word>) returns (x: Word)
    requires IsWord(y) && Square(inv, BITS)
    ensures x == Slow(y, inv)
  {
    x := Zero();
    for bit := 0 to BITS
      invariant x == SlowSum(y, inv, bit)
    {
      if y[bit] {
        x := Xor(x, inv[bit]);
      }
    }
  }

  lemma {:induction false} SlowSumInverts(fn: Word -> Word, inv: seq<Word>, y: Word, n: nat)
    requires Linear(fn) && Inverts(fn, inv) && IsWord(y) && n <= BITS
    ensures Image(fn, SlowSum(y, inv, n)) == Low(y, n)
  {
    if n == 0 {
      ImageOfZero(fn);
    } else {
      SlowSumInverts(fn, inv, y, n - 1);
      LowStep(y, n - 1);
      assert LinearAt(fn, SlowSum(y, inv, n - 1), inv[n - 1]);
    }
  }

  /** The columns of the inverse undo the map from both sides. */
  lemma {:induction false} SlowInverts(fn: Word -> Word, inv: seq<Word>, y: Word)
    requires Linear(fn) && Injective(fn) && Inverts(fn, inv) && IsWord(y)
    ensures Image(fn, Slow(y, inv)) == y
    ensures IsWord(Image(fn, y)) && Slow(Image(fn, y), inv) == y
  {
    SlowSumInverts(fn, inv, y, BITS);
    LowStep(y, 0);
    assert LinearAt(fn, y, y);
    var z := Slow(Image(fn, y), inv);
    SlowSumInverts(fn, inv, Image(fn, y), BITS);
    LowStep(Image(fn, y), 0);
    assert LinearAt(fn, z, y);
    XorLaws(Image(fn, y), Image(fn, y));
    assert Xor(z, y) == Zero();
    XorLaws(z, y);
    XorLaws(y, y);
  }

  lemma {:induction false} SlowXor(a: Word, b: Word, inv: seq<Word>, n: nat)
    requires IsWord(a) && IsWord(b) && Square(inv, BITS) && n <= BITS
    ensures SlowSum(Xor(a, b), inv, n) == Xor(SlowSum(a, inv, n), SlowSum(b, inv, n))
  {
    if n > 0 { SlowXor(a, b, inv, n - 1); }
  }

  // ------------------------------------------------- byte tables

  const LANES := 4
  const BYTE_VALUES := 256

  /** A byte shifted to its lane. */
  function LaneWord(lane: nat, byte: nat): (r: Word)
    ensures IsWord(r)
  {
    Shl(FromNat(byte, BITS), 8 * lane)
  }

  /** The byte of y in a lane. */
  function LaneByte(y: Word, lane: nat): (r: nat)
    requires IsWord(y)
    ensures r < BYTE_VALUES
  {
    var b := Shr(y, 8 * lane)[..8];
    ToNatBound(b);
    Pow2Values();
    ToNat(b)
  }

  ghost function LanePart(y: Word, lane: nat): (r: Word)
    requires IsWord(y)
    ensures IsWord(r) && forall i :: 0 <= i < BITS ==> r[i] == (8 * lane <= i < 8 * lane + 8 && y[i])
  {
    seq(BITS, i requires 0 <= i < BITS => 8 * lane <= i < 8 * lane + 8 && y[i])
  }

  lemma {:induction false} LaneOf(y: Word, lane: nat)
    requires IsWord(y) && lane < LANES
    ensures LaneWord(lane, LaneByte(y, lane)) == LanePart(y, lane)
  {
    var b := Shr(y, 8 * lane)[..8];
    FromNatExtends(b, BITS - 8);
    assert FromNat(ToNat(b), BITS) == b + seq(BITS - 8, _ => false);
  }

  ghost predicate TableOk(table: seq<seq<Word>>, inv: seq<Word>)
    requires Square(inv, BITS)
  {
    |table| == LANES && forall lane :: 0 <= lane < LANES ==> LaneTableOk(table[lane], inv, lane)
  }

  ghost predicate LaneTableOk(table: seq<Word>, inv: seq<Word>, lane: nat)
    requires Square(inv, BITS)
  {
    |table| == BYTE_VALUES && forall byte :: 0 <= byte < BYTE_VALUES ==> table[byte] == Slow(LaneWord(lane, byte), inv)
  }

  /** `invTable` */
  method InvTable(inv: seq<Word>) returns (table: seq<seq<Word>>)
    requires Square(inv, BITS)
    ensures TableOk(table, inv)
  {
    table := [];
    for lane := 0 to LANES
      invariant |table| == lane && forall l :: 0 <= l < lane ==> LaneTableOk(table[l], inv, l)
    {
      var row := [];
      for byte := 0 to BYTE_VALUES
        invariant |row| == byte && forall b :: 0 <= b < byte ==> row[b] == Slow(LaneWord(lane, b), inv)
      {
        var x := ApplyInvSlow(LaneWord(lane, byte), inv);
        row := row + [x];
      }
      table := table + [row];
    }
  }

  /** `applyInv`: one look-up per byte instead of one step per bit. */
  method ApplyInv(y: Word, table: seq<seq<Word>>, ghost inv: seq<Word>) returns (x: Word)
    requires IsWord(y) && Square(inv, BITS) && TableOk(table, inv)
    ensures x == Slow(y, inv)
  {
    assert forall l :: 0 <= l < LANES ==> LaneTableOk(table[l], inv, l);
    var t0, t1, t2, t3 := table[0][LaneByte(y, 0)], table[1][LaneByte(y, 1)], table[2][LaneByte(y, 2)],
      table[3][LaneByte(y, 3)];
    LanesSum(y, inv);
    x := Xor(Xor(Xor(t0, t1), t2), t3);
  }

  lemma {:induction false} LanesSum(y: Word, inv: seq<Word>)
    requires IsWord(y) && Square(inv, BITS)
    ensures Slow(y, inv) == Xor(Xor(Xor(Slow(LaneWord(0, LaneByte(y, 0)), inv), Slow(LaneWord(1, LaneByte(y, 1)), inv)),
                                    Slow(LaneWord(2, LaneByte(y, 2)), inv)), Slow(LaneWord(3, LaneByte(y, 3)), inv))
  {
    LaneOf(y, 0);
    LaneOf(y, 1);
    LaneOf(y, 2);
    LaneOf(y, 3);
    var p0, p1, p2, p3 := LanePart(y, 0), LanePart(y, 1), LanePart(y, 2), LanePart(y, 3);
    assert y == Xor(Xor(Xor(p0, p1), p2), p3);
    SlowXor(Xor(Xor(p0, p1), p2), p3, inv, BITS);
    SlowXor(Xor(p0, p1), p2, inv, BITS);
    SlowXor(p0, p1, inv, BITS);
  }

  // ------------------------------------------------- the two maps of SNEIK

  /** Bit i of x + x rotated by p + x rotated by q. */
  ghost predicate TripleAt(x: Word, r: Word, p: nat, q: nat, i: nat)
    requires IsWord(x) && IsWord(r) && i < BITS
  {
    r[i] == ((x[i] != x[(i + p) % BITS]) != x[(i + q) % BITS])
  }

  ghost predicate IsTriple(x: Word, r: Word, p: nat, q: nat) {
    IsWord(x) && IsWord(r) && forall i {:trigger TripleAt(x, r, p, q, i)} :: 0 <= i < BITS ==> TripleAt(x, r, p, q, i)
  }

  function LinA(x: Word): (r: Word)
    requires IsWord(x)
    ensures IsTriple(x, r, 7, 8)
  {
    Xor(Xor(x, Rotr(x, 7)), Rotr(x, 8))
  }

  function LinB(x: Word): (r: Word)
    requires IsWord(x)
    ensures IsTriple(x, r, 15, 23)
  {
    Xor(Xor(x, Rotr(x, 15)), Rotr(x, 23))
  }

  lemma {:induction false} TurnOn(i: nat, p: nat, q: nat)
    ensures ((i + p) % BITS + q) % BITS == (i + (p + q)) % BITS
  {
  }

  /** Applying such a map twice doubles the distances. */
  lemma {:induction false} TripleTwice(x: Word, y: Word, z: Word, p: nat, q: nat)
    requires IsTriple(x, y, p, q) && IsTriple(y, z, p, q)
    ensures IsTriple(x, z, p + p, q + q)
  {
    var pp, qq := p + p, q + q;
    forall i | 0 <= i < BITS ensures TripleAt(x, z, pp, qq, i) {
      TurnOn(i, p, p);
      TurnOn(i, p, q);
      TurnOn(i, q, p);
      TurnOn(i, q, q);
      assert TripleAt(y, z, p, q, i) && TripleAt(x, y, p, q, i);
      assert TripleAt(x, y, p, q, (i + p) % BITS) && TripleAt(x, y, p, q, (i + q) % BITS);
    }
  }

  lemma {:induction false} TripleFourTimes(x: Word, y: Word, z: Word, v: Word, w: Word, p: nat, q: nat)
    requires IsTriple(x, y, p, q) && IsTriple(y, z, p, q) && IsTriple(z, v, p, q) && IsTriple(v, w, p, q)
    ensures IsTriple(x, w, p + p + (p + p), q + q + (q + q))
  {
    TripleTwice(x, y, z, p, q);
    TripleTwice(z, v, w, p, q);
    TripleTwice(x, z, w, p + p, q + q);
  }

  /** Four times LinA is a rotation. */
  lemma {:induction false} LinAFourTimes(x: Word)
    requires IsWord(x)
    ensures LinA(LinA(LinA(LinA(x)))) == Rotr(x, 28)
  {
    TripleFourTimes(x, LinA(x), LinA(LinA(x)), LinA(LinA(LinA(x))), LinA(LinA(LinA(LinA(x)))), 7, 8);
    RotationOf(x, LinA(LinA(LinA(LinA(x)))));
  }

  lemma {:induction false} RotationOf(x: Word, w: Word)
    requires IsTriple(x, w, 28, 32)
    ensures w == Rotr(x, 28)
  {
    forall i | 0 <= i < BITS ensures w[i] == Rotr(x, 28)[i] {
      assert TripleAt(x, w, 28, 32, i);
      assert (i + 32) % BITS == i;
    }
  }

  /** Four times LinB changes nothing. */
  lemma {:induction false} LinBFourTimes(x: Word)
    requires IsWord(x)
    ensures LinB(LinB(LinB(LinB(x)))) == x
  {
    TripleFourTimes(x, LinB(x), LinB(LinB(x)), LinB(LinB(LinB(x))), LinB(LinB(LinB(LinB(x)))), 15, 23);
    NothingOf(x, LinB(LinB(LinB(LinB(x)))));
  }

  lemma {:induction false} NothingOf(x: Word, w: Word)
    requires IsTriple(x, w, 60, 92)
    ensures w == x
  {
    forall i | 0 <= i < BITS ensures w[i] == x[i] {
      assert TripleAt(x, w, 60, 92, i);
      assert (i + 60) % BITS == (i + 92) % BITS;
    }
  }

  /** The maps as `invMatrix` is given them. */
  const MAP_A: Word -> Word := x => if IsWord(x) then LinA(x) else x

  const MAP_B: Word -> Word := x => if IsWord(x) then LinB(x) else x

  lemma {:induction false} TripleXor(x: Word, y: Word, u: Word, v: Word, w: Word, p: nat, q: nat)
    requires IsTriple(x, u, p, q) && IsTriple(y, v, p, q) && IsTriple(Xor(x, y), w, p, q)
    ensures w == Xor(u, v)
  {
    forall i | 0 <= i < BITS ensures w[i] == Xor(u, v)[i] {
      assert TripleAt(x, u, p, q, i) && TripleAt(y, v, p, q, i) && TripleAt(Xor(x, y), w, p, q, i);
    }
  }

  lemma {:induction false} MapsLinear()
    ensures Linear(MAP_A) && Linear(MAP_B)
  {
    forall x: Word, y: Word | IsWord(x) && IsWord(y) ensures LinearAt(MAP_A, x, y) && LinearAt(MAP_B, x, y) {
      TripleXor(x, y, LinA(x), LinA(y), LinA(Xor(x, y)), 7, 8);
      TripleXor(x, y, LinB(x), LinB(y), LinB(Xor(x, y)), 15, 23);
    }
  }

  /** So neither map loses information. */
  lemma {:induction false} MapsInjective()
    ensures Injective(MAP_A) && Injective(MAP_B)
  {
    MapsLinear();
    ImageOfZero(MAP_A);
    ImageOfZero(MAP_B);
    forall x: Word | IsWord(x) && Image(MAP_A, x) == Zero() ensures x == Zero() {
      LinAFourTimes(x);
      RotatedZero(x);
    }
    forall x: Word | IsWord(x) && Image(MAP_B, x) == Zero() ensures x == Zero() {
      LinBFourTimes(x);
    }
  }

  lemma {:induction false} RotatedZero(x: Word)
    requires IsWord(x) && Rotr(x, 28) == Zero()
    ensures x == Zero()
  {
    forall i | 0 <= i < BITS ensures !x[i] {
      assert Rotr(x, 28)[(i + 4) % BITS] == x[((i + 4) % BITS + 28) % BITS];
      assert ((i + 4) % BITS + 28) % BITS == i;
    }
  }

  // ------------------------------------------------- their inverses in closed form

  function InvLinA(y: Word): (r: Word)
    requires IsWord(y)
    ensures IsWord(r)
  {
    Rotr(LinA(LinA(LinA(y))), 4)
  }

  function InvLinB(y: Word): (r: Word)
    requires IsWord(y)
    ensures IsWord(r)
  {
    LinB(LinB(LinB(y)))
  }

  lemma {:induction false} RotrTwice(x: Word)
    requires IsWord(x)
    ensures Rotr(Rotr(x, 28), 4) == x && Rotr(Rotr(x, 4), 28) == x
  {
    forall i | 0 <= i < BITS ensures Rotr(Rotr(x, 28), 4)[i] == x[i] && Rotr(Rotr(x, 4), 28)[i] == x[i] {
      TurnOn(i, 4, 28);
      TurnOn(i, 28, 4);
      assert (i + 32) % BITS == i;
    }
  }

  lemma {:induction false} InjectiveA(x: Word, y: Word)
    requires IsWord(x) && IsWord(y) && LinA(LinA(LinA(x))) == LinA(LinA(LinA(y)))
    ensures x == y
  {
    LinAFourTimes(x);
    LinAFourTimes(y);
    RotrTwice(x);
    RotrTwice(y);
  }

  lemma {:induction false} InvLinUndo(x: Word)
    requires IsWord(x)
    ensures InvLinA(LinA(x)) == x && InvLinB(LinB(x)) == x
    ensures LinA(InvLinA(x)) == x && LinB(InvLinB(x)) == x
  {
    LinAFourTimes(x);
    LinBFourTimes(x);
    RotrTwice(x);
    var y := InvLinA(x);
    LinAFourTimes(y);
    RotrTwice(LinA(LinA(LinA(x))));
    InjectiveA(LinA(y), x);
  }

  /** The elimination finds the same inverses. */
  lemma {:induction false} SlowIsClosed(invA: seq<Word>, invB: seq<Word>, y: Word)
    requires Inverts(MAP_A, invA) && Inverts(MAP_B, invB) && IsWord(y)
    ensures Slow(y, invA) == InvLinA(y) && Slow(y, invB) == InvLinB(y)
  {
    MapsLinear();
    MapsInjective();
    SlowInverts(MAP_A, invA, y);
    SlowInverts(MAP_B, invB, y);
    InvLinUndo(Slow(y, invA));
    InvLinUndo(Slow(y, invB));
  }
}
