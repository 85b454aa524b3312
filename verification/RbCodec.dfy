/** The random band key-value store (`RBEncode` and `RBDecode` of okvs/rb/codec.h), with nested and with flat rows.

    Both encoders refine `XorSystem.Solve` on the equations of the keys, taken in the stable order of their start
    columns; both decoders compute the row of the key times the table. */
module RbCodec {
  import opened Prelude
  import opened Fields
  import opened BitOps
  import opened XorSystem
  import opened XorRank
  import opened RbLimbs
  import opened RbRows

  // ------------------------------------------------- rows

  datatype RbRow<F> = RbRow(start: nat, bits: Row, rhs: seq<F>)

  ghost predicate RowOk<F>(row: RbRow<F>, n: nat, w: nat, s: nat) {
    BandOk(row.start, row.bits, n, w) && |row.rhs| == s
  }

  ghost predicate RowsOk<F>(rows: seq<RbRow<F>>, n: nat, w: nat, s: nat) {
    forall i {:trigger RowOk(rows[i], n, w, s)} :: 0 <= i < |rows| ==> RowOk(rows[i], n, w, s)
  }

  ghost predicate StartsSorted<F>(rows: seq<RbRow<F>>) {
    forall i, j :: 0 <= i < j < |rows| ==> rows[i].start <= rows[j].start
  }

  ghost function AsEquation<F>(row: RbRow<F>, n: nat): Equation<F>
    requires IsRow(row.bits)
  {
    Equation(Coeffs(row.start, row.bits, n), row.rhs)
  }

  ghost function System<F>(rows: seq<RbRow<F>>, n: nat, w: nat, s: nat): (r: seq<Equation<F>>)
    requires RowsOk(rows, n, w, s)
    ensures |r| == |rows| && Shaped(r, n, s)
    ensures forall i :: 0 <= i < |rows| ==> RowOk(rows[i], n, w, s) && r[i] == AsEquation(rows[i], n)
  {
    assert forall i :: 0 <= i < |rows| ==> RowOk(rows[i], n, w, s);
    seq(|rows|, i requires 0 <= i < |rows| && RowOk(rows[i], n, w, s) => AsEquation(rows[i], n))
  }

  // ------------------------------------------------- one elimination step

  lemma {:induction false} FirstUnique(coeffs: seq<bool>, c: nat, p: nat)
    requires c <= p <= |coeffs| && (forall d :: c <= d < p ==> !coeffs[d]) && (p < |coeffs| ==> coeffs[p])
    ensures FirstFrom(coeffs, c) == p
    decreases p - c
  {
    if c < p { FirstUnique(coeffs, c + 1, p); }
  }

  /** The lowest bit of a row. */
  ghost predicate IsLead(bits: Row, lead: nat, w: nat) {
    && IsRow(bits) && lead < w <= ROW_BITS && BitAt(bits, lead)
    && forall i :: 0 <= i < lead ==> !BitAt(bits, i)
  }

  /** The pivot column of a row is its start plus its leading bit. */
  lemma {:induction false} PivotOfRow<F>(row: RbRow<F>, n: nat, w: nat, s: nat, lead: nat)
    requires RowOk(row, n, w, s) && lead <= w
    requires (forall i :: 0 <= i < lead ==> !BitAt(row.bits, i)) && (lead < w ==> BitAt(row.bits, lead))
    ensures Pivot(AsEquation(row, n)) == if lead < w then row.start + lead else n
  {
    FirstUnique(Coeffs(row.start, row.bits, n), 0, if lead < w then row.start + lead else n);
  }

  /** Adding a shifted row is adding the equations, because every bit of the earlier row from its pivot on lies
      inside the band of the later one. */
  lemma {:induction false} ShiftedSumIsXor(
      later: nat, e: Row, earlier: nat, d: Row, bits: Row, n: nat, w: nat, lead: nat)
    requires BandOk(later, e, n, w) && BandOk(earlier, d, n, w) && lead < w && IsRow(bits)
    requires earlier <= later <= earlier + lead && earlier + lead - later < w
    requires forall i :: 0 <= i < lead ==> !BitAt(d, i)
    requires forall i :: 0 <= i < ROW_BITS ==>
      BitAt(bits, i) == (BitAt(e, i) != Moved(d, earlier + lead - later, lead, w, i))
    ensures BandOk(later, bits, n, w)
    ensures Coeffs(later, bits, n) == Xor(Coeffs(later, e, n), Coeffs(earlier, d, n))
  {
    var off := earlier + lead - later;
    forall c | 0 <= c < n
      ensures Coeff(later, bits, c) == (Coeff(later, e, c) != Coeff(earlier, d, c))
    {
      if later <= c < later + ROW_BITS {
        var i := c - later;
        assert BitAt(bits, i) == (BitAt(e, i) != Moved(d, off, lead, w, i));
        if off <= i {
          assert i - off + lead == c - earlier;
        }
      }
    }
  }

  /** The new bits of a later row e after the earlier row d, with leading bit lead, has been used on it. */
  method ReduceBits(later: nat, e: Row, earlier: nat, d: Row, ghost n: nat, w: nat, lead: nat)
    returns (changed: bool, bits: Row)
    requires BandOk(later, e, n, w) && BandOk(earlier, d, n, w) && IsLead(d, lead, w)
    requires earlier <= later <= earlier + lead
    ensures BandOk(later, bits, n, w)
    ensures changed == Coeff(later, e, earlier + lead)
    ensures if changed then Coeffs(later, bits, n) == Xor(Coeffs(later, e, n), Coeffs(earlier, d, n)) else bits == e
  {
    var off := earlier + lead - later;
    changed := off < w && BitAt(e, off);
    bits := e;
    if changed {
      bits := XorShifted(e, off, d, lead, w);
      ShiftedSumIsXor(later, e, earlier, d, bits, n, w, lead);
    }
  }

  method ReduceRow<F>(k: Field<F>, e: RbRow<F>, d: RbRow<F>, n: nat, w: nat, ghost s: nat, lead: nat)
    returns (r: RbRow<F>)
    requires RowOk(e, n, w, s) && RowOk(d, n, w, s) && IsLead(d.bits, lead, w) && d.start <= e.start <= d.start + lead
    ensures RowOk(r, n, w, s) && r.start == e.start
    ensures d.start + lead < n && AsEquation(r, n) == Reduce(k, AsEquation(e, n), AsEquation(d, n), d.start + lead)
  {
    var changed, bits := ReduceBits(e.start, e.bits, d.start, d.bits, n, w, lead);
    r := if changed then RbRow(e.start, bits, VecAdd(k, e.rhs, d.rhs)) else e;
  }

  // ------------------------------------------------- one round

  /** What every step of a round keeps: the rows stand for the partial round over the rows below upTo. */
  ghost predicate InRound<F>(
      k: Field<F>, rows: seq<RbRow<F>>, before: seq<RbRow<F>>, n: nat, w: nat, s: nat, i: nat, upTo: nat) {
    && RowsOk(rows, n, w, s) && RowsOk(before, n, w, s) && |rows| == |before| && i < |rows|
    && (forall j :: 0 <= j < |rows| ==> rows[j].start == before[j].start)
    && Pivot(System(before, n, w, s)[i]) < n
    && System(rows, n, w, s) == Round(k, System(before, n, w, s), n, s, i, upTo)
  }

  lemma {:induction false} RoundStarts<F>(k: Field<F>, rows: seq<RbRow<F>>, n: nat, w: nat, s: nat, i: nat)
    requires RowsOk(rows, n, w, s) && i < |rows| && Pivot(System(rows, n, w, s)[i]) < n
    ensures InRound(k, rows, rows, n, w, s, i, i + 1)
  {
    assert Round(k, System(rows, n, w, s), n, s, i, i + 1) == System(rows, n, w, s);
  }

  lemma {:induction false} RoundGoesOn<F>(
      k: Field<F>, rows: seq<RbRow<F>>, before: seq<RbRow<F>>, n: nat, w: nat, s: nat, i: nat, j: nat, r: RbRow<F>)
    requires InRound(k, rows, before, n, w, s, i, j) && i < j < |rows| && RowOk(r, n, w, s) && r.start == rows[j].start
    requires AsEquation(r, n)
      == Reduce(k, System(rows, n, w, s)[j], System(rows, n, w, s)[i], Pivot(System(before, n, w, s)[i]))
    ensures InRound(k, rows[j := r], before, n, w, s, i, j + 1)
  {
    var rows' := rows[j := r];
    forall a | 0 <= a < |rows'| ensures RowOk(rows'[a], n, w, s) {
      assert RowOk(rows[a], n, w, s);
    }
    assert System(rows', n, w, s) == Round(k, System(before, n, w, s), n, s, i, j + 1);
  }

  /** Once a row starts behind the pivot, neither it nor any later row is changed by the round. */
  lemma {:induction false} RoundEnds<F>(
      k: Field<F>, rows: seq<RbRow<F>>, before: seq<RbRow<F>>, n: nat, w: nat, s: nat, i: nat, j: nat)
    requires InRound(k, rows, before, n, w, s, i, j) && i < j <= |rows| && StartsSorted(before)
    requires j < |rows| ==> rows[j].start > Pivot(System(before, n, w, s)[i])
    ensures System(rows, n, w, s) == Round(k, System(before, n, w, s), n, s, i, |rows|)
  {
    var p := Pivot(System(before, n, w, s)[i]);
    forall a | j <= a < |rows| ensures !System(before, n, w, s)[a].coeffs[p] {
      assert before[j].start <= before[a].start;
    }
  }

  // ------------------------------------------------- nested rows

  /** One step of the inner loop of the forward elimination. */
  method ReduceAt<F>(
      k: Field<F>, rows: array<RbRow<F>>, ghost before: seq<RbRow<F>>, n: nat, w: nat, s: nat, i: nat, lead: nat,
      j: nat)
    requires InRound(k, rows[..], before, n, w, s, i, j) && i < j < rows.Length && IsLead(rows[i].bits, lead, w)
    requires Pivot(System(before, n, w, s)[i]) == rows[i].start + lead
    requires rows[i].start <= rows[j].start <= rows[i].start + lead
    modifies rows
    ensures InRound(k, rows[..], before, n, w, s, i, j + 1) && rows[i] == old(rows[i])
  {
    ghost var now := rows[..];
    assert RowOk(now[j], n, w, s) && RowOk(now[i], n, w, s);
    var r := ReduceRow(k, rows[j], rows[i], n, w, s, lead);
    RoundGoesOn(k, now, before, n, w, s, i, j, r);
    rows[j] := r;
    assert rows[..] == now[j := r];
  }

  /** The inner loop of the forward elimination. */
  method EliminateWith<F>(k: Field<F>, rows: array<RbRow<F>>, n: nat, w: nat, s: nat, i: nat, lead: nat)
    requires RowsOk(rows[..], n, w, s) && StartsSorted(rows[..]) && i < rows.Length && IsLead(rows[i].bits, lead, w)
    modifies rows
    ensures InRound(k, rows[..], old(rows[..]), n, w, s, i, rows.Length)
    ensures Pivot(System(old(rows[..]), n, w, s)[i]) == old(rows[i].start) + lead
  {
    ghost var before := rows[..];
    assert RowOk(before[i], n, w, s);
    PivotOfRow(rows[i], n, w, s, lead);
    RoundStarts(k, before, n, w, s, i);
    var pivot := rows[i].start + lead;
    var j := i + 1;
    while j < rows.Length && rows[j].start <= pivot
      invariant i < j <= rows.Length && rows[i] == before[i]
      invariant InRound(k, rows[..], before, n, w, s, i, j)
      decreases rows.Length - j
    {
      assert before[i].start <= before[j].start == rows[..][j].start;
      ReduceAt(k, rows, before, n, w, s, i, lead, j);
      j := j + 1;
    }
    RoundEnds(k, rows[..], before, n, w, s, i, j);
  }

  /** The elimination so far: finishing it from row i on gives the result for the original rows. */
  ghost predicate InGauss<F>(
      k: Field<F>, rows: seq<RbRow<F>>, original: seq<RbRow<F>>, n: nat, w: nat, s: nat, i: nat) {
    && RowsOk(rows, n, w, s) && RowsOk(original, n, w, s) && |rows| == |original| && i <= |rows| && StartsSorted(rows)
    && Gauss(k, System(original, n, w, s), n, s, 0) == Gauss(k, System(rows, n, w, s), n, s, i)
  }

  lemma {:induction false} GaussGoesOn<F>(
      k: Field<F>, rows: seq<RbRow<F>>, next: seq<RbRow<F>>, original: seq<RbRow<F>>, n: nat, w: nat, s: nat, i: nat)
    requires InGauss(k, rows, original, n, w, s, i) && i < |rows| && InRound(k, next, rows, n, w, s, i, |rows|)
    ensures InGauss(k, next, original, n, w, s, i + 1)
  {
  }

  /** The pivots of the rows below i. */
  ghost predicate PivotsBelow<F>(rows: seq<RbRow<F>>, pivots: seq<nat>, n: nat, w: nat, s: nat, i: nat) {
    && RowsOk(rows, n, w, s) && |pivots| == i <= |rows|
    && forall a :: 0 <= a < i ==> pivots[a] == Pivot(System(rows, n, w, s)[a]) < n
  }

  /** One turn of the outer loop: row i gets its pivot and is used on the later rows. */
  method EliminateRow<F>(
      k: Field<F>, rows: array<RbRow<F>>, ghost original: seq<RbRow<F>>, n: nat, w: nat, s: nat, i: nat,
      pivots0: seq<nat>)
    returns (found: bool, pivots: seq<nat>)
    requires i < rows.Length && 1 <= w <= ROW_BITS
    requires InGauss(k, rows[..], original, n, w, s, i) && PivotsBelow(rows[..], pivots0, n, w, s, i)
    modifies rows
    ensures found ==> InGauss(k, rows[..], original, n, w, s, i + 1) && PivotsBelow(rows[..], pivots, n, w, s, i + 1)
    ensures !found ==> RowsOk(rows[..], n, w, s) && RowsOk(original, n, w, s)
    ensures !found ==> Gauss(k, System(original, n, w, s), n, s, 0) == None
  {
    ghost var now := rows[..];
    assert RowOk(now[i], n, w, s);
    var lead := Lead(rows[i].bits, w);
    PivotOfRow(rows[i], n, w, s, lead);
    if lead == w {
      return false, [];
    }
    pivots := pivots0 + [rows[i].start + lead];
    EliminateWith(k, rows, n, w, s, i, lead);
    GaussGoesOn(k, now, rows[..], original, n, w, s, i);
    found := true;
  }

  /** The forward elimination. The pivots are those of the triangular system. */
  method Eliminate<F>(k: Field<F>, rows: array<RbRow<F>>, n: nat, w: nat, s: nat) returns (ok: bool, pivots: seq<nat>)
    requires RowsOk(rows[..], n, w, s) && StartsSorted(rows[..]) && 1 <= w <= ROW_BITS
    modifies rows
    ensures RowsOk(rows[..], n, w, s)
    ensures Gauss(k, System(old(rows[..]), n, w, s), n, s, 0) == if ok then Some(System(rows[..], n, w, s)) else None
    ensures ok ==> PivotsOk(rows[..], pivots, n, w, s)
  {
    ghost var original := rows[..];
    pivots := [];
    for i := 0 to rows.Length
      invariant InGauss(k, rows[..], original, n, w, s, i) && PivotsBelow(rows[..], pivots, n, w, s, i)
    {
      var found;
      found, pivots := EliminateRow(k, rows, original, n, w, s, i, pivots);
      if !found {
        return false, [];
      }
    }
    return true, pivots;
  }

  ghost predicate PivotsOk<F>(rows: seq<RbRow<F>>, pivots: seq<nat>, n: nat, w: nat, s: nat)
    requires RowsOk(rows, n, w, s)
  {
    |pivots| == |rows| && forall a :: 0 <= a < |rows| ==> pivots[a] == Pivot(System(rows, n, w, s)[a]) < n
  }

  // ------------------------------------------------- back fill

  lemma {:induction false} RestSkip<F>(k: Field<F>, e: Equation<F>, p: nat, table: seq<seq<F>>, a: nat, b: nat)
    requires a <= b <= |e.coeffs| && |table| == |e.coeffs| && forall c :: 0 <= c < |table| ==> |table[c]| == |e.rhs|
    requires forall c :: a <= c < b ==> !e.coeffs[c]
    ensures Rest(k, e, p, table, b) == Rest(k, e, p, table, a)
    decreases b
  {
    if a < b { RestSkip(k, e, p, table, a, b - 1); }
  }

  /** v plus the table rows that the first j bits of a band select, other than row p. */
  ghost function BandSum<F>(
      k: Field<F>, v: seq<F>, start: nat, bits: seq<bool>, p: nat, table: seq<seq<F>>, j: nat): (r: seq<F>)
    requires j <= |bits| && start + j <= |table| && forall c :: 0 <= c < |table| ==> |table[c]| == |v|
    ensures |r| == |v|
  {
    if j == 0 then v
    else if bits[j - 1] && start + j - 1 != p then
      VecAdd(k, BandSum(k, v, start, bits, p, table, j - 1), table[start + j - 1])
    else BandSum(k, v, start, bits, p, table, j - 1)
  }

  lemma {:induction false} BandSumNext<F>(
      k: Field<F>, v: seq<F>, start: nat, bits: seq<bool>, p: nat, table: seq<seq<F>>, j: nat)
    requires j < |bits| && start + j < |table| && forall c :: 0 <= c < |table| ==> |table[c]| == |v|
    ensures var r := BandSum(k, v, start, bits, p, table, j);
            BandSum(k, v, start, bits, p, table, j + 1) ==
            if bits[j] && start + j != p then VecAdd(k, r, table[start + j]) else r
  {
  }

  lemma {:induction false} CoeffAt(start: nat, bits: Row, n: nat, i: nat)
    requires IsRow(bits) && i < ROW_BITS && start + i < n
    ensures Coeffs(start, bits, n)[start + i] == AllBits(bits)[i]
  {
    var c := start + i;
    assert c - start == i;
    assert Coeff(start, bits, c) == BitAt(bits, i);
  }

  /** Bit i of the band is the coefficient i places behind its start. */
  ghost predicate BandAt(coeffs: seq<bool>, start: nat, bits: seq<bool>, i: nat)
    requires start + i < |coeffs| && i < |bits|
  {
    coeffs[start + i] == bits[i]
  }

  /** The bits are the coefficients from the start on, and the table has rows as wide as the right-hand side. */
  ghost predicate BandOf<F>(e: Equation<F>, start: nat, bits: seq<bool>, table: seq<seq<F>>, j: nat) {
    && j <= |bits| && start + j <= |e.coeffs| == |table|
    && (forall c :: 0 <= c < |table| ==> |table[c]| == |e.rhs|)
    && (forall i {:trigger BandAt(e.coeffs, start, bits, i)} :: 0 <= i < j ==> BandAt(e.coeffs, start, bits, i))
  }

  lemma {:induction false} BandSumIsRestTo<F>(
      k: Field<F>, e: Equation<F>, start: nat, bits: seq<bool>, p: nat, table: seq<seq<F>>, j: nat)
    requires BandOf(e, start, bits, table, j) && Rest(k, e, p, table, start) == e.rhs
    ensures BandSum(k, e.rhs, start, bits, p, table, j) == Rest(k, e, p, table, start + j)
    decreases j
  {
    if j > 0 {
      var i := j - 1;
      var c := start + i;
      BandSumIsRestTo(k, e, start, bits, p, table, i);
      assert BandAt(e.coeffs, start, bits, i);
      BandSumNext(k, e.rhs, start, bits, p, table, i);
      RestNext(k, e, p, table, c);
      assert i + 1 == j && c + 1 == start + j;
    }
  }

  /** There are no coefficients outside the band. */
  ghost predicate NoneOutside(coeffs: seq<bool>, start: nat, w: nat) {
    forall c :: 0 <= c < |coeffs| && (c < start || start + w <= c) ==> !coeffs[c]
  }

  /** The sum over the band is the sum over all columns. */
  lemma {:induction false} BandSumIsAll<F>(
      k: Field<F>, e: Equation<F>, start: nat, bits: seq<bool>, p: nat, table: seq<seq<F>>, w: nat)
    requires BandOf(e, start, bits, table, w) && NoneOutside(e.coeffs, start, w)
    ensures BandSum(k, e.rhs, start, bits, p, table, w) == Rest(k, e, p, table, |table|)
  {
    RestSkip(k, e, p, table, 0, start);
    BandSumIsRestTo(k, e, start, bits, p, table, w);
    RestSkip(k, e, p, table, start + w, |table|);
  }

  lemma {:induction false} CoeffsOfBand<F>(row: RbRow<F>, table: seq<seq<F>>, n: nat, w: nat, s: nat)
    requires RowOk(row, n, w, s) && TableOk(table, n, s)
    ensures BandOf(AsEquation(row, n), row.start, AllBits(row.bits), table, w)
    ensures NoneOutside(AsEquation(row, n).coeffs, row.start, w)
  {
    forall i | 0 <= i < w ensures BandAt(AsEquation(row, n).coeffs, row.start, AllBits(row.bits), i) {
      CoeffAt(row.start, row.bits, n, i);
    }
  }

  lemma {:induction false} BandSumIsRest<F>(
      k: Field<F>, row: RbRow<F>, p: nat, table: seq<seq<F>>, n: nat, w: nat, s: nat)
    requires RowOk(row, n, w, s) && TableOk(table, n, s)
    ensures BandSum(k, row.rhs, row.start, AllBits(row.bits), p, table, w) == Rest(k, AsEquation(row, n), p, table, n)
  {
    CoeffsOfBand(row, table, n, w, s);
    BandSumIsAll(k, AsEquation(row, n), row.start, AllBits(row.bits), p, table, w);
  }

  method RowRest<F>(k: Field<F>, row: RbRow<F>, p: nat, table: seq<seq<F>>, n: nat, w: nat, s: nat)
    returns (sum: seq<F>)
    requires RowOk(row, n, w, s) && TableOk(table, n, s)
    ensures sum == Rest(k, AsEquation(row, n), p, table, n)
  {
    BandSumIsRest(k, row, p, table, n, w, s);
    sum := AddBand(k, row.rhs, row.start, row.bits, p, table, w);
  }

  /** The loop over the bits of a band, in the back fill and in the decoder. */
  method AddBand<F>(k: Field<F>, v: seq<F>, start: nat, bits: Row, p: nat, table: seq<seq<F>>, w: nat)
    returns (sum: seq<F>)
    requires IsRow(bits) && w <= ROW_BITS && start + w <= |table| && forall c :: 0 <= c < |table| ==> |table[c]| == |v|
    ensures sum == BandSum(k, v, start, AllBits(bits), p, table, w)
  {
    sum := v;
    for j := 0 to w
      invariant sum == BandSum(k, v, start, AllBits(bits), p, table, j)
    {
      assert AllBits(bits)[j] == BitAt(bits, j);
      var col := start + j;
      if BitAt(bits, j) && col != p {
        sum := VecAdd(k, sum, table[col]);
      }
    }
  }

  /** The back fill so far: finishing it from row i down gives the whole table. */
  ghost predicate InFill<F>(
      k: Field<F>, table: seq<seq<F>>, rows: seq<RbRow<F>>, pivots: seq<nat>, n: nat, w: nat, s: nat, i: nat) {
    && RowsOk(rows, n, w, s) && PivotsOk(rows, pivots, n, w, s) && i <= |rows| && TableOk(table, n, s)
    && Fill(k, System(rows, n, w, s), table, n, s, i)
      == Fill(k, System(rows, n, w, s), ZeroTable(k, n, s), n, s, |rows|)
  }

  lemma {:induction false} FillGoesOn<F>(
      k: Field<F>, table: seq<seq<F>>, rows: seq<RbRow<F>>, pivots: seq<nat>, n: nat, w: nat, s: nat, i: nat)
    requires InFill(k, table, rows, pivots, n, w, s, i + 1)
    ensures RowOk(rows[i], n, w, s) && pivots[i] < n
    ensures InFill(k, table[pivots[i] := Rest(k, AsEquation(rows[i], n), pivots[i], table, n)], rows, pivots, n, w, s,
      i)
  {
    assert RowOk(rows[i], n, w, s);
  }

  /** Fills the table from the last row back. */
  method BackFill<F>(k: Field<F>, rows: seq<RbRow<F>>, pivots: seq<nat>, n: nat, w: nat, s: nat)
    returns (table: seq<seq<F>>)
    requires RowsOk(rows, n, w, s) && PivotsOk(rows, pivots, n, w, s)
    ensures InFill(k, table, rows, pivots, n, w, s, 0)
  {
    table := ZeroTable(k, n, s);
    for i := |rows| downto 0
      invariant InFill(k, table, rows, pivots, n, w, s, i)
    {
      FillGoesOn(k, table, rows, pivots, n, w, s, i);
      var sum := RowRest(k, rows[i], pivots[i], table, n, w, s);
      table := table[pivots[i] := sum];
    }
  }

  // ------------------------------------------------- from keys to rows

  ghost predicate ParamsOk<K(!new), F(!new)>(k: Field<F>, h: RbHash<K>, n: nat, w: nat) {
    IsXorGroup(k) && HashOk(h) && 1 <= w <= ROW_BITS && w <= n
  }

  /** The equations of the keys, in the order in which they were given. */
  ghost function KeySystem<K(!new), F>(
      h: RbHash<K>, keys: seq<K>, values: seq<seq<F>>, n: nat, w: nat): (r: seq<Equation<F>>)
    requires HashOk(h) && w <= ROW_BITS && w <= n && |keys| == |values|
    ensures |r| == |keys|
    ensures forall i :: 0 <= i < |keys| ==>
      IsRow(MaskOf(h, keys[i])) && r[i] == Equation(KeyCoeffs(h, keys[i], n, w), values[i])
  {
    assert forall i :: 0 <= i < |keys| ==> IsRow(MaskOf(h, keys[i]));
    seq(|keys|, i requires 0 <= i < |keys| && IsRow(MaskOf(h, keys[i])) =>
      Equation(KeyCoeffs(h, keys[i], n, w), values[i]))
  }

  ghost function KeyStarts<K>(h: RbHash<K>, keys: seq<K>, n: nat, w: nat): (r: seq<nat>)
    requires w <= n
    ensures |r| == |keys| && forall i :: 0 <= i < |keys| ==> r[i] == KeyStart(h, keys[i], n, w)
  {
    seq(|keys|, i requires 0 <= i < |keys| => KeyStart(h, keys[i], n, w))
  }

  /** The system that both encoders solve. */
  ghost function SortedSystem<K(!new), F>(
      h: RbHash<K>, keys: seq<K>, values: seq<seq<F>>, n: nat, w: nat): (r: seq<Equation<F>>)
    requires HashOk(h) && w <= ROW_BITS && w <= n && |keys| == |values|
    ensures |r| == |keys|
  {
    Pick(KeySystem(h, keys, values, n, w), StableOrder(KeyStarts(h, keys, n, w)))
  }

  ghost predicate Rectangular<F>(values: seq<seq<F>>, s: nat) {
    forall i :: 0 <= i < |values| ==> |values[i]| == s
  }

  lemma {:induction false} SystemsShaped<K(!new), F>(
      h: RbHash<K>, keys: seq<K>, values: seq<seq<F>>, n: nat, w: nat, s: nat)
    requires HashOk(h) && w <= ROW_BITS && w <= n && |keys| == |values| && Rectangular(values, s)
    ensures Shaped(KeySystem(h, keys, values, n, w), n, s) && Shaped(SortedSystem(h, keys, values, n, w), n, s)
  {
  }

  /** The row, before sorting, of one key and its value. */
  ghost predicate RowOfKey<K(!new), F>(row: RbRow<F>, h: RbHash<K>, key: K, value: seq<F>, n: nat, w: nat, s: nat)
    requires HashOk(h) && w <= ROW_BITS && w <= n
  {
    && RowOk(row, n, w, s) && row.start == KeyStart(h, key, n, w)
    && AsEquation(row, n) == Equation(KeyCoeffs(h, key, n, w), value)
  }

  ghost predicate RowsOfKeys<K(!new), F>(
      rows: seq<RbRow<F>>, h: RbHash<K>, keys: seq<K>, values: seq<seq<F>>, n: nat, w: nat, s: nat)
    requires HashOk(h) && w <= ROW_BITS && w <= n && |rows| <= |keys| == |values|
  {
    forall j {:trigger RowOfKey(rows[j], h, keys[j], values[j], n, w, s)} :: 0 <= j < |rows| ==>
      RowOfKey(rows[j], h, keys[j], values[j], n, w, s)
  }

  function Starts<F>(rows: seq<RbRow<F>>): (r: seq<nat>)
    ensures |r| == |rows| && forall i :: 0 <= i < |r| ==> r[i] == rows[i].start
  {
    seq(|rows|, i requires 0 <= i < |rows| => rows[i].start)
  }

  /** `std::stable_sort` by start column. */
  function SortRows<F>(rows: seq<RbRow<F>>): (r: seq<RbRow<F>>)
    ensures |r| == |rows| && forall i :: 0 <= i < |r| ==> r[i] == rows[StableOrder(Starts(rows))[i]]
  {
    var order := StableOrder(Starts(rows));
    seq(|rows|, i requires 0 <= i < |rows| => rows[order[i]])
  }

  lemma {:induction false} StartsOfKeys<K(!new), F>(
      rows: seq<RbRow<F>>, h: RbHash<K>, keys: seq<K>, values: seq<seq<F>>, n: nat, w: nat, s: nat)
    requires HashOk(h) && w <= ROW_BITS && w <= n && |rows| == |keys| == |values|
    requires RowsOfKeys(rows, h, keys, values, n, w, s)
    ensures Starts(rows) == KeyStarts(h, keys, n, w)
  {
    forall j | 0 <= j < |rows| ensures Starts(rows)[j] == KeyStart(h, keys[j], n, w) {
      assert RowOfKey(rows[j], h, keys[j], values[j], n, w, s);
    }
  }

  lemma {:induction false} SortRowsSorted<F>(rows: seq<RbRow<F>>)
    ensures StartsSorted(SortRows(rows))
  {
    StableOrderOk(Starts(rows));
  }

  lemma {:induction false} SortRowsOk<K(!new), F>(
      rows: seq<RbRow<F>>, h: RbHash<K>, keys: seq<K>, values: seq<seq<F>>, n: nat, w: nat, s: nat)
    requires HashOk(h) && w <= ROW_BITS && w <= n && |rows| == |keys| == |values|
    requires RowsOfKeys(rows, h, keys, values, n, w, s)
    ensures RowsOk(SortRows(rows), n, w, s) && StartsSorted(SortRows(rows))
    ensures System(SortRows(rows), n, w, s) == SortedSystem(h, keys, values, n, w)
  {
    var order, r := StableOrder(Starts(rows)), SortRows(rows);
    StartsOfKeys(rows, h, keys, values, n, w, s);
    SortRowsSorted(rows);
    forall i | 0 <= i < |r| ensures RowOk(r[i], n, w, s) {
      assert RowOfKey(rows[order[i]], h, keys[order[i]], values[order[i]], n, w, s);
    }
    forall i | 0 <= i < |r| ensures System(r, n, w, s)[i] == SortedSystem(h, keys, values, n, w)[i] {
      assert RowOfKey(rows[order[i]], h, keys[order[i]], values[order[i]], n, w, s);
    }
  }

  /** `RBRows`: the rows of all keys, sorted stably by start column. */
  method PrepareRows<K(!new), F(!new)>(
      k: Field<F>, h: RbHash<K>, keys: seq<K>, values: seq<seq<F>>, n: nat, w: nat, ghost s: nat)
    returns (rows: seq<RbRow<F>>)
    requires ParamsOk(k, h, n, w) && |keys| == |values| && Rectangular(values, s)
    ensures RowsOk(rows, n, w, s) && StartsSorted(rows)
    ensures System(rows, n, w, s) == SortedSystem(h, keys, values, n, w)
  {
    rows := [];
    for i := 0 to |keys|
      invariant |rows| == i && RowsOfKeys(rows, h, keys, values, n, w, s)
    {
      var start, bits := KeyBand(h, keys[i], n, w);
      ghost var before := rows;
      rows := rows + [RbRow(start, bits, values[i])];
      forall j | 0 <= j < |rows| ensures RowOfKey(rows[j], h, keys[j], values[j], n, w, s) {
        if j < i { assert RowOfKey(before[j], h, keys[j], values[j], n, w, s); }
      }
    }
    SortRowsOk(rows, h, keys, values, n, w, s);
    rows := SortRows(rows);
  }

  // ------------------------------------------------- what the table is for

  /** Decoding a key: the table rows selected by its band. */
  ghost function DecodedValue<K(!new), F>(
      k: Field<F>, h: RbHash<K>, table: seq<seq<F>>, key: K, n: nat, w: nat, s: nat): (r: seq<F>)
    requires HashOk(h) && w <= ROW_BITS && w <= n && TableOk(table, n, s)
    ensures |r| == s
  {
    Sum(k, KeyCoeffs(h, key, n, w), table, s, n)
  }

  ghost function Solved<K(!new), F>(
      k: Field<F>, h: RbHash<K>, keys: seq<K>, values: seq<seq<F>>, n: nat, w: nat, s: nat): Option<seq<seq<F>>>
    requires HashOk(h) && w <= ROW_BITS && w <= n && |keys| == |values| && Rectangular(values, s)
  {
    SystemsShaped(h, keys, values, n, w, s);
    Solve(k, SortedSystem(h, keys, values, n, w), n, s)
  }

  /** A solution of the sorted system decodes every key to its value. */
  lemma {:induction false} SolvedDecodes<K(!new), F(!new)>(
      k: Field<F>, h: RbHash<K>, keys: seq<K>, values: seq<seq<F>>, n: nat, w: nat, s: nat)
    requires ParamsOk(k, h, n, w) && |keys| == |values| && Rectangular(values, s)
    requires Solved(k, h, keys, values, n, w, s).Some?
    ensures TableOk(Solved(k, h, keys, values, n, w, s).value, n, s)
    ensures forall x :: 0 <= x < |keys| ==>
      DecodedValue(k, h, Solved(k, h, keys, values, n, w, s).value, keys[x], n, w, s) == values[x]
  {
    SystemsShaped(h, keys, values, n, w, s);
    var eqs, sorted, starts := KeySystem(h, keys, values, n, w), SortedSystem(h, keys, values, n, w),
      KeyStarts(h, keys, n, w);
    SolveIsSound(k, sorted, n, s);
    SortKeeps(starts, eqs, n, s);
    var table := Solved(k, h, keys, values, n, w, s).value;
    forall x | 0 <= x < |keys| ensures DecodedValue(k, h, table, keys[x], n, w, s) == values[x] {
      assert x in StableOrder(starts);
      var j :| 0 <= j < |sorted| && StableOrder(starts)[j] == x;
      assert Satisfies(k, table, sorted[j]);
    }
  }

  /** The band rows of the keys are linearly dependent over GF(2); the values play no part. */
  ghost predicate BandsDependent<K(!new)>(h: RbHash<K>, keys: seq<K>, n: nat, w: nat)
    requires HashOk(h) && w <= ROW_BITS && w <= n
  {
    Dependent(KeySystem<K, bool>(h, keys, seq(|keys|, _ => []), n, w), n)
  }

  /** There is a solution exactly when the band rows of the keys are linearly independent, whatever the values. */
  lemma {:induction false} UnsolvedIffDependent<K(!new), F(!new)>(
      k: Field<F>, h: RbHash<K>, keys: seq<K>, values: seq<seq<F>>, n: nat, w: nat, s: nat)
    requires ParamsOk(k, h, n, w) && |keys| == |values| && Rectangular(values, s)
    ensures Solved(k, h, keys, values, n, w, s).None? <==> BandsDependent(h, keys, n, w)
  {
    SystemsShaped(h, keys, values, n, w, s);
    SolveFailsIffDependent(k, SortedSystem(h, keys, values, n, w), n, s);
    SortKeeps(KeyStarts(h, keys, n, w), KeySystem(h, keys, values, n, w), n, s);
    DependentSameCoeffs(KeySystem(h, keys, values, n, w), KeySystem<K, bool>(h, keys, seq(|keys|, _ => []), n, w), n);
  }

  /** A key that occurs twice makes the rows dependent. */
  lemma {:induction false} IndependentDistinct<K(!new)>(h: RbHash<K>, keys: seq<K>, n: nat, w: nat)
    requires HashOk(h) && w <= ROW_BITS && w <= n && !BandsDependent(h, keys, n, w)
    ensures forall i, j :: 0 <= i < j < |keys| ==> keys[i] != keys[j]
  {
    forall i, j | 0 <= i < j < |keys| ensures keys[i] != keys[j] {
      if keys[i] == keys[j] {
        EqualDependent(KeySystem<K, bool>(h, keys, seq(|keys|, _ => []), n, w), n, i, j);
      }
    }
  }

  /** Bands of width one are dependent exactly if two of the start hashes are congruent modulo the number of columns. */
  lemma {:induction false} OneWideDependentIff<K(!new)>(h: RbHash<K>, keys: seq<K>, n: nat)
    requires HashOk(h) && n > 0
    ensures BandsDependent(h, keys, n, 1) <==>
            exists i, j :: 0 <= i < j < |keys| && (h.start)(keys[i]) % n == (h.start)(keys[j]) % n
  {
    var eqs := KeySystem<K, bool>(h, keys, seq(|keys|, _ => []), n, 1);
    var at := seq(|keys|, i requires 0 <= i < |keys| => (h.start)(keys[i]) % n);
    forall i | 0 <= i < |eqs|
      ensures at[i] < n && forall c :: 0 <= c < n ==> (eqs[i].coeffs[c] <==> c == at[i])
    {
      OneWideRow(h, keys[i], n);
    }
    SinglesDependentIff(eqs, n, at);
  }

  // ------------------------------------------------- encoding and decoding with nested rows

  /** What an encoder does: a table and true, false, or an exception. */
  datatype Outcome<+T> = Built(table: T) | Dropped | Rejected

  /** The elimination and the back fill together. */
  method SolveRows<F(!new)>(k: Field<F>, sorted: seq<RbRow<F>>, n: nat, w: nat, s: nat) returns (r: Option<seq<seq<F>>>)
    requires RowsOk(sorted, n, w, s) && StartsSorted(sorted) && 1 <= w <= ROW_BITS
    ensures r == Solve(k, System(sorted, n, w, s), n, s)
  {
    var rows := new RbRow<F>[|sorted|](i requires 0 <= i < |sorted| => sorted[i]);
    assert rows[..] == sorted;
    var ok, pivots := Eliminate(k, rows, n, w, s);
    if !ok {
      return None;
    }
    var table := BackFill(k, rows[..], pivots, n, w, s);
    return Some(table);
  }

  /** The inputs that `RBRows` accepts. */
  predicate Accepted<K, F>(keys: seq<K>, values: seq<seq<F>>) {
    |keys| == |values| && |keys| > 0 && |values[0]| > 0 && forall i :: 0 <= i < |values| ==> |values[i]| == |values[0]|
  }

  /** The nested `RBEncode`. */
  method Encode<K(!new), F(!new)>(k: Field<F>, h: RbHash<K>, keys: seq<K>, values: seq<seq<F>>, n: nat, w: nat)
    returns (r: Outcome<seq<seq<F>>>)
    requires ParamsOk(k, h, n, w)
    ensures keys == [] ==> r == Built([])
    ensures r.Rejected? <==> keys != [] && !Accepted(keys, values)
    ensures r.Dropped? <==> Accepted(keys, values) && BandsDependent(h, keys, n, w)
    ensures r.Built? && keys != [] ==>
      var s := |values[0]|;
      && Solved(k, h, keys, values, n, w, s) == Some(r.table) && TableOk(r.table, n, s)
      && forall x :: 0 <= x < |keys| ==> DecodedValue(k, h, r.table, keys[x], n, w, s) == values[x]
  {
    if |keys| == 0 {
      return Built([]);
    }
    if !Accepted(keys, values) {
      return Rejected;
    }
    var s := |values[0]|;
    var rows := PrepareRows(k, h, keys, values, n, w, s);
    var table := SolveRows(k, rows, n, w, s);
    UnsolvedIffDependent(k, h, keys, values, n, w, s);
    if table.None? {
      return Dropped;
    }
    SolvedDecodes(k, h, keys, values, n, w, s);
    return Built(table.value);
  }

  /** The selected table rows outside of the band do not count. */
  lemma {:induction false} SumSkip<F>(k: Field<F>, coeffs: seq<bool>, table: seq<seq<F>>, s: nat, a: nat, b: nat)
    requires a <= b <= |coeffs| && TableOk(table, |coeffs|, s) && forall c :: a <= c < b ==> !coeffs[c]
    ensures Sum(k, coeffs, table, s, b) == Sum(k, coeffs, table, s, a)
    decreases b
  {
    if a < b { SumSkip(k, coeffs, table, s, a, b - 1); }
  }

  lemma {:induction false} BandSumIsSumTo<F>(
      k: Field<F>, start: nat, bits: Row, table: seq<seq<F>>, n: nat, w: nat, s: nat, j: nat)
    requires BandOk(start, bits, n, w) && TableOk(table, n, s) && j <= w
    ensures BandSum(k, ZeroVec(k, s), start, AllBits(bits), n, table, j)
      == Sum(k, Coeffs(start, bits, n), table, s, start + j)
  {
    if j == 0 {
      SumSkip(k, Coeffs(start, bits, n), table, s, 0, start);
    } else {
      BandSumIsSumTo(k, start, bits, table, n, w, s, j - 1);
      CoeffAt(start, bits, n, j - 1);
    }
  }

  lemma {:induction false} BandSumIsSum<F>(
      k: Field<F>, start: nat, bits: Row, table: seq<seq<F>>, n: nat, w: nat, s: nat)
    requires BandOk(start, bits, n, w) && TableOk(table, n, s)
    ensures BandSum(k, ZeroVec(k, s), start, AllBits(bits), n, table, w) == Sum(k, Coeffs(start, bits, n), table, s, n)
  {
    BandSumIsSumTo(k, start, bits, table, n, w, s, w);
    SumSkip(k, Coeffs(start, bits, n), table, s, start + w, n);
  }

  /** One key of `RBDecode`. */
  method DecodeKey<K(!new), F>(k: Field<F>, h: RbHash<K>, table: seq<seq<F>>, key: K, n: nat, w: nat, s: nat)
    returns (v: seq<F>)
    requires HashOk(h) && 1 <= w <= ROW_BITS && w <= n && TableOk(table, n, s)
    ensures v == DecodedValue(k, h, table, key, n, w, s)
  {
    var start, bits := KeyBand(h, key, n, w);
    BandSumIsSum(k, start, bits, table, n, w, s);
    v := AddBand(k, ZeroVec(k, s), start, bits, n, table, w);
  }

  /** The nested `RBDecode`; the number of columns, if given, must be that of the table. */
  method Decode<K(!new), F(!new)>(
      k: Field<F>, h: RbHash<K>, table: seq<seq<F>>, keys: seq<K>, columns: nat, w: nat, s: nat)
    returns (r: Outcome<seq<seq<F>>>)
    requires HashOk(h) && 1 <= w && TableOk(table, |table|, s)
    ensures table == [] ==> r == Built([])
    ensures r.Rejected? <==> table != [] && ((columns != 0 && columns != |table|) || w > ROW_BITS || w > |table|)
    ensures !r.Dropped?
    ensures r.Built? && table != [] ==> |r.table| == |keys|
    ensures r.Built? && table != [] ==>
      forall x :: 0 <= x < |keys| ==> r.table[x] == DecodedValue(k, h, table, keys[x], |table|, w, s)
  {
    if |table| == 0 {
      return Built([]);
    }
    if (columns != 0 && columns != |table|) || w > ROW_BITS || w > |table| {
      return Rejected;
    }
    var values := [];
    for i := 0 to |keys|
      invariant |values| == i
      invariant forall x :: 0 <= x < i ==> values[x] == DecodedValue(k, h, table, keys[x], |table|, w, s)
    {
      var v := DecodeKey(k, h, table, keys[i], |table|, w, s);
      values := values + [v];
    }
    return Built(values);
  }

  /** Encoding, then decoding the same keys with the same parameters. */
  method EncodeThenDecode<K(!new), F(!new)>(
      k: Field<F>, h: RbHash<K>, keys: seq<K>, values: seq<seq<F>>, n: nat, w: nat)
    returns (ok: bool, decoded: seq<seq<F>>)
    requires ParamsOk(k, h, n, w) && (keys == [] || Accepted(keys, values))
    ensures ok <==> keys == [] || !BandsDependent(h, keys, n, w)
    ensures ok ==> decoded == if keys == [] then [] else values
  {
    var e := Encode(k, h, keys, values, n, w);
    if !e.Built? {
      return false, [];
    }
    var s := if keys == [] then 0 else |values[0]|;
    var d := Decode(k, h, e.table, keys, |e.table|, w, s);
    return true, d.table;
  }
}
