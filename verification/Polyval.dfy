/** The field of POLYVAL (section 3 of RFC 8452): polynomials over GF(2) modulo x^128 + x^127 + x^126 + x^121 + 1.

    An element is the sequence of its 128 coefficients.  Multiplication is defined from multiplication by x alone. */
module Polyval {

  const SIZE := 128

  type Poly = seq<bool>

  predicate IsPoly(a: Poly) { |a| == SIZE }

  function Plus(a: Poly, b: Poly): (r: Poly)
    requires IsPoly(a) && IsPoly(b)
    ensures IsPoly(r) && forall i :: 0 <= i < SIZE ==> r[i] == (a[i] != b[i])
  { seq(SIZE, i requires 0 <= i < SIZE => a[i] != b[i]) }

  function Zero(): (r: Poly)
    ensures IsPoly(r) && forall i :: 0 <= i < SIZE ==> !r[i]
  { seq(SIZE, _ => false) }

  /** x^i for i below 128. */
  function Unit(i: nat): (r: Poly)
    ensures IsPoly(r) && forall j :: 0 <= j < SIZE ==> r[j] == (i == j)
  { seq(SIZE, j => i == j) }

  /** a * x: the coefficients move up by one; x^128 is x^127 + x^126 + x^121 + 1. */
  function TimesX(a: Poly): (r: Poly)
    requires IsPoly(a)
    ensures IsPoly(r)
    ensures forall i :: 0 <= i < SIZE ==>
      r[i] == ((i > 0 && a[i - 1]) != (a[SIZE - 1] && (i == 0 || i == 121 || i == 126 || i == 127)))
  {
    seq(SIZE, i requires 0 <= i < SIZE =>
      (i > 0 && a[i - 1]) != (a[SIZE - 1] && (i == 0 || i == 121 || i == 126 || i == 127)))
  }

  /** a * x^n */
  function TimesXn(a: Poly, n: nat): (r: Poly)
    requires IsPoly(a)
    ensures IsPoly(r)
  {
    if n == 0 then a else TimesX(TimesXn(a, n - 1))
  }

  /** The sum of b * x^i over the coefficients i of a below n. */
  function ProductTo(a: Poly, b: Poly, n: nat): (r: Poly)
    requires IsPoly(a) && IsPoly(b) && n <= SIZE
    ensures IsPoly(r)
  {
    if n == 0 then Zero()
    else if a[n - 1] then Plus(ProductTo(a, b, n - 1), TimesXn(b, n - 1))
    else ProductTo(a, b, n - 1)
  }

  function Product(a: Poly, b: Poly): (r: Poly)
    requires IsPoly(a) && IsPoly(b)
    ensures IsPoly(r)
  {
    ProductTo(a, b, SIZE)
  }

  // ------------------------------------------------- sums

  lemma {:induction false} PlusLaws(a: Poly, b: Poly)
    requires IsPoly(a) && IsPoly(b)
    ensures Plus(a, Zero()) == a && Plus(a, a) == Zero() && Plus(a, b) == Plus(b, a) && Plus(Plus(a, b), b) == a
  {
  }

  lemma {:induction false} PlusSwap(a: Poly, b: Poly, c: Poly, d: Poly)
    requires IsPoly(a) && IsPoly(b) && IsPoly(c) && IsPoly(d)
    ensures Plus(Plus(a, b), Plus(c, d)) == Plus(Plus(a, c), Plus(b, d))
  {
  }

  lemma {:induction false} TimesXPlus(a: Poly, b: Poly)
    requires IsPoly(a) && IsPoly(b)
    ensures TimesX(Plus(a, b)) == Plus(TimesX(a), TimesX(b)) && TimesX(Zero()) == Zero()
  {
  }

  lemma {:induction false} TimesXnPlus(a: Poly, b: Poly, n: nat)
    requires IsPoly(a) && IsPoly(b)
    ensures TimesXn(Plus(a, b), n) == Plus(TimesXn(a, n), TimesXn(b, n))
  {
    if n > 0 {
      TimesXnPlus(a, b, n - 1);
      TimesXPlus(TimesXn(a, n - 1), TimesXn(b, n - 1));
    }
  }

  lemma {:induction false} TimesXnAdd(a: Poly, m: nat, n: nat)
    requires IsPoly(a)
    ensures TimesXn(TimesXn(a, m), n) == TimesXn(a, m + n)
  {
    if n > 0 { TimesXnAdd(a, m, n - 1); }
  }

  lemma {:induction false} UnitIsPower(i: nat)
    requires i < SIZE
    ensures TimesXn(Unit(0), i) == Unit(i)
  {
    if i > 0 { UnitIsPower(i - 1); }
  }

  // ------------------------------------------------- products are linear on both sides

  lemma {:induction false} ProductPlusLeft(a: Poly, a': Poly, b: Poly, n: nat)
    requires IsPoly(a) && IsPoly(a') && IsPoly(b) && n <= SIZE
    ensures ProductTo(Plus(a, a'), b, n) == Plus(ProductTo(a, b, n), ProductTo(a', b, n))
  {
    if n > 0 {
      ProductPlusLeft(a, a', b, n - 1);
      LeftStep(ProductTo(a, b, n - 1), ProductTo(a', b, n - 1), TimesXn(b, n - 1));
    }
  }

  lemma {:induction false} LeftStep(p: Poly, q: Poly, t: Poly)
    requires IsPoly(p) && IsPoly(q) && IsPoly(t)
    ensures Plus(Plus(p, t), q) == Plus(Plus(p, q), t) == Plus(p, Plus(q, t))
    ensures Plus(Plus(p, t), Plus(q, t)) == Plus(p, q)
  {
  }

  lemma {:induction false} ProductPlusRight(a: Poly, b: Poly, b': Poly, n: nat)
    requires IsPoly(a) && IsPoly(b) && IsPoly(b') && n <= SIZE
    ensures ProductTo(a, Plus(b, b'), n) == Plus(ProductTo(a, b, n), ProductTo(a, b', n))
  {
    if n == 0 {
      PlusLaws(Zero(), Zero());
    } else {
      ProductPlusRight(a, b, b', n - 1);
      TimesXnPlus(b, b', n - 1);
      PlusSwap(ProductTo(a, b, n - 1), ProductTo(a, b', n - 1), TimesXn(b, n - 1), TimesXn(b', n - 1));
    }
  }

  lemma {:induction false} TimesXnOfX(b: Poly, n: nat)
    requires IsPoly(b)
    ensures TimesXn(TimesX(b), n) == TimesX(TimesXn(b, n))
  {
    if n > 0 { TimesXnOfX(b, n - 1); }
  }

  /** a * (b * x) == (a * b) * x */
  lemma {:induction false} ProductTimesXRight(a: Poly, b: Poly, n: nat)
    requires IsPoly(a) && IsPoly(b) && n <= SIZE
    ensures ProductTo(a, TimesX(b), n) == TimesX(ProductTo(a, b, n))
  {
    if n == 0 {
      TimesXPlus(Zero(), Zero());
    } else {
      ProductTimesXRight(a, b, n - 1);
      TimesXnOfX(b, n - 1);
      TimesXPlus(ProductTo(a, b, n - 1), TimesXn(b, n - 1));
    }
  }

  /** The coefficients of a below n. */
  ghost function Low(a: Poly, n: nat): (r: Poly)
    requires IsPoly(a)
    ensures IsPoly(r) && forall i :: 0 <= i < SIZE ==> r[i] == (i < n && a[i])
  { seq(SIZE, i requires 0 <= i < SIZE => i < n && a[i]) }

  lemma {:induction false} LowStep(a: Poly, n: nat)
    requires IsPoly(a) && n < SIZE
    ensures Low(a, n + 1) == if a[n] then Plus(Low(a, n), Unit(n)) else Low(a, n)
    ensures Low(a, 0) == Zero() && Low(a, SIZE) == a
  {
  }

  lemma {:induction false} ProductOneTo(a: Poly, n: nat)
    requires IsPoly(a) && n <= SIZE
    ensures ProductTo(a, Unit(0), n) == Low(a, n)
  {
    if n == 0 {
      LowStep(a, 0);
    } else {
      ProductOneTo(a, n - 1);
      UnitIsPower(n - 1);
      LowStep(a, n - 1);
    }
  }

  /** a * 1 == a */
  lemma {:induction false} ProductOne(a: Poly)
    requires IsPoly(a)
    ensures Product(a, Unit(0)) == a
  {
    ProductOneTo(a, SIZE);
    LowStep(a, 0);
  }

  lemma {:induction false} ProductZero(a: Poly, n: nat)
    requires IsPoly(a) && n <= SIZE
    ensures ProductTo(a, Zero(), n) == Zero()
  {
    ProductPlusRight(a, Zero(), Zero(), n);
    PlusLaws(Zero(), Zero());
    PlusLaws(ProductTo(a, Zero(), n), Zero());
  }

  // ------------------------------------------------- multiplying by x on the left

  lemma {:induction false} LeftShiftAtUnit(a: Poly, j: nat)
    requires IsPoly(a) && j < SIZE
    ensures Product(TimesX(a), Unit(j)) == TimesX(Product(a, Unit(j)))
  {
    UnitIsPower(j);
    if j == 0 {
      ProductOne(a);
      ProductOne(TimesX(a));
    } else {
      LeftShiftAtUnit(a, j - 1);
      UnitIsPower(j - 1);
      ProductTimesXRight(a, Unit(j - 1), SIZE);
      ProductTimesXRight(TimesX(a), Unit(j - 1), SIZE);
    }
  }

  lemma {:induction false} LeftShiftAtLow(a: Poly, b: Poly, n: nat)
    requires IsPoly(a) && IsPoly(b) && n <= SIZE
    ensures Product(TimesX(a), Low(b, n)) == TimesX(Product(a, Low(b, n)))
  {
    if n == 0 {
      LowStep(b, 0);
      ProductZero(a, SIZE);
      ProductZero(TimesX(a), SIZE);
      TimesXPlus(Zero(), Zero());
    } else {
      LeftShiftAtLow(a, b, n - 1);
      LowStep(b, n - 1);
      LeftShiftAtUnit(a, n - 1);
      ProductPlusRight(a, Low(b, n - 1), Unit(n - 1), SIZE);
      ProductPlusRight(TimesX(a), Low(b, n - 1), Unit(n - 1), SIZE);
      TimesXPlus(Product(a, Low(b, n - 1)), Product(a, Unit(n - 1)));
    }
  }

  /** (a * x) * b == (a * b) * x */
  lemma {:induction false} ProductTimesXLeft(a: Poly, b: Poly)
    requires IsPoly(a) && IsPoly(b)
    ensures Product(TimesX(a), b) == TimesX(Product(a, b))
  {
    LeftShiftAtLow(a, b, SIZE);
    LowStep(b, 0);
  }

  lemma {:induction false} ProductTimesXnLeft(a: Poly, b: Poly, n: nat)
    requires IsPoly(a) && IsPoly(b)
    ensures Product(TimesXn(a, n), b) == TimesXn(Product(a, b), n)
  {
    if n > 0 {
      ProductTimesXnLeft(a, b, n - 1);
      ProductTimesXLeft(TimesXn(a, n - 1), b);
    }
  }

  lemma {:induction false} AssociativeTo(a: Poly, b: Poly, c: Poly, n: nat)
    requires IsPoly(a) && IsPoly(b) && IsPoly(c) && n <= SIZE
    ensures Product(ProductTo(a, b, n), c) == ProductTo(a, Product(b, c), n)
  {
    if n == 0 {
      ZeroProduct(c, SIZE);
    } else {
      AssociativeTo(a, b, c, n - 1);
      ProductPlusLeft(ProductTo(a, b, n - 1), TimesXn(b, n - 1), c, SIZE);
      ProductTimesXnLeft(b, c, n - 1);
    }
  }

  lemma {:induction false} ZeroProduct(b: Poly, n: nat)
    requires IsPoly(b) && n <= SIZE
    ensures ProductTo(Zero(), b, n) == Zero()
  {
    if n > 0 { ZeroProduct(b, n - 1); }
  }

  /** (a * b) * c == a * (b * c) */
  lemma {:induction false} Associative(a: Poly, b: Poly, c: Poly)
    requires IsPoly(a) && IsPoly(b) && IsPoly(c)
    ensures Product(Product(a, b), c) == Product(a, Product(b, c))
  {
    AssociativeTo(a, b, c, SIZE);
  }

  // ------------------------------------------------- reduction

  function Sum4(a: Poly, b: Poly, c: Poly, d: Poly): (r: Poly)
    requires IsPoly(a) && IsPoly(b) && IsPoly(c) && IsPoly(d)
    ensures IsPoly(r) && forall i :: 0 <= i < SIZE ==> r[i] == ((a[i] != b[i]) != (c[i] != d[i]))
  {
    Plus(Plus(a, b), Plus(c, d))
  }

  lemma {:induction false} Sum4TimesX(a: Poly, b: Poly, c: Poly, d: Poly)
    requires IsPoly(a) && IsPoly(b) && IsPoly(c) && IsPoly(d)
    ensures TimesX(Sum4(a, b, c, d)) == Sum4(TimesX(a), TimesX(b), TimesX(c), TimesX(d))
  {
    TimesXPlus(Plus(a, b), Plus(c, d));
    TimesXPlus(a, b);
    TimesXPlus(c, d);
  }

  ghost predicate Reduces(top: Poly, p127: Poly, p126: Poly, p121: Poly, p0: Poly) {
    IsPoly(p127) && IsPoly(p126) && IsPoly(p121) && IsPoly(p0) && top == Sum4(p127, p126, p121, p0)
  }

  lemma {:induction false} ReductionStep(top: Poly, p127: Poly, p126: Poly, p121: Poly, p0: Poly)
    requires Reduces(top, p127, p126, p121, p0)
    ensures Reduces(TimesX(top), TimesX(p127), TimesX(p126), TimesX(p121), TimesX(p0))
  {
    Sum4TimesX(p127, p126, p121, p0);
  }

  lemma {:induction false} ReductionAtZero()
    ensures Reduces(TimesX(Unit(127)), Unit(127), Unit(126), Unit(121), Unit(0))
  {
  }

  /** The powers of x, as a sequence of elements each of which is x times the one before. */
  ghost predicate StepsAt(p: nat -> Poly, d: nat) { IsPoly(p(d)) && p(d + 1) == TimesX(p(d)) }

  ghost predicate ArePowers(p: nat -> Poly) {
    p(0) == Unit(0) && forall d {:trigger StepsAt(p, d)} :: StepsAt(p, d)
  }

  lemma {:induction false} PowersAreUnits(p: nat -> Poly, i: nat)
    requires ArePowers(p) && i < SIZE
    ensures p(i) == Unit(i)
  {
    if i > 0 {
      PowersAreUnits(p, i - 1);
      assert StepsAt(p, i - 1);
    }
  }

  /** x^(128 + e) == x^(127 + e) + x^(126 + e) + x^(121 + e) + x^e */
  lemma {:induction false} Reduction(p: nat -> Poly, e: nat)
    requires ArePowers(p)
    ensures Reduces(p(e + 128), p(e + 127), p(e + 126), p(e + 121), p(e))
  {
    if e > 0 {
      Reduction(p, e - 1);
      ReductionStep(p(e + 127), p(e + 126), p(e + 125), p(e + 120), p(e - 1));
      assert StepsAt(p, e + 127) && StepsAt(p, e + 126) && StepsAt(p, e + 125) && StepsAt(p, e + 120) &&
        StepsAt(p, e - 1);
    } else {
      ReductionBase(p);
    }
  }

  lemma {:induction false} ReductionBase(p: nat -> Poly)
    requires ArePowers(p)
    ensures Reduces(p(128), p(127), p(126), p(121), p(0))
  {
    PowersAreUnits(p, 127);
    PowersAreUnits(p, 126);
    PowersAreUnits(p, 121);
    assert StepsAt(p, 127);
    ReductionAtZero();
  }

  const POWERS: nat -> Poly := (d: nat) => TimesXn(Unit(0), d)

  lemma {:induction false} PowersOk()
    ensures ArePowers(POWERS)
  {
  }

  /** x^-128: its product with x^128 is one. */
  function InverseOfX128(): (r: Poly)
    ensures IsPoly(r)
  {
    seq(SIZE, i => i == 0 || i == 114 || i == 121 || i == 124 || i == 127)
  }

  lemma {:induction false} InverseAsPowers()
    ensures InverseOfX128() == Plus(Unit(0), Sum4(Unit(114), Unit(121), Unit(124), Unit(127)))
  {
  }

  lemma {:induction false} UnitTimesXn(p: nat -> Poly, i: nat, n: nat)
    requires ArePowers(p) && i < SIZE
    ensures TimesXn(Unit(i), n) == p(n + i) && IsPoly(p(n + i))
  {
    assert StepsAt(p, n + i);
    if n == 0 {
      PowersAreUnits(p, i);
    } else {
      UnitTimesXn(p, i, n - 1);
      assert StepsAt(p, n - 1 + i);
    }
  }

  lemma {:induction false} SumTimesXn(e: Poly, a: Poly, b: Poly, c: Poly, d: Poly, n: nat)
    requires IsPoly(e) && IsPoly(a) && IsPoly(b) && IsPoly(c) && IsPoly(d)
    ensures TimesXn(Plus(e, Sum4(a, b, c, d)), n)
      == Plus(TimesXn(e, n), Sum4(TimesXn(a, n), TimesXn(b, n), TimesXn(c, n), TimesXn(d, n)))
  {
    TimesXnPlus(e, Sum4(a, b, c, d), n);
    TimesXnPlus(Plus(a, b), Plus(c, d), n);
    TimesXnPlus(a, b, n);
    TimesXnPlus(c, d, n);
  }

  lemma {:induction false} InversePowers(p: nat -> Poly, n: nat)
    requires ArePowers(p)
    ensures IsPoly(p(n)) && IsPoly(p(n + 114)) && IsPoly(p(n + 121)) && IsPoly(p(n + 124)) && IsPoly(p(n + 127))
    ensures TimesXn(InverseOfX128(), n) == Plus(p(n), Sum4(p(n + 114), p(n + 121), p(n + 124), p(n + 127)))
  {
    InverseAsPowers();
    SumTimesXn(Unit(0), Unit(114), Unit(121), Unit(124), Unit(127), n);
    UnitTimesXn(p, 0, n);
    UnitTimesXn(p, 114, n);
    UnitTimesXn(p, 121, n);
    UnitTimesXn(p, 124, n);
    UnitTimesXn(p, 127, n);
  }

  lemma {:induction false} PowersCancel(p: nat -> Poly)
    requires ArePowers(p)
    ensures IsPoly(p(128)) && IsPoly(p(242)) && IsPoly(p(249)) && IsPoly(p(252)) && IsPoly(p(255))
    ensures Plus(p(128), Sum4(p(242), p(249), p(252), p(255))) == Unit(0)
  {
    Reduction(p, 0);
    Reduction(p, 127);
    Reduction(p, 126);
    Reduction(p, 121);
    Cancelled(p(0), p(121), p(126), p(127), p(128), p(242), p(247), p(248), p(249), p(252), p(253), p(254), p(255));
  }

  lemma {:induction false} InverseIsInverse()
    ensures TimesXn(InverseOfX128(), SIZE) == Unit(0)
  {
    PowersOk();
    InversePowers(POWERS, SIZE);
    PowersCancel(POWERS);
  }

  lemma {:induction false} Cancelled(
      p0: Poly, p121: Poly, p126: Poly, p127: Poly, p128: Poly, p242: Poly, p247: Poly, p248: Poly, p249: Poly,
      p252: Poly, p253: Poly, p254: Poly, p255: Poly)
    requires IsPoly(p0) && IsPoly(p121) && IsPoly(p126) && IsPoly(p127) && IsPoly(p128) && IsPoly(p242) && IsPoly(p247)
    requires IsPoly(p248) && IsPoly(p249) && IsPoly(p252) && IsPoly(p253) && IsPoly(p254) && IsPoly(p255)
    requires Reduces(p128, p127, p126, p121, p0) && Reduces(p255, p254, p253, p248, p127)
    requires Reduces(p254, p253, p252, p247, p126) && Reduces(p249, p248, p247, p242, p121)
    ensures Plus(p128, Sum4(p242, p249, p252, p255)) == p0
  {
  }
}
