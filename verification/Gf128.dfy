/** GF(2^128) as four big-endian words (gf128.c): doubling in both bit orders, addition and
    the 128-step shift-and-add product of section 6.3 of NIST SP 800-38D. */
module Gf128 {
  import opened Bitops

  datatype Gf = Gf(w0: bv32, w1: bv32, w2: bv32, w3: bv32)

  const ZERO := Gf(0, 0, 0, 0)

  /** The field's one: the polynomial 1 is the leftmost bit. */
  const ONE := Gf(0x8000_0000, 0, 0, 0)

  function Add(x: Gf, y: Gf): Gf {
    Gf(Xor32(x.w0, y.w0), Xor32(x.w1, y.w1), Xor32(x.w2, y.w2), Xor32(x.w3, y.w3))
  }

  function Half(w: bv32): bv32 { w >> 1 }
  function CarryDown(w: bv32): bv32 { w << 31 }
  function Reduction(w: bv32): bv32 { (0 - (w & 1)) & 0xe100_0000 }

  /** Multiplication by x: one place to the right, reducing by 1 + x + x^2 + x^7 + x^128. */
  function DoubleLe(v: Gf): Gf {
    Gf(Xor32(Half(v.w0), Reduction(v.w3)),
       Xor32(Half(v.w1), CarryDown(v.w0)),
       Xor32(Half(v.w2), CarryDown(v.w1)),
       Xor32(Half(v.w3), CarryDown(v.w2)))
  }

  /** The coefficient of the polynomial 1. */
  function Leading(v: Gf): bool { v.w0 & 0x8000_0000 != 0 }

  function Twice(w: bv32): bv32 { w << 1 }
  function CarryUp(w: bv32): bv32 { w >> 31 }

  /** One place to the left, dropping the leading coefficient. */
  function Shift(v: Gf): Gf {
    Gf(Xor32(Twice(v.w0), CarryUp(v.w1)), Xor32(Twice(v.w1), CarryUp(v.w2)),
       Xor32(Twice(v.w2), CarryUp(v.w3)), Twice(v.w3))
  }

  function Scale(b: bool, v: Gf): Gf { if b then v else ZERO }

  // ---- Word facts ----

  lemma HalfLinear(x: bv32, y: bv32)
    ensures Half(Xor32(x, y)) == Xor32(Half(x), Half(y))
  {
  }

  lemma CarryDownLinear(x: bv32, y: bv32)
    ensures CarryDown(Xor32(x, y)) == Xor32(CarryDown(x), CarryDown(y))
  {
  }

  lemma ReductionLinear(x: bv32, y: bv32)
    ensures Reduction(Xor32(x, y)) == Xor32(Reduction(x), Reduction(y))
  {
  }

  lemma ZeroWord(x: bv32)
    ensures Xor32(x, 0) == x && Xor32(x, x) == 0
  {
  }

  lemma AddAssociative(x: Gf, y: Gf, z: Gf)
    ensures Add(Add(x, y), z) == Add(x, Add(y, z))
  {
    hide Xor32;
    XorAssociative(x.w0, y.w0, z.w0);
    XorAssociative(x.w1, y.w1, z.w1);
    XorAssociative(x.w2, y.w2, z.w2);
    XorAssociative(x.w3, y.w3, z.w3);
  }

  lemma AddCommutative(x: Gf, y: Gf)
    ensures Add(x, y) == Add(y, x)
  {
    hide Xor32;
    XorCommutative(x.w0, y.w0);
    XorCommutative(x.w1, y.w1);
    XorCommutative(x.w2, y.w2);
    XorCommutative(x.w3, y.w3);
  }

  lemma AddZero(x: Gf)
    ensures Add(x, ZERO) == x && Add(ZERO, x) == x && Add(x, x) == ZERO
  {
    hide Xor32;
    ZeroWord(x.w0);
    ZeroWord(x.w1);
    ZeroWord(x.w2);
    ZeroWord(x.w3);
    AddCommutative(x, ZERO);
  }

  lemma AddInterchange(p: Gf, q: Gf, r: Gf, s: Gf)
    ensures Add(Add(p, q), Add(r, s)) == Add(Add(p, r), Add(q, s))
  {
    hide Add;
    AddAssociative(p, q, Add(r, s));
    AddAssociative(q, r, s);
    AddCommutative(q, r);
    AddAssociative(r, q, s);
    AddAssociative(p, r, Add(q, s));
  }

  lemma DoubleLinear(x: Gf, y: Gf)
    ensures DoubleLe(Add(x, y)) == Add(DoubleLe(x), DoubleLe(y))
  {
    hide Xor32, Half, CarryDown, Reduction;
    HalfLinear(x.w0, y.w0);
    HalfLinear(x.w1, y.w1);
    HalfLinear(x.w2, y.w2);
    HalfLinear(x.w3, y.w3);
    CarryDownLinear(x.w0, y.w0);
    CarryDownLinear(x.w1, y.w1);
    CarryDownLinear(x.w2, y.w2);
    ReductionLinear(x.w3, y.w3);
    XorInterchange(Half(x.w0), Half(y.w0), Reduction(x.w3), Reduction(y.w3));
    XorInterchange(Half(x.w1), Half(y.w1), CarryDown(x.w0), CarryDown(y.w0));
    XorInterchange(Half(x.w2), Half(y.w2), CarryDown(x.w1), CarryDown(y.w1));
    XorInterchange(Half(x.w3), Half(y.w3), CarryDown(x.w2), CarryDown(y.w2));
  }

  lemma DoubleZero()
    ensures DoubleLe(ZERO) == ZERO
  {
  }

  lemma RestoreWord(prev: bv32, v: bv32, next: bv32)
    ensures Xor32(Half(Xor32(Twice(v), CarryUp(next))), CarryDown(Xor32(Twice(prev), CarryUp(v)))) == v
  {
  }

  lemma RestoreLastWord(prev: bv32, v: bv32)
    ensures Xor32(Half(Twice(v)), CarryDown(Xor32(Twice(prev), CarryUp(v)))) == v
  {
  }

  lemma NoReductionAfterShift(w: bv32)
    ensures Reduction(Twice(w)) == 0
  {
  }

  lemma HalfRestores(v: bv32, next: bv32)
    ensures Half(Xor32(Twice(v), CarryUp(next))) == v & 0x7fff_ffff
  {
  }

  lemma TopBitSplit(v: bv32)
    ensures Xor32(v & 0x8000_0000, Xor32(v & 0x7fff_ffff, 0)) == v
  {
  }

  lemma TopBitValue(v: bv32)
    ensures v & 0x8000_0000 == if v & 0x8000_0000 != 0 then 0x8000_0000 else 0
  {
  }

  /** Horner step: an element is its leading coefficient plus x times the rest. */
  lemma LeadingPlusDouble(v: Gf)
    ensures Add(Scale(Leading(v), ONE), DoubleLe(Shift(v))) == v
  {
    hide Xor32, Half, CarryDown, Reduction, Twice, CarryUp;
    HalfRestores(v.w0, v.w1);
    NoReductionAfterShift(v.w3);
    TopBitSplit(v.w0);
    TopBitValue(v.w0);
    RestoreWord(v.w0, v.w1, v.w2);
    RestoreWord(v.w1, v.w2, v.w3);
    RestoreLastWord(v.w2, v.w3);
    var d := DoubleLe(Shift(v));
    XorCommutative(0, d.w1);
    XorCommutative(0, d.w2);
    XorCommutative(0, d.w3);
    ZeroWord(d.w1);
    ZeroWord(d.w2);
    ZeroWord(d.w3);
  }

  // ---- Iteration ----

  /** x^n v. */
  function Power(n: nat, v: Gf): Gf {
    if n == 0 then v else DoubleLe(Power(n - 1, v))
  }

  function ShiftBy(n: nat, v: Gf): Gf {
    if n == 0 then v else ShiftBy(n - 1, Shift(v))
  }

  /** Coefficient j of an element. */
  function Coefficient(v: Gf, j: nat): bool { Leading(ShiftBy(j, v)) }

  lemma {:induction false} PowerLinear(n: nat, x: Gf, y: Gf)
    ensures Power(n, Add(x, y)) == Add(Power(n, x), Power(n, y))
  {
    hide Add, DoubleLe;
    if n != 0 {
      PowerLinear(n - 1, x, y);
      DoubleLinear(Power(n - 1, x), Power(n - 1, y));
    }
  }

  lemma {:induction false} PowerZero(n: nat)
    ensures Power(n, ZERO) == ZERO
  {
    if n != 0 {
      PowerZero(n - 1);
      DoubleZero();
    }
  }

  lemma {:induction false} PowerCompose(m: nat, n: nat, v: Gf)
    ensures Power(m, Power(n, v)) == Power(m + n, v)
  {
    hide DoubleLe;
    if m != 0 {
      PowerCompose(m - 1, n, v);
    }
  }

  lemma PowerScale(n: nat, b: bool, v: Gf)
    ensures Power(n, Scale(b, v)) == Scale(b, Power(n, v))
  {
    hide DoubleLe;
    PowerZero(n);
  }

  lemma {:induction false} ShiftByCompose(m: nat, n: nat, v: Gf)
    ensures ShiftBy(n, ShiftBy(m, v)) == ShiftBy(m + n, v)
  {
    hide Shift;
    if m != 0 {
      ShiftByCompose(m - 1, n, Shift(v));
    }
  }

  function Shift2(v: Gf): Gf {
    Gf(Xor32(v.w0 << 2, v.w1 >> 30), Xor32(v.w1 << 2, v.w2 >> 30), Xor32(v.w2 << 2, v.w3 >> 30), v.w3 << 2)
  }

  function Shift4(v: Gf): Gf {
    Gf(Xor32(v.w0 << 4, v.w1 >> 28), Xor32(v.w1 << 4, v.w2 >> 28), Xor32(v.w2 << 4, v.w3 >> 28), v.w3 << 4)
  }

  function Shift8(v: Gf): Gf {
    Gf(Xor32(v.w0 << 8, v.w1 >> 24), Xor32(v.w1 << 8, v.w2 >> 24), Xor32(v.w2 << 8, v.w3 >> 24), v.w3 << 8)
  }

  function Shift16(v: Gf): Gf {
    Gf(Xor32(v.w0 << 16, v.w1 >> 16), Xor32(v.w1 << 16, v.w2 >> 16), Xor32(v.w2 << 16, v.w3 >> 16), v.w3 << 16)
  }

  lemma TwoShifts(v: Gf)
    ensures Shift(Shift(v)) == Shift2(v)
  {
  }

  lemma FourShifts(v: Gf)
    ensures Shift2(Shift2(v)) == Shift4(v)
  {
  }

  lemma EightShifts(v: Gf)
    ensures Shift4(Shift4(v)) == Shift8(v)
  {
  }

  lemma SixteenShifts(v: Gf)
    ensures Shift8(Shift8(v)) == Shift16(v)
  {
  }

  lemma WordShift(v: Gf)
    ensures Shift16(Shift16(v)) == Gf(v.w1, v.w2, v.w3, 0)
  {
  }

  lemma ShiftByWord(v: Gf)
    ensures ShiftBy(32, v) == Gf(v.w1, v.w2, v.w3, 0)
  {
    hide Shift, Shift2, Shift4, Shift8, Shift16;
    forall u ensures ShiftBy(2, u) == Shift2(u) { TwoShifts(u); assert ShiftBy(1, Shift(u)) == Shift(Shift(u)); }
    forall u ensures ShiftBy(4, u) == Shift4(u) { FourShifts(u); ShiftByCompose(2, 2, u); }
    forall u ensures ShiftBy(8, u) == Shift8(u) { EightShifts(u); ShiftByCompose(4, 4, u); }
    forall u ensures ShiftBy(16, u) == Shift16(u) { SixteenShifts(u); ShiftByCompose(8, 8, u); }
    WordShift(v);
    ShiftByCompose(16, 16, v);
  }

  lemma ShiftedOut(v: Gf)
    ensures ShiftBy(128, v) == ZERO
  {
    hide Shift;
    ShiftByWord(v);
    ShiftByWord(ShiftBy(32, v));
    ShiftByWord(ShiftBy(64, v));
    ShiftByWord(ShiftBy(96, v));
    ShiftByCompose(32, 32, v);
    ShiftByCompose(64, 32, v);
    ShiftByCompose(96, 32, v);
  }

  // ---- Sums ----

  function Sum(n: nat, f: nat -> Gf): Gf {
    if n == 0 then ZERO else Add(Sum(n - 1, f), f(n - 1))
  }

  lemma {:induction false} SumEqual(n: nat, f: nat -> Gf, g: nat -> Gf)
    requires forall i :: 0 <= i < n ==> f(i) == g(i)
    ensures Sum(n, f) == Sum(n, g)
  {
    if n != 0 {
      SumEqual(n - 1, f, g);
    }
  }

  lemma {:induction false} SumAdd(n: nat, f: nat -> Gf, g: nat -> Gf)
    ensures Sum(n, (i: nat) => Add(f(i), g(i))) == Add(Sum(n, f), Sum(n, g))
  {
    hide Add;
    if n == 0 {
      AddZero(ZERO);
    } else {
      SumAdd(n - 1, f, g);
      AddInterchange(Sum(n - 1, f), Sum(n - 1, g), f(n - 1), g(n - 1));
    }
  }

  lemma {:induction false} SumZero(n: nat)
    ensures Sum(n, (i: nat) => ZERO) == ZERO
  {
    hide Add;
    if n != 0 {
      SumZero(n - 1);
      AddZero(ZERO);
    }
  }

  lemma {:induction false} ScaleSum(b: bool, n: nat, f: nat -> Gf)
    ensures Scale(b, Sum(n, f)) == Sum(n, (i: nat) => Scale(b, f(i)))
  {
    hide Add;
    if b {
      SumEqual(n, f, (i: nat) => Scale(b, f(i)));
    } else {
      var zeros := (i: nat) => ZERO;
      SumZero(n);
      var scaled := (i: nat) => Scale(b, f(i));
      forall i: nat | i < n ensures zeros(i) == scaled(i) {
        assert scaled(i) == Scale(b, f(i));
      }
      SumEqual(n, zeros, scaled);
    }
  }

  lemma {:induction false} PowerSum(k: nat, n: nat, f: nat -> Gf)
    ensures Power(k, Sum(n, f)) == Sum(n, (i: nat) => Power(k, f(i)))
  {
    hide Add, DoubleLe;
    if n == 0 {
      PowerZero(k);
    } else {
      PowerSum(k, n - 1, f);
      PowerLinear(k, Sum(n - 1, f), f(n - 1));
    }
  }

  function RowSums(n: nat, f: (nat, nat) -> Gf): nat -> Gf {
    (i: nat) => Sum(n, (j: nat) => f(i, j))
  }

  function DoubleSum(m: nat, n: nat, f: (nat, nat) -> Gf): Gf { Sum(m, RowSums(n, f)) }

  function Flip(f: (nat, nat) -> Gf): (nat, nat) -> Gf { (i: nat, j: nat) => f(j, i) }

  lemma DoubleSumEqual(m: nat, n: nat, f: (nat, nat) -> Gf, g: (nat, nat) -> Gf)
    requires forall i: nat, j: nat :: i < m && j < n ==> f(i, j) == g(i, j)
    ensures DoubleSum(m, n, f) == DoubleSum(m, n, g)
  {
    hide Sum;
    forall i: nat | i < m ensures RowSums(n, f)(i) == RowSums(n, g)(i) {
      SumEqual(n, (j: nat) => f(i, j), (j: nat) => g(i, j));
    }
    SumEqual(m, RowSums(n, f), RowSums(n, g));
  }

  /** Interchange of summation. */
  lemma {:induction false} SumSwap(m: nat, n: nat, f: (nat, nat) -> Gf)
    ensures DoubleSum(m, n, f) == DoubleSum(n, m, Flip(f))
  {
    hide Add;
    var columns := RowSums(m, Flip(f));
    if m == 0 {
      var zeros := (j: nat) => ZERO;
      SumZero(n);
      SumEqual(n, zeros, columns);
    } else {
      SumSwap(m - 1, n, f);
      var inner := RowSums(m - 1, Flip(f));
      var last := (j: nat) => f(m - 1, j);
      SumAdd(n, inner, last);
      SumEqual(n, (j: nat) => Add(inner(j), last(j)), columns);
    }
  }

  // ---- The product ----

  /** The 128-step loop: add V where x has a coefficient, double V, move on. */
  function MulSteps(x: Gf, v: Gf, n: nat): Gf
    decreases n
  {
    if n == 0 then ZERO
    else Add(Scale(Leading(x), v), MulSteps(Shift(x), DoubleLe(v), n - 1))
  }

  function Mul(x: Gf, y: Gf): Gf { MulSteps(x, y, 128) }

  /** The loop's terms, by position. */
  function Term(x: Gf, y: Gf): nat -> Gf {
    (i: nat) => Scale(Coefficient(x, i), Power(i, y))
  }

  lemma {:induction false} SumFirst(n: nat, f: nat -> Gf)
    ensures Sum(n + 1, f) == Add(f(0), Sum(n, (i: nat) => f(i + 1)))
  {
    hide Add;
    if n == 0 {
      assert Sum(1, f) == Add(Sum(0, f), f(0));
      AddZero(f(0));
    } else {
      SumFirst(n - 1, f);
      AddAssociative(f(0), Sum(n - 1, (i: nat) => f(i + 1)), f(n));
    }
  }

  lemma TermShift(x: Gf, v: Gf, i: nat)
    ensures Term(Shift(x), DoubleLe(v))(i) == Term(x, v)(i + 1)
  {
    hide Add, DoubleLe, Shift, Leading;
    PowerCompose(i, 1, v);
    assert Power(1, v) == DoubleLe(Power(0, v));
  }

  lemma {:induction false} MulStepsIsSum(x: Gf, v: Gf, n: nat)
    ensures MulSteps(x, v, n) == Sum(n, Term(x, v))
    decreases n
  {
    hide Add, DoubleLe, Shift, Leading, Coefficient;
    if n != 0 {
      MulStepsIsSum(Shift(x), DoubleLe(v), n - 1);
      SumFirst(n - 1, Term(x, v));
      FirstTerm(x, v);
      ShiftedSum(x, v, n - 1);
    }
  }

  lemma ShiftedSum(x: Gf, v: Gf, n: nat)
    ensures Sum(n, Term(Shift(x), DoubleLe(v))) == Sum(n, (i: nat) => Term(x, v)(i + 1))
  {
    hide Add, DoubleLe, Shift, Leading, Coefficient, Sum;
    var rest := Term(Shift(x), DoubleLe(v));
    var tail := (i: nat) => Term(x, v)(i + 1);
    forall i: nat | i < n ensures rest(i) == tail(i) {
      TermShift(x, v, i);
    }
    SumEqual(n, rest, tail);
  }

  lemma FirstTerm(x: Gf, v: Gf)
    ensures Term(x, v)(0) == Scale(Leading(x), v)
  {
    hide Leading;
  }

  lemma {:induction false} PartialDecomposition(v: Gf, n: nat)
    ensures v == Add(Sum(n, Term(v, ONE)), Power(n, ShiftBy(n, v)))
  {
    hide Add, DoubleLe, Shift, Leading;
    if n == 0 {
      AddZero(v);
    } else {
      PartialDecomposition(v, n - 1);
      var rest := ShiftBy(n - 1, v);
      LeadingPlusDouble(rest);
      PowerLinear(n - 1, Scale(Leading(rest), ONE), DoubleLe(Shift(rest)));
      PowerScale(n - 1, Leading(rest), ONE);
      ShiftByCompose(n - 1, 1, v);
      assert ShiftBy(1, rest) == ShiftBy(0, Shift(rest));
      PowerCompose(n - 1, 1, Shift(rest));
      assert Power(1, Shift(rest)) == DoubleLe(Power(0, Shift(rest)));
      AddAssociative(Sum(n - 1, Term(v, ONE)), Term(v, ONE)(n - 1), Power(n, ShiftBy(n, v)));
    }
  }

  /** Every element is the sum of its coefficients times the powers of x. */
  lemma Decomposition(v: Gf)
    ensures v == Sum(128, Term(v, ONE))
  {
    hide Add;
    PartialDecomposition(v, 128);
    ShiftedOut(v);
    PowerZero(128);
    AddZero(Sum(128, Term(v, ONE)));
  }

  /** The (i, j) entry of the double sum: x_i y_j times x^(i + j). */
  function Entry(x: Gf, y: Gf, i: nat, j: nat): Gf {
    Scale(Coefficient(x, i), Scale(Coefficient(y, j), Power(i + j, ONE)))
  }

  function Entries(x: Gf, y: Gf): (nat, nat) -> Gf { (i: nat, j: nat) => Entry(x, y, i, j) }

  /** cf_gf128_mul computes the symmetric double sum over bit positions. */
  lemma MulIsDoubleSum(x: Gf, y: Gf)
    ensures Mul(x, y) == DoubleSum(128, 128, Entries(x, y))
  {
    hide Sum, Entry, Mul, Term;
    MulIsTerms(x, y);
    forall i: nat | i < 128 ensures Term(x, y)(i) == RowSums(128, Entries(x, y))(i) {
      TermIsRow(x, y, i);
    }
    SumEqual(128, Term(x, y), RowSums(128, Entries(x, y)));
  }

  lemma EntrySymmetric(x: Gf, y: Gf, i: nat, j: nat)
    ensures Entry(x, y, i, j) == Entry(y, x, j, i)
  {
  }

  lemma EntryIsScaledTerm(x: Gf, y: Gf, i: nat, j: nat)
    ensures Scale(Coefficient(x, i), Power(i, Term(y, ONE)(j))) == Entry(x, y, i, j)
  {
    hide DoubleLe, Coefficient;
    PowerScale(i, Coefficient(y, j), Power(j, ONE));
    PowerCompose(i, j, ONE);
  }

  lemma TermIsRow(x: Gf, y: Gf, i: nat)
    ensures Term(x, y)(i) == RowSums(128, Entries(x, y))(i)
  {
    hide Add, DoubleLe, Coefficient, Sum, Entry, Scale, Power;
    Decomposition(y);
    PowerSum(i, 128, Term(y, ONE));
    var powers := (j: nat) => Power(i, Term(y, ONE)(j));
    ScaleSum(Coefficient(x, i), 128, powers);
    var scaled := (j: nat) => Scale(Coefficient(x, i), powers(j));
    var entries := (j: nat) => Entries(x, y)(i, j);
    forall j: nat | j < 128 ensures scaled(j) == entries(j) {
      EntryIsScaledTerm(x, y, i, j);
      assert powers(j) == Power(i, Term(y, ONE)(j));
      assert scaled(j) == Scale(Coefficient(x, i), powers(j));
      assert Entries(x, y)(i, j) == Entry(x, y, i, j);
      assert entries(j) == Entries(x, y)(i, j);
    }
    SumEqual(128, scaled, entries);
  }

  lemma MulCommutative(x: Gf, y: Gf)
    ensures Mul(x, y) == Mul(y, x)
  {
    hide DoubleSum, Entry, Mul;
    MulIsDoubleSum(x, y);
    MulIsDoubleSum(y, x);
    SumSwap(128, 128, Entries(x, y));
    forall i: nat, j: nat | i < 128 && j < 128 ensures Flip(Entries(x, y))(i, j) == Entries(y, x)(i, j) {
      EntrySymmetric(x, y, j, i);
    }
    DoubleSumEqual(128, 128, Flip(Entries(x, y)), Entries(y, x));
  }

  lemma MulLinearRight(x: Gf, y: Gf, z: Gf)
    ensures Mul(x, Add(y, z)) == Add(Mul(x, y), Mul(x, z))
  {
    hide Add, DoubleLe, Shift, Leading;
    MulStepsIsSum(x, Add(y, z), 128);
    MulStepsIsSum(x, y, 128);
    MulStepsIsSum(x, z, 128);
    SumAdd(128, Term(x, y), Term(x, z));
    var sums := (i: nat) => Add(Term(x, y)(i), Term(x, z)(i));
    forall i: nat | i < 128 ensures Term(x, Add(y, z))(i) == sums(i) {
      PowerLinear(i, y, z);
      AddZero(ZERO);
    }
    SumEqual(128, Term(x, Add(y, z)), sums);
  }

  /** The product is bilinear over XOR. */
  lemma MulLinearLeft(x: Gf, y: Gf, z: Gf)
    ensures Mul(Add(x, y), z) == Add(Mul(x, z), Mul(y, z))
  {
    hide Add, Mul;
    MulCommutative(Add(x, y), z);
    MulLinearRight(z, x, y);
    MulCommutative(x, z);
    MulCommutative(y, z);
  }

  lemma MulOne(x: Gf)
    ensures Mul(ONE, x) == x
  {
    hide Add, Mul;
    MulCommutative(ONE, x);
    MulIsTerms(x, ONE);
    Decomposition(x);
  }

  lemma MulIsTerms(x: Gf, y: Gf)
    ensures Mul(x, y) == Sum(128, Term(x, y))
  {
    hide Add;
    MulStepsIsSum(x, y, 128);
  }

  lemma MulPower(x: Gf, k: nat, y: Gf)
    ensures Mul(x, Power(k, y)) == Power(k, Mul(x, y))
  {
    hide Add, DoubleLe, Mul, Shift, Leading;
    MulIsTerms(x, y);
    MulIsTerms(x, Power(k, y));
    PowerSum(k, 128, Term(x, y));
    var powers := (i: nat) => Power(k, Term(x, y)(i));
    forall i: nat | i < 128 ensures Term(x, Power(k, y))(i) == powers(i) {
      PowerScale(k, Coefficient(x, i), Power(i, y));
      PowerCompose(k, i, y);
      PowerCompose(i, k, y);
    }
    SumEqual(128, Term(x, Power(k, y)), powers);
  }

  lemma {:induction false} MulSum(z: Gf, n: nat, f: nat -> Gf)
    ensures Mul(z, Sum(n, f)) == Sum(n, (i: nat) => Mul(z, f(i)))
  {
    hide Add, Mul;
    if n == 0 {
      MulLinearRight(z, ZERO, ZERO);
      AddZero(ZERO);
      AddZero(Mul(z, ZERO));
    } else {
      MulSum(z, n - 1, f);
      MulLinearRight(z, Sum(n - 1, f), f(n - 1));
    }
  }

  lemma MulScale(z: Gf, b: bool, v: Gf)
    ensures Mul(z, Scale(b, v)) == Scale(b, Mul(z, v))
  {
    hide Add, Mul;
    MulSum(z, 0, (i: nat) => ZERO);
  }

  /** With commutativity, bilinearity and the unit this makes (Gf, Add, Mul) a commutative ring. */
  lemma MulAssociative(x: Gf, y: Gf, z: Gf)
    ensures Mul(Mul(x, y), z) == Mul(x, Mul(y, z))
  {
    hide Add, DoubleLe, Mul, Shift, Leading;
    MulCommutative(Mul(x, y), z);
    MulIsTerms(x, y);
    MulSum(z, 128, Term(x, y));
    MulIsTerms(x, Mul(y, z));
    var products := (i: nat) => Mul(z, Term(x, y)(i));
    forall i: nat | i < 128 ensures products(i) == Term(x, Mul(y, z))(i) {
      MulScale(z, Coefficient(x, i), Power(i, y));
      MulPower(z, i, y);
      MulCommutative(z, y);
    }
    SumEqual(128, products, Term(x, Mul(y, z)));
  }
}
