/** Arithmetic in GF(2^8) as cifra_eax_aes.c performs it on four packed bytes, and the
    substitution table against its definition (sections 4.2 and 5.1.1 of FIPS 197). */
module AesField {
  import opened Bitops
  import opened SubstitutionTables

  /** Multiplication by x in GF(2^8): shift, and reduce by x^8 + x^4 + x^3 + x + 1. */
  function Xtime(b: bv8): bv8 {
    var carry := b >> 7;
    (b << 1) ^ carry ^ (carry << 1) ^ (carry << 3) ^ (carry << 4)
  }

  /** As section 4.2.1 of FIPS 197 puts it: add the polynomial if a bit was shifted out. */
  lemma XtimeReduces(b: bv8)
    ensures Xtime(b) == (b << 1) ^ (if b & 0x80 != 0 then 0x1b else 0)
  {
    if b & 0x80 != 0 {} else {}
  }

  // ---- The S-box is the affine image of the field inverse ----

  /** `a` if the last bit of b is set. */
  function Part(a: bv8, b: bv8): bv8 { a & (0 - (b & 1)) }

  function Half(b: bv8): bv8 { b >> 1 }

  /** Shift and add, over n bits of b. */
  function ShiftAdd(a: bv8, b: bv8, n: nat): bv8
    decreases n
  {
    if n == 0 then 0 else Xor8(Part(a, b), ShiftAdd(Xtime(a), Half(b), n - 1))
  }

  /** Product in GF(2^8). */
  function GfMul(a: bv8, b: bv8): bv8 { ShiftAdd(a, b, 8) }

  /** k doublings. */
  function TimesXTo(a: bv8, k: nat): bv8
    decreases k
  {
    if k == 0 then a else TimesXTo(Xtime(a), k - 1)
  }

  function BitAt(k: nat): bv8
    requires k < 8
  {
    [0x01, 0x02, 0x04, 0x08, 0x10, 0x20, 0x40, 0x80][k]
  }

  /** That is the product of polynomials (section 4.2 of FIPS 197): the factor x^k doubles k times,
      and sums are multiplied term by term. */
  lemma GfMulIsProduct(a: bv8, b: bv8, c: bv8, k: nat)
    requires k < 8
    ensures GfMul(a, BitAt(k)) == TimesXTo(a, k)
    ensures GfMul(a, b ^ c) == GfMul(a, b) ^ GfMul(a, c)
  {
    hide ShiftAdd, TimesXTo, BitAt;
    ProductWithBit(a, k, 8);
    ProductIsLinear(a, b, c, 8);
  }

  lemma {:induction false} ProductWithBit(a: bv8, k: nat, n: nat)
    requires k < 8 && k < n
    ensures ShiftAdd(a, BitAt(k), n) == TimesXTo(a, k)
    decreases n
  {
    hide Xtime, Part, BitAt, Half, Xor8;
    PartOfBit(a, k);
    if k == 0 {
      ProductWithZero(Xtime(a), n - 1);
      XorZero(a, 0);
    } else {
      ProductWithBit(Xtime(a), k - 1, n - 1);
      XorZero(0, TimesXTo(Xtime(a), k - 1));
    }
  }

  lemma {:induction false} ProductWithZero(a: bv8, n: nat)
    ensures ShiftAdd(a, 0, n) == 0
    decreases n
  {
    hide Xtime, Part, Half, Xor8;
    if n > 0 {
      PartOfBit(a, 0);
      ProductWithZero(Xtime(a), n - 1);
      XorZero(0, 0);
    }
  }

  lemma PartOfBit(a: bv8, k: nat)
    requires k < 8
    ensures Part(a, BitAt(k)) == if k == 0 then a else 0
    ensures Half(BitAt(k)) == if k == 0 then 0 else BitAt(k - 1)
    ensures Part(a, 0) == 0 && Half(0) == 0
  {
  }

  lemma XorZero(a: bv8, b: bv8)
    ensures a == 0 ==> Xor8(a, b) == b
    ensures b == 0 ==> Xor8(a, b) == a
  {
  }

  lemma {:induction false} ProductIsLinear(a: bv8, b: bv8, c: bv8, n: nat)
    ensures ShiftAdd(a, Xor8(b, c), n) == Xor8(ShiftAdd(a, b, n), ShiftAdd(a, c, n))
    decreases n
  {
    hide Xtime, Part, Half, Xor8;
    if n > 0 {
      PartIsLinear(a, b, c);
      ProductIsLinear(Xtime(a), Half(b), Half(c), n - 1);
      XorSwaps(Part(a, b), Part(a, c), ShiftAdd(Xtime(a), Half(b), n - 1), ShiftAdd(Xtime(a), Half(c), n - 1));
    } else {
      XorZero(0, 0);
    }
  }

  lemma PartIsLinear(a: bv8, b: bv8, c: bv8)
    ensures Part(a, Xor8(b, c)) == Xor8(Part(a, b), Part(a, c))
    ensures Half(Xor8(b, c)) == Xor8(Half(b), Half(c))
  {
  }

  lemma XorSwaps(a: bv8, b: bv8, c: bv8, d: bv8)
    ensures Xor8(Xor8(a, b), Xor8(c, d)) == Xor8(Xor8(a, c), Xor8(b, d))
  {
    hide Xor8;
    SumIsAssociative(a, b, Xor8(c, d));
    SumIsAssociative(b, c, d);
    SumIsAssociative(c, b, d);
    SumIsAssociative(a, c, Xor8(b, d));
  }

  lemma SumIsAssociative(a: bv8, b: bv8, c: bv8)
    ensures Xor8(Xor8(a, b), c) == Xor8(a, Xor8(b, c))
    ensures Xor8(a, b) == Xor8(b, a)
  {
  }

  function Affine(b: bv8): bv8 {
    b ^ ((b << 1) | (b >> 7)) ^ ((b << 2) | (b >> 6)) ^ ((b << 3) | (b >> 5)) ^ ((b << 4) | (b >> 4)) ^ 0x63
  }

  function InvAffine(b: bv8): bv8 {
    ((b << 1) | (b >> 7)) ^ ((b << 3) | (b >> 5)) ^ ((b << 6) | (b >> 2)) ^ 0x05
  }

  lemma AffineInverse(b: bv8)
    ensures Affine(InvAffine(b)) == b
  {
  }

  lemma FourSteps(a: bv8, b: bv8, n: nat)
    requires n >= 4
    ensures ShiftAdd(a, b, n)
         == Xor8(Part(a, b), Xor8(Part(Xtime(a), Half(b)), Xor8(Part(Xtime(Xtime(a)), Half(Half(b))),
              Xor8(Part(Xtime(Xtime(Xtime(a))), Half(Half(Half(b)))),
                ShiftAdd(Xtime(Xtime(Xtime(Xtime(a)))), Half(Half(Half(Half(b)))), n - 4)))))
  {
    hide Xtime, Part, Half, Xor8;
    assert ShiftAdd(Xtime(Xtime(a)), Half(Half(b)), n - 2)
        == Xor8(Part(Xtime(Xtime(a)), Half(Half(b))), Xor8(Part(Xtime(Xtime(Xtime(a))), Half(Half(Half(b)))),
             ShiftAdd(Xtime(Xtime(Xtime(Xtime(a)))), Half(Half(Half(Half(b)))), n - 4)));
  }

  lemma NoSteps(a: bv8, b: bv8)
    ensures ShiftAdd(a, b, 0) == 0
  {
  }

  /** For every byte, S(x) is the affine image of the field inverse of x (of 0 for x = 0). */
  lemma SBoxIsAffineOfInverse(x: bv8) returns (y: bv8)
    ensures SBox(x) == Affine(y)
    ensures if x == 0 then y == 0 else GfMul(x, y) == 1
  {
    y := InvAffine(SBox(x));
    AffineInverse(SBox(x));
    hide ShiftAdd;
    FourSteps(x, y, 8);
    FourSteps(Xtime(Xtime(Xtime(Xtime(x)))), Half(Half(Half(Half(y)))), 4);
    NoSteps(Xtime(Xtime(Xtime(Xtime(Xtime(Xtime(Xtime(Xtime(x)))))))), Half(Half(Half(Half(Half(Half(Half(Half(y)))))))));
  }
}
