/** gf128.c on arrays of four words: the functions may be called with aliased arguments. */
module Gf128Words {
  import opened Bitops
  import opened Gf128

  function View(a: array<bv32>): Gf
    requires a.Length == 4
    reads a
  {
    Gf(a[0], a[1], a[2], a[3])
  }

  // ---- Doubling in the CMAC bit order ----

  /** The reduction constant of the table { 0x00, 0x87 }. */
  function Reduction87(w: bv32): bv32 { if w & 0x8000_0000 != 0 then 0x87 else 0 }

  function DoubleBe(v: Gf): Gf {
    Gf(Xor32(Twice(v.w0), CarryUp(v.w1)), Xor32(Twice(v.w1), CarryUp(v.w2)),
       Xor32(Twice(v.w2), CarryUp(v.w3)), Xor32(Twice(v.w3), Reduction87(v.w0)))
  }

  /** The 128-bit number an element spells. */
  function Pack(v: Gf): bv128 {
    ((v.w0 as bv128) << 96) | ((v.w1 as bv128) << 64) | ((v.w2 as bv128) << 32) | (v.w3 as bv128)
  }

  lemma PackShift(v: Gf)
    ensures Pack(Shift(v)) == Pack(v) << 1
  {
  }

  /** Subkey doubling of section 2.3 of RFC 4493: shift the 128-bit string left by one, and
      add the constant 0x87 exactly when the bit shifted out was set. */
  lemma DoubleBeShiftsAndReduces(v: Gf)
    ensures Pack(Shift(v)) == Pack(v) << 1
    ensures DoubleBe(v) == if Leading(v) then Add(Shift(v), Gf(0, 0, 0, 0x87)) else Shift(v)
  {
    hide Pack, Xor32, Twice, CarryUp;
    PackShift(v);
    var s := Shift(v);
    ZeroWord(s.w0);
    ZeroWord(s.w1);
    ZeroWord(s.w2);
    ZeroWord(s.w3);
  }

  lemma TopBitIndex(w: bv32)
    ensures Index(TopBitByte(w)) == if w & 0x8000_0000 != 0 then 1 else 0
  {
    if w & 0x8000_0000 != 0 {
      assert TopBitByte(w) == 1;
    } else {
      assert TopBitByte(w) == 0;
    }
  }

  lemma LowBitIndex(w: bv32)
    ensures Index(LowBitByte(w)) == if w & 1 != 0 then 1 else 0
  {
    if w & 1 != 0 {
      assert LowBitByte(w) == 1;
    } else {
      assert LowBitByte(w) == 0;
    }
  }

  /** The borrow left by the last word, as a table index. */
  function TopBitByte(w: bv32): bv8 { (w >> 31) as bv8 }
  function LowBitByte(w: bv32): bv8 { (w & 1) as bv8 }

  function ShlBorrow(w: bv32, borrow: bv32): bv32 { (w << 1) | borrow }
  function ShrBorrow(w: bv32, borrow: bv32): bv32 { (w >> 1) | (borrow << 31) }
  function LowBit(w: bv32): bv32 { w & 1 }

  lemma ShlBorrows(w: bv32, next: bv32)
    ensures ShlBorrow(w, 0) == Twice(w)
    ensures ShlBorrow(w, CarryUp(next)) == Xor32(Twice(w), CarryUp(next))
  {
  }

  lemma ShrBorrows(w: bv32, previous: bv32)
    ensures ShrBorrow(w, 0) == Half(w)
    ensures ShrBorrow(w, LowBit(previous)) == Xor32(Half(w), CarryDown(previous))
  {
  }

  /** cf_gf128_double; `out` may be `inp`. */
  method Double(inp: array<bv32>, out: array<bv32>)
    requires inp.Length == 4 && out.Length == 4
    modifies out
    ensures View(out) == DoubleBe(old(View(inp)))
  {
    hide Xor32, Twice, CarryUp, Index, ShlBorrow, TopBitByte, Reduction87;
    ghost var v := View(inp);
    ShlBorrows(v.w3, v.w3);
    ShlBorrows(v.w2, v.w3);
    ShlBorrows(v.w1, v.w2);
    ShlBorrows(v.w0, v.w1);
    var borrow: bv32 := 0;
    var inword := inp[3];
    out[3] := ShlBorrow(inword, borrow);
    borrow := CarryUp(inword);
    inword := inp[2];
    out[2] := ShlBorrow(inword, borrow);
    borrow := CarryUp(inword);
    inword := inp[1];
    out[1] := ShlBorrow(inword, borrow);
    borrow := CarryUp(inword);
    inword := inp[0];
    out[0] := ShlBorrow(inword, borrow);
    var reduce := Select87(inword);
    out[3] := Xor32(out[3], reduce);
  }

  /** The masked choice of the reduction constant by the bit shifted out. */
  method Select87(w: bv32) returns (r: bv32)
    ensures r == Reduction87(w)
  {
    hide Index, TopBitByte;
    var reduce := SelectU8(TopBitByte(w), [0x00, 0x87]);
    TopBitIndex(w);
    r := reduce as bv32;
  }

  method SelectE1(w: bv32) returns (r: bv32)
    ensures r == Reduction(w)
  {
    hide Index, LowBitByte, Reduction;
    var reduce := SelectU8(LowBitByte(w), [0x00, 0xe1]);
    LowBitIndex(w);
    ReductionByTable(w);
    r := (reduce as bv32) << 24;
  }

  lemma ReductionByTable(w: bv32)
    ensures Reduction(w) == if w & 1 != 0 then 0xe100_0000 else 0
  {
    if w & 1 != 0 {
      assert w & 1 == 1;
    } else {
      assert w & 1 == 0;
    }
  }

  // ---- Doubling and product in the GCM bit order ----

  /** cf_gf128_double_le; `out` may be `inp`. */
  method DoubleLeWords(inp: array<bv32>, out: array<bv32>)
    requires inp.Length == 4 && out.Length == 4
    modifies out
    ensures View(out) == DoubleLe(old(View(inp)))
  {
    hide Xor32, Half, CarryDown, LowBit, ShrBorrow, Reduction;
    ghost var v := View(inp);
    ShrBorrows(v.w0, v.w0);
    ShrBorrows(v.w1, v.w0);
    ShrBorrows(v.w2, v.w1);
    ShrBorrows(v.w3, v.w2);
    var borrow: bv32 := 0;
    var inword := inp[0];
    out[0] := ShrBorrow(inword, borrow);
    borrow := LowBit(inword);
    inword := inp[1];
    out[1] := ShrBorrow(inword, borrow);
    borrow := LowBit(inword);
    inword := inp[2];
    out[2] := ShrBorrow(inword, borrow);
    borrow := LowBit(inword);
    inword := inp[3];
    out[3] := ShrBorrow(inword, borrow);
    var reduce := SelectE1(inword);
    out[0] := Xor32(out[0], reduce);
  }

  /** cf_gf128_add; any arguments may be the same. */
  method AddWords(x: array<bv32>, y: array<bv32>, out: array<bv32>)
    requires x.Length == 4 && y.Length == 4 && out.Length == 4
    modifies out
    ensures View(out) == Add(old(View(x)), old(View(y)))
  {
    hide Xor32;
    out[0] := Xor32(x[0], y[0]);
    out[1] := Xor32(x[1], y[1]);
    out[2] := Xor32(x[2], y[2]);
    out[3] := Xor32(x[3], y[3]);
  }

  /** (if0 & mask0) | (if1 & mask1), word by word. */
  function Choose(if0: bv32, if1: bv32, mask1: bv32): bv32 { (if0 & !mask1) | (if1 & mask1) }

  lemma ChooseByMask(if0: bv32, if1: bv32, bit: bv32)
    requires bit == 0 || bit == 1
    ensures Choose(if0, if1, MaskU32(bit, 1)) == if bit == 1 then if1 else if0
  {
    if bit == 1 {
      assert MaskU32(1, 1) == 0xffff_ffff;
    } else {
      assert MaskU32(0, 1) == 0;
    }
  }

  method SelectXor128(out: array<bv32>, if0: array<bv32>, if1: array<bv32>, bit: bv32)
    requires out.Length == 4 && if0.Length == 4 && if1.Length == 4
    requires out != if0 && out != if1
    requires bit == 0 || bit == 1
    modifies out
    ensures View(out) == Add(old(View(out)), if bit == 1 then View(if1) else View(if0))
  {
    hide Xor32, Choose, MaskU32;
    var mask1 := MaskU32(bit, 1);
    ChooseByMask(if0[0], if1[0], bit);
    ChooseByMask(if0[1], if1[1], bit);
    ChooseByMask(if0[2], if1[2], bit);
    ChooseByMask(if0[3], if1[3], bit);
    out[0] := Xor32(out[0], Choose(if0[0], if1[0], mask1));
    out[1] := Xor32(out[1], Choose(if0[1], if1[1], mask1));
    out[2] := Xor32(out[2], Choose(if0[2], if1[2], mask1));
    out[3] := Xor32(out[3], Choose(if0[3], if1[3], mask1));
  }

  // ---- Bit i of the source's word array is coefficient i ----

  function WordAt(v: Gf, q: nat): bv32
    requires q < 4
  {
    if q == 0 then v.w0 else if q == 1 then v.w1 else if q == 2 then v.w2 else v.w3
  }

  /** Bit r of a word, counted from the left. */
  function BitOf(w: bv32, r: bv6): bv32
    requires r < 32
  {
    (w >> (31 - r)) & 1
  }

  function Position(i: nat): (r: bv6)
    ensures r < 32
  {
    assert i % 32 % 64 == i % 32;
    (i % 32) as bv6
  }

  function SourceBit(v: Gf, i: nat): bv32
    requires i < 128
  {
    BitOf(WordAt(v, i / 32), Position(i))
  }

  lemma BitOfHalf(x: bv32, r: bv6)
    requires r < 31
    ensures BitOf(x, r) == (Half(x) >> (30 - r)) & 1
  {
  }

  lemma BitIgnoresTop(w: bv32, r: bv6)
    requires r < 31
    ensures ((w & 0x7fff_ffff) >> (30 - r)) & 1 == BitOf(w, r + 1)
  {
  }

  lemma HalfTwice(w: bv32)
    ensures Half(Twice(w)) == w & 0x7fff_ffff
  {
  }

  lemma BitAfterTwice(w: bv32, carry: bv32, r: bv6)
    requires r < 31
    ensures BitOf(Xor32(Twice(w), CarryUp(carry)), r) == BitOf(w, r + 1)
    ensures BitOf(Twice(w), r) == BitOf(w, r + 1)
  {
    hide Xor32, Twice, CarryUp, Half, BitOf;
    BitOfHalf(Xor32(Twice(w), CarryUp(carry)), r);
    BitOfHalf(Twice(w), r);
    HalfRestores(w, carry);
    HalfTwice(w);
    BitIgnoresTop(w, r);
  }

  lemma LastBitAfterTwice(w: bv32, carry: bv32)
    ensures BitOf(Xor32(Twice(w), CarryUp(carry)), 31) == BitOf(carry, 0)
  {
  }

  lemma FirstBit(w: bv32)
    ensures BitOf(w, 0) == if w & 0x8000_0000 != 0 then 1 else 0
  {
    if w & 0x8000_0000 != 0 {} else {}
  }

  lemma PositionStep(i: nat)
    ensures i % 32 < 31 ==> Position(i) < 31 && Position(i + 1) == Position(i) + 1
    ensures i % 32 == 31 ==> Position(i) == 31 && Position(i + 1) == 0
  {
    var r := i % 32;
    assert r % 64 == r && (r + 1) % 64 == r + 1;
    if r < 31 {
      assert (i + 1) % 32 == r + 1;
    } else {
      assert (i + 1) % 32 == 0;
    }
  }

  lemma SourceBitShift(v: Gf, i: nat)
    requires i < 127
    ensures SourceBit(Shift(v), i) == SourceBit(v, i + 1)
  {
    hide Xor32, Twice, CarryUp, BitOf, Position;
    PositionStep(i);
    var q := i / 32;
    var w := WordAt(v, q);
    if i % 32 < 31 {
      assert (i + 1) / 32 == q;
      BitAfterTwice(w, if q < 3 then WordAt(v, q + 1) else 0, Position(i));
    } else {
      assert (i + 1) / 32 == q + 1;
      LastBitAfterTwice(w, WordAt(v, q + 1));
    }
  }

  /** The bit the loop extracts from x[i >> 5] is the coefficient of x^i. */
  lemma {:induction false} SourceBitIsCoefficient(v: Gf, i: nat)
    requires i < 128
    ensures SourceBit(v, i) == if Coefficient(v, i) then 1 else 0
    decreases i
  {
    hide Shift, BitOf, Position;
    if i == 0 {
      FirstBit(v.w0);
      assert Position(0) == 0 by {
        assert (0 % 32) % 64 == 0;
        FirstPosition();
      }
    } else {
      SourceBitIsCoefficient(Shift(v), i - 1);
      SourceBitShift(v, i - 1);
    }
  }

  lemma FirstPosition()
    ensures Position(0) == 0
  {
  }

  /** One iteration of the product loop on Z and V. */
  method MulStep(x: array<bv32>, zero: array<bv32>, z: array<bv32>, v: array<bv32>, i: nat)
    requires x.Length == 4 && zero.Length == 4 && z.Length == 4 && v.Length == 4
    requires z != zero && z != v && x != z && x != v && zero != v
    requires i < 128 && View(zero) == ZERO
    modifies z, v
    ensures View(z) == Add(old(View(z)), Scale(Coefficient(View(x), i), old(View(v))))
    ensures View(v) == DoubleLe(old(View(v)))
  {
    hide Add, DoubleLe, Shift, Leading, BitOf, Position;
    var word := x[i / 32];
    var bit := BitOf(word, Position(i));
    SourceBitIsCoefficient(View(x), i);
    SelectXor128(z, zero, v, bit);
    DoubleLeWords(v, v);
  }

  /** cf_gf128_mul; any arguments may be the same. */
  method MulWords(x: array<bv32>, y: array<bv32>, out: array<bv32>)
    requires x.Length == 4 && y.Length == 4 && out.Length == 4
    modifies out
    ensures View(out) == Mul(old(View(x)), old(View(y)))
  {
    hide Add, DoubleLe, Mul, Power, Sum, Term, Coefficient;
    ghost var gx, gy := View(x), View(y);
    var zero := new bv32[4](_ => 0);
    var z := new bv32[4](_ => 0);
    var v := new bv32[4](i requires 0 <= i < 4 reads y => y[i]);
    MulStart(gx, gy);
    for i := 0 to 128
      invariant View(x) == gx && View(zero) == ZERO
      invariant View(z) == Sum(i, Term(gx, gy))
      invariant View(v) == Power(i, gy)
    {
      MulStep(x, zero, z, v, i);
      MulAdvance(gx, gy, i);
    }
    MulIsTerms(gx, gy);
    out[0], out[1], out[2], out[3] := z[0], z[1], z[2], z[3];
  }

  lemma MulStart(x: Gf, y: Gf)
    ensures Sum(0, Term(x, y)) == ZERO && Power(0, y) == y
  {
  }

  lemma MulAdvance(x: Gf, y: Gf, i: nat)
    ensures Sum(i + 1, Term(x, y)) == Add(Sum(i, Term(x, y)), Scale(Coefficient(x, i), Power(i, y)))
    ensures Power(i + 1, y) == DoubleLe(Power(i, y))
  {
    hide Add, DoubleLe, Coefficient;
  }
}
