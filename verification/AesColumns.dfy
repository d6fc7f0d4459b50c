/** MixColumns on packed words (section 5.1.3 of FIPS 197) and its inverse (section 5.3.3). */
module AesColumns {
  import opened Bitops
  import opened AesField

  /** Four field doublings at once, on the bytes packed in a word. */
  function PolyMul2(x: bv32): bv32 {
    ((x & 0x7f7f7f7f) << 1) ^ (((x & 0x80808080) >> 7) * 0x1b)
  }

  function MixColumn(x: bv32): bv32 {
    var x2 := PolyMul2(x);
    Xor32(Xor32(Xor32(x2, Rotr24(Xor32(x, x2))), Rotr16(x)), Rotr8(x))
  }

  function InvMixColumn(x: bv32): bv32 {
    var x2 := PolyMul2(x);
    var x4 := PolyMul2(x2);
    var x9 := Xor32(x, PolyMul2(x4));
    var x11 := Xor32(x2, x9);
    var x13 := Xor32(x4, x9);
    Xor32(Xor32(Xor32(Xor32(Xor32(x, x2), x13), Rotr24(x11)), Rotr16(x13)), Rotr8(x9))
  }

  // ---- The packed doubling is Xtime on every byte ----

  lemma TimesReductionPolynomial(y: bv32)
    requires y & 0x01010101 == y
    ensures y * 0x1b == y ^ (y << 1) ^ (y << 3) ^ (y << 4)
  {
    if y & 1 == 0 {
      if y & 0x100 == 0 {
        if y & 0x10000 == 0 { assert y == 0 || y == 0x01000000; } else { assert y == 0x10000 || y == 0x01010000; }
      } else {
        if y & 0x10000 == 0 { assert y == 0x100 || y == 0x01000100; } else { assert y == 0x10100 || y == 0x01010100; }
      }
    } else {
      if y & 0x100 == 0 {
        if y & 0x10000 == 0 { assert y == 1 || y == 0x01000001; } else { assert y == 0x10001 || y == 0x01010001; }
      } else {
        if y & 0x10000 == 0 { assert y == 0x101 || y == 0x01000101; } else { assert y == 0x10101 || y == 0x01010101; }
      }
    }
  }

  function Low7(x: bv32): bv32 { (x & 0x7f7f7f7f) << 1 }
  function Carries(x: bv32): bv32 { (x & 0x80808080) >> 7 }
  function Shl1(x: bv32): bv32 { x << 1 }
  function Shl3(x: bv32): bv32 { x << 3 }
  function Shl4(x: bv32): bv32 { x << 4 }

  function PolyMul2Shifts(x: bv32): bv32 {
    var y := Carries(x);
    Xor32(Low7(x), Xor32(Xor32(y, Shl1(y)), Xor32(Shl3(y), Shl4(y))))
  }

  lemma PolyMul2IsShifts(x: bv32)
    ensures PolyMul2(x) == PolyMul2Shifts(x)
  {
    var y := (x & 0x80808080) >> 7;
    assert y & 0x01010101 == y;
    TimesReductionPolynomial(y);
  }

  lemma PolyMul2ShiftsBytes(b0: bv8, b1: bv8, b2: bv8, b3: bv8)
    ensures PolyMul2Shifts(Word4(b0, b1, b2, b3)) == Word4(Xtime(b0), Xtime(b1), Xtime(b2), Xtime(b3))
  {
  }

  lemma PolyMul2Bytes(b0: bv8, b1: bv8, b2: bv8, b3: bv8)
    ensures PolyMul2(Word4(b0, b1, b2, b3)) == Word4(Xtime(b0), Xtime(b1), Xtime(b2), Xtime(b3))
  {
    hide *;
    PolyMul2ShiftsBytes(b0, b1, b2, b3);
    PolyMul2IsShifts(Word4(b0, b1, b2, b3));
  }

  lemma Low7Linear(x: bv32, y: bv32)
    ensures Low7(Xor32(x, y)) == Xor32(Low7(x), Low7(y))
  {
  }

  lemma CarriesLinear(x: bv32, y: bv32)
    ensures Carries(Xor32(x, y)) == Xor32(Carries(x), Carries(y))
  {
  }

  lemma Shl1Linear(x: bv32, y: bv32)
    ensures Shl1(Xor32(x, y)) == Xor32(Shl1(x), Shl1(y))
  {
  }

  lemma Shl3Linear(x: bv32, y: bv32)
    ensures Shl3(Xor32(x, y)) == Xor32(Shl3(x), Shl3(y))
  {
  }

  lemma Shl4Linear(x: bv32, y: bv32)
    ensures Shl4(Xor32(x, y)) == Xor32(Shl4(x), Shl4(y))
  {
  }

  lemma PolyMul2ShiftsLinear(x: bv32, y: bv32)
    ensures PolyMul2Shifts(Xor32(x, y)) == Xor32(PolyMul2Shifts(x), PolyMul2Shifts(y))
  {
    hide Xor32, Low7, Carries, Shl1, Shl3, Shl4;
    var u, v := Carries(x), Carries(y);
    Low7Linear(x, y);
    CarriesLinear(x, y);
    Shl1Linear(u, v);
    Shl3Linear(u, v);
    Shl4Linear(u, v);
    XorInterchange(u, v, Shl1(u), Shl1(v));
    XorInterchange(Shl3(u), Shl3(v), Shl4(u), Shl4(v));
    XorInterchange(Xor32(u, Shl1(u)), Xor32(v, Shl1(v)), Xor32(Shl3(u), Shl4(u)), Xor32(Shl3(v), Shl4(v)));
    XorInterchange(Low7(x), Low7(y), Xor32(Xor32(u, Shl1(u)), Xor32(Shl3(u), Shl4(u))),
                   Xor32(Xor32(v, Shl1(v)), Xor32(Shl3(v), Shl4(v))));
  }

  lemma PolyMul2Linear(x: bv32, y: bv32)
    ensures PolyMul2(Xor32(x, y)) == Xor32(PolyMul2(x), PolyMul2(y))
  {
    hide *;
    PolyMul2IsShifts(x);
    PolyMul2IsShifts(y);
    PolyMul2IsShifts(Xor32(x, y));
    PolyMul2ShiftsLinear(x, y);
  }

  // ---- Both column maps are linear, and inverse on single-byte columns ----

  lemma MixColumnLinear(x: bv32, y: bv32)
    ensures MixColumn(Xor32(x, y)) == Xor32(MixColumn(x), MixColumn(y))
  {
    hide Xor32, PolyMul2, Rotr8, Rotr16, Rotr24;
    var x2, y2 := PolyMul2(x), PolyMul2(y);
    var u, v := Rotr24(Xor32(x, x2)), Rotr24(Xor32(y, y2));
    PolyMul2Linear(x, y);
    XorInterchange(x, y, x2, y2);
    Rotr24Linear(Xor32(x, x2), Xor32(y, y2));
    Rotr16Linear(x, y);
    Rotr8Linear(x, y);
    XorInterchange(x2, y2, u, v);
    XorInterchange(Xor32(x2, u), Xor32(y2, v), Rotr16(x), Rotr16(y));
    XorInterchange(Xor32(Xor32(x2, u), Rotr16(x)), Xor32(Xor32(y2, v), Rotr16(y)), Rotr8(x), Rotr8(y));
  }

  lemma InvMixColumnLinear(x: bv32, y: bv32)
    ensures InvMixColumn(Xor32(x, y)) == Xor32(InvMixColumn(x), InvMixColumn(y))
  {
    hide Xor32, PolyMul2, Rotr8, Rotr16, Rotr24;
    var x2, y2 := PolyMul2(x), PolyMul2(y);
    var x4, y4 := PolyMul2(x2), PolyMul2(y2);
    var x8, y8 := PolyMul2(x4), PolyMul2(y4);
    PolyMul2Linear(x, y);
    PolyMul2Linear(x2, y2);
    PolyMul2Linear(x4, y4);
    var x9, y9 := Xor32(x, x8), Xor32(y, y8);
    XorInterchange(x, y, x8, y8);
    var x11, y11 := Xor32(x2, x9), Xor32(y2, y9);
    XorInterchange(x2, y2, x9, y9);
    var x13, y13 := Xor32(x4, x9), Xor32(y4, y9);
    XorInterchange(x4, y4, x9, y9);
    Rotr24Linear(x11, y11);
    Rotr16Linear(x13, y13);
    Rotr8Linear(x9, y9);
    var p1, q1 := Xor32(x, x2), Xor32(y, y2);
    XorInterchange(x, y, x2, y2);
    var p2, q2 := Xor32(p1, x13), Xor32(q1, y13);
    XorInterchange(p1, q1, x13, y13);
    var p3, q3 := Xor32(p2, Rotr24(x11)), Xor32(q2, Rotr24(y11));
    XorInterchange(p2, q2, Rotr24(x11), Rotr24(y11));
    var p4, q4 := Xor32(p3, Rotr16(x13)), Xor32(q3, Rotr16(y13));
    XorInterchange(p3, q3, Rotr16(x13), Rotr16(y13));
    XorInterchange(p4, q4, Rotr8(x9), Rotr8(y9));
  }

  predicate Unmixes(x: bv32) {
    InvMixColumn(MixColumn(x)) == x && MixColumn(InvMixColumn(x)) == x
  }

  lemma UnmixSum(x: bv32, y: bv32)
    requires Unmixes(x) && Unmixes(y)
    ensures Unmixes(Xor32(x, y))
  {
    hide Xor32, MixColumn, InvMixColumn;
    MixColumnLinear(x, y);
    InvMixColumnLinear(x, y);
    InvMixColumnLinear(MixColumn(x), MixColumn(y));
    MixColumnLinear(InvMixColumn(x), InvMixColumn(y));
  }

  lemma UnmixLowBits()
    ensures Unmixes(0x00000001)
    ensures Unmixes(0x00000002)
    ensures Unmixes(0x00000004)
    ensures Unmixes(0x00000008)
  {
    assert MixColumn(0x00000001) == 0x01010302 && InvMixColumn(0x00000001) == 0x090d0b0e;
    assert InvMixColumn(0x01010302) == 0x00000001 && MixColumn(0x090d0b0e) == 0x00000001;
    assert MixColumn(0x00000002) == 0x02020604 && InvMixColumn(0x00000002) == 0x121a161c;
    assert InvMixColumn(0x02020604) == 0x00000002 && MixColumn(0x121a161c) == 0x00000002;
    assert MixColumn(0x00000004) == 0x04040c08 && InvMixColumn(0x00000004) == 0x24342c38;
    assert InvMixColumn(0x04040c08) == 0x00000004 && MixColumn(0x24342c38) == 0x00000004;
    assert MixColumn(0x00000008) == 0x08081810 && InvMixColumn(0x00000008) == 0x48685870;
    assert InvMixColumn(0x08081810) == 0x00000008 && MixColumn(0x48685870) == 0x00000008;
  }

  lemma UnmixHighBits()
    ensures Unmixes(0x00000010)
    ensures Unmixes(0x00000020)
    ensures Unmixes(0x00000040)
    ensures Unmixes(0x00000080)
    ensures Unmixes(0)
  {
    assert MixColumn(0x00000010) == 0x10103020 && InvMixColumn(0x00000010) == 0x90d0b0e0;
    assert InvMixColumn(0x10103020) == 0x00000010 && MixColumn(0x90d0b0e0) == 0x00000010;
    assert MixColumn(0x00000020) == 0x20206040 && InvMixColumn(0x00000020) == 0x3bbb7bdb;
    assert InvMixColumn(0x20206040) == 0x00000020 && MixColumn(0x3bbb7bdb) == 0x00000020;
    assert MixColumn(0x00000040) == 0x4040c080 && InvMixColumn(0x00000040) == 0x766df6ad;
    assert InvMixColumn(0x4040c080) == 0x00000040 && MixColumn(0x766df6ad) == 0x00000040;
    assert MixColumn(0x00000080) == 0x80809b1b && InvMixColumn(0x00000080) == 0xecdaf741;
    assert InvMixColumn(0x80809b1b) == 0x00000080 && MixColumn(0xecdaf741) == 0x00000080;
  }

  lemma SplitLowByte(x: bv32)
    ensures x & 0x000000ff ==
            Xor32(Xor32(Xor32(x & 0x00000001, x & 0x00000002), Xor32(x & 0x00000004, x & 0x00000008)),
                  Xor32(Xor32(x & 0x00000010, x & 0x00000020), Xor32(x & 0x00000040, x & 0x00000080)))
    ensures x & 0x00000001 == 0 || x & 0x00000001 == 0x00000001
    ensures x & 0x00000002 == 0 || x & 0x00000002 == 0x00000002
    ensures x & 0x00000004 == 0 || x & 0x00000004 == 0x00000004
    ensures x & 0x00000008 == 0 || x & 0x00000008 == 0x00000008
    ensures x & 0x00000010 == 0 || x & 0x00000010 == 0x00000010
    ensures x & 0x00000020 == 0 || x & 0x00000020 == 0x00000020
    ensures x & 0x00000040 == 0 || x & 0x00000040 == 0x00000040
    ensures x & 0x00000080 == 0 || x & 0x00000080 == 0x00000080
  {
  }

  lemma UnmixLowByte(x: bv32)
    ensures Unmixes(x & 0x000000ff)
  {
    hide *;
    UnmixLowBits();
    UnmixHighBits();
    SplitLowByte(x);
    UnmixSum(x & 0x00000001, x & 0x00000002);
    UnmixSum(x & 0x00000004, x & 0x00000008);
    UnmixSum(x & 0x00000010, x & 0x00000020);
    UnmixSum(x & 0x00000040, x & 0x00000080);
    UnmixSum(Xor32(x & 0x00000001, x & 0x00000002), Xor32(x & 0x00000004, x & 0x00000008));
    UnmixSum(Xor32(x & 0x00000010, x & 0x00000020), Xor32(x & 0x00000040, x & 0x00000080));
    UnmixSum(Xor32(Xor32(x & 0x00000001, x & 0x00000002), Xor32(x & 0x00000004, x & 0x00000008)),
             Xor32(Xor32(x & 0x00000010, x & 0x00000020), Xor32(x & 0x00000040, x & 0x00000080)));
  }

  lemma PolyMul2Rotates(x: bv32)
    ensures PolyMul2(Rotr8(x)) == Rotr8(PolyMul2(x))
  {
    hide *;
    var b0, b1, b2, b3 := Byte0(x), Byte1(x), Byte2(x), Byte3(x);
    PackUnpack(x);
    Rotr8Bytes(b0, b1, b2, b3);
    PolyMul2Bytes(b0, b1, b2, b3);
    PolyMul2Bytes(b3, b0, b1, b2);
    Rotr8Bytes(Xtime(b0), Xtime(b1), Xtime(b2), Xtime(b3));
  }

  lemma UnmixRotated(x: bv32)
    requires Unmixes(x)
    ensures Unmixes(Rotr8(x))
  {
    hide Xor32, MixColumn, InvMixColumn, Rotr8;
    MixColumnRotates(x);
    InvMixColumnRotates(x);
    InvMixColumnRotates(MixColumn(x));
    MixColumnRotates(InvMixColumn(x));
  }

  lemma MixColumnRotates(x: bv32)
    ensures MixColumn(Rotr8(x)) == Rotr8(MixColumn(x))
  {
    hide Xor32, PolyMul2, Rotr8, Rotr16, Rotr24;
    var x2 := PolyMul2(x);
    PolyMul2Rotates(x);
    Rotr8Linear(x, x2);
    RotationsCommute(Xor32(x, x2));
    RotationsCommute(x);
    Rotr8Linear(x2, Rotr24(Xor32(x, x2)));
    Rotr8Linear(Xor32(x2, Rotr24(Xor32(x, x2))), Rotr16(x));
    Rotr8Linear(Xor32(Xor32(x2, Rotr24(Xor32(x, x2))), Rotr16(x)), Rotr8(x));
  }

  lemma InvMixColumnRotates(x: bv32)
    ensures InvMixColumn(Rotr8(x)) == Rotr8(InvMixColumn(x))
  {
    hide Xor32, PolyMul2, Rotr8, Rotr16, Rotr24;
    var x2 := PolyMul2(x);
    var x4 := PolyMul2(x2);
    var x8 := PolyMul2(x4);
    PolyMul2Rotates(x);
    PolyMul2Rotates(x2);
    PolyMul2Rotates(x4);
    var x9, x11, x13 := Xor32(x, x8), Xor32(x2, Xor32(x, x8)), Xor32(x4, Xor32(x, x8));
    Rotr8Linear(x, x8);
    Rotr8Linear(x2, x9);
    Rotr8Linear(x4, x9);
    RotationsCommute(x11);
    RotationsCommute(x13);
    var p1 := Xor32(x, x2);
    var p2 := Xor32(p1, x13);
    var p3 := Xor32(p2, Rotr24(x11));
    var p4 := Xor32(p3, Rotr16(x13));
    Rotr8Linear(x, x2);
    Rotr8Linear(p1, x13);
    Rotr8Linear(p2, Rotr24(x11));
    Rotr8Linear(p3, Rotr16(x13));
    Rotr8Linear(p4, Rotr8(x9));
  }

  /** inv_mix_column and mix_column undo each other on every packed column. */
  lemma MixColumnInverse(x: bv32)
    ensures InvMixColumn(MixColumn(x)) == x
    ensures MixColumn(InvMixColumn(x)) == x
  {
    hide Xor32, MixColumn, InvMixColumn, Rotr8;
    var x0, x1, x2, x3 := (x >> 24) & 0xff, (x >> 16) & 0xff, (x >> 8) & 0xff, x & 0xff;
    UnmixLowByte(x >> 24);
    UnmixLowByte(x >> 16);
    UnmixLowByte(x >> 8);
    UnmixLowByte(x);
    UnmixRotated(x0);
    UnmixRotated(x1);
    UnmixRotated(Rotr8(x1));
    UnmixRotated(x2);
    UnmixRotated(Rotr8(x2));
    UnmixRotated(Rotr8(Rotr8(x2)));
    UnmixSum(Rotr8(x0), Rotr8(Rotr8(x1)));
    UnmixSum(Rotr8(Rotr8(Rotr8(x2))), x3);
    UnmixSum(Xor32(Rotr8(x0), Rotr8(Rotr8(x1))), Xor32(Rotr8(Rotr8(Rotr8(x2))), x3));
    SplitBytes(x);
  }

  // ---- MixColumn is the matrix product of section 5.1.3 of FIPS 197 ----

  lemma XorBytes(a: bv8, b: bv8, c: bv8, d: bv8, e: bv8, f: bv8, g: bv8, h: bv8)
    ensures Xor32(Word4(a, b, c, d), Word4(e, f, g, h)) == Word4(Xor8(a, e), Xor8(b, f), Xor8(c, g), Xor8(d, h))
  {
  }

  lemma Rotr16Bytes(b0: bv8, b1: bv8, b2: bv8, b3: bv8)
    ensures Rotr16(Word4(b0, b1, b2, b3)) == Word4(b2, b3, b0, b1)
  {
  }

  lemma Rotr24Bytes(b0: bv8, b1: bv8, b2: bv8, b3: bv8)
    ensures Rotr24(Word4(b0, b1, b2, b3)) == Word4(b1, b2, b3, b0)
  {
  }

  /** One row of the matrix: 2 a + 3 b + c + d. */
  function MixRow(a: bv8, b: bv8, c: bv8, d: bv8): bv8 {
    Xor8(Xor8(Xor8(Xtime(a), Xor8(b, Xtime(b))), c), d)
  }

  lemma MixColumnIsMatrixProduct(a: bv8, b: bv8, c: bv8, d: bv8)
    ensures MixColumn(Word4(a, b, c, d))
         == Word4(MixRow(a, b, c, d), MixRow(b, c, d, a), MixRow(c, d, a, b), MixRow(d, a, b, c))
  {
    hide Xor8, Xor32, Xtime, PolyMul2, Word4, Rotr8, Rotr16, Rotr24;
    var a2, b2, c2, d2 := Xtime(a), Xtime(b), Xtime(c), Xtime(d);
    PolyMul2Bytes(a, b, c, d);
    XorBytes(a, b, c, d, a2, b2, c2, d2);
    var a3, b3, c3, d3 := Xor8(a, a2), Xor8(b, b2), Xor8(c, c2), Xor8(d, d2);
    Rotr24Bytes(a3, b3, c3, d3);
    Rotr16Bytes(a, b, c, d);
    Rotr8Bytes(a, b, c, d);
    XorBytes(a2, b2, c2, d2, b3, c3, d3, a3);
    var p, q, r, s := Xor8(a2, b3), Xor8(b2, c3), Xor8(c2, d3), Xor8(d2, a3);
    XorBytes(p, q, r, s, c, d, a, b);
    XorBytes(Xor8(p, c), Xor8(q, d), Xor8(r, a), Xor8(s, b), d, a, b, c);
  }
}
