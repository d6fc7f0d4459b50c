/** Byte and word primitives of the cipher stack (bitops.h): packing, rotation,
    branch-free masks and the masked table scans. */
module Bitops {

  /** Big-endian packing of four bytes; `b0` is the leftmost. */
  function Word4(b0: bv8, b1: bv8, b2: bv8, b3: bv8): bv32 {
    ((b0 as bv32) << 24) | ((b1 as bv32) << 16) | ((b2 as bv32) << 8) | (b3 as bv32)
  }

  function Byte0(w: bv32): bv8 { ((w >> 24) & 0xff) as bv8 }
  function Byte1(w: bv32): bv8 { ((w >> 16) & 0xff) as bv8 }
  function Byte2(w: bv32): bv8 { ((w >> 8) & 0xff) as bv8 }
  function Byte3(w: bv32): bv8 { (w & 0xff) as bv8 }

  /** The bytes of a word, most significant first (write32_be). */
  function WordBytes(w: bv32): (b: seq<bv8>)
    ensures |b| == 4
  {
    [Byte0(w), Byte1(w), Byte2(w), Byte3(w)]
  }

  function Xor8(x: bv8, y: bv8): bv8 { x ^ y }
  function Xor32(x: bv32, y: bv32): bv32 { x ^ y }

  function Rotr8(x: bv32): bv32 { (x >> 8) | (x << 24) }
  function Rotr16(x: bv32): bv32 { (x >> 16) | (x << 16) }
  function Rotr24(x: bv32): bv32 { (x >> 24) | (x << 8) }
  function Rotl8(x: bv32): bv32 { (x << 8) | (x >> 24) }

  lemma UnpackPack(b0: bv8, b1: bv8, b2: bv8, b3: bv8)
    ensures Byte0(Word4(b0, b1, b2, b3)) == b0
    ensures Byte1(Word4(b0, b1, b2, b3)) == b1
    ensures Byte2(Word4(b0, b1, b2, b3)) == b2
    ensures Byte3(Word4(b0, b1, b2, b3)) == b3
  {
  }

  lemma PackUnpack(w: bv32)
    ensures Word4(Byte0(w), Byte1(w), Byte2(w), Byte3(w)) == w
  {
  }

  /** What rot_word says it does. */
  lemma RotateBytes(b0: bv8, b1: bv8, b2: bv8, b3: bv8)
    ensures Rotl8(Word4(b0, b1, b2, b3)) == Word4(b1, b2, b3, b0)
  {
  }

  lemma XorAssociative(x: bv32, y: bv32, z: bv32)
    ensures Xor32(Xor32(x, y), z) == Xor32(x, Xor32(y, z))
  {
  }

  lemma XorCommutative(x: bv32, y: bv32)
    ensures Xor32(x, y) == Xor32(y, x)
  {
  }

  lemma XorInterchange(p: bv32, q: bv32, r: bv32, s: bv32)
    ensures Xor32(Xor32(p, q), Xor32(r, s)) == Xor32(Xor32(p, r), Xor32(q, s))
  {
    hide Xor32;
    XorAssociative(p, q, Xor32(r, s));
    XorAssociative(q, r, s);
    XorCommutative(q, r);
    XorAssociative(r, q, s);
    XorAssociative(p, r, Xor32(q, s));
  }

  lemma XorCancels(x: bv32, k: bv32)
    ensures Xor32(Xor32(x, k), k) == x
  {
  }

  lemma XorByteTwice(x: bv8, k: bv8)
    ensures Xor8(Xor8(x, k), k) == x
  {
  }

  lemma Rotr8Linear(x: bv32, y: bv32)
    ensures Rotr8(Xor32(x, y)) == Xor32(Rotr8(x), Rotr8(y))
  {
  }

  lemma Rotr16Linear(x: bv32, y: bv32)
    ensures Rotr16(Xor32(x, y)) == Xor32(Rotr16(x), Rotr16(y))
  {
  }

  lemma Rotr24Linear(x: bv32, y: bv32)
    ensures Rotr24(Xor32(x, y)) == Xor32(Rotr24(x), Rotr24(y))
  {
  }

  lemma Rotr8Bytes(b0: bv8, b1: bv8, b2: bv8, b3: bv8)
    ensures Rotr8(Word4(b0, b1, b2, b3)) == Word4(b3, b0, b1, b2)
  {
  }

  lemma RotationsCommute(x: bv32)
    ensures Rotr16(Rotr8(x)) == Rotr8(Rotr16(x))
    ensures Rotr24(Rotr8(x)) == Rotr8(Rotr24(x))
  {
  }

  /** Every word is the sum of its bytes, each rotated into place. */
  lemma SplitBytes(w: bv32)
    ensures w == Xor32(Xor32(Rotr8((w >> 24) & 0xff), Rotr8(Rotr8((w >> 16) & 0xff))),
                       Xor32(Rotr8(Rotr8(Rotr8((w >> 8) & 0xff))), w & 0xff))
  {
  }

  // ---- Branch-free masks ----

  function MaskU32(x: bv32, y: bv32): bv32 {
    var diff := x ^ y;
    var diffIsZero := !diff & (diff - 1);
    0 - (diffIsZero >> 31)
  }

  function MaskU8(x: bv32, y: bv32): bv8 {
    var diff := x ^ y;
    var diffIsZero := ((!diff & (diff - 1)) & 0xff) as bv8;
    0 - (diffIsZero >> 7)
  }

  /** The top bit of `~d & (d - 1)` says whether the word d is zero. */
  lemma TopBitIsZeroTest(d: bv32)
    ensures d == 0 ==> (!d & (d - 1)) >> 31 == 1
    ensures d != 0 ==> (!d & (d - 1)) >> 31 == 0
  {
  }

  lemma XorIsZeroOnEqual(x: bv32, y: bv32)
    ensures x ^ y == 0 <==> x == y
  {
  }

  /** The 32-bit mask does decide equality. */
  lemma MaskU32IsEquality(x: bv32, y: bv32)
    ensures MaskU32(x, y) == if x == y then 0xffff_ffff else 0
  {
    XorIsZeroOnEqual(x, y);
    TopBitIsZeroTest(x ^ y);
  }

  /** The 8-bit mask decides equality of the low bytes only: the header's promise
      (all ones exactly when x == y) holds when the two agree above the low byte. */
  lemma MaskU8IsLowByteEquality(x: bv32, y: bv32)
    ensures MaskU8(x, y) == if x & 0xff == y & 0xff then 0xff else 0
  {
  }

  lemma MaskU8MissesHighBytes()
    ensures MaskU8(0, 0x100) == 0xff
  {
  }

  // ---- Masked scans ----

  function Widen(a: bv8): bv32 { a as bv32 }

  /** The source's `(r & ~mask) | (item & mask)`. */
  function Merge(r: bv8, item: bv8, mask: bv8): bv8 { (r & !mask) | (item & mask) }

  /** A byte used as a table index. */
  function Index(a: bv8): (i: nat)
    ensures i < 256
  {
    a as int
  }

  function Counter(i: nat): bv32
    requires i < 256
  {
    i as bv32
  }

  lemma ByteIndex(i: nat)
    requires i < 256
    ensures Index(i as bv8) == i
    ensures Counter(i) == Widen(i as bv8)
  {
    assert i % 256 == i;
    assert i % 0x1_0000_0000 == i;
  }

  lemma IndexInjective(a: bv8, b: bv8)
    requires Index(a) == Index(b)
    ensures a == b
  {
    assert (a as int) as bv8 == a && (b as int) as bv8 == b;
  }

  lemma WidenKeepsLowByte(a: bv8, b: bv8)
    ensures Widen(a) & 0xff == Widen(b) & 0xff <==> a == b
  {
  }

  lemma MergeMask(r: bv8, item: bv8, mask: bv8, take: bool)
    requires mask == if take then 0xff else 0
    ensures Merge(r, item, mask) == if take then item else r
  {
    if take {} else {}
  }

  /** One iteration of a masked scan keeps the old result unless the counter is the index. */
  lemma ScanStep(a: bv8, i: nat, r: bv8, item: bv8)
    requires i < 256
    ensures Merge(r, item, MaskU8(Widen(a), Counter(i))) == if Index(a) == i then item else r
  {
    hide *;
    var b := i as bv8;
    ByteIndex(i);
    MaskU8IsLowByteEquality(Widen(a), Widen(b));
    WidenKeepsLowByte(a, b);
    if Index(a) == i {
      IndexInjective(a, b);
    }
    MergeMask(r, item, MaskU8(Widen(a), Widen(b)), a == b);
  }

  /** Direct table lookup, zero beyond the end of the table. */
  function Lookup(tab: seq<bv8>, a: bv8): bv8 {
    if Index(a) < |tab| then tab[Index(a)] else 0
  }

  /** The scan touches every entry, yet returns exactly the direct lookup. */
  method SelectU8(a: bv8, tab: seq<bv8>) returns (r: bv8)
    requires |tab| <= 256
    ensures r == Lookup(tab, a)
  {
    hide MaskU8, Merge, Widen, Counter, Index;
    r := 0;
    for i := 0 to |tab|
      invariant r == if Index(a) < i then tab[Index(a)] else 0
    {
      var mask := MaskU8(Widen(a), Counter(i));
      ScanStep(a, i, r, tab[i]);
      r := Merge(r, tab[i], mask);
    }
  }

  method SelectU8x4(a: bv8, b: bv8, c: bv8, d: bv8, tab: seq<bv8>) returns (ra: bv8, rb: bv8, rc: bv8, rd: bv8)
    requires |tab| <= 256
    ensures ra == Lookup(tab, a) && rb == Lookup(tab, b) && rc == Lookup(tab, c) && rd == Lookup(tab, d)
  {
    hide MaskU8, Merge, Widen, Counter, Index;
    ra, rb, rc, rd := 0, 0, 0, 0;
    for i := 0 to |tab|
      invariant ra == if Index(a) < i then tab[Index(a)] else 0
      invariant rb == if Index(b) < i then tab[Index(b)] else 0
      invariant rc == if Index(c) < i then tab[Index(c)] else 0
      invariant rd == if Index(d) < i then tab[Index(d)] else 0
    {
      var item := tab[i];
      ScanStep(a, i, ra, item);
      ScanStep(b, i, rb, item);
      ScanStep(c, i, rc, item);
      ScanStep(d, i, rd, item);
      ra := Merge(ra, item, MaskU8(Widen(a), Counter(i)));
      rb := Merge(rb, item, MaskU8(Widen(b), Counter(i)));
      rc := Merge(rc, item, MaskU8(Widen(c), Counter(i)));
      rd := Merge(rd, item, MaskU8(Widen(d), Counter(i)));
    }
  }
}
