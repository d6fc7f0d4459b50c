/** CMAC over any 16-byte block function: subkeys, the streaming object of cifra_cmac.c and
    the one-shot definition of RFC 4493. */
module Cmac {
  import opened Bitops
  import opened Gf128
  import Words = Gf128Words
  import opened Blockwise

  type Block = b: seq<bv8> | |b| == 16 witness seq(16, _ => 0)
  type Prp = Block -> Block

  const ZERO_BLOCK: Block := seq(16, _ => 0)

  function XorSeq(a: seq<bv8>, b: seq<bv8>): (r: seq<bv8>)
    requires |a| == |b|
    ensures |r| == |a|
  {
    seq(|a|, i requires 0 <= i < |a| => Xor8(a[i], b[i]))
  }

  // ---- Subkeys ----

  function FromBytesBe(b: Block): Gf {
    Gf(Word4(b[0], b[1], b[2], b[3]), Word4(b[4], b[5], b[6], b[7]),
       Word4(b[8], b[9], b[10], b[11]), Word4(b[12], b[13], b[14], b[15]))
  }

  function ToBytesBe(v: Gf): Block {
    WordBytes(v.w0) + WordBytes(v.w1) + WordBytes(v.w2) + WordBytes(v.w3)
  }

  lemma BytesRoundTrip(v: Gf)
    ensures FromBytesBe(ToBytesBe(v)) == v
  {
    hide Word4, Byte0, Byte1, Byte2, Byte3;
    PackUnpack(v.w0);
    PackUnpack(v.w1);
    PackUnpack(v.w2);
    PackUnpack(v.w3);
  }

  /** K1 and K2 of section 2.3 of RFC 4493: the encrypted zero block doubled once and twice. */
  function K1(E: Prp): Block { ToBytesBe(Words.DoubleBe(FromBytesBe(E(ZERO_BLOCK)))) }

  function K2(E: Prp): Block { ToBytesBe(Words.DoubleBe(FromBytesBe(K1(E)))) }

  /** A byte shifted left by one, the first bit of the next byte behind it. */
  function ShiftIn(b: bv8, next: bv8): bv8 { (b << 1) | (next >> 7) }

  function LastShifted(b: bv8, first: bv8): bv8 { (b << 1) ^ (if first >= 0x80 then 0x87 else 0) }

  lemma WordShifts(a: bv8, b: bv8, c: bv8, d: bv8, next: bv32, e: bv8)
    requires Byte0(next) == e
    ensures WordBytes(Xor32(Twice(Word4(a, b, c, d)), CarryUp(next))) == [ShiftIn(a, b), ShiftIn(b, c), ShiftIn(c, d), ShiftIn(d, e)]
  {
  }

  lemma FrontShifts(a: bv8, b: bv8, c: bv8, d: bv8)
    ensures Twice(Word4(a, b, c, d)) == Word4(ShiftIn(a, b), ShiftIn(b, c), ShiftIn(c, d), ShiftIn(d, 0))
    ensures ShiftIn(d, 0) == d << 1
  {
  }

  lemma ReductionBit(first: bv32)
    ensures Words.Reduction87(first) == if Byte0(first) >= 0x80 then 0x87 else 0
  {
  }

  lemma LastByteOnly(a: bv8, b: bv8, c: bv8, d: bv8, x: bv8)
    ensures Xor32(Word4(a, b, c, d), x as bv32) == Word4(a, b, c, d ^ x)
  {
  }

  lemma LastWordShifts(a: bv8, b: bv8, c: bv8, d: bv8, first: bv32, e: bv8)
    requires Byte0(first) == e
    ensures WordBytes(Xor32(Twice(Word4(a, b, c, d)), Words.Reduction87(first)))
         == [ShiftIn(a, b), ShiftIn(b, c), ShiftIn(c, d), LastShifted(d, e)]
  {
    FrontShifts(a, b, c, d);
    ReductionBit(first);
    var r: bv8 := if e >= 0x80 then 0x87 else 0;
    LastByteOnly(ShiftIn(a, b), ShiftIn(b, c), ShiftIn(c, d), ShiftIn(d, 0), r);
    UnpackPack(ShiftIn(a, b), ShiftIn(b, c), ShiftIn(c, d), LastShifted(d, e));
    hide Word4, Byte0, Byte1, Byte2, Byte3, Twice, ShiftIn, Words.Reduction87, Xor32;
  }

  lemma FirstByte(a: bv8, b: bv8, c: bv8, d: bv8)
    ensures Byte0(Word4(a, b, c, d)) == a
  {
  }

  /** Doubling a block as section 2.3 of RFC 4493 says: every bit one to the left, and 0x87 added
      to the last byte if a one falls off the first. */
  function Doubled(b: Block): Block {
    seq(15, i requires 0 <= i < 15 => ShiftIn(b[i], b[i + 1])) + [LastShifted(b[15], b[0])]
  }

  lemma DoubleIsDoubled(b: Block)
    ensures ToBytesBe(Words.DoubleBe(FromBytesBe(b))) == Doubled(b)
  {
    hide Word4, Byte0, WordBytes, Twice, CarryUp, Words.Reduction87, Xor32, ShiftIn, LastShifted, Doubled;
    FirstByte(b[0], b[1], b[2], b[3]);
    FirstByte(b[4], b[5], b[6], b[7]);
    FirstByte(b[8], b[9], b[10], b[11]);
    FirstByte(b[12], b[13], b[14], b[15]);
    var w0, w1, w2, w3 := Word4(b[0], b[1], b[2], b[3]), Word4(b[4], b[5], b[6], b[7]),
                          Word4(b[8], b[9], b[10], b[11]), Word4(b[12], b[13], b[14], b[15]);
    WordShifts(b[0], b[1], b[2], b[3], w1, b[4]);
    WordShifts(b[4], b[5], b[6], b[7], w2, b[8]);
    WordShifts(b[8], b[9], b[10], b[11], w3, b[12]);
    LastWordShifts(b[12], b[13], b[14], b[15], w0, b[0]);
    FourRuns(b);
  }

  lemma FourRuns(b: Block)
    ensures Doubled(b) == [ShiftIn(b[0], b[1]), ShiftIn(b[1], b[2]), ShiftIn(b[2], b[3]), ShiftIn(b[3], b[4])]
                        + [ShiftIn(b[4], b[5]), ShiftIn(b[5], b[6]), ShiftIn(b[6], b[7]), ShiftIn(b[7], b[8])]
                        + [ShiftIn(b[8], b[9]), ShiftIn(b[9], b[10]), ShiftIn(b[10], b[11]), ShiftIn(b[11], b[12])]
                        + [ShiftIn(b[12], b[13]), ShiftIn(b[13], b[14]), ShiftIn(b[14], b[15]), LastShifted(b[15], b[0])]
  {
    hide ShiftIn, LastShifted;
  }

  /** The keys are what the block function makes of sixteen zero bytes, doubled once and twice. */
  lemma KeysAreDoubled(E: Prp, zeros: Block)
    requires forall i :: 0 <= i < 16 ==> zeros[i] == 0
    ensures K1(E) == Doubled(E(zeros)) && K2(E) == Doubled(Doubled(E(zeros)))
  {
    hide FromBytesBe, ToBytesBe, Doubled, Words.DoubleBe;
    assert zeros == ZERO_BLOCK;
    DoubleIsDoubled(E(zeros));
    DoubleIsDoubled(Doubled(E(zeros)));
  }

  /** cf_cmac_init: the second key is the first one doubled in place. */
  method Subkeys(E: Prp) returns (b: Block, p: Block)
    ensures b == K1(E) && p == K2(E)
  {
    hide FromBytesBe, ToBytesBe, Words.DoubleBe;
    var l := E(ZERO_BLOCK);
    var gf := Load(l);
    Words.Double(gf, gf);
    b := Store(gf);
    BytesRoundTrip(Words.View(gf));
    Words.Double(gf, gf);
    p := Store(gf);
  }

  method Load(b: Block) returns (gf: array<bv32>)
    ensures fresh(gf) && gf.Length == 4 && Words.View(gf) == FromBytesBe(b)
  {
    hide Word4;
    gf := new bv32[4];
    gf[0] := Word4(b[0], b[1], b[2], b[3]);
    gf[1] := Word4(b[4], b[5], b[6], b[7]);
    gf[2] := Word4(b[8], b[9], b[10], b[11]);
    gf[3] := Word4(b[12], b[13], b[14], b[15]);
  }

  method Store(gf: array<bv32>) returns (b: Block)
    requires gf.Length == 4
    ensures b == ToBytesBe(Words.View(gf))
  {
    hide WordBytes;
    b := WordBytes(gf[0]) + WordBytes(gf[1]) + WordBytes(gf[2]) + WordBytes(gf[3]);
  }

  // ---- The definition (section 2.4 of RFC 4493) ----

  /** The number of blocks; the empty message counts as one. */
  function BlockCount(m: seq<bv8>): (n: nat)
    ensures n >= 1 && 16 * (n - 1) <= |m| <= 16 * n
  {
    if m == [] then 1 else (|m| + 15) / 16
  }

  function Pad(m: seq<bv8>): Block
    requires |m| < 16
  {
    m + [0x80] + seq(15 - |m|, _ => 0)
  }

  /** The chaining value X_i. */
  function Chain(E: Prp, m: seq<bv8>, i: nat): Block
    requires 16 * i <= |m|
  {
    if i == 0 then ZERO_BLOCK else E(XorSeq(m[16 * (i - 1)..16 * i], Chain(E, m, i - 1)))
  }

  /** The last block with its subkey: K1 when it is complete, K2 when it had to be padded. */
  function LastBlock(E: Prp, m: seq<bv8>): Block {
    var tail := m[16 * (BlockCount(m) - 1)..];
    if |tail| == 16 then XorSeq(tail, K1(E)) else XorSeq(Pad(tail), K2(E))
  }

  function CmacTag(E: Prp, m: seq<bv8>): Block {
    E(XorSeq(LastBlock(E, m), Chain(E, m, BlockCount(m) - 1)))
  }

  // ---- The streaming state ----

  datatype CmacState = CmacState(block: Block, processed: nat, finalised: bool)

  const START := CmacState(ZERO_BLOCK, 0, false)

  /** cmac_process. */
  function Process(E: Prp): (CmacState, seq<bv8>) -> CmacState {
    (s: CmacState, b: seq<bv8>) =>
      if |b| == 16 then CmacState(E(XorSeq(b, s.block)), s.processed + 16, s.finalised) else s
  }

  /** cmac_process_final_nopad and cmac_process_final_pad, by subkey. */
  function ProcessFinal(E: Prp, key: Block): (CmacState, seq<bv8>) -> CmacState {
    (s: CmacState, b: seq<bv8>) =>
      if |b| == 16 then CmacState(E(XorSeq(XorSeq(b, key), s.block)), s.processed + 16, true) else s
  }

  /** The state after the final update, from the bytes not yet processed. */
  function Finish(E: Prp, s: CmacState, total: seq<bv8>): CmacState {
    if total != [] && |total| % 16 == 0 then Consume(s, total, 16, Process(E), ProcessFinal(E, K1(E))).0
    else
      var (s1, rest) := Consume(s, total, 16, Process(E), Process(E));
      ProcessFinal(E, K2(E))(s1, Pad(rest))
  }

  // ---- Streaming computes the definition ----

  /** The tag from a chaining value on. */
  function TagFrom(E: Prp, x: Block, m: seq<bv8>): Block
    decreases |m|
  {
    if |m| > 16 then TagFrom(E, E(XorSeq(m[..16], x)), m[16..])
    else if |m| == 16 then E(XorSeq(XorSeq(m, K1(E)), x))
    else E(XorSeq(XorSeq(Pad(m), K2(E)), x))
  }

  lemma {:induction false} FinishIsTagFrom(E: Prp, s: CmacState, m: seq<bv8>)
    ensures Finish(E, s, m).block == TagFrom(E, s.block, m)
    ensures Finish(E, s, m).finalised
    ensures Finish(E, s, m).processed == s.processed + 16 * BlockCount(m)
    decreases |m|
  {
    hide K1, K2, XorSeq;
    if |m| > 16 {
      FinishIsTagFrom(E, Process(E)(s, m[..16]), m[16..]);
      assert |m| % 16 == (|m| - 16) % 16;
    }
  }

  lemma {:induction false} TagFromChain(E: Prp, m: seq<bv8>, i: nat)
    requires i < BlockCount(m)
    ensures TagFrom(E, Chain(E, m, i), m[16 * i..]) == CmacTag(E, m)
    decreases BlockCount(m) - i
  {
    hide K1, K2, XorSeq;
    var rest := m[16 * i..];
    if i == BlockCount(m) - 1 {
      assert |rest| <= 16;
    } else {
      TagFromChain(E, m, i + 1);
      assert rest[..16] == m[16 * i..16 * (i + 1)];
      assert rest[16..] == m[16 * (i + 1)..];
    }
  }

  lemma TagFromStart(E: Prp, m: seq<bv8>)
    ensures TagFrom(E, ZERO_BLOCK, m) == CmacTag(E, m)
  {
    TagFromChain(E, m, 0);
    assert m[0..] == m;
  }

  lemma FinishAfterConsume(E: Prp, s: CmacState, a: seq<bv8>, b: seq<bv8>)
    requires b != [] || a == []
    ensures var (s1, rest) := Consume(s, a, 16, Process(E), Process(E));
            Finish(E, s1, rest + b) == Finish(E, s, a + b)
  {
    hide Finish, K1, K2, XorSeq;
    var (s1, rest) := Consume(s, a, 16, Process(E), Process(E));
    if b == [] {
      assert rest == [] && a + b == a && rest + b == rest;
    } else {
      ConsumeFoldsBlocks(s, a, 16, Process(E));
      assert |rest| == |a| % 16;
      ConsumeInTwo(s, a, b, 16, Process(E), Process(E));
      ConsumeInTwo(s, a, b, 16, Process(E), ProcessFinal(E, K1(E)));
      FinishCases(E, s1, rest + b);
      FinishCases(E, s, a + b);
    }
  }

  lemma FinishCases(E: Prp, s: CmacState, m: seq<bv8>)
    requires m != []
    ensures Finish(E, s, m) ==
            if |m| % 16 == 0 then Consume(s, m, 16, Process(E), ProcessFinal(E, K1(E))).0
            else
              var (s1, rest) := Consume(s, m, 16, Process(E), Process(E));
              ProcessFinal(E, K2(E))(s1, Pad(rest))
  {
  }

  /** However a message is cut into updates, provided the last one is nonempty unless the whole
      message is empty, the stream ends in the tag of RFC 4493, finalised, having processed
      every block once. */
  lemma StreamingIsOneShot(E: Prp, chunks: seq<seq<bv8>>, last: seq<bv8>)
    requires last != [] || Concat(chunks) == []
    ensures var (s, pending) := Run(START, chunks, 16, Process(E));
            var done := Finish(E, s, pending + last);
            && done.block == CmacTag(E, Concat(chunks) + last)
            && done.finalised
            && done.processed == 16 * BlockCount(Concat(chunks) + last)
  {
    hide Finish, CmacTag, K1, K2, XorSeq;
    RunIsConsume(START, chunks, 16, Process(E));
    FinishAfterConsume(E, START, Concat(chunks), last);
    FinishIsTagFrom(E, START, Concat(chunks) + last);
    TagFromStart(E, Concat(chunks) + last);
  }

  lemma {:induction false} NotFinalisedBefore(E: Prp, chunks: seq<seq<bv8>>)
    ensures !Run(START, chunks, 16, Process(E)).0.finalised
  {
    RunIsConsume(START, chunks, 16, Process(E));
    ConsumeKeepsFlag(E, START, Concat(chunks));
  }

  lemma {:induction false} ConsumeKeepsFlag(E: Prp, s: CmacState, m: seq<bv8>)
    ensures Consume(s, m, 16, Process(E), Process(E)).0.finalised == s.finalised
    decreases |m|
  {
    if |m| >= 16 {
      ConsumeKeepsFlag(E, Process(E)(s, m[..16]), m[16..]);
    }
  }
}
