/** The round steps and the key schedule of FIPS 197, said byte by byte. */
module AesMeaning {
  import opened Bitops
  import opened SubstitutionTables
  import opened AesField
  import opened Aes
  import opened AesContexts

  lemma XorFrontBytes(x: bv32, y: bv32)
    ensures Byte0(Xor32(x, y)) == Xor8(Byte0(x), Byte0(y))
    ensures Byte1(Xor32(x, y)) == Xor8(Byte1(x), Byte1(y))
  {
  }

  lemma XorBackBytes(x: bv32, y: bv32)
    ensures Byte2(Xor32(x, y)) == Xor8(Byte2(x), Byte2(y))
    ensures Byte3(Xor32(x, y)) == Xor8(Byte3(x), Byte3(y))
  {
  }

  lemma XorByte(x: bv32, y: bv32, r: nat)
    requires r < 4
    ensures ByteOf(Xor32(x, y), r) == Xor8(ByteOf(x, r), ByteOf(y, r))
  {
    hide Xor8, Xor32, Byte0, Byte1, Byte2, Byte3;
    XorFrontBytes(x, y);
    XorBackBytes(x, y);
  }

  lemma WordByte(a: bv8, b: bv8, c: bv8, d: bv8, r: nat)
    requires r < 4
    ensures ByteOf(Word4(a, b, c, d), r) == [a, b, c, d][r]
  {
    UnpackPack(a, b, c, d);
    hide Word4, Byte0, Byte1, Byte2, Byte3;
  }

  /** The byte in row r and column c of the state is byte r + 4c of the block (section 3.4). */
  lemma StateOfBlock(block: seq<bv8>, r: nat, c: nat)
    requires |block| == 16 && r < 4 && c < 4
    ensures Cell(Load(block), r, c) == block[r + 4 * c]
    ensures Store(Load(block)) == block
  {
    hide Word4, ByteOf, Store, Load;
    StoreLoad(block);
    LoadedColumn(block, c);
    WordByte(block[4 * c], block[4 * c + 1], block[4 * c + 2], block[4 * c + 3], r);
  }

  lemma LoadedColumn(block: seq<bv8>, c: nat)
    requires |block| == 16 && c < 4
    ensures Column(Load(block), c) == Word4(block[4 * c], block[4 * c + 1], block[4 * c + 2], block[4 * c + 3])
  {
    hide Word4;
  }

  /** SubBytes (section 5.1.1). */
  lemma SubBlockByBytes(s: State, r: nat, c: nat)
    requires r < 4 && c < 4
    ensures Cell(SubBlock(s), r, c) == SBox(Cell(s, r, c))
  {
    hide Word4, SBox;
    var w := Column(s, c);
    SubWordByBytes(w, r);
  }

  lemma SubWordByBytes(w: bv32, r: nat)
    requires r < 4
    ensures ByteOf(SubWord(w), r) == SBox(ByteOf(w, r))
  {
    hide Word4, SBox;
    UnpackPack(SBox(Byte0(w)), SBox(Byte1(w)), SBox(Byte2(w)), SBox(Byte3(w)));
    hide Byte0, Byte1, Byte2, Byte3;
  }

  /** AddRoundKey: column c of round key `round` is word 4 round + c of the schedule (section 5.1.4). */
  lemma AddKeyByBytes(ks: seq<bv32>, round: nat, s: State, r: nat, c: nat)
    requires 4 * round + 4 <= |ks| && r < 4 && c < 4
    ensures Cell(AddKey(s, RoundKey(ks, round)), r, c) == Xor8(Cell(s, r, c), ByteOf(ks[4 * round + c], r))
  {
    hide Xor8, Xor32, ByteOf;
    XorByte(Column(s, c), ks[4 * round + c], r);
  }

  /** RotWord takes the first byte to the end. */
  lemma RotateByte(w: bv32, r: nat)
    requires r < 4
    ensures ByteOf(Rotl8(w), r) == ByteOf(w, (r + 1) % 4)
  {
  }

  /** What section 5.2 adds to byte r of the word nk places back, from the word before. */
  function Addend(nk: nat, i: nat, last: bv32, r: nat): bv8
    requires 0 < nk <= i && r < 4
  {
    if i % nk == 0 then Xor8(SBox(ByteOf(last, (r + 1) % 4)), if r == 0 then PowerOfX(i / nk - 1) else 0)
    else if nk == 8 && i % 8 == 4 then SBox(ByteOf(last, r))
    else ByteOf(last, r)
  }

  /** The key expansion: byte r of word i. */
  lemma ScheduleByBytes(key: seq<bv8>, i: nat, r: nat)
    requires |key| == 16 || |key| == 24 || |key| == 32
    requires r < 4
    ensures IsKey(key)
    ensures i < |key| / 4 ==> ByteOf(ScheduleWord(key, i), r) == key[4 * i + r]
    ensures i >= |key| / 4 ==>
              ByteOf(ScheduleWord(key, i), r)
                == Xor8(ByteOf(ScheduleWord(key, i - |key| / 4), r), Addend(|key| / 4, i, ScheduleWord(key, i - 1), r))
  {
    hide Word4, ByteOf, Xor8, Xor32, SBox, SubWord, Rotl8, ScheduleWord, PowerOfX;
    var nk := |key| / 4;
    if i < nk {
      FirstWords(key, i);
      WordByte(key[i * 4], key[i * 4 + 1], key[i * 4 + 2], key[i * 4 + 3], r);
    } else {
      NextWord(key, i);
      var last := ScheduleWord(key, i - 1);
      XorByte(ScheduleWord(key, i - nk), ScheduleStep(nk, i, last), r);
      if i % nk == 0 {
        var rcon := Word4(PowerOfX(i / nk - 1), 0, 0, 0);
        XorByte(SubWord(Rotl8(last)), rcon, r);
        WordByte(PowerOfX(i / nk - 1), 0, 0, 0, r);
        SubWordByBytes(Rotl8(last), r);
        RotateByte(last, r);
      } else {
        SubWordByBytes(last, r);
      }
    }
  }

  /** Ten, twelve or fourteen rounds (figure 4 of FIPS 197). */
  lemma RoundsByKey(key: seq<bv8>)
    ensures IsKey(key) <==> |key| == 16 || |key| == 24 || |key| == 32
    ensures IsKey(key) ==> Rounds(key) == if |key| == 16 then 10 else if |key| == 24 then 12 else 14
  {
  }
}
