/** The AES block cipher of cifra_eax_aes.c: key schedule, encryption and decryption. */
module Aes {
  import opened Bitops
  import opened SubstitutionTables
  import opened AesField
  import opened AesColumns

  /** The four state columns, each packed big-endian. */
  datatype State = State(w0: bv32, w1: bv32, w2: bv32, w3: bv32)

  // ---- The round functions ----

  function SubWord(w: bv32): bv32 {
    Word4(SBox(Byte0(w)), SBox(Byte1(w)), SBox(Byte2(w)), SBox(Byte3(w)))
  }

  function InvSubWord(w: bv32): bv32 {
    Word4(InvSBox(Byte0(w)), InvSBox(Byte1(w)), InvSBox(Byte2(w)), InvSBox(Byte3(w)))
  }

  function SubBlock(s: State): State {
    State(SubWord(s.w0), SubWord(s.w1), SubWord(s.w2), SubWord(s.w3))
  }

  function InvSubBlock(s: State): State {
    State(InvSubWord(s.w0), InvSubWord(s.w1), InvSubWord(s.w2), InvSubWord(s.w3))
  }

  function ShiftRows(s: State): State {
    State(Word4(Byte0(s.w0), Byte1(s.w1), Byte2(s.w2), Byte3(s.w3)),
          Word4(Byte0(s.w1), Byte1(s.w2), Byte2(s.w3), Byte3(s.w0)),
          Word4(Byte0(s.w2), Byte1(s.w3), Byte2(s.w0), Byte3(s.w1)),
          Word4(Byte0(s.w3), Byte1(s.w0), Byte2(s.w1), Byte3(s.w2)))
  }

  function InvShiftRows(s: State): State {
    State(Word4(Byte0(s.w0), Byte1(s.w3), Byte2(s.w2), Byte3(s.w1)),
          Word4(Byte0(s.w1), Byte1(s.w0), Byte2(s.w3), Byte3(s.w2)),
          Word4(Byte0(s.w2), Byte1(s.w1), Byte2(s.w0), Byte3(s.w3)),
          Word4(Byte0(s.w3), Byte1(s.w2), Byte2(s.w1), Byte3(s.w0)))
  }

  function MixColumns(s: State): State {
    State(MixColumn(s.w0), MixColumn(s.w1), MixColumn(s.w2), MixColumn(s.w3))
  }

  function InvMixColumns(s: State): State {
    State(InvMixColumn(s.w0), InvMixColumn(s.w1), InvMixColumn(s.w2), InvMixColumn(s.w3))
  }

  function AddKey(s: State, k: State): State {
    State(Xor32(s.w0, k.w0), Xor32(s.w1, k.w1), Xor32(s.w2, k.w2), Xor32(s.w3, k.w3))
  }

  /** Round key r of an expanded key. */
  function RoundKey(ks: seq<bv32>, r: nat): State
    requires 4 * r + 4 <= |ks|
  {
    State(ks[4 * r], ks[4 * r + 1], ks[4 * r + 2], ks[4 * r + 3])
  }

  // ---- Each inverse step undoes its step, both ways ----

  lemma SubWordInverse(w: bv32)
    ensures InvSubWord(SubWord(w)) == w
    ensures SubWord(InvSubWord(w)) == w
  {
    hide Word4, Byte0, Byte1, Byte2, Byte3, SBox, InvSBox;
    var a, b, c, d := Byte0(w), Byte1(w), Byte2(w), Byte3(w);
    PackUnpack(w);
    UnpackPack(SBox(a), SBox(b), SBox(c), SBox(d));
    UnpackPack(InvSBox(a), InvSBox(b), InvSBox(c), InvSBox(d));
    InverseTableUndoesTable(a);
    InverseTableUndoesTable(b);
    InverseTableUndoesTable(c);
    InverseTableUndoesTable(d);
    TableUndoesInverseTable(a);
    TableUndoesInverseTable(b);
    TableUndoesInverseTable(c);
    TableUndoesInverseTable(d);
  }

  lemma SubBlockInverse(s: State)
    ensures InvSubBlock(SubBlock(s)) == s
    ensures SubBlock(InvSubBlock(s)) == s
  {
    hide SubWord, InvSubWord;
    SubWordInverse(s.w0);
    SubWordInverse(s.w1);
    SubWordInverse(s.w2);
    SubWordInverse(s.w3);
  }

  lemma ShiftRowsInverse(s: State)
    ensures InvShiftRows(ShiftRows(s)) == s
    ensures ShiftRows(InvShiftRows(s)) == s
  {
    hide Word4, Byte0, Byte1, Byte2, Byte3;
    PackUnpack(s.w0);
    PackUnpack(s.w1);
    PackUnpack(s.w2);
    PackUnpack(s.w3);
    UnpackPack(Byte0(s.w0), Byte1(s.w1), Byte2(s.w2), Byte3(s.w3));
    UnpackPack(Byte0(s.w1), Byte1(s.w2), Byte2(s.w3), Byte3(s.w0));
    UnpackPack(Byte0(s.w2), Byte1(s.w3), Byte2(s.w0), Byte3(s.w1));
    UnpackPack(Byte0(s.w3), Byte1(s.w0), Byte2(s.w1), Byte3(s.w2));
    UnpackPack(Byte0(s.w0), Byte1(s.w3), Byte2(s.w2), Byte3(s.w1));
    UnpackPack(Byte0(s.w1), Byte1(s.w0), Byte2(s.w3), Byte3(s.w2));
    UnpackPack(Byte0(s.w2), Byte1(s.w1), Byte2(s.w0), Byte3(s.w3));
    UnpackPack(Byte0(s.w3), Byte1(s.w2), Byte2(s.w1), Byte3(s.w0));
  }

  lemma MixColumnsInverse(s: State)
    ensures InvMixColumns(MixColumns(s)) == s
    ensures MixColumns(InvMixColumns(s)) == s
  {
    hide MixColumn, InvMixColumn;
    MixColumnInverse(s.w0);
    MixColumnInverse(s.w1);
    MixColumnInverse(s.w2);
    MixColumnInverse(s.w3);
  }

  lemma AddKeyInverse(s: State, k: State)
    ensures AddKey(AddKey(s, k), k) == s
  {
    hide Xor32;
    XorCancels(s.w0, k.w0);
    XorCancels(s.w1, k.w1);
    XorCancels(s.w2, k.w2);
    XorCancels(s.w3, k.w3);
  }

  // ---- ShiftRows rotates row r of the state left by r (section 5.1.2 of FIPS 197) ----

  function Column(s: State, c: nat): bv32
    requires c < 4
  {
    if c == 0 then s.w0 else if c == 1 then s.w1 else if c == 2 then s.w2 else s.w3
  }

  function ByteOf(w: bv32, r: nat): bv8
    requires r < 4
  {
    if r == 0 then Byte0(w) else if r == 1 then Byte1(w) else if r == 2 then Byte2(w) else Byte3(w)
  }

  function Cell(s: State, r: nat, c: nat): bv8
    requires r < 4 && c < 4
  {
    ByteOf(Column(s, c), r)
  }

  lemma GatheredBytes(w0: bv32, w1: bv32, w2: bv32, w3: bv32, r: nat)
    requires r < 4
    ensures ByteOf(Word4(Byte0(w0), Byte1(w1), Byte2(w2), Byte3(w3)), r)
         == ByteOf(if r == 0 then w0 else if r == 1 then w1 else if r == 2 then w2 else w3, r)
  {
    hide Word4, Byte0, Byte1, Byte2, Byte3;
    UnpackPack(Byte0(w0), Byte1(w1), Byte2(w2), Byte3(w3));
  }

  lemma ShiftRowsRotatesRows(s: State, r: nat, c: nat)
    requires r < 4 && c < 4
    ensures Cell(ShiftRows(s), r, c) == Cell(s, r, (c + r) % 4)
  {
    hide Word4, ByteOf;
    if c == 0 {
      GatheredBytes(s.w0, s.w1, s.w2, s.w3, r);
    } else if c == 1 {
      GatheredBytes(s.w1, s.w2, s.w3, s.w0, r);
    } else if c == 2 {
      GatheredBytes(s.w2, s.w3, s.w0, s.w1, r);
    } else {
      GatheredBytes(s.w3, s.w0, s.w1, s.w2, r);
    }
  }

  // ---- The cipher and its inverse ----

  predicate IsSchedule(ks: seq<bv32>, rounds: nat) {
    rounds in {10, 12, 14} && 4 * (rounds + 1) <= |ks|
  }

  /** The state after the initial key addition and `r` full rounds. */
  function EncryptRounds(ks: seq<bv32>, s: State, r: nat): State
    requires 4 * (r + 1) <= |ks|
  {
    if r == 0 then AddKey(s, RoundKey(ks, 0))
    else AddKey(MixColumns(ShiftRows(SubBlock(EncryptRounds(ks, s, r - 1)))), RoundKey(ks, r))
  }

  function Cipher(ks: seq<bv32>, rounds: nat, s: State): State
    requires IsSchedule(ks, rounds)
  {
    AddKey(ShiftRows(SubBlock(EncryptRounds(ks, s, rounds - 1))), RoundKey(ks, rounds))
  }

  /** The state of decryption with `r` full inverse rounds still to run. */
  function DecryptRounds(ks: seq<bv32>, rounds: nat, s: State, r: nat): State
    requires IsSchedule(ks, rounds) && r < rounds
    decreases rounds - r
  {
    if r == rounds - 1 then AddKey(s, RoundKey(ks, rounds))
    else InvMixColumns(AddKey(InvSubBlock(InvShiftRows(DecryptRounds(ks, rounds, s, r + 1))), RoundKey(ks, r + 1)))
  }

  function InvCipher(ks: seq<bv32>, rounds: nat, s: State): State
    requires IsSchedule(ks, rounds)
  {
    AddKey(InvSubBlock(InvShiftRows(DecryptRounds(ks, rounds, s, 0))), RoundKey(ks, 0))
  }

  /** The two round orders meet: with r inverse rounds to go, decryption holds the
      shifted and substituted state that encryption had after r rounds. */
  lemma {:induction false} RoundsMeet(ks: seq<bv32>, rounds: nat, s: State, r: nat)
    requires IsSchedule(ks, rounds) && r < rounds
    ensures DecryptRounds(ks, rounds, Cipher(ks, rounds, s), r) == ShiftRows(SubBlock(EncryptRounds(ks, s, r)))
    decreases rounds - r
  {
    hide AddKey, MixColumns, InvMixColumns, ShiftRows, InvShiftRows, SubBlock, InvSubBlock;
    if r == rounds - 1 {
      AddKeyInverse(ShiftRows(SubBlock(EncryptRounds(ks, s, r))), RoundKey(ks, rounds));
    } else {
      RoundsMeet(ks, rounds, s, r + 1);
      var before := ShiftRows(SubBlock(EncryptRounds(ks, s, r)));
      var after := EncryptRounds(ks, s, r + 1);
      ShiftRowsInverse(SubBlock(after));
      SubBlockInverse(after);
      AddKeyInverse(MixColumns(before), RoundKey(ks, r + 1));
      MixColumnsInverse(before);
    }
  }

  /** Decryption undoes encryption, for every round count, round keys and state. */
  lemma InvCipherUndoesCipher(ks: seq<bv32>, rounds: nat, s: State)
    requires IsSchedule(ks, rounds)
    ensures InvCipher(ks, rounds, Cipher(ks, rounds, s)) == s
  {
    hide AddKey, MixColumns, InvMixColumns, ShiftRows, InvShiftRows, SubBlock, InvSubBlock, Cipher;
    RoundsMeet(ks, rounds, s, 0);
    var first := EncryptRounds(ks, s, 0);
    ShiftRowsInverse(SubBlock(first));
    SubBlockInverse(first);
    AddKeyInverse(s, RoundKey(ks, 0));
  }

  lemma {:induction false} RoundsMeetBackwards(ks: seq<bv32>, rounds: nat, s: State, r: nat)
    requires IsSchedule(ks, rounds) && r < rounds
    ensures ShiftRows(SubBlock(EncryptRounds(ks, InvCipher(ks, rounds, s), r))) == DecryptRounds(ks, rounds, s, r)
  {
    hide AddKey, MixColumns, InvMixColumns, ShiftRows, InvShiftRows, SubBlock, InvSubBlock;
    var d := DecryptRounds(ks, rounds, s, r);
    if r == 0 {
      AddKeyInverse(InvSubBlock(InvShiftRows(d)), RoundKey(ks, 0));
      SubBlockInverse(InvShiftRows(d));
      ShiftRowsInverse(d);
    } else {
      RoundsMeetBackwards(ks, rounds, s, r - 1);
      var key := RoundKey(ks, r);
      MixColumnsInverse(AddKey(InvSubBlock(InvShiftRows(d)), key));
      AddKeyInverse(InvSubBlock(InvShiftRows(d)), key);
      SubBlockInverse(InvShiftRows(d));
      ShiftRowsInverse(d);
    }
  }

  /** Encryption undoes decryption as well: every key gives a permutation of the states. */
  lemma CipherUndoesInvCipher(ks: seq<bv32>, rounds: nat, s: State)
    requires IsSchedule(ks, rounds)
    ensures Cipher(ks, rounds, InvCipher(ks, rounds, s)) == s
  {
    hide AddKey, MixColumns, InvMixColumns, ShiftRows, InvShiftRows, SubBlock, InvSubBlock, InvCipher;
    RoundsMeetBackwards(ks, rounds, s, rounds - 1);
    AddKeyInverse(s, RoundKey(ks, rounds));
  }
}
