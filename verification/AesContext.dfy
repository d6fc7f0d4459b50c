/** The mutable side of cifra_eax_aes.c: the context with its expanded key, and the block
    operations that update a four-word state array step by step. */
module AesContexts {
  import opened Bitops
  import opened SubstitutionTables
  import opened AesField
  import opened AesColumns
  import opened Aes

  // ---- Tables ----

  const S: seq<bv8> := seq(256, i requires 0 <= i < 256 => SBox(i as bv8))
  const S_INV: seq<bv8> := seq(256, i requires 0 <= i < 256 => InvSBox(i as bv8))
  const RCON: seq<bv8> := [0x8d, 0x01, 0x02, 0x04, 0x08, 0x10, 0x20, 0x40, 0x80, 0x1b, 0x36]

  lemma TableLookups(a: bv8)
    ensures Lookup(S, a) == SBox(a)
    ensures Lookup(S_INV, a) == InvSBox(a)
  {
    hide SBox, InvSBox;
    assert (a as int) as bv8 == a;
  }

  /** x^j in GF(2^8). */
  function PowerOfX(j: nat): bv8 {
    if j == 0 then 1 else Xtime(PowerOfX(j - 1))
  }

  /** Rcon[j] is x^(j-1) (section 5.2 of FIPS 197). */
  lemma RconIsPowerOfX(j: nat)
    requires 1 <= j <= 10
    ensures RCON[j] == PowerOfX(j - 1)
  {
    assert PowerOfX(0) == 0x01;
    assert PowerOfX(1) == 0x02;
    assert PowerOfX(2) == 0x04;
    assert PowerOfX(3) == 0x08;
    assert PowerOfX(4) == 0x10;
    assert PowerOfX(5) == 0x20;
    assert PowerOfX(6) == 0x40;
    assert PowerOfX(7) == 0x80;
    assert PowerOfX(8) == 0x1b;
    assert PowerOfX(9) == 0x36;
  }

  // ---- The key schedule of section 5.2 of FIPS 197 ----

  predicate IsKey(key: seq<bv8>) { |key| in {16, 24, 32} }

  function Rounds(key: seq<bv8>): nat { |key| / 4 + 6 }

  function KeyWord(key: seq<bv8>, i: nat): bv32
    requires 4 * i + 4 <= |key|
  {
    Word4(key[4 * i], key[4 * i + 1], key[4 * i + 2], key[4 * i + 3])
  }

  function ScheduleStep(nk: nat, i: nat, temp: bv32): bv32
    requires nk > 0
    requires i >= nk
  {
    if i % nk == 0 then Xor32(SubWord(Rotl8(temp)), Word4(PowerOfX(i / nk - 1), 0, 0, 0))
    else if nk > 6 && i % nk == 4 then SubWord(temp)
    else temp
  }

  /** Word i of the expanded key. */
  function ScheduleWord(key: seq<bv8>, i: nat): bv32
    requires IsKey(key)
  {
    var nk := |key| / 4;
    if i < nk then KeyWord(key, i)
    else Xor32(ScheduleWord(key, i - nk), ScheduleStep(nk, i, ScheduleWord(key, i - 1)))
  }

  function Schedule(key: seq<bv8>): (ks: seq<bv32>)
    requires IsKey(key)
    ensures IsSchedule(ks, Rounds(key))
  {
    seq(4 * (Rounds(key) + 1), i requires 0 <= i => ScheduleWord(key, i))
  }

  lemma FirstWords(key: seq<bv8>, i: nat)
    requires IsKey(key) && i < |key| / 4
    ensures ScheduleWord(key, i) == Word4(key[i * 4], key[i * 4 + 1], key[i * 4 + 2], key[i * 4 + 3])
  {
    hide Word4, Xor32, ScheduleStep;
  }

  lemma NextWord(key: seq<bv8>, i: nat)
    requires IsKey(key) && i >= |key| / 4
    ensures ScheduleWord(key, i) == Xor32(ScheduleWord(key, i - |key| / 4), ScheduleStep(|key| / 4, i, ScheduleWord(key, i - 1)))
  {
    hide Word4, Xor32, ScheduleStep;
  }

  method SubWordScan(w: bv32, tab: seq<bv8>) returns (r: bv32)
    requires |tab| == 256
    ensures r == Word4(Lookup(tab, Byte0(w)), Lookup(tab, Byte1(w)), Lookup(tab, Byte2(w)), Lookup(tab, Byte3(w)))
  {
    hide Word4, Byte0, Byte1, Byte2, Byte3, Lookup;
    var a, b, c, d := SelectU8x4(Byte0(w), Byte1(w), Byte2(w), Byte3(w), tab);
    r := Word4(a, b, c, d);
  }

  method SubWordM(w: bv32) returns (r: bv32)
    ensures r == SubWord(w)
  {
    hide Word4, Byte0, Byte1, Byte2, Byte3, Lookup, SBox;
    r := SubWordScan(w, S);
    TableLookups(Byte0(w));
    TableLookups(Byte1(w));
    TableLookups(Byte2(w));
    TableLookups(Byte3(w));
  }

  method InvSubWordM(w: bv32) returns (r: bv32)
    ensures r == InvSubWord(w)
  {
    hide Word4, Byte0, Byte1, Byte2, Byte3, Lookup, InvSBox;
    r := SubWordScan(w, S_INV);
    TableLookups(Byte0(w));
    TableLookups(Byte1(w));
    TableLookups(Byte2(w));
    TableLookups(Byte3(w));
  }

  /** The invariant of the running counters; `m` may have reached nk. */
  predicate Counters(i: nat, nk: nat, q: nat, m: nat) { i == q * nk + m }

  lemma FirstCounters(nk: nat)
    ensures Counters(nk, nk, 1, 0)
  {
  }

  lemma WrapCounters(i: nat, nk: nat, q: nat)
    requires Counters(i, nk, q, nk)
    ensures Counters(i, nk, q + 1, 0)
  {
    assert (q + 1) * nk == q * nk + nk;
  }

  lemma NextCounters(i: nat, nk: nat, q: nat, m: nat)
    requires Counters(i, nk, q, m)
    ensures Counters(i + 1, nk, q, m + 1)
  {
  }

  lemma CountersDivide(i: nat, nk: nat, q: nat, m: nat)
    requires nk in {4, 6, 8} && m < nk && Counters(i, nk, q, m)
    ensures i / nk == q && i % nk == m
  {
  }

  /** The body of the schedule loop up to the final addition. The round constant is never
      read past the end of its table: the quotient stays between 1 and 10. */
  method ScheduleTemp(nk: nat, i: nat, iDivNk: nat, iModNk: nat, last: bv32) returns (temp: bv32)
    requires nk in {4, 6, 8} && nk <= i < 4 * (nk + 7)
    requires iModNk < nk && Counters(i, nk, iDivNk, iModNk)
    ensures temp == ScheduleStep(nk, i, last)
  {
    hide Word4, Xor32, Rotl8, SubWord;
    CountersDivide(i, nk, iDivNk, iModNk);
    temp := last;
    if iModNk == 0 {
      temp := SubWordM(Rotl8(temp));
      RconIsPowerOfX(iDivNk);
      temp := Xor32(temp, Word4(RCON[iDivNk], 0, 0, 0));
    } else if nk > 6 && iModNk == 4 {
      temp := SubWordM(temp);
    }
  }

  // ---- State updates ----

  function View(state: array<bv32>): State
    requires state.Length == 4
    reads state
  {
    State(state[0], state[1], state[2], state[3])
  }

  method AddRoundKey(state: array<bv32>, ks: array<bv32>, at: nat)
    requires state.Length == 4 && at % 4 == 0 && at + 4 <= ks.Length && state != ks
    modifies state
    ensures View(state) == AddKey(old(View(state)), RoundKey(ks[..], at / 4))
  {
    hide Xor32;
    state[0] := Xor32(state[0], ks[at]);
    state[1] := Xor32(state[1], ks[at + 1]);
    state[2] := Xor32(state[2], ks[at + 2]);
    state[3] := Xor32(state[3], ks[at + 3]);
  }

  method SubBlockInPlace(state: array<bv32>)
    requires state.Length == 4
    modifies state
    ensures View(state) == SubBlock(old(View(state)))
  {
    hide SubWord;
    state[0] := SubWordM(state[0]);
    state[1] := SubWordM(state[1]);
    state[2] := SubWordM(state[2]);
    state[3] := SubWordM(state[3]);
  }

  method InvSubBlockInPlace(state: array<bv32>)
    requires state.Length == 4
    modifies state
    ensures View(state) == InvSubBlock(old(View(state)))
  {
    hide InvSubWord;
    state[0] := InvSubWordM(state[0]);
    state[1] := InvSubWordM(state[1]);
    state[2] := InvSubWordM(state[2]);
    state[3] := InvSubWordM(state[3]);
  }

  method ShiftRowsInPlace(state: array<bv32>)
    requires state.Length == 4
    modifies state
    ensures View(state) == ShiftRows(old(View(state)))
  {
    hide Word4, Byte0, Byte1, Byte2, Byte3;
    var u := Word4(Byte0(state[0]), Byte1(state[1]), Byte2(state[2]), Byte3(state[3]));
    var v := Word4(Byte0(state[1]), Byte1(state[2]), Byte2(state[3]), Byte3(state[0]));
    var x := Word4(Byte0(state[2]), Byte1(state[3]), Byte2(state[0]), Byte3(state[1]));
    var y := Word4(Byte0(state[3]), Byte1(state[0]), Byte2(state[1]), Byte3(state[2]));
    state[0] := u;
    state[1] := v;
    state[2] := x;
    state[3] := y;
  }

  method InvShiftRowsInPlace(state: array<bv32>)
    requires state.Length == 4
    modifies state
    ensures View(state) == InvShiftRows(old(View(state)))
  {
    hide Word4, Byte0, Byte1, Byte2, Byte3;
    var u := Word4(Byte0(state[0]), Byte1(state[3]), Byte2(state[2]), Byte3(state[1]));
    var v := Word4(Byte0(state[1]), Byte1(state[0]), Byte2(state[3]), Byte3(state[2]));
    var x := Word4(Byte0(state[2]), Byte1(state[1]), Byte2(state[0]), Byte3(state[3]));
    var y := Word4(Byte0(state[3]), Byte1(state[2]), Byte2(state[1]), Byte3(state[0]));
    state[0] := u;
    state[1] := v;
    state[2] := x;
    state[3] := y;
  }

  method MixColumnsInPlace(state: array<bv32>)
    requires state.Length == 4
    modifies state
    ensures View(state) == MixColumns(old(View(state)))
  {
    hide MixColumn;
    state[0] := MixColumn(state[0]);
    state[1] := MixColumn(state[1]);
    state[2] := MixColumn(state[2]);
    state[3] := MixColumn(state[3]);
  }

  method InvMixColumnsInPlace(state: array<bv32>)
    requires state.Length == 4
    modifies state
    ensures View(state) == InvMixColumns(old(View(state)))
  {
    hide InvMixColumn;
    state[0] := InvMixColumn(state[0]);
    state[1] := InvMixColumn(state[1]);
    state[2] := InvMixColumn(state[2]);
    state[3] := InvMixColumn(state[3]);
  }

  // ---- Blocks ----

  /** A block is a sequence of 16 bytes. */
  function Load(block: seq<bv8>): State
    requires |block| == 16
  {
    State(KeyWord(block, 0), KeyWord(block, 1), KeyWord(block, 2), KeyWord(block, 3))
  }

  function Store(s: State): (b: seq<bv8>)
    ensures |b| == 16
  {
    WordBytes(s.w0) + WordBytes(s.w1) + WordBytes(s.w2) + WordBytes(s.w3)
  }

  lemma LoadStore(s: State)
    ensures Load(Store(s)) == s
  {
    hide Word4, Byte0, Byte1, Byte2, Byte3;
    PackUnpack(s.w0);
    PackUnpack(s.w1);
    PackUnpack(s.w2);
    PackUnpack(s.w3);
  }

  lemma StoreLoad(b: seq<bv8>)
    requires |b| == 16
    ensures Store(Load(b)) == b
  {
    hide Word4, Byte0, Byte1, Byte2, Byte3;
    UnpackPack(b[0], b[1], b[2], b[3]);
    UnpackPack(b[4], b[5], b[6], b[7]);
    UnpackPack(b[8], b[9], b[10], b[11]);
    UnpackPack(b[12], b[13], b[14], b[15]);
  }

  function EncryptBlock(ks: seq<bv32>, rounds: nat, block: seq<bv8>): (out: seq<bv8>)
    requires IsSchedule(ks, rounds) && |block| == 16
    ensures |out| == 16
  {
    Store(Cipher(ks, rounds, Load(block)))
  }

  function DecryptBlock(ks: seq<bv32>, rounds: nat, block: seq<bv8>): (out: seq<bv8>)
    requires IsSchedule(ks, rounds) && |block| == 16
    ensures |out| == 16
  {
    Store(InvCipher(ks, rounds, Load(block)))
  }

  /** cf_aes_decrypt undoes cf_aes_encrypt on every block, for any round keys, and conversely. */
  lemma BlockRoundTrip(ks: seq<bv32>, rounds: nat, block: seq<bv8>)
    requires IsSchedule(ks, rounds) && |block| == 16
    ensures DecryptBlock(ks, rounds, EncryptBlock(ks, rounds, block)) == block
    ensures EncryptBlock(ks, rounds, DecryptBlock(ks, rounds, block)) == block
  {
    hide Load, Store, Cipher, InvCipher;
    var s := Load(block);
    LoadStore(Cipher(ks, rounds, s));
    LoadStore(InvCipher(ks, rounds, s));
    InvCipherUndoesCipher(ks, rounds, s);
    CipherUndoesInvCipher(ks, rounds, s);
    StoreLoad(block);
  }

  method ReadState(inp: array<bv8>) returns (state: array<bv32>)
    requires inp.Length == 16
    ensures fresh(state) && state.Length == 4 && View(state) == Load(inp[..])
  {
    hide Word4;
    state := new bv32[4];
    state[0] := Word4(inp[0], inp[1], inp[2], inp[3]);
    state[1] := Word4(inp[4], inp[5], inp[6], inp[7]);
    state[2] := Word4(inp[8], inp[9], inp[10], inp[11]);
    state[3] := Word4(inp[12], inp[13], inp[14], inp[15]);
  }

  method Write32(v: bv32, out: array<bv8>, at: nat)
    requires at + 4 <= out.Length
    modifies out
    ensures out[..at + 4] == old(out[..at]) + WordBytes(v)
    ensures out[at + 4..] == old(out[at + 4..])
  {
    hide Byte0, Byte1, Byte2, Byte3;
    out[at] := Byte0(v);
    out[at + 1] := Byte1(v);
    out[at + 2] := Byte2(v);
    out[at + 3] := Byte3(v);
  }

  method WriteState(state: array<bv32>, out: array<bv8>)
    requires state.Length == 4 && out.Length == 16
    modifies out
    ensures out[..] == Store(View(state))
  {
    hide WordBytes;
    Write32(state[0], out, 0);
    Write32(state[1], out, 4);
    Write32(state[2], out, 8);
    Write32(state[3], out, 12);
    assert out[..] == out[..16];
  }

  /** cf_aes_context: the round count and room for the longest expanded key. */
  class AesContext {
    var rounds: nat
    const ks: array<bv32>

    predicate Valid()
      reads this, ks
    {
      ks.Length == 60 && IsSchedule(ks[..], rounds)
    }

    /** cf_aes_init. Any other key length aborts the program. */
    constructor Init(key: array<bv8>)
      requires IsKey(key[..])
      ensures Valid() && fresh(ks)
      ensures rounds == Rounds(key[..])
      ensures ks[..4 * (rounds + 1)] == Schedule(key[..])
    {
      rounds := key.Length / 4 + 6;
      ks := new bv32[60](_ => 0);
      new;
      ExpandKey(key);
    }

    /** The words of the expanded key that are there already. */
    predicate Expanded(key: seq<bv8>, i: nat)
      requires IsKey(key)
      reads ks
    {
      i <= ks.Length && forall j :: 0 <= j < i ==> ks[j] == ScheduleWord(key, j)
    }

    /** The first loop of aes_schedule: the key itself. */
    method CopyKey(key: array<bv8>)
      requires IsKey(key[..]) && ks.Length == 60
      modifies ks
      ensures Expanded(key[..], key.Length / 4)
    {
      hide Word4, Xor32, ScheduleStep, ScheduleWord;
      var nk := key.Length / 4;
      var i := 0;
      while i < nk
        invariant 0 <= i <= nk
        invariant Expanded(key[..], i)
      {
        FirstWords(key[..], i);
        ks[i] := Word4(key[i * 4], key[i * 4 + 1], key[i * 4 + 2], key[i * 4 + 3]);
        i := i + 1;
      }
    }

    /** The body of the second loop: one more word from the last one and the one nk back. */
    method ExpandWord(key: array<bv8>, i: nat, iDivNk: nat, iModNk: nat)
      requires IsKey(key[..]) && ks.Length == 60
      requires key.Length / 4 <= i < 4 * (key.Length / 4 + 7) && Expanded(key[..], i)
      requires iModNk < key.Length / 4 && Counters(i, key.Length / 4, iDivNk, iModNk)
      modifies ks
      ensures Expanded(key[..], i + 1)
    {
      hide Word4, Xor32, ScheduleStep, ScheduleWord, Counters;
      var nk := key.Length / 4;
      var temp := ScheduleTemp(nk, i, iDivNk, iModNk, ks[i - 1]);
      NextWord(key[..], i);
      ks[i] := Xor32(ks[i - nk], temp);
    }

    /** aes_schedule: the running counters stand for i / nk and i mod nk. */
    method ExpandKey(key: array<bv8>)
      requires IsKey(key[..]) && rounds == Rounds(key[..]) && ks.Length == 60
      modifies ks
      ensures ks[..4 * (rounds + 1)] == Schedule(key[..])
    {
      hide Counters, ScheduleWord;
      var nk := key.Length / 4;
      var n := 4 * (rounds + 1);
      CopyKey(key);
      var i := nk;
      var iDivNk, iModNk := 1, 0;
      FirstCounters(nk);
      while i < n
        invariant nk <= i <= n
        invariant 0 <= iModNk <= nk && Counters(i, nk, iDivNk, iModNk)
        invariant Expanded(key[..], i)
      {
        if iModNk == nk {
          WrapCounters(i, nk, iDivNk);
          iDivNk := iDivNk + 1;
          iModNk := 0;
        }
        ExpandWord(key, i, iDivNk, iModNk);
        NextCounters(i, nk, iDivNk, iModNk);
        i, iModNk := i + 1, iModNk + 1;
      }
    }

    /** cf_aes_encrypt; `out` may be `inp`. */
    method Encrypt(inp: array<bv8>, out: array<bv8>)
      requires Valid() && inp.Length == 16 && out.Length == 16
      modifies out
      ensures out[..] == EncryptBlock(ks[..], rounds, old(inp[..]))
    {
      hide AddKey, MixColumns, ShiftRows, SubBlock, Load, Store, RoundKey;
      var state := ReadState(inp);
      ghost var s := View(state);
      AddRoundKey(state, ks, 0);
      var at := 4;
      var round := 1;
      while round < rounds
        invariant 1 <= round <= rounds && at == 4 * round
        invariant View(state) == EncryptRounds(ks[..], s, round - 1)
        invariant ks[..] == old(ks[..])
      {
        SubBlockInPlace(state);
        ShiftRowsInPlace(state);
        MixColumnsInPlace(state);
        AddRoundKey(state, ks, at);
        at := at + 4;
        round := round + 1;
      }
      SubBlockInPlace(state);
      ShiftRowsInPlace(state);
      AddRoundKey(state, ks, at);
      WriteState(state, out);
    }

    /** cf_aes_decrypt; `out` may be `inp`. */
    method Decrypt(inp: array<bv8>, out: array<bv8>)
      requires Valid() && inp.Length == 16 && out.Length == 16
      modifies out
      ensures out[..] == DecryptBlock(ks[..], rounds, old(inp[..]))
    {
      hide AddKey, InvMixColumns, InvShiftRows, InvSubBlock, Load, Store, RoundKey;
      var state := ReadState(inp);
      ghost var s := View(state);
      AddRoundKey(state, ks, 4 * rounds);
      var at := 4 * rounds - 4;
      var round := rounds - 1;
      while round != 0
        invariant 0 <= round < rounds && at == 4 * round
        invariant View(state) == DecryptRounds(ks[..], rounds, s, round)
        invariant ks[..] == old(ks[..])
      {
        InvShiftRowsInPlace(state);
        InvSubBlockInPlace(state);
        AddRoundKey(state, ks, at);
        InvMixColumnsInPlace(state);
        at := at - 4;
        round := round - 1;
      }
      InvShiftRowsInPlace(state);
      InvSubBlockInPlace(state);
      AddRoundKey(state, ks, at);
      WriteState(state, out);
    }
  }
}
