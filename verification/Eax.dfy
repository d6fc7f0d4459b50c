/** EAX authenticated encryption over any 16-byte block function (eax.c). */
module Eax {
  import opened Bitops
  import opened Blockwise
  import opened Cmac
  import opened CmacStreams
  import opened Ctr
  import opened Aes
  import AesContexts

  // ---- The mode ----

  /** The block holding the tweak number. */
  function Tweak(t: bv8): Block { seq(15, _ => 0) + [t] }

  /** OMAC^t: CMAC of the tweak block followed by the data. */
  function Omac(E: Prp, t: bv8, data: seq<bv8>): Block { CmacTag(E, Tweak(t) + data) }

  function FullTag(E: Prp, nonce: seq<bv8>, header: seq<bv8>, cipher: seq<bv8>): Block {
    XorSeq(XorSeq(Omac(E, 0, nonce), Omac(E, 2, cipher)), Omac(E, 1, header))
  }

  function Tag(E: Prp, nonce: seq<bv8>, header: seq<bv8>, cipher: seq<bv8>, ntag: nat): (t: seq<bv8>)
    requires ntag <= 16
    ensures |t| == ntag
  {
    FullTag(E, nonce, header, cipher)[..ntag]
  }

  function Ciphertext(E: Prp, nonce: seq<bv8>, text: seq<bv8>): (c: seq<bv8>)
    ensures |c| == |text|
  {
    Crypt(E, Omac(E, 0, nonce), 0, text)
  }

  datatype Opened = Rejected | Accepted(plain: seq<bv8>)

  function Open(E: Prp, nonce: seq<bv8>, header: seq<bv8>, cipher: seq<bv8>, tag: seq<bv8>): Opened
    requires 1 <= |tag| <= 16
  {
    if tag == Tag(E, nonce, header, cipher, |tag|) then Accepted(Ciphertext(E, nonce, cipher)) else Rejected
  }

  /** Decryption of an encryption is accepted and restores the plaintext. */
  lemma RoundTrip(E: Prp, nonce: seq<bv8>, header: seq<bv8>, plain: seq<bv8>, ntag: nat)
    requires 1 <= ntag <= 16
    ensures var c := Ciphertext(E, nonce, plain);
            Open(E, nonce, header, c, Tag(E, nonce, header, c, ntag)) == Accepted(plain)
  {
    hide Crypt, Omac, FullTag;
    CryptTwice(E, Omac(E, 0, nonce), 0, plain);
  }

  // ---- The mode, said without tweaks ----

  lemma {:induction false} ZerosSpellNothing(n: nat)
    ensures Value(seq(n, _ => 0)) == 0
    decreases n
  {
    if n > 0 {
      var v: seq<bv8> := seq(n, _ => 0);
      assert v[..n - 1] == seq(n - 1, _ => 0);
      ZerosSpellNothing(n - 1);
      ZeroIndex();
    }
  }

  lemma TweakSpells(t: bv8)
    ensures Value(Tweak(t)) == Index(t)
  {
    var v := Tweak(t);
    assert v[..15] == seq(15, _ => 0);
    ZerosSpellNothing(15);
  }

  lemma SmallIndices()
    ensures Index(0) == 0 && Index(1) == 1 && Index(2) == 2
  {
  }

  /** The tag is the sum of the CMACs of nonce, header and ciphertext, each behind the block that
      spells 0, 1 or 2; the header is in it, and so is what belongs to what. */
  lemma TagIsSum(E: Prp, nonce: seq<bv8>, header: seq<bv8>, cipher: seq<bv8>, ntag: nat, b0: Block, b1: Block, b2: Block, i: nat)
    requires i < ntag <= 16 && Value(b0) == 0 && Value(b1) == 1 && Value(b2) == 2
    ensures Tag(E, nonce, header, cipher, ntag)[i]
         == CmacTag(E, b0 + nonce)[i] ^ CmacTag(E, b1 + header)[i] ^ CmacTag(E, b2 + cipher)[i]
  {
    hide Value, CmacTag, Index, Tweak;
    TweaksAre(b0, b1, b2);
    SumsReorder(Omac(E, 0, nonce)[i], Omac(E, 2, cipher)[i], Omac(E, 1, header)[i]);
  }

  lemma TweaksAre(b0: Block, b1: Block, b2: Block)
    requires Value(b0) == 0 && Value(b1) == 1 && Value(b2) == 2
    ensures b0 == Tweak(0) && b1 == Tweak(1) && b2 == Tweak(2)
  {
    hide Value, Index, Tweak;
    TweakSpells(0);
    TweakSpells(1);
    TweakSpells(2);
    SmallIndices();
    ValueIsInjective(b0, Tweak(0));
    ValueIsInjective(b1, Tweak(1));
    ValueIsInjective(b2, Tweak(2));
  }

  lemma SumsReorder(a: bv8, b: bv8, c: bv8)
    ensures Xor8(Xor8(a, b), c) == a ^ c ^ b
  {
  }

  /** The ciphertext is counter mode from the CMAC of the nonce on. */
  lemma CiphertextBytes(E: Prp, nonce: seq<bv8>, text: seq<bv8>, i: nat, b0: Block, counter: Block)
    requires i < |text| && Value(b0) == 0
    requires Value(counter) == (Value(CmacTag(E, b0 + nonce)) + i / 16) % 0x1_00000000_00000000_00000000_00000000
    ensures Ciphertext(E, nonce, text)[i] == text[i] ^ E(counter)[i % 16]
  {
    hide Value, CmacTag, Index, Tweak, Crypt;
    TweakSpells(0);
    SmallIndices();
    ValueIsInjective(b0, Tweak(0));
    CryptBytes(E, CmacTag(E, b0 + nonce), text, i, counter);
  }

  // ---- The code ----

  /** cmac_compute_n: the tweak block is a separate update, and the final one without data. */
  method CmacComputeN(ctx: CmacStream, t: bv8, input: seq<bv8>) returns (out: Block)
    requires ctx.Valid()
    modifies ctx.acc, ctx.acc.partial
    ensures ctx.Valid() && out == Omac(ctx.E, t, input)
  {
    hide CmacTag, Finish, K1, K2, XorSeq;
    var E := ctx.E;
    var firstblock := Tweak(t);
    ctx.Reset();
    OneChunk(E, firstblock);
    if |input| != 0 {
      ctx.Update(firstblock, false);
      NotFinalisedBefore(E, [firstblock]);
      StreamingIsOneShot(E, [firstblock], input);
      ctx.Update(input, true);
    } else {
      assert [] + firstblock == firstblock && firstblock + input == firstblock;
      StreamingIsOneShot(E, [], firstblock);
      ctx.Update(firstblock, true);
    }
    out := ctx.Final();
  }

  lemma OneChunk(E: Prp, chunk: seq<bv8>)
    ensures Concat([chunk]) == chunk && Concat([]) == []
    ensures Run(START, [], 16, Process(E)) == (START, [])
    ensures Run(START, [chunk], 16, Process(E)) == Consume(START, [] + chunk, 16, Process(E), Process(E))
  {
    var chunks := [chunk];
    assert chunks[..|chunks| - 1] == [];
    assert [] + chunk == chunk;
  }

  /** The tag loop: tag[i] = NN[i] ^ CC[i] ^ HH[i]. */
  method XorTags(nn: Block, cc: Block, hh: Block, tag: array<bv8>)
    requires tag.Length <= 16
    modifies tag
    ensures tag[..] == XorSeq(XorSeq(nn, cc), hh)[..tag.Length]
  {
    hide Xor8;
    for i := 0 to tag.Length
      invariant forall j :: 0 <= j < i ==> tag[j] == XorSeq(XorSeq(nn, cc), hh)[j]
    {
      tag[i] := Xor8(Xor8(nn[i], cc[i]), hh[i]);
    }
  }

  function Or8(x: bv8, y: bv8): bv8 { x | y }

  lemma DifferenceIsZero(diff: bv8, a: bv8, b: bv8)
    ensures Or8(diff, Xor8(a, b)) == 0 <==> diff == 0 && a == b
  {
  }

  /** mem_eq: compare without an early exit. */
  method MemEq(a: array<bv8>, b: seq<bv8>) returns (equal: bool)
    requires a.Length == |b|
    ensures equal <==> a[..] == b
  {
    hide Xor8, Or8;
    var diff: bv8 := 0;
    for i := 0 to a.Length
      invariant diff == 0 <==> a[..i] == b[..i]
    {
      DifferenceIsZero(diff, a[i], b[i]);
      assert a[..i + 1] == a[..i] + [a[i]] && b[..i + 1] == b[..i] + [b[i]];
      diff := Or8(diff, Xor8(a[i], b[i]));
    }
    assert a[..a.Length] == a[..] && b[..a.Length] == b;
    equal := diff == 0;
  }

  /** cf_eax_encrypt; `cipher` may be `plain`. */
  method Encrypt(E: Prp, plain: array<bv8>, header: seq<bv8>, nonce: seq<bv8>, cipher: array<bv8>, tag: array<bv8>)
    requires cipher.Length == plain.Length && tag.Length <= 16 && tag != cipher
    modifies cipher, tag
    ensures cipher[..] == Ciphertext(E, nonce, old(plain[..]))
    ensures tag[..] == Tag(E, nonce, header, cipher[..], tag.Length)
  {
    hide Omac, Crypt, XorSeq;
    var cmac := new CmacStream(E);
    var nn := CmacComputeN(cmac, 0, nonce);
    var hh := CmacComputeN(cmac, 1, header);
    var ctr := new CtrContext(E, nn);
    ctr.Cipher(plain, cipher);
    var cc := CmacComputeN(cmac, 2, cipher[..]);
    XorTags(nn, cc, hh, tag);
  }

  /** cf_eax_decrypt: 0 and the plaintext, or 1 with the output untouched; `plain` may be the
      ciphertext's buffer. */
  method Decrypt(E: Prp, cipher: array<bv8>, header: seq<bv8>, nonce: seq<bv8>, tag: seq<bv8>, plain: array<bv8>)
    returns (result: nat)
    requires plain.Length == cipher.Length && 1 <= |tag| <= 16
    modifies plain
    ensures old(Open(E, nonce, header, cipher[..], tag)).Accepted? <==> result == 0
    ensures result == 0 || result == 1
    ensures result == 0 ==> Accepted(plain[..]) == old(Open(E, nonce, header, cipher[..], tag))
    ensures result == 1 ==> plain[..] == old(plain[..])
  {
    hide Omac, Crypt, XorSeq;
    var cmac := new CmacStream(E);
    var nn := CmacComputeN(cmac, 0, nonce);
    var hh := CmacComputeN(cmac, 1, header);
    var cc := CmacComputeN(cmac, 2, cipher[..]);
    var tt := new bv8[|tag|];
    XorTags(nn, cc, hh, tt);
    var equal := MemEq(tt, tag);
    if !equal {
      return 1;
    }
    var ctr := new CtrContext(E, nn);
    ctr.Cipher(cipher, plain);
    return 0;
  }

  // ---- AES-EAX ----

  function AesPrp(ks: seq<bv32>, rounds: nat): Prp
    requires IsSchedule(ks, rounds)
  {
    (b: Block) => AesContexts.EncryptBlock(ks, rounds, b)
  }

  /** The mode as the application uses it: AES under a key of 16, 24 or 32 bytes. */
  lemma AesEaxRoundTrip(key: seq<bv8>, nonce: seq<bv8>, header: seq<bv8>, plain: seq<bv8>, ntag: nat)
    requires AesContexts.IsKey(key) && 1 <= ntag <= 16
    ensures var E := AesPrp(AesContexts.Schedule(key), AesContexts.Rounds(key));
            var c := Ciphertext(E, nonce, plain);
            Open(E, nonce, header, c, Tag(E, nonce, header, c, ntag)) == Accepted(plain)
  {
    hide AesContexts.EncryptBlock, Ciphertext, Tag, Open;
    RoundTrip(AesPrp(AesContexts.Schedule(key), AesContexts.Rounds(key)), nonce, header, plain, ntag);
  }
}
