/** Counter mode over any 16-byte block function (modes.c), on the keystream consumer of
    blockwise.c. */
module Ctr {
  import opened Bitops
  import opened Blockwise
  import opened Cmac

  // ---- Big-endian counters ----

  /** The number a byte string spells, most significant byte first. */
  function Value(v: seq<bv8>): nat {
    if v == [] then 0 else 256 * Value(v[..|v| - 1]) + Index(v[|v| - 1])
  }

  function Span(n: nat): (s: nat)
    ensures s >= 1
  {
    if n == 0 then 1 else 256 * Span(n - 1)
  }

  function PlusOne(b: bv8): bv8 { b + 1 }

  /** incr_be: add one from the last byte, carrying while bytes wrap to zero. */
  function Increment(v: seq<bv8>): (r: seq<bv8>)
    ensures |r| == |v|
  {
    if v == [] then []
    else
      var n := |v| - 1;
      if PlusOne(v[n]) != 0 then v[..n] + [PlusOne(v[n])] else Increment(v[..n]) + [0]
  }

  lemma ByteIncrement(b: bv8)
    ensures if PlusOne(b) == 0 then Index(b) == 255 else Index(PlusOne(b)) == Index(b) + 1
  {
    if b == 0xff {
    } else {
      assert b < 0xff;
    }
  }

  lemma {:induction false} ValueBound(v: seq<bv8>)
    ensures Value(v) < Span(|v|)
  {
    if v != [] {
      ValueBound(v[..|v| - 1]);
    }
  }

  /** incr_be adds one modulo 256^len. */
  lemma {:induction false} IncrementAddsOne(v: seq<bv8>)
    ensures Value(Increment(v)) == if Value(v) + 1 == Span(|v|) then 0 else Value(v) + 1
  {
    hide PlusOne, Index;
    if v != [] {
      var n := |v| - 1;
      ByteIncrement(v[n]);
      ValueBound(v[..n]);
      if PlusOne(v[n]) != 0 {
        assert (v[..n] + [PlusOne(v[n])])[..n] == v[..n];
      } else {
        IncrementAddsOne(v[..n]);
        assert (Increment(v[..n]) + [0])[..n] == Increment(v[..n]);
        ZeroIndex();
      }
    }
  }

  lemma ZeroIndex()
    ensures Index(0) == 0
  {
  }

  method IncrBe(v: array<bv8>)
    requires v.Length > 0
    modifies v
    ensures v[..] == Increment(old(v[..]))
  {
    hide PlusOne;
    var len := v.Length - 1;
    ghost var before := v[..];
    assert before[..len + 1] == before && v[len + 1..] == [];
    while true
      invariant 0 <= len < v.Length
      invariant v[..len + 1] == before[..len + 1]
      invariant Increment(before) == Increment(before[..len + 1]) + v[len + 1..]
      decreases len
    {
      assert before[..len + 1][..len] == before[..len];
      v[len] := PlusOne(v[len]);
      if v[len] != 0 {
        assert v[..] == v[..len] + [v[len]] + v[len + 1..];
        return;
      }
      assert v[len..] == [0] + v[len + 1..];
      if len == 0 {
        assert before[..0] == [];
        return;
      }
      len := len - 1;
    }
  }

  function Advance(nonce: Block, k: nat): Block {
    if k == 0 then nonce else Increment(Advance(nonce, k - 1))
  }

  /** 256^16 = 2^128. */
  const MODULUS := Span(16)

  /** The k-th counter block spells (nonce + k) mod 2^128 (section 6.5 of NIST SP 800-38A). */
  lemma {:induction false} AdvanceAdds(nonce: Block, k: nat)
    ensures Value(Advance(nonce, k)) == (Value(nonce) + k) % MODULUS
  {
    hide Span, Value;
    if k == 0 {
      ValueBound(nonce);
      ModStep(Value(nonce), Value(nonce), MODULUS);
    } else {
      AdvanceAdds(nonce, k - 1);
      IncrementAddsOne(Advance(nonce, k - 1));
      ValueBound(Advance(nonce, k - 1));
      ModStep(Value(nonce) + k - 1, Value(Advance(nonce, k - 1)), MODULUS);
    }
  }

  lemma ModStep(n: nat, r: nat, m: nat)
    requires r < m
    ensures n < m ==> n % m == n
    ensures n % m == r ==> (n + 1) % m == if r + 1 == m then 0 else r + 1
  {
    if n < m {
      assert n == 0 * m + n;
      ModUnique(n, m, 0, n);
    }
    if n % m == r {
      var q := n / m;
      assert n == q * m + r;
      if r + 1 == m {
        assert n + 1 == (q + 1) * m + 0;
        ModUnique(n + 1, m, q + 1, 0);
      } else {
        ModUnique(n + 1, m, q, r + 1);
      }
    }
  }

  lemma ModUnique(n: nat, m: nat, q: nat, r: nat)
    requires r < m && n == q * m + r
    ensures n % m == r
  {
    DivUnique(n, m, q, r);
  }

  lemma {:induction false} ValueIsInjective(v: seq<bv8>, w: seq<bv8>)
    requires |v| == |w| && Value(v) == Value(w)
    ensures v == w
    decreases |v|
  {
    hide Index;
    if v != [] {
      var n := |v| - 1;
      SameIndex(v[n], w[n]);
      ValueIsInjective(v[..n], w[..n]);
      assert v == v[..n] + [v[n]] && w == w[..n] + [w[n]];
    }
  }

  lemma SameIndex(a: bv8, b: bv8)
    ensures Index(a) == Index(b) ==> a == b
  {
    assert (a as int) as bv8 == a && (b as int) as bv8 == b;
  }

  // ---- The keystream ----

  /** Byte i of the keystream: byte i mod 16 of the encryption of counter i / 16. */
  function KeyByte(E: Prp, nonce: Block, i: nat): bv8 { E(Advance(nonce, i / 16))[i % 16] }

  /** Bytes from .. from + n of the keystream. */
  function KeyBytes(E: Prp, nonce: Block, from: nat, n: nat): (s: seq<bv8>)
    ensures |s| == n
  {
    seq(n, i requires 0 <= i => KeyByte(E, nonce, from + i))
  }

  /** Counter-mode encryption of a whole input at keystream position `from`. */
  function Crypt(E: Prp, nonce: Block, from: nat, data: seq<bv8>): (r: seq<bv8>)
    ensures |r| == |data|
  {
    XorSeq(data, KeyBytes(E, nonce, from, |data|))
  }

  /** Byte i of the output is byte i of the input plus byte i mod 16 of the encryption of the
      block that spells (nonce + i / 16) mod 2^128, most significant byte first. */
  lemma CryptBytes(E: Prp, nonce: Block, data: seq<bv8>, i: nat, counter: Block)
    requires i < |data| && Value(counter) == (Value(nonce) + i / 16) % 0x1_00000000_00000000_00000000_00000000
    ensures Crypt(E, nonce, 0, data)[i] == data[i] ^ E(counter)[i % 16]
  {
    AdvanceAdds(nonce, i / 16);
    TwoTo128();
    hide Value, Span, Increment;
    ValueIsInjective(counter, Advance(nonce, i / 16));
  }

  lemma TwoTo128()
    ensures MODULUS == 0x1_00000000_00000000_00000000_00000000
  {
    assert Span(4) == 0x1_00000000 && Span(8) == 256 * 256 * 256 * 256 * Span(4);
    assert Span(12) == 256 * 256 * 256 * 256 * Span(8) && Span(16) == 256 * 256 * 256 * 256 * Span(12);
  }

  /** Cutting the input anywhere leaves the output as it is. */
  lemma CryptInTwo(E: Prp, nonce: Block, from: nat, a: seq<bv8>, b: seq<bv8>)
    ensures Crypt(E, nonce, from, a + b) == Crypt(E, nonce, from, a) + Crypt(E, nonce, from + |a|, b)
  {
    hide KeyByte;
  }

  /** The output of a sequence of calls. */
  function CryptRun(E: Prp, nonce: Block, from: nat, chunks: seq<seq<bv8>>): seq<bv8> {
    if chunks == [] then []
    else
      var front := chunks[..|chunks| - 1];
      CryptRun(E, nonce, from, front) + Crypt(E, nonce, from + |Concat(front)|, chunks[|chunks| - 1])
  }

  lemma {:induction false} ChunkingInvariance(E: Prp, nonce: Block, from: nat, chunks: seq<seq<bv8>>)
    ensures CryptRun(E, nonce, from, chunks) == Crypt(E, nonce, from, Concat(chunks))
  {
    hide Crypt;
    if chunks == [] {
      CryptEmpty(E, nonce, from);
    } else {
      var front := chunks[..|chunks| - 1];
      ChunkingInvariance(E, nonce, from, front);
      CryptInTwo(E, nonce, from, Concat(front), chunks[|chunks| - 1]);
    }
  }

  lemma CryptEmpty(E: Prp, nonce: Block, from: nat)
    ensures Crypt(E, nonce, from, []) == []
  {
  }

  /** Applying the mode twice from the same start is the identity. */
  lemma CryptTwice(E: Prp, nonce: Block, from: nat, data: seq<bv8>)
    ensures Crypt(E, nonce, from, Crypt(E, nonce, from, data)) == data
  {
    hide KeyByte, Crypt;
    var key := KeyBytes(E, nonce, from, |data|);
    CryptIsXor(E, nonce, from, data);
    CryptIsXor(E, nonce, from, Crypt(E, nonce, from, data));
    XorTwice(data, key);
  }

  lemma CryptIsXor(E: Prp, nonce: Block, from: nat, data: seq<bv8>)
    ensures Crypt(E, nonce, from, data) == XorSeq(data, KeyBytes(E, nonce, from, |data|))
  {
  }

  lemma XorTwice(a: seq<bv8>, k: seq<bv8>)
    requires |a| == |k|
    ensures XorSeq(XorSeq(a, k), k) == a
  {
    hide Xor8;
    forall i | 0 <= i < |a| ensures XorSeq(XorSeq(a, k), k)[i] == a[i] {
      XorByteTwice(a[i], k[i]);
    }
  }

  // ---- The context ----

  /** xor_bb from place `at` on; `out` may be `x`. */
  method XorBB(out: array<bv8>, x: array<bv8>, at: nat, y: array<bv8>, offset: nat, len: nat)
    requires at + len <= out.Length == x.Length && offset + len <= y.Length && out != y
    modifies out
    ensures forall j :: at <= j < at + len ==> out[j] == Xor8(old(x[j]), y[offset + (j - at)])
    ensures forall j :: 0 <= j < out.Length && !(at <= j < at + len) ==> out[j] == old(out[j])
  {
    hide Xor8;
    for i := 0 to len
      invariant forall j :: at <= j < at + i ==> out[j] == Xor8(old(x[j]), y[offset + (j - at)])
      invariant forall j :: 0 <= j < out.Length && !(at <= j < at + i) ==> out[j] == old(out[j])
      invariant forall j :: at + i <= j < x.Length ==> x[j] == old(x[j])
    {
      out[at + i] := Xor8(x[at + i], y[offset + i]);
    }
  }

  lemma Tick(position: nat, nkeymat: nat, taken: nat)
    requires taken <= nkeymat <= 16 && (position + nkeymat) % 16 == 0
    ensures (position + taken + (nkeymat - taken)) % 16 == 0
    ensures taken < nkeymat ==> (position + taken) / 16 == position / 16
  {
  }

  class CtrContext {
    const E: Prp
    const nonce: array<bv8>
    const keymat: array<bv8>
    var nkeymat: nat
    ghost var start: Block
    ghost var position: nat

    /** The buffer holds the unused tail of the current keystream block, and the nonce is the
        counter of the block after it. */
    ghost predicate Valid()
      reads this, nonce, keymat
    {
      nkeymat < 16 && Consistent()
    }

    /** Inside a call the whole block may be unused. */
    ghost predicate Consistent()
      reads this, nonce, keymat
    {
      && nonce.Length == 16 && keymat.Length == 16 && nonce != keymat
      && nkeymat <= 16
      && (position + nkeymat) % 16 == 0
      && nonce[..] == Advance(start, (position + nkeymat) / 16)
      && (nkeymat > 0 ==> keymat[..] == E(Advance(start, position / 16)))
    }

    /** cf_ctr_init. */
    constructor (E: Prp, iv: Block)
      ensures Valid() && fresh(nonce) && fresh(keymat)
      ensures this.E == E && start == iv && position == 0
    {
      this.E := E;
      nonce := new bv8[16](i requires 0 <= i < 16 => iv[i]);
      keymat := new bv8[16](_ => 0);
      nkeymat := 0;
      start, position := iv, 0;
      new;
      assert nonce[..] == iv;
    }

    /** ctr_next_block: encrypt the counter into the buffer, then step the counter. */
    method NextBlock()
      requires Consistent() && nkeymat == 0
      modifies nonce, keymat, this`nkeymat
      ensures Consistent() && nkeymat == 16
    {
      var block := E(nonce[..]);
      for i := 0 to 16
        invariant keymat[..i] == block[..i]
        invariant nonce[..] == old(nonce[..])
      {
        keymat[i] := block[i];
      }
      assert keymat[..] == keymat[..16] && block[..16] == block;
      IncrBe(nonce);
      nkeymat := 16;
      assert (position + 16) / 16 == position / 16 + 1;
    }

    /** Byte i of the unused key material is keystream byte position + i. */
    lemma UnusedIsKeystream(i: nat)
      requires Consistent() && i < nkeymat
      ensures keymat[16 - nkeymat + i] == KeyByte(E, start, position + i)
    {
      assert (position + i) / 16 == position / 16;
      assert (position + i) % 16 == 16 - nkeymat + i;
    }

    /** The next `taken` bytes, and the bookkeeping around them. */
    method XorSome(inp: array<bv8>, outp: array<bv8>, at: nat, taken: nat)
      requires Consistent() && taken <= nkeymat
      requires at + taken <= inp.Length == outp.Length
      requires outp != keymat && outp != nonce
      modifies outp, this`nkeymat, this`position
      ensures Consistent() && nkeymat == old(nkeymat) - taken && position == old(position) + taken
      ensures forall j :: at <= j < at + taken ==>
                outp[j] == Xor8(old(inp[j]), KeyByte(E, start, old(position) + (j - at)))
      ensures forall j :: 0 <= j < outp.Length && !(at <= j < at + taken) ==> outp[j] == old(outp[j])
    {
      hide Xor8, KeyByte;
      var offset := 16 - nkeymat;
      XorBB(outp, inp, at, keymat, offset, taken);
      forall j | at <= j < at + taken
        ensures outp[j] == Xor8(old(inp[j]), KeyByte(E, start, position + (j - at)))
      {
        UnusedIsKeystream(j - at);
      }
      Tick(position, nkeymat, taken);
      nkeymat := nkeymat - taken;
      position := position + taken;
    }

    /** cf_ctr_cipher; `outp` may be `inp`. */
    method Cipher(inp: array<bv8>, outp: array<bv8>)
      requires Valid() && inp.Length == outp.Length
      requires outp != keymat && outp != nonce && inp != keymat && inp != nonce
      modifies outp, nonce, keymat, this`nkeymat, this`position
      ensures Valid() && position == old(position) + inp.Length && start == old(start) && nkeymat < 16
      ensures outp[..] == Crypt(E, start, old(position), old(inp[..]))
    {
      hide Xor8, KeyByte;
      var at := 0;
      var n := inp.Length;
      while at < n
        invariant Valid() && nonce != keymat && at <= n && position == old(position) + at && start == old(start)
        invariant forall j :: 0 <= j < at ==> outp[j] == Xor8(old(inp[j]), KeyByte(E, start, old(position) + j))
        invariant forall j :: at <= j < n ==> inp[j] == old(inp[j])
        decreases n - at
      {
        if nkeymat == 0 {
          NextBlock();
        }
        var taken := if nkeymat < n - at then nkeymat else n - at;
        XorSome(inp, outp, at, taken);
        at := at + taken;
      }
    }
  }
}
