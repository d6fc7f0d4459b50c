/** Cipher block chaining over any 16-byte block function (modes.c). */
module Cbc {
  import opened Bitops
  import opened Cmac
  import opened Eax
  import opened Aes
  import AesContexts

  // ---- What chaining means ----

  function BlockAt(data: seq<bv8>, i: nat): Block
    requires 16 * i + 16 <= |data|
  {
    data[16 * i..16 * i + 16]
  }

  /** The chaining block after n blocks: the last one of the ciphertext. */
  function Link(E: Prp, iv: Block, data: seq<bv8>, n: nat): Block
    requires 16 * n <= |data|
  {
    if n == 0 then iv else E(XorSeq(BlockAt(data, n - 1), Link(E, iv, data, n - 1)))
  }

  function Encrypted(E: Prp, iv: Block, data: seq<bv8>, n: nat): (c: seq<bv8>)
    requires 16 * n <= |data|
    ensures |c| == 16 * n
  {
    if n == 0 then [] else Encrypted(E, iv, data, n - 1) + Link(E, iv, data, n)
  }

  /** The block that a ciphertext block was chained to. */
  function Before(iv: Block, data: seq<bv8>, i: nat): Block
    requires 16 * i <= |data|
  {
    if i == 0 then iv else BlockAt(data, i - 1)
  }

  function Decrypted(D: Prp, iv: Block, data: seq<bv8>, n: nat): (p: seq<bv8>)
    requires 16 * n <= |data|
    ensures |p| == 16 * n
  {
    if n == 0 then [] else Decrypted(D, iv, data, n - 1) + XorSeq(D(BlockAt(data, n - 1)), Before(iv, data, n - 1))
  }

  /** What becomes of a message that is decrypted where it stands: the link is the plaintext. */
  function DecryptedInPlace(D: Prp, iv: Block, data: seq<bv8>, n: nat): (p: seq<bv8>)
    requires 16 * n <= |data|
    ensures |p| == 16 * n
  {
    if n == 0 then []
    else
      var p := DecryptedInPlace(D, iv, data, n - 1);
      p + XorSeq(D(BlockAt(data, n - 1)), Before(iv, p, n - 1))
  }

  ghost predicate Undoes(D: Prp, E: Prp) { forall b: Block :: D(E(b)) == b }

  lemma XorSeqCancels(a: seq<bv8>, b: seq<bv8>)
    requires |a| == |b|
    ensures XorSeq(XorSeq(a, b), b) == a
  {
    var r := XorSeq(XorSeq(a, b), b);
    forall i | 0 <= i < |a| ensures r[i] == a[i] {
      XorByteTwice(a[i], b[i]);
    }
    hide Xor8;
  }

  lemma FrontBlock(a: seq<bv8>, b: seq<bv8>, i: nat)
    requires 16 * i + 16 <= |a|
    ensures BlockAt(a + b, i) == BlockAt(a, i)
  {
  }

  lemma LastBlock(a: seq<bv8>, b: seq<bv8>, j: nat)
    requires |a| == 16 * j && |b| == 16
    ensures BlockAt(a + b, j) == b
  {
  }

  lemma BackBlock(a: seq<bv8>, b: seq<bv8>, j: nat, i: nat)
    requires |a| == 16 * j && 16 * i + 16 <= |b|
    ensures BlockAt(a + b, j + i) == BlockAt(b, i)
  {
    assert 16 * (j + i) == 16 * j + 16 * i;
    assert (a + b)[16 * j + 16 * i..16 * j + 16 * i + 16] == b[16 * i..16 * i + 16];
  }

  /** Block i of the ciphertext is the link after it. */
  lemma {:induction false} EncryptedBlock(E: Prp, iv: Block, data: seq<bv8>, n: nat, i: nat)
    requires 16 * n <= |data| && i < n
    ensures BlockAt(Encrypted(E, iv, data, n), i) == Link(E, iv, data, i + 1)
    decreases n
  {
    var c, last := Encrypted(E, iv, data, n - 1), Link(E, iv, data, n);
    if i < n - 1 {
      EncryptedBlock(E, iv, data, n - 1, i);
      FrontBlock(c, last, i);
    } else {
      BackBlock(c, last, n - 1, 0);
      assert BlockAt(last, 0) == last;
    }
  }

  /** Decryption needs only the blocks before its own. */
  lemma {:induction false} DecryptedPrefix(D: Prp, iv: Block, a: seq<bv8>, b: seq<bv8>, n: nat)
    requires 16 * n <= |a|
    ensures Decrypted(D, iv, a + b, n) == Decrypted(D, iv, a, n)
  {
    hide XorSeq, BlockAt;
    if n > 0 {
      DecryptedPrefix(D, iv, a, b, n - 1);
      FrontBlock(a, b, n - 1);
      if n > 1 {
        FrontBlock(a, b, n - 2);
      }
    }
  }

  lemma OneMoreBlock(data: seq<bv8>, n: nat)
    requires 16 * n + 16 <= |data|
    ensures data[..16 * (n + 1)] == data[..16 * n] + BlockAt(data, n)
  {
  }

  /** The block that the ciphertext of block n is chained to. */
  lemma BeforeIsLink(E: Prp, iv: Block, data: seq<bv8>, n: nat)
    requires 16 * n + 16 <= |data|
    ensures Before(iv, Encrypted(E, iv, data, n + 1), n) == Link(E, iv, data, n)
  {
    hide XorSeq, BlockAt;
    if n > 0 {
      EncryptedBlock(E, iv, data, n + 1, n - 1);
    }
  }

  /** Decrypting what was encrypted gives the message back. */
  lemma {:induction false} CbcRoundTrip(E: Prp, D: Prp, iv: Block, data: seq<bv8>, n: nat)
    requires Undoes(D, E) && 16 * n <= |data|
    ensures Decrypted(D, iv, Encrypted(E, iv, data, n), n) == data[..16 * n]
    decreases n
  {
    hide XorSeq, BlockAt, Before;
    if n > 0 {
      CbcRoundTrip(E, D, iv, data, n - 1);
      var c, last := Encrypted(E, iv, data, n - 1), Link(E, iv, data, n);
      DecryptedPrefix(D, iv, c, last, n - 1);
      LastBlock(c, last, n - 1);
      BeforeIsLink(E, iv, data, n - 1);
      var link := Link(E, iv, data, n - 1);
      var x := XorSeq(BlockAt(data, n - 1), link);
      assert D(E(x)) == x;
      XorSeqCancels(BlockAt(data, n - 1), link);
      OneMoreBlock(data, n - 1);
    }
  }

  function AesInvPrp(ks: seq<bv32>, rounds: nat): Prp
    requires IsSchedule(ks, rounds)
  {
    (b: Block) => AesContexts.DecryptBlock(ks, rounds, b)
  }

  /** In particular for AES, under any round keys. */
  lemma AesCbcRoundTrip(ks: seq<bv32>, rounds: nat, iv: Block, data: seq<bv8>, n: nat)
    requires IsSchedule(ks, rounds) && 16 * n <= |data|
    ensures Decrypted(AesInvPrp(ks, rounds), iv, Encrypted(AesPrp(ks, rounds), iv, data, n), n) == data[..16 * n]
  {
    hide AesContexts.EncryptBlock, AesContexts.DecryptBlock, Encrypted, Decrypted;
    forall b: Block ensures AesInvPrp(ks, rounds)(AesPrp(ks, rounds)(b)) == b {
      AesContexts.BlockRoundTrip(ks, rounds, b);
    }
    CbcRoundTrip(AesPrp(ks, rounds), AesInvPrp(ks, rounds), iv, data, n);
  }

  lemma EncryptedStep(E: Prp, iv: Block, data: seq<bv8>, n: nat)
    requires 16 * n + 16 <= |data|
    ensures Link(E, iv, data, n + 1) == E(XorSeq(BlockAt(data, n), Link(E, iv, data, n)))
    ensures Encrypted(E, iv, data, n + 1) == Encrypted(E, iv, data, n) + Link(E, iv, data, n + 1)
  {
    hide XorSeq, BlockAt;
  }

  /** A message may be cut between calls: the second goes on from the first one's link. */
  lemma {:induction false} CbcInTwo(E: Prp, iv: Block, a: seq<bv8>, b: seq<bv8>, j: nat, k: nat)
    requires |a| == 16 * j && 16 * k <= |b|
    ensures Link(E, Link(E, iv, a, j), b, k) == Link(E, iv, a + b, j + k)
    ensures Encrypted(E, iv, a + b, j + k) == Encrypted(E, iv, a, j) + Encrypted(E, Link(E, iv, a, j), b, k)
    decreases k
  {
    hide XorSeq, BlockAt, Link, Encrypted;
    var link := Link(E, iv, a, j);
    if k == 0 {
      LinkPrefix(E, iv, a, b, j);
      NoBlocks(E, link, b);
    } else {
      var i: nat := k - 1;
      CbcInTwo(E, iv, a, b, j, i);
      EncryptedStep(E, iv, a + b, j + i);
      EncryptedStep(E, link, b, i);
      BackBlock(a, b, j, i);
      assert j + i + 1 == j + k;
    }
  }

  lemma NoBlocks(E: Prp, iv: Block, data: seq<bv8>)
    ensures Link(E, iv, data, 0) == iv && Encrypted(E, iv, data, 0) == []
  {
  }

  lemma {:induction false} LinkPrefix(E: Prp, iv: Block, a: seq<bv8>, b: seq<bv8>, n: nat)
    requires 16 * n <= |a|
    ensures Link(E, iv, a + b, n) == Link(E, iv, a, n)
    ensures Encrypted(E, iv, a + b, n) == Encrypted(E, iv, a, n)
  {
    hide XorSeq, BlockAt;
    if n > 0 {
      LinkPrefix(E, iv, a, b, n - 1);
      FrontBlock(a, b, n - 1);
    }
  }

  /** Decrypting in place is right exactly when every block but the last is its own plaintext. */
  lemma {:induction false} InPlaceKeepsBlocks(D: Prp, iv: Block, data: seq<bv8>, n: nat)
    requires 16 * n <= |data|
    ensures DecryptedInPlace(D, iv, data, n) == Decrypted(D, iv, data, n)
       <==> forall i: nat :: i + 1 < n ==> BlockAt(Decrypted(D, iv, data, n), i) == BlockAt(data, i)
    decreases n
  {
    hide XorSeq, BlockAt;
    if n > 0 {
      var p, q := DecryptedInPlace(D, iv, data, n - 1), Decrypted(D, iv, data, n - 1);
      var x := D(BlockAt(data, n - 1));
      InPlaceKeepsBlocks(D, iv, data, n - 1);
      forall i: nat | i < n - 1 ensures BlockAt(Decrypted(D, iv, data, n), i) == BlockAt(q, i) {
        FrontBlock(q, XorSeq(x, Before(iv, data, n - 1)), i);
      }
      assert Decrypted(D, iv, data, n)[..16 * (n - 1)] == q && DecryptedInPlace(D, iv, data, n)[..16 * (n - 1)] == p;
      assert Decrypted(D, iv, data, n)[16 * (n - 1)..] == XorSeq(x, Before(iv, data, n - 1));
      assert DecryptedInPlace(D, iv, data, n)[16 * (n - 1)..] == XorSeq(x, Before(iv, p, n - 1));
      XorSame(x, Before(iv, data, n - 1), Before(iv, p, n - 1));
    }
  }

  lemma {:induction false} DecryptedBlock(D: Prp, iv: Block, data: seq<bv8>, n: nat, i: nat)
    requires 16 * n <= |data| && i < n
    ensures BlockAt(Decrypted(D, iv, data, n), i) == XorSeq(D(BlockAt(data, i)), Before(iv, data, i))
    decreases n
  {
    hide XorSeq, BlockAt;
    var q, last := Decrypted(D, iv, data, n - 1), XorSeq(D(BlockAt(data, n - 1)), Before(iv, data, n - 1));
    if i < n - 1 {
      DecryptedBlock(D, iv, data, n - 1, i);
      FrontBlock(q, last, i);
    } else {
      LastBlock(q, last, i);
    }
  }

  /** Said of the input: the inverse of the block function takes every ciphertext block but the
      last to the block itself with the one before it added. */
  lemma InPlaceIsRightExactly(D: Prp, iv: Block, data: seq<bv8>, n: nat)
    requires 16 * n <= |data|
    ensures DecryptedInPlace(D, iv, data, n) == Decrypted(D, iv, data, n)
       <==> forall i: nat :: i + 1 < n ==> D(BlockAt(data, i)) == XorSeq(BlockAt(data, i), Before(iv, data, i))
  {
    InPlaceKeepsBlocks(D, iv, data, n);
    hide XorSeq, BlockAt, Decrypted, DecryptedInPlace, Before;
    forall i: nat | i + 1 < n
      ensures BlockAt(Decrypted(D, iv, data, n), i) == BlockAt(data, i)
         <==> D(BlockAt(data, i)) == XorSeq(BlockAt(data, i), Before(iv, data, i))
    {
      DecryptedBlock(D, iv, data, n, i);
      XorMoves(D(BlockAt(data, i)), Before(iv, data, i), BlockAt(data, i));
    }
  }

  lemma XorMoves(x: seq<bv8>, b: seq<bv8>, c: seq<bv8>)
    requires |x| == |b| == |c|
    ensures XorSeq(x, b) == c <==> x == XorSeq(c, b)
  {
    XorSeqCancels(x, b);
    XorSeqCancels(c, b);
  }

  lemma XorSame(x: seq<bv8>, a: seq<bv8>, b: seq<bv8>)
    requires |x| == |a| == |b|
    ensures XorSeq(x, a) == XorSeq(x, b) <==> a == b
  {
    if XorSeq(x, a) == XorSeq(x, b) {
      forall i | 0 <= i < |a| ensures a[i] == b[i] {
        assert XorSeq(x, a)[i] == XorSeq(x, b)[i];
        XorByteSame(x[i], a[i], b[i]);
      }
    }
  }

  lemma XorByteSame(x: bv8, a: bv8, b: bv8)
    ensures Xor8(x, a) == Xor8(x, b) ==> a == b
  {
  }

  /** The identity as block function and two zero blocks are enough to see it go wrong. */
  lemma InPlaceCanGoWrong()
    ensures var D: Prp := b => b;
            var iv: Block := seq(16, _ => 1);
            DecryptedInPlace(D, iv, ZERO_BLOCK + ZERO_BLOCK, 2) != Decrypted(D, iv, ZERO_BLOCK + ZERO_BLOCK, 2)
  {
    var D: Prp := b => b;
    var iv: Block := seq(16, _ => 1);
    var data := ZERO_BLOCK + ZERO_BLOCK;
    InPlaceKeepsBlocks(D, iv, data, 2);
    var p := Decrypted(D, iv, data, 1);
    assert p == [] + XorSeq(BlockAt(data, 0), iv);
    assert p[0] == Xor8(0, 1) == 1;
    FrontBlock(p, XorSeq(BlockAt(data, 1), Before(iv, data, 1)), 0);
    assert BlockAt(Decrypted(D, iv, data, 2), 0)[0] == p[0] && BlockAt(data, 0)[0] == 0;
  }

  // ---- The code ----

  /** xor_bb on a block of one array and a whole chaining block. */
  method XorBlock(x: seq<bv8>, y: seq<bv8>) returns (out: seq<bv8>)
    requires |x| == |y|
    ensures out == XorSeq(x, y)
  {
    out := [];
    while |out| < |x|
      invariant |out| <= |x| && out == XorSeq(x, y)[..|out|]
    {
      out := out + [Xor8(x[|out|], y[|out|])];
    }
  }

  /** memcpy of a block. */
  method CopyBlock(out: array<bv8>, at: nat, b: Block)
    requires at + 16 <= out.Length
    modifies out
    ensures out[..at + 16] == old(out[..at]) + b
    ensures forall i :: at + 16 <= i < out.Length ==> out[i] == old(out[i])
  {
    for k := 0 to 16
      invariant out[..at + k] == old(out[..at]) + b[..k]
      invariant forall i :: at + 16 <= i < out.Length ==> out[i] == old(out[i])
    {
      out[at + k] := b[k];
      assert out[..at + k + 1] == out[..at + k] + [b[k]];
    }
  }

  lemma ArrayBlock(a: array<bv8>, i: nat)
    requires 16 * i + 16 <= a.Length
    ensures a[16 * i..16 * i + 16] == BlockAt(a[..], i)
  {
  }

  lemma SameBlock(s: seq<bv8>, t: seq<bv8>, i: nat)
    requires |s| == |t| && 16 * i + 16 <= |s| && forall j :: 16 * i <= j < |s| ==> s[j] == t[j]
    ensures BlockAt(s, i) == BlockAt(t, i)
  {
  }

  predicate SameFrom(s: seq<bv8>, t: seq<bv8>, at: nat) { |s| == |t| && forall j :: at <= j < |s| ==> s[j] == t[j] }

  lemma StillSame(s: seq<bv8>)
    ensures SameFrom(s, s, 0)
  {
  }

  lemma SameTail(s: seq<bv8>, t: seq<bv8>, at: nat)
    requires SameFrom(s, t, at) && at <= |s|
    ensures s[at..] == t[at..]
  {
  }

  class CbcContext {
    const E: Prp
    const D: Prp
    var block: Block

    /** cf_cbc_init. */
    constructor (E: Prp, D: Prp, iv: Block)
      ensures this.E == E && this.D == D && block == iv
    {
      this.E, this.D, block := E, D, iv;
    }

    /** cf_cbc_encrypt; `output` may be `input`. */
    method EncryptBlocks(input: array<bv8>, output: array<bv8>, blocks: nat)
      requires 16 * blocks <= input.Length && 16 * blocks <= output.Length
      modifies this, output
      ensures output[..16 * blocks] == Encrypted(E, old(block), old(input[..]), blocks)
      ensures output[16 * blocks..] == old(output[16 * blocks..])
      ensures block == Link(E, old(block), old(input[..]), blocks)
    {
      hide XorSeq, BlockAt, Link, Encrypted;
      NoBlocks(E, block, input[..]);
      var i := 0;
      while i < blocks
        invariant i <= blocks && block == Link(E, old(block), old(input[..]), i)
        invariant output[..16 * i] == Encrypted(E, old(block), old(input[..]), i)
        invariant forall j :: 16 * i <= j < input.Length ==> input[j] == old(input[j])
        invariant forall j :: 16 * i <= j < output.Length ==> output[j] == old(output[j])
      {
        SameBlock(old(input[..]), input[..], i);
        var buf := XorBlock(input[16 * i..16 * i + 16], block);
        ArrayBlock(input, i);
        EncryptedStep(E, old(block), old(input[..]), i);
        block := E(buf);
        CopyBlock(output, 16 * i, block);
        i := i + 1;
      }
    }

    /** cf_cbc_decrypt. When `output` is `input` each block is overwritten before it becomes the
        next link. */
    method DecryptBlocks(input: array<bv8>, output: array<bv8>, blocks: nat)
      requires 16 * blocks <= input.Length && 16 * blocks <= output.Length
      modifies this, output
      ensures var p := if input == output then DecryptedInPlace(D, old(block), old(input[..]), blocks)
                       else Decrypted(D, old(block), old(input[..]), blocks);
              && output[..16 * blocks] == p
              && block == Before(old(block), if input == output then p else old(input[..]), blocks)
      ensures output[16 * blocks..] == old(output[16 * blocks..])
    {
      hide *;
      ghost var was, out := input[..], output[..];
      ProgressStarts(input == output, block, was);
      StillSame(was);
      StillSame(out);
      assert output[..0] == [];
      var i := 0;
      while i < blocks
        invariant i <= blocks
        invariant Progress(input == output, old(block), was, i, output[..16 * i], block)
        invariant SameFrom(input[..], was, 16 * i) && SameFrom(output[..], out, 16 * i)
      {
        DecryptOne(input, output, i, old(block), was, out);
        i := i + 1;
      }
      SameTail(output[..], out, 16 * blocks);
      ProgressMeans(input == output, old(block), was, blocks, output[..16 * blocks], block);
    }

    /** One block: its link is read back from the input after the output was written. */
    method DecryptOne(input: array<bv8>, output: array<bv8>, i: nat, ghost iv: Block, ghost was: seq<bv8>, ghost out: seq<bv8>)
      requires 16 * i + 16 <= input.Length && 16 * i + 16 <= output.Length
      requires SameFrom(input[..], was, 16 * i) && SameFrom(output[..], out, 16 * i)
      requires Progress(input == output, iv, was, i, output[..16 * i], block)
      modifies this, output
      ensures Progress(input == output, iv, was, i + 1, output[..16 * i + 16], block)
      ensures SameFrom(input[..], was, 16 * i + 16) && SameFrom(output[..], out, 16 * i + 16)
    {
      hide XorSeq, BlockAt, Progress;
      ghost var written, link := output[..16 * i], block;
      SameBlock(was, input[..], i);
      ArrayBlock(input, i);
      var buf := D(input[16 * i..16 * i + 16]);
      var plain := XorBlock(buf, block);
      CopyBlock(output, 16 * i, plain);
      block := input[16 * i..16 * i + 16];
      ArrayBlock(input, i);
      if input == output {
        assert block == plain by { assert output[16 * i..16 * i + 16] == output[..16 * i + 16][16 * i..]; }
      }
      ProgressStep(input == output, iv, was, i, written, link, plain, block);
    }

    /** After i blocks: what was written, and the link. */
    ghost predicate Progress(inPlace: bool, iv: Block, data: seq<bv8>, i: nat, written: seq<bv8>, link: Block) {
      && 16 * i <= |data| && |written| == 16 * i
      && written == (if inPlace then DecryptedInPlace(D, iv, data, i) else Decrypted(D, iv, data, i))
      && link == Before(iv, if inPlace then written else data, i)
    }

    lemma ProgressStarts(inPlace: bool, iv: Block, data: seq<bv8>)
      ensures Progress(inPlace, iv, data, 0, [], iv)
    {
    }

    lemma ProgressMeans(inPlace: bool, iv: Block, data: seq<bv8>, i: nat, written: seq<bv8>, link: Block)
      requires Progress(inPlace, iv, data, i, written, link) && 16 * i <= |data|
      ensures var p := if inPlace then DecryptedInPlace(D, iv, data, i) else Decrypted(D, iv, data, i);
              written == p && link == Before(iv, if inPlace then p else data, i)
    {
    }

    lemma ProgressStep(inPlace: bool, iv: Block, data: seq<bv8>, i: nat, written: seq<bv8>, link: Block, plain: Block, link': Block)
      requires Progress(inPlace, iv, data, i, written, link) && 16 * i + 16 <= |data|
      requires plain == XorSeq(D(BlockAt(data, i)), link) && link' == if inPlace then plain else BlockAt(data, i)
      ensures Progress(inPlace, iv, data, i + 1, written + plain, link')
    {
      hide XorSeq;
      assert BlockAt(written + plain, i) == plain;
    }
  }
}
