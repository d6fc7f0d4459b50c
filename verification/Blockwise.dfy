/** The block accumulator and the keystream consumer of blockwise.c. A process callback with
    its context pointer is a function from one context value to the next. */
module Blockwise {
  import opened Bitops

  // ---- What accumulation means ----

  /** Feed `data` block by block; the block that ends exactly with the input goes to `last`.
      Returns the new context and the bytes left over. */
  function Consume<C>(c: C, data: seq<bv8>, nblock: nat, process: (C, seq<bv8>) -> C, last: (C, seq<bv8>) -> C): (r: (C, seq<bv8>))
    requires nblock > 0
    ensures |r.1| < nblock
    decreases |data|
  {
    if |data| < nblock then (c, data)
    else if |data| == nblock then (last(c, data), [])
    else Consume(process(c, data[..nblock]), data[nblock..], nblock, process, last)
  }

  /** The whole blocks of a byte string, in order. */
  function Blocks(data: seq<bv8>, nblock: nat): (bs: seq<seq<bv8>>)
    requires nblock > 0
    decreases |data|
  {
    if |data| < nblock then [] else [data[..nblock]] + Blocks(data[nblock..], nblock)
  }

  function Fold<C>(c: C, blocks: seq<seq<bv8>>, process: (C, seq<bv8>) -> C): C
    decreases |blocks|
  {
    if blocks == [] then c else Fold(process(c, blocks[0]), blocks[1..], process)
  }

  lemma MulMonotone(k: int, d: nat)
    ensures k >= 1 ==> k * d >= d
    ensures k <= -1 ==> k * d <= 0 - d
  {
    if k >= 1 {
      assert k * d == (k - 1) * d + d;
    } else if k <= -1 {
      assert k * d == (k + 1) * d - d;
    }
  }

  lemma DivUnique(n: nat, d: nat, q: int, r: nat)
    requires r < d && n == q * d + r
    ensures n / d == q && n % d == r
  {
    var x, y := n / d, n % d;
    assert n == x * d + y;
    assert (q - x) * d == y - r;
    MulMonotone(q - x, d);
  }

  lemma DivStep(n: nat, d: nat)
    requires 0 < d <= n
    ensures n / d == (n - d) / d + 1
    ensures n % d == (n - d) % d
  {
    var q, r := (n - d) / d, (n - d) % d;
    assert n - d == q * d + r;
    assert (q + 1) * d == q * d + d;
    DivUnique(n, d, q + 1, r);
  }

  lemma DivSmall(n: nat, d: nat)
    requires n < d
    ensures n / d == 0 && n % d == n
  {
    DivUnique(n, d, 0, n);
  }

  lemma MulStep(k: nat, d: nat)
    ensures (k + 1) * d == k * d + d
  {
  }

  /** Block k is bytes k n .. (k + 1) n of the input: nothing is lost, repeated or reordered. */
  lemma {:induction false} BlocksAt(data: seq<bv8>, nblock: nat, k: nat)
    requires nblock > 0
    ensures |Blocks(data, nblock)| == |data| / nblock
    ensures k < |data| / nblock ==> (k + 1) * nblock <= |data|
    ensures k < |data| / nblock ==> Blocks(data, nblock)[k] == data[k * nblock..(k + 1) * nblock]
    decreases |data|
  {
    if |data| >= nblock {
      var rest := data[nblock..];
      DivStep(|data|, nblock);
      if k > 0 {
        BlocksAt(rest, nblock, k - 1);
        MulStep(k - 1, nblock);
        MulStep(k, nblock);
        LaterBlock(data, nblock, (k - 1) * nblock);
      } else {
        BlocksAt(rest, nblock, 0);
        assert 1 * nblock == nblock && 0 * nblock == 0;
      }
    } else {
      DivSmall(|data|, nblock);
    }
  }

  lemma LaterBlock(data: seq<bv8>, nblock: nat, a: nat)
    requires nblock <= |data|
    ensures a + 2 * nblock <= |data| ==> data[nblock..][a..a + nblock] == data[a + nblock..a + nblock + nblock]
  {
  }

  /** With one callback, the callback sees exactly the whole blocks and the buffer keeps the remainder. */
  lemma {:induction false} ConsumeFoldsBlocks<C>(c: C, data: seq<bv8>, nblock: nat, process: (C, seq<bv8>) -> C)
    requires nblock > 0
    ensures Consume(c, data, nblock, process, process).0 == Fold(c, Blocks(data, nblock), process)
    ensures |data| % nblock <= |data|
    ensures Consume(c, data, nblock, process, process).1 == data[|data| - |data| % nblock..]
    decreases |data|
  {
    if |data| < nblock {
      DivSmall(|data|, nblock);
    } else {
      DivStep(|data|, nblock);
      ConsumeFoldsBlocks(process(c, data[..nblock]), data[nblock..], nblock, process);
      if |data| == nblock {
        assert data[..nblock] == data;
        DivSmall(0, nblock);
      }
    }
  }

  predicate Whole(data: seq<bv8>, nblock: nat)
    requires nblock > 0
  {
    |data| > 0 && |data| % nblock == 0
  }

  function FoldWithLast<C>(c: C, data: seq<bv8>, nblock: nat, process: (C, seq<bv8>) -> C, last: (C, seq<bv8>) -> C): C
    requires nblock > 0
  {
    var whole := Blocks(data, nblock);
    if Whole(data, nblock) && |whole| > 0
    then last(Fold(c, whole[..|whole| - 1], process), whole[|whole| - 1])
    else Fold(c, whole, process)
  }

  /** The final callback runs at most once and last, exactly when the input is a nonempty
      whole number of blocks. */
  lemma {:induction false} LastBlockGoesToLast<C>(c: C, data: seq<bv8>, nblock: nat,
                                                  process: (C, seq<bv8>) -> C, last: (C, seq<bv8>) -> C)
    requires nblock > 0
    ensures Whole(data, nblock) ==> |Blocks(data, nblock)| > 0
    ensures Consume(c, data, nblock, process, last).0 == FoldWithLast(c, data, nblock, process, last)
    decreases |data|
  {
    BlocksAt(data, nblock, 0);
    if |data| < nblock {
      DivSmall(|data|, nblock);
    } else {
      DivStep(|data|, nblock);
      var rest := data[nblock..];
      var whole := Blocks(data, nblock);
      if |data| == nblock {
        assert data[..nblock] == data && rest == [];
        assert whole == [data];
        assert whole[..0] == [];
      } else {
        LastBlockGoesToLast(process(c, data[..nblock]), rest, nblock, process, last);
        assert whole[1..] == Blocks(rest, nblock);
        if Whole(data, nblock) {
          assert whole[..|whole| - 1][1..] == Blocks(rest, nblock)[..|whole| - 2];
          assert whole[..|whole| - 1] != [];
        }
      }
    }
  }

  /** Cutting the input between two calls makes no difference. */
  lemma {:induction false} ConsumeInTwo<C>(c: C, a: seq<bv8>, b: seq<bv8>, nblock: nat,
                                           process: (C, seq<bv8>) -> C, last: (C, seq<bv8>) -> C)
    requires nblock > 0
    requires b != []
    ensures var (c1, rest) := Consume(c, a, nblock, process, process);
            Consume(c1, rest + b, nblock, process, last) == Consume(c, a + b, nblock, process, last)
    decreases |a|
  {
    if |a| >= nblock {
      assert (a + b)[..nblock] == a[..nblock];
      assert (a + b)[nblock..] == a[nblock..] + b;
      ConsumeInTwo(process(c, a[..nblock]), a[nblock..], b, nblock, process, last);
      if |a| == nblock {
        assert a[..nblock] == a && a[nblock..] == [];
        assert [] + b == b;
      }
    }
  }

  lemma ConsumeSequence<C>(c: C, a: seq<bv8>, b: seq<bv8>, nblock: nat, process: (C, seq<bv8>) -> C)
    requires nblock > 0
    ensures var (c1, rest) := Consume(c, a, nblock, process, process);
            Consume(c1, rest + b, nblock, process, process) == Consume(c, a + b, nblock, process, process)
  {
    if b == [] {
      var (c1, rest) := Consume(c, a, nblock, process, process);
      assert a + b == a && rest + b == rest;
    } else {
      ConsumeInTwo(c, a, b, nblock, process, process);
    }
  }

  // ---- Runs over many calls ----

  function Concat(chunks: seq<seq<bv8>>): seq<bv8> {
    if chunks == [] then [] else Concat(chunks[..|chunks| - 1]) + chunks[|chunks| - 1]
  }

  /** The state after a sequence of accumulate calls, starting from an empty buffer. */
  function Run<C>(c: C, chunks: seq<seq<bv8>>, nblock: nat, process: (C, seq<bv8>) -> C): (r: (C, seq<bv8>))
    requires nblock > 0
    ensures |r.1| < nblock
  {
    if chunks == [] then (c, [])
    else
      var (c1, rest) := Run(c, chunks[..|chunks| - 1], nblock, process);
      Consume(c1, rest + chunks[|chunks| - 1], nblock, process, process)
  }

  /** However a byte string is cut into calls, the blocks processed and the bytes kept are those
      of the whole string. */
  lemma {:induction false} RunIsConsume<C>(c: C, chunks: seq<seq<bv8>>, nblock: nat, process: (C, seq<bv8>) -> C)
    requires nblock > 0
    ensures Run(c, chunks, nblock, process) == Consume(c, Concat(chunks), nblock, process, process)
  {
    if chunks != [] {
      var front := chunks[..|chunks| - 1];
      RunIsConsume(c, front, nblock, process);
      ConsumeSequence(c, Concat(front), chunks[|chunks| - 1], nblock, process);
    }
  }

  // ---- Padding patterns ----

  function Repeat(b: bv8, n: nat): (s: seq<bv8>)
    ensures |s| == n
  {
    seq(n, _ => b)
  }

  /** The byte pattern of acc_pad: first, middle bytes, last; one byte gets both markers. */
  function Padding(fbyte: bv8, mbyte: bv8, lbyte: bv8, n: nat): (s: seq<bv8>)
    ensures |s| == n
  {
    if n == 0 then []
    else if n == 1 then [fbyte ^ lbyte]
    else [fbyte] + Repeat(mbyte, n - 2) + [lbyte]
  }

  // ---- The accumulator ----

  class Accumulator<C> {
    const partial: array<bv8>
    var npartial: nat
    var ctx: C

    ghost predicate Valid()
      reads this, partial
    {
      partial.Length > 0 && npartial < partial.Length
    }

    /** The bytes not yet processed. */
    ghost function Pending(): (s: seq<bv8>)
      reads this, partial
      requires npartial <= partial.Length
    {
      partial[..npartial]
    }

    constructor (nblock: nat, c: C)
      requires nblock > 0
      ensures Valid() && fresh(partial) && partial.Length == nblock && npartial == 0 && ctx == c
    {
      partial := new bv8[nblock](_ => 0);
      npartial := 0;
      ctx := c;
    }

    /** memcpy(partial + npartial, src, len) and the count update. */
    method Append(src: seq<bv8>)
      requires npartial + |src| <= partial.Length
      modifies this`npartial, partial
      ensures npartial == old(npartial) + |src|
      ensures Pending() == old(Pending()) + src
    {
      for i := 0 to |src|
        invariant npartial == old(npartial)
        invariant partial[..npartial + i] == old(partial[..npartial]) + src[..i]
      {
        partial[npartial + i] := src[i];
      }
      npartial := npartial + |src|;
    }

    /** The first step of accumulate_final: with partial data, copy input in behind it, and
        process the buffer if that fills it. Returns how much input was taken. */
    method TopUp(inp: seq<bv8>, process: (C, seq<bv8>) -> C, processFinal: (C, seq<bv8>) -> C) returns (at: nat)
      requires Valid()
      modifies this`npartial, this`ctx, partial
      ensures Valid() && at <= |inp| && (at == |inp| || npartial == 0)
      ensures Consume(ctx, Pending() + inp[at..], partial.Length, process, processFinal)
           == old(Consume(ctx, Pending() + inp, partial.Length, process, processFinal))
    {
      at := 0;
      if npartial != 0 && |inp| != 0 {
        var nblock := partial.Length;
        ghost var all := Pending() + inp;
        var space := nblock - npartial;
        at := if space < |inp| then space else |inp|;
        Append(inp[..at]);
        assert Pending() + inp[at..] == all;
        if npartial == nblock {
          var block := partial[..];
          assert Pending() == block;
          assert all[..nblock] == block && all[nblock..] == inp[at..];
          if at == |inp| {
            assert all == block;
            ctx := processFinal(ctx, block);
          } else {
            ctx := process(ctx, block);
          }
          npartial := 0;
          assert Pending() + inp[at..] == inp[at..];
        }
      } else {
        assert inp[0..] == inp;
      }
    }

    /** The second step: whole blocks are processed straight from the input. */
    method ProcessWhole(inp: seq<bv8>, from: nat, process: (C, seq<bv8>) -> C, processFinal: (C, seq<bv8>) -> C)
      returns (at: nat)
      requires Valid() && from <= |inp| && (from == |inp| || npartial == 0)
      modifies this`ctx
      ensures at <= |inp| && |inp| - at < partial.Length && (at == |inp| || npartial == 0)
      ensures Consume(ctx, Pending() + inp[at..], partial.Length, process, processFinal)
           == old(Consume(ctx, Pending() + inp[from..], partial.Length, process, processFinal))
    {
      var nblock := partial.Length;
      ghost var result := Consume(ctx, Pending() + inp[from..], nblock, process, processFinal);
      at := from;
      while |inp| - at >= nblock
        invariant at <= |inp| && (at == |inp| || npartial == 0)
        invariant Consume(ctx, Pending() + inp[at..], nblock, process, processFinal) == result
      {
        var block := inp[at..at + nblock];
        ghost var rest := inp[at..];
        assert Pending() + rest == rest;
        assert rest[..nblock] == block && rest[nblock..] == inp[at + nblock..];
        if |inp| - at == nblock {
          assert rest == block;
          ctx := processFinal(ctx, block);
        } else {
          ctx := process(ctx, block);
        }
        at := at + nblock;
        assert Pending() + inp[at..] == inp[at..];
      }
    }

    /** The last step: the remaining data is buffered. */
    method Buffer(inp: seq<bv8>, from: nat)
      requires Valid() && from <= |inp| && npartial + (|inp| - from) < partial.Length
      modifies this`npartial, partial
      ensures Valid() && Pending() == old(Pending()) + inp[from..]
    {
      var at := from;
      while at < |inp|
        invariant from <= at <= |inp| && npartial + (|inp| - at) < partial.Length
        invariant Pending() == old(Pending()) + inp[from..at]
        decreases |inp| - at
      {
        var space := partial.Length - npartial;
        var taken := if space < |inp| - at then space else |inp| - at;
        assert inp[from..at + taken] == inp[from..at] + inp[at..at + taken];
        Append(inp[at..at + taken]);
        at := at + taken;
      }
      assert inp[from..|inp|] == inp[from..];
    }

    /** cf_blockwise_accumulate_final. */
    method AccumulateFinal(inp: seq<bv8>, process: (C, seq<bv8>) -> C, processFinal: (C, seq<bv8>) -> C)
      requires Valid()
      modifies this`npartial, this`ctx, partial
      ensures Valid()
      ensures (ctx, Pending()) == old(Consume(ctx, Pending() + inp, partial.Length, process, processFinal))
    {
      var at := TopUp(inp, process, processFinal);
      at := ProcessWhole(inp, at, process, processFinal);
      Buffer(inp, at);
    }

    /** cf_blockwise_accumulate. */
    method Accumulate(inp: seq<bv8>, process: (C, seq<bv8>) -> C)
      requires Valid()
      modifies this`npartial, this`ctx, partial
      ensures Valid()
      ensures (ctx, Pending()) == old(Consume(ctx, Pending() + inp, partial.Length, process, process))
    {
      AccumulateFinal(inp, process, process);
    }

    /** cf_blockwise_acc_byte: the buffer is filled with the byte only until one whole block
        has been filled; the callback leaves it as it is. */
    method AccByte(byte: bv8, nbytes: nat, process: (C, seq<bv8>) -> C)
      requires Valid()
      modifies this`npartial, this`ctx, partial
      ensures Valid()
      ensures (ctx, Pending()) == old(Consume(ctx, Pending() + Repeat(byte, nbytes), partial.Length, process, process))
    {
      var nblock := partial.Length;
      var filled := false;
      var left: nat := nbytes;
      ghost var result := Consume(ctx, Pending() + Repeat(byte, nbytes), nblock, process, process);
      while left != 0
        invariant Valid() && 0 <= left <= nbytes
        invariant filled && left > 0 ==> npartial == 0 && forall j :: 0 <= j < nblock ==> partial[j] == byte
        invariant Consume(ctx, Pending() + Repeat(byte, left), nblock, process, process) == result
        decreases left
      {
        left, filled := AccByteStep(byte, left, filled, process);
      }
      assert Pending() + Repeat(byte, 0) == Pending();
    }

    method AccByteStep(byte: bv8, nbytes: nat, filled: bool, process: (C, seq<bv8>) -> C)
      returns (left: nat, filled': bool)
      requires Valid() && nbytes > 0
      requires filled ==> npartial == 0 && forall j :: 0 <= j < partial.Length ==> partial[j] == byte
      modifies this`npartial, this`ctx, partial
      ensures Valid() && left < nbytes
      ensures filled' && left > 0 ==> npartial == 0 && forall j :: 0 <= j < partial.Length ==> partial[j] == byte
      ensures Consume(ctx, Pending() + Repeat(byte, left), partial.Length, process, process)
           == old(Consume(ctx, Pending() + Repeat(byte, nbytes), partial.Length, process, process))
    {
      var nblock := partial.Length;
      ghost var all := Pending() + Repeat(byte, nbytes);
      filled' := filled;
      var start := npartial;
      var count := if nbytes < nblock - start then nbytes else nblock - start;
      if !filled {
        Fill(byte, count);
      } else {
        assert partial[..count] == Repeat(byte, count);
      }
      assert partial[..start + count] == all[..start + count];
      left := nbytes - count;
      assert all[start + count..] == Repeat(byte, left);
      if start == 0 && count == nblock {
        filled' := true;
        assert forall j :: 0 <= j < nblock ==> partial[j] == partial[..start + count][j];
      }
      if start + count == nblock {
        var block := partial[..];
        assert block == all[..nblock];
        ctx := process(ctx, block);
        npartial := 0;
        if left == 0 {
          assert block == all;
        }
        assert Pending() + Repeat(byte, left) == all[nblock..];
      } else {
        npartial := npartial + count;
        assert Pending() + Repeat(byte, left) == all;
      }
    }

    /** memset(partial + npartial, byte, count). */
    method Fill(byte: bv8, count: nat)
      requires npartial + count <= partial.Length
      modifies partial
      ensures partial[..npartial + count] == old(Pending()) + Repeat(byte, count)
    {
      for i := 0 to count
        invariant partial[..npartial + i] == old(partial[..npartial]) + Repeat(byte, i)
      {
        partial[npartial + i] := byte;
      }
    }

    /** cf_blockwise_acc_pad: as if the padding pattern were accumulated in one piece. */
    method AccPad(fbyte: bv8, mbyte: bv8, lbyte: bv8, nbytes: nat, process: (C, seq<bv8>) -> C)
      requires Valid()
      modifies this`npartial, this`ctx, partial
      ensures Valid()
      ensures (ctx, Pending())
           == old(Consume(ctx, Pending() + Padding(fbyte, mbyte, lbyte, nbytes), partial.Length, process, process))
    {
      if nbytes == 0 {
        assert Pending() + [] == Pending();
      } else if nbytes == 1 {
        Accumulate([fbyte ^ lbyte], process);
      } else {
        AccTail(fbyte, mbyte, lbyte, nbytes, process);
      }
    }

    method AccTail(fbyte: bv8, mbyte: bv8, lbyte: bv8, nbytes: nat, process: (C, seq<bv8>) -> C)
      requires Valid() && nbytes >= 2
      modifies this`npartial, this`ctx, partial
      ensures Valid()
      ensures (ctx, Pending())
           == old(Consume(ctx, Pending() + Padding(fbyte, mbyte, lbyte, nbytes), partial.Length, process, process))
    {
      ghost var c, pending := ctx, Pending();
      Accumulate([fbyte], process);
      PaddingSplit(pending, fbyte, mbyte, lbyte, nbytes);
      if nbytes == 2 {
        Accumulate([lbyte], process);
        ConsumeSequence(c, pending + [fbyte], [lbyte], partial.Length, process);
      } else if lbyte != mbyte {
        AccMiddle(mbyte, lbyte, nbytes - 2, process);
        ConsumeSequence(c, pending + [fbyte], Repeat(mbyte, nbytes - 2) + [lbyte], partial.Length, process);
      } else {
        AccByte(mbyte, nbytes - 1, process);
        ConsumeSequence(c, pending + [fbyte], Repeat(mbyte, nbytes - 1), partial.Length, process);
      }
    }

    method AccMiddle(mbyte: bv8, lbyte: bv8, n: nat, process: (C, seq<bv8>) -> C)
      requires Valid()
      modifies this`npartial, this`ctx, partial
      ensures Valid()
      ensures (ctx, Pending())
           == old(Consume(ctx, Pending() + (Repeat(mbyte, n) + [lbyte]), partial.Length, process, process))
    {
      ghost var c, pending := ctx, Pending();
      AccByte(mbyte, n, process);
      Accumulate([lbyte], process);
      ConsumeSequence(c, pending + Repeat(mbyte, n), [lbyte], partial.Length, process);
      assert pending + Repeat(mbyte, n) + [lbyte] == pending + (Repeat(mbyte, n) + [lbyte]);
    }
  }

  lemma PaddingSplit(pending: seq<bv8>, fbyte: bv8, mbyte: bv8, lbyte: bv8, n: nat)
    requires n >= 2
    ensures n == 2 ==> pending + Padding(fbyte, mbyte, lbyte, n) == pending + [fbyte] + [lbyte]
    ensures n > 2 ==> pending + Padding(fbyte, mbyte, lbyte, n) == pending + [fbyte] + (Repeat(mbyte, n - 2) + [lbyte])
    ensures n > 2 && lbyte == mbyte ==>
              pending + Padding(fbyte, mbyte, lbyte, n) == pending + [fbyte] + Repeat(mbyte, n - 1)
  {
    var whole := Padding(fbyte, mbyte, lbyte, n);
    if n == 2 {
      assert Repeat(mbyte, 0) == [];
      assert whole == [fbyte] + [lbyte];
    } else {
      assert whole == [fbyte] + (Repeat(mbyte, n - 2) + [lbyte]);
      if lbyte == mbyte {
        assert Repeat(mbyte, n - 2) + [lbyte] == Repeat(mbyte, n - 1);
      }
    }
  }
}
