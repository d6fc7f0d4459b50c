/** cf_cmac_stream: the mutable CMAC context. */
module CmacStreams {
  import opened Bitops
  import opened Blockwise
  import opened Cmac

  class CmacStream {
    const E: Prp
    const B: Block
    const P: Block
    const acc: Accumulator<CmacState>

    ghost predicate Valid()
      reads this, acc, acc.partial
    {
      acc.Valid() && acc.partial.Length == 16 && B == K1(E) && P == K2(E)
    }

    ghost function Repr(): set<object>
      reads this, acc
    {
      {acc, acc.partial}
    }

    /** What a call sees: the chaining state and the bytes not yet processed. */
    ghost function State(): (s: (CmacState, seq<bv8>))
      reads this, acc, acc.partial
      requires Valid()
    {
      (acc.ctx, acc.Pending())
    }

    /** cf_cmac_stream_init. */
    constructor (E: Prp)
      ensures Valid() && fresh(Repr()) && this.E == E
      ensures State() == (START, [])
    {
      var b, p := Subkeys(E);
      this.E, B, P := E, b, p;
      acc := new Accumulator(16, START);
    }

    /** cf_cmac_stream_reset. */
    method Reset()
      requires Valid()
      modifies acc, acc.partial
      ensures Valid() && State() == (START, [])
    {
      for i := 0 to 16
        invariant Valid()
      {
        acc.partial[i] := 0;
      }
      acc.npartial := 0;
      acc.ctx := START;
    }

    /** cf_cmac_stream_update. A final call must bring data, unless the message is empty. */
    method Update(data: seq<bv8>, isFinal: bool)
      requires Valid()
      requires isFinal ==> !acc.ctx.finalised
      requires isFinal && data == [] ==> acc.npartial == 0 && acc.ctx.processed == 0
      modifies acc, acc.partial
      ensures Valid()
      ensures !isFinal ==> State() == old(Consume(acc.ctx, acc.Pending() + data, 16, Process(E), Process(E)))
      ensures isFinal ==> State() == old((Finish(E, acc.ctx, acc.Pending() + data), []))
    {
      hide K1, K2;
      if !isFinal {
        acc.AccumulateFinal(data, Process(E), Process(E));
      } else {
        FinalUpdate(data);
      }
    }

    method FinalUpdate(data: seq<bv8>)
      requires Valid() && !acc.ctx.finalised
      requires data == [] ==> acc.npartial == 0 && acc.ctx.processed == 0
      modifies acc, acc.partial
      ensures Valid() && State() == old((Finish(E, acc.ctx, acc.Pending() + data), []))
    {
      hide K1, K2, XorSeq;
      ghost var s, total := acc.ctx, acc.Pending() + data;
      var wholeNumberOfBlocks := (|data| + acc.npartial) % 16 == 0;
      var emptyMessage := |data| == 0 && acc.npartial == 0 && acc.ctx.processed == 0;
      if wholeNumberOfBlocks && !emptyMessage {
        acc.AccumulateFinal(data, Process(E), ProcessFinal(E, B));
        WholeLeavesNothing(s, total, Process(E), ProcessFinal(E, B));
        FinishCases(E, s, total);
      } else {
        acc.AccumulateFinal(data, Process(E), Process(E));
        ghost var s1, rest := acc.ctx, acc.Pending();
        acc.AccPad(0x80, 0x00, 0x00, 16 - acc.npartial, ProcessFinal(E, P));
        PadIsPadding(rest);
        assert rest + Padding(0x80, 0, 0, 16 - |rest|) == Pad(rest);
        assert Finish(E, s, total) == ProcessFinal(E, K2(E))(s1, Pad(rest));
      }
    }

    /** cf_cmac_stream_final: only after a final update. */
    method Final() returns (out: Block)
      requires Valid() && acc.ctx.finalised
      ensures out == acc.ctx.block
    {
      out := acc.ctx.block;
    }

    /** cf_cmac_sign, on this stream: reset, one final update, read the tag. */
    method Sign(data: seq<bv8>) returns (out: Block)
      requires Valid()
      modifies acc, acc.partial
      ensures Valid() && out == CmacTag(E, data)
    {
      Reset();
      Update(data, true);
      assert acc.ctx == Finish(E, START, data) by {
        assert [] + data == data;
      }
      FinishIsTagFrom(E, START, data);
      TagFromStart(E, data);
      out := Final();
    }
  }

  lemma {:induction false} WholeLeavesNothing<C>(c: C, data: seq<bv8>, process: (C, seq<bv8>) -> C, last: (C, seq<bv8>) -> C)
    requires |data| % 16 == 0
    ensures Consume(c, data, 16, process, last).1 == []
    decreases |data|
  {
    if |data| > 16 {
      WholeLeavesNothing(process(c, data[..16]), data[16..], process, last);
    }
  }

  /** The padding pattern completes a partial block to 10* padding. */
  lemma PadIsPadding(rest: seq<bv8>)
    requires |rest| < 16
    ensures rest + Padding(0x80, 0, 0, 16 - |rest|) == Pad(rest)
  {
    var n := 16 - |rest|;
    if n == 1 {
      assert (0x80 as bv8) ^ 0 == 0x80;
      assert Padding(0x80, 0, 0, n) == [0x80];
    } else {
      assert Padding(0x80, 0, 0, n) == [0x80] + seq(15 - |rest|, _ => 0);
    }
  }
}
