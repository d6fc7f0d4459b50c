/** Inputs side by side: decoding a ++ b is decoding a and then b, and unknown fields in between
    change nothing. */
module PbMerge {
  import opened PbWire
  import opened PbTypes
  import opened PbEncoding
  import opened PbDecoding
  import PbRoundTrip
  import opened Options

  // ---- More input behind the same stream ----

  function Ext(s: In, tail: seq<Byte>, extra: nat): In { In(s.rest + tail, s.left + extra) }

  function ExtRead<T>(r: Read<T>, tail: seq<Byte>, extra: nat): Read<T> {
    match r case Got(v, s) => Got(v, Ext(s, tail, extra)) case Bad(s) => Bad(Ext(s, tail, extra))
  }

  /** Bytes behind the limit (extra == 0) never matter; bytes behind a successful read neither. */
  predicate Stays<T>(r: Read<T>, tail: seq<Byte>, extra: nat) { extra <= |tail| && (extra == 0 || r.Got?) }

  lemma ByteExt(s: In, tail: seq<Byte>, extra: nat)
    requires Sound(s) && Stays(ReadByte(s), tail, extra)
    ensures ReadByte(Ext(s, tail, extra)) == ExtRead(ReadByte(s), tail, extra)
  {
    if s.left > 0 {
      assert (s.rest + tail)[1..] == s.rest[1..] + tail;
    }
  }

  lemma BytesExt(s: In, n: nat, tail: seq<Byte>, extra: nat)
    requires Sound(s) && Stays(ReadBytes(s, n), tail, extra)
    ensures ReadBytes(Ext(s, tail, extra), n) == ExtRead(ReadBytes(s, n), tail, extra)
  {
    if s.left >= n {
      assert (s.rest + tail)[n..] == s.rest[n..] + tail;
      assert (s.rest + tail)[..n] == s.rest[..n];
    }
  }

  lemma {:induction false} VarintFromExt(s: In, k: nat, limit: nat, lastMod: nat, tail: seq<Byte>, extra: nat)
    requires Sound(s) && lastMod > 0 && Stays(ReadVarintFrom(s, k, limit, lastMod), tail, extra)
    ensures ReadVarintFrom(Ext(s, tail, extra), k, limit, lastMod) == ExtRead(ReadVarintFrom(s, k, limit, lastMod), tail, extra)
    decreases s.left
  {
    if k < limit {
      ByteExt(s, tail, extra);
      var r := ReadByte(s);
      if r.Got? && r.value >= 128 {
        VarintFromExt(r.after, k + 1, limit, lastMod, tail, extra);
      }
    }
  }

  lemma {:induction false} SkipVarintExt(s: In, tail: seq<Byte>, extra: nat)
    requires Sound(s) && Stays(SkipVarint(s), tail, extra)
    ensures SkipVarint(Ext(s, tail, extra)) == ExtRead(SkipVarint(s), tail, extra)
    decreases s.left
  {
    ByteExt(s, tail, extra);
    var r := ReadByte(s);
    if r.Got? && r.value >= 128 {
      SkipVarintExt(r.after, tail, extra);
    }
  }

  lemma SkipFieldExt(s: In, wireType: nat, tail: seq<Byte>, extra: nat)
    requires Sound(s) && Stays(SkipField(s, wireType), tail, extra)
    ensures SkipField(Ext(s, tail, extra), wireType) == ExtRead(SkipField(s, wireType), tail, extra)
  {
    hide ReadVarintFrom, SkipVarint;
    if wireType == 0 {
      SkipVarintExt(s, tail, extra);
    } else if wireType == 1 {
      BytesExt(s, 8, tail, extra);
    } else if wireType == 2 {
      VarintFromExt(s, 0, 5, 16, tail, extra);
      var r := ReadVarint32(s);
      if r.Got? {
        BytesExt(r.after, r.value, tail, extra);
      }
    } else if wireType == 5 {
      BytesExt(s, 4, tail, extra);
    }
  }

  lemma OpenSubExt(s: In, tail: seq<Byte>, extra: nat)
    requires Sound(s) && extra <= |tail| && OpenSub(s).Got?
    ensures OpenSub(Ext(s, tail, extra)) == Got(Ext(OpenSub(s).value, tail, 0), Ext(OpenSub(s).after, tail, extra))
  {
    hide ReadVarintFrom;
    VarintFromExt(s, 0, 5, 16, tail, extra);
  }

  lemma ScalarExt(t: LType, s: In, tail: seq<Byte>, extra: nat)
    requires Packable(t) && Sound(s) && extra <= |tail| && DecodeScalar(t, s).Got?
    ensures DecodeScalar(t, Ext(s, tail, extra)) == ExtRead(DecodeScalar(t, s), tail, extra)
  {
    hide ReadVarintFrom, UnZigZag, NarrowSigned, LittleValue, Limit;
    if t.LFixed32? {
      BytesExt(s, 4, tail, extra);
    } else if t.LFixed64? {
      BytesExt(s, 8, tail, extra);
    } else {
      VarintFromExt(s, 0, 10, 2, tail, extra);
    }
  }

  lemma TextExt(t: LType, s: In, tail: seq<Byte>, extra: nat)
    requires (t.LBytes? || t.LString?) && WellFormedType(t) && Sound(s) && extra <= |tail|
    requires DecodeValue(t, Raw([]), s).Got?
    ensures DecodeValue(t, Raw([]), Ext(s, tail, extra)) == ExtRead(DecodeValue(t, Raw([]), s), tail, extra)
  {
    hide ReadVarintFrom, TextLength;
    VarintFromExt(s, 0, 5, 16, tail, extra);
    var r := ReadVarint32(s);
    BytesExt(r.after, r.value, tail, extra);
  }

  // ---- Field decoders under extension ----

  lemma {:induction false} ValueExt(t: LType, into: Value, s: In, tail: seq<Byte>, extra: nat)
    requires WellFormedType(t) && Sound(s) && (t.LSub? ==> Typed(t, into))
    requires extra <= |tail| && DecodeValue(t, into, s).Got?
    ensures DecodeValue(t, into, Ext(s, tail, extra)) == ExtRead(DecodeValue(t, into, s), tail, extra)
    decreases t, 0
  {
    hide DecodeNoInit, DecodeScalar, OpenSub, DecodeBytes, DecodeString;
    match t
    case LBytes(_) => TextExt(t, s, tail, extra);
    case LString(_) => TextExt(t, s, tail, extra);
    case LSub(fs) =>
      OpenSubExt(s, tail, extra);
      NoInitExt(fs, into.slots, OpenSub(s).value, tail);
    case _ => ScalarExt(t, s, tail, extra);
  }

  lemma {:induction false} AsExt(f: FieldDef, into: Value, s: In, tail: seq<Byte>, extra: nat)
    requires WellFormedField(f) && Sound(s) && TypedAs(f, into)
    requires extra <= |tail| && DecodeAs(f, into, s).Got?
    ensures DecodeAs(f, into, Ext(s, tail, extra)) == ExtRead(DecodeAs(f, into, s), tail, extra)
    decreases f, 0
  {
    ValueExt(f.ltype, into, s, tail, extra);
  }

  lemma {:induction false} PackedExt(t: LType, max: nat, items: seq<Value>, sub: In, tail: seq<Byte>)
    requires Packable(t) && Sound(sub) && forall k :: 0 <= k < |items| ==> Typed(t, items[k])
    requires DecodePacked(t, max, items, sub).Got?
    ensures DecodePacked(t, max, items, Ext(sub, tail, 0)) == ExtRead(DecodePacked(t, max, items, sub), tail, 0)
    decreases sub.left
  {
    hide DecodeScalar;
    if sub.left != 0 && |items| < max {
      ScalarExt(t, sub, tail, 0);
      var r := DecodeScalar(t, sub);
      PackedExt(t, max, items + [r.value], r.after, tail);
    }
  }

  lemma {:induction false} RepeatedExt(f: FieldDef, items: seq<Value>, wireType: nat, s: In, tail: seq<Byte>, extra: nat)
    requires WellFormedField(f) && f.rule.Repeated? && Sound(s)
    requires forall k :: 0 <= k < |items| ==> TypedAs(f, items[k])
    requires extra <= |tail| && DecodeRepeated(f, items, wireType, s).Got?
    ensures DecodeRepeated(f, items, wireType, Ext(s, tail, extra)) == ExtRead(DecodeRepeated(f, items, wireType, s), tail, extra)
    decreases f, 1
  {
    hide DecodePacked, DecodeAs, OpenSub;
    if wireType == 2 && Packable(f.ltype) {
      forall k | 0 <= k < |items| ensures Typed(f.ltype, items[k]) {
        assert TypedAs(f, items[k]);
      }
      OpenSubExt(s, tail, extra);
      PackedExt(f.ltype, f.rule.max, items, OpenSub(s).value, tail);
    } else {
      AsExt(f, DefaultValue(f), s, tail, extra);
    }
  }

  lemma {:induction false} FieldExt(fs: seq<FieldDef>, m: seq<Slot>, i: nat, wireType: nat, s: In, tail: seq<Byte>, extra: nat)
    requires WellFormed(fs) && TypedMessage(fs, m) && i < |fs| && Sound(s)
    requires extra <= |tail| && DecodeField(fs, m, i, wireType, s).FieldDone?
    ensures var r := DecodeField(fs, m, i, wireType, s);
            DecodeField(fs, m, i, wireType, Ext(s, tail, extra)) == FieldDone(r.m, Ext(r.after, tail, extra))
    decreases fs, 0
  {
    hide DecodeRepeated, DecodeAs;
    var f := fs[i];
    assert TypedSlot(fs, m, i) && WellFormedField(f);
    match f.rule
    case Required => AsExt(f, m[i].v, s, tail, extra);
    case Optional => AsExt(f, m[i].v, s, tail, extra);
    case Repeated(_) => RepeatedExt(f, m[i].items, wireType, s, tail, extra);
    case Oneof => AsExt(f, DefaultValue(f), s, tail, extra);
  }

  // ---- One turn of the loop ----

  /** What one turn of the field loop does. */
  datatype Turn = Stops(result: LoopResult) | Goes(m: seq<Slot>, seen: set<nat>, after: In)

  function OneTurn(fs: seq<FieldDef>, m: seq<Slot>, seen: set<nat>, s: In): (t: Turn)
    requires WellFormed(fs) && TypedMessage(fs, m) && Sound(s) && s.left > 0
    ensures t.Goes? ==> TypedMessage(fs, t.m) && Follows(s, t.after) && t.after.left < s.left
  {
    match ReadTag(s)
    case Eof(s') => Stops(Done(m, seen, s', false))
    case TagError(_) => Stops(Stuck)
    case Header(tag, wireType, s') =>
      if fs == [] && tag == 0 then Stops(Stuck)
      else
        match Find(fs, tag)
        case None =>
          (match SkipField(s', wireType)
           case Bad(_) => Stops(Stuck)
           case Got(_, s'') => Goes(m, seen, s''))
        case Some(i) =>
          match DecodeField(fs, m, i, wireType, s')
          case NoField => Stops(Stuck)
          case FieldDone(m', s'') => Goes(m', Mark(fs, seen, i), s'')
  }

  lemma LoopTurn(fs: seq<FieldDef>, m: seq<Slot>, seen: set<nat>, s: In)
    requires WellFormed(fs) && TypedMessage(fs, m) && Sound(s) && s.left > 0
    ensures DecodeLoop(fs, m, seen, s)
         == match OneTurn(fs, m, seen, s) case Stops(r) => r case Goes(m', seen', s') => DecodeLoop(fs, m', seen', s')
  {
    hide DecodeField, SkipField, ReadTag, Find;
  }

  lemma TagExt(s: In, tail: seq<Byte>, extra: nat)
    requires Sound(s) && extra <= |tail| && (extra == 0 || ReadVarint32(s).Got?)
    ensures ReadTag(Ext(s, tail, extra)) == match ReadTag(s)
                                            case Header(tag, w, s') => Header(tag, w, Ext(s', tail, extra))
                                            case Eof(s') => Eof(Ext(s', tail, extra))
                                            case TagError(s') => TagError(Ext(s', tail, extra))
  {
    hide ReadVarintFrom;
    VarintFromExt(s, 0, 5, 16, tail, extra);
  }

  lemma {:induction false} TurnExt(fs: seq<FieldDef>, m: seq<Slot>, seen: set<nat>, s: In, tail: seq<Byte>, extra: nat)
    requires WellFormed(fs) && TypedMessage(fs, m) && Sound(s) && s.left > 0 && extra <= |tail|
    requires OneTurn(fs, m, seen, s).Goes?
    ensures var t := OneTurn(fs, m, seen, s);
            OneTurn(fs, m, seen, Ext(s, tail, extra)) == Goes(t.m, t.seen, Ext(t.after, tail, extra))
    decreases fs, 1
  {
    hide DecodeField, SkipField, ReadVarint32;
    TagExt(s, tail, extra);
    var h := ReadTag(s);
    match Find(fs, h.tag)
    case None => SkipFieldExt(h.after, h.wireType, tail, extra);
    case Some(i) => FieldExt(fs, m, i, h.wireType, h.after, tail, extra);
  }

  // ---- Substreams ----

  /** Bytes behind the limit of a stream do not change how its field loop ends. */
  lemma {:induction false} LoopExt(fs: seq<FieldDef>, m: seq<Slot>, seen: set<nat>, s: In, tail: seq<Byte>)
    requires WellFormed(fs) && TypedMessage(fs, m) && Sound(s) && DecodeLoop(fs, m, seen, s).Done?
    ensures var r := DecodeLoop(fs, m, seen, s);
            DecodeLoop(fs, m, seen, Ext(s, tail, 0)) == Done(r.m, r.seen, Ext(r.after, tail, 0), r.clean)
    decreases fs, 2, s.left
  {
    hide DecodeLoop, OneTurn;
    if s.left > 0 {
      LoopTurn(fs, m, seen, s);
      LoopTurn(fs, m, seen, Ext(s, tail, 0));
      var t := OneTurn(fs, m, seen, s);
      if t.Goes? {
        TurnExt(fs, m, seen, s, tail, 0);
        LoopExt(fs, t.m, t.seen, t.after, tail);
      } else {
        TagExt(s, tail, 0);
        StopsAtEnd(fs, m, seen, s);
        StopsAtEnd(fs, m, seen, Ext(s, tail, 0));
      }
    } else {
      LoopEnds(fs, m, seen, s);
      LoopEnds(fs, m, seen, Ext(s, tail, 0));
    }
  }

  lemma LoopEnds(fs: seq<FieldDef>, m: seq<Slot>, seen: set<nat>, s: In)
    requires WellFormed(fs) && TypedMessage(fs, m) && Sound(s) && s.left == 0
    ensures DecodeLoop(fs, m, seen, s) == Done(m, seen, s, true)
  {
  }

  lemma StopsAtEnd(fs: seq<FieldDef>, m: seq<Slot>, seen: set<nat>, s: In)
    requires WellFormed(fs) && TypedMessage(fs, m) && Sound(s) && s.left > 0
    ensures var t := OneTurn(fs, m, seen, s);
            t.Stops? && t.result.Done? ==> ReadTag(s).Eof?
    ensures ReadTag(s).Eof? ==> OneTurn(fs, m, seen, s) == Stops(Done(m, seen, ReadTag(s).after, false))
  {
    hide DecodeField, SkipField, ReadTag, Find;
  }

  lemma {:induction false} NoInitExt(fs: seq<FieldDef>, m: seq<Slot>, s: In, tail: seq<Byte>)
    requires WellFormed(fs) && TypedMessage(fs, m) && Sound(s) && DecodeNoInit(fs, m, s).Decoded?
    ensures var r := DecodeNoInit(fs, m, s);
            DecodeNoInit(fs, m, Ext(s, tail, 0)) == Decoded(r.m, Ext(r.after, tail, 0))
    decreases fs, 3
  {
    hide DecodeLoop;
    LoopExt(fs, m, {}, s, tail);
  }

  // ---- Concatenation ----

  /** All of a, and nothing else. */
  function Whole(a: seq<Byte>): In { In(a, |a|) }

  /** A run over `a` that stops between fields goes on with whatever comes next. */
  lemma {:induction false} LoopConcat(fs: seq<FieldDef>, m: seq<Slot>, seen: set<nat>, s: In, tail: seq<Byte>, extra: nat)
    requires WellFormed(fs) && TypedMessage(fs, m) && Sound(s) && extra <= |tail|
    requires DecodeLoop(fs, m, seen, s).Done? && DecodeLoop(fs, m, seen, s).clean
    ensures var r := DecodeLoop(fs, m, seen, s);
            r.after.left == 0 && DecodeLoop(fs, m, seen, Ext(s, tail, extra)) == DecodeLoop(fs, r.m, r.seen, Ext(r.after, tail, extra))
    decreases s.left
  {
    hide DecodeLoop, OneTurn;
    if s.left > 0 {
      LoopTurn(fs, m, seen, s);
      LoopTurn(fs, m, seen, Ext(s, tail, extra));
      StopsAtEnd(fs, m, seen, s);
      var t := OneTurn(fs, m, seen, s);
      TurnExt(fs, m, seen, s, tail, extra);
      LoopConcat(fs, t.m, t.seen, t.after, tail, extra);
    } else {
      LoopEnds(fs, m, seen, s);
    }
  }

  /** The run over `a` stops between two fields, with all of it read. */
  predicate EndsCleanly(fs: seq<FieldDef>, m: seq<Slot>, seen: set<nat>, a: seq<Byte>)
    requires WellFormed(fs) && TypedMessage(fs, m)
  {
    var r := DecodeLoop(fs, m, seen, Whole(a));
    r.Done? && r.after == Whole([]) && r.clean
  }

  lemma WholeConcat(fs: seq<FieldDef>, m: seq<Slot>, seen: set<nat>, a: seq<Byte>, b: seq<Byte>)
    requires WellFormed(fs) && TypedMessage(fs, m) && EndsCleanly(fs, m, seen, a)
    ensures var r := DecodeLoop(fs, m, seen, Whole(a));
            DecodeLoop(fs, m, seen, Whole(a + b)) == DecodeLoop(fs, r.m, r.seen, Whole(b))
  {
    hide DecodeLoop;
    LoopConcat(fs, m, seen, Whole(a), b, |b|);
    assert Ext(Whole([]), b, |b|) == Whole(b);
    assert Ext(Whole(a), b, |b|) == Whole(a + b);
  }

  /** The required entries seen before only add to those seen later. */
  lemma {:induction false} SeenAdds(fs: seq<FieldDef>, m: seq<Slot>, seen: set<nat>, s: In)
    requires WellFormed(fs) && TypedMessage(fs, m) && Sound(s)
    ensures var r := DecodeLoop(fs, m, {}, s);
            DecodeLoop(fs, m, seen, s) == match r case Stuck => Stuck case Done(m', more, s', c) => Done(m', seen + more, s', c)
    decreases s.left
  {
    hide DecodeLoop, DecodeField, SkipField, ReadTag, Find;
    if s.left == 0 {
      LoopEnds(fs, m, {}, s);
      LoopEnds(fs, m, seen, s);
      assert seen + {} == seen;
    } else {
      LoopTurn(fs, m, {}, s);
      LoopTurn(fs, m, seen, s);
      var t, t' := OneTurn(fs, m, {}, s), OneTurn(fs, m, seen, s);
      if t.Goes? {
        assert t' == Goes(t.m, seen + t.seen, t.after);
        SeenAdds(fs, t.m, t.seen, t.after);
        SeenAdds(fs, t.m, seen + t.seen, t.after);
        var r := DecodeLoop(fs, t.m, {}, t.after);
        if r.Done? {
          assert seen + (t.seen + r.seen) == seen + t.seen + r.seen;
        }
      } else {
        assert seen + {} == seen;
      }
    }
  }

  /** Decoding a ++ b gives what decoding b into the result of a gives. */
  lemma Merge(fs: seq<FieldDef>, m: seq<Slot>, a: seq<Byte>, b: seq<Byte>)
    requires WellFormed(fs) && TypedMessage(fs, m) && EndsCleanly(fs, m, {}, a)
    requires DecodeNoInit(fs, m, Whole(a)).Decoded?
    requires DecodeNoInit(fs, DecodeNoInit(fs, m, Whole(a)).m, Whole(b)).Decoded?
    ensures DecodeNoInit(fs, m, Whole(a + b)) == DecodeNoInit(fs, DecodeNoInit(fs, m, Whole(a)).m, Whole(b))
  {
    hide DecodeLoop;
    var r := DecodeLoop(fs, m, {}, Whole(a));
    WholeConcat(fs, m, {}, a, b);
    SeenAdds(fs, r.m, r.seen, Whole(b));
  }

  // ---- Unknown fields ----

  /** One field that the descriptor does not have, in a form pb_skip_field can skip. */
  predicate UnknownField(fs: seq<FieldDef>, u: seq<Byte>) {
    var h := ReadTag(Whole(u));
    h.Header? && h.tag != 0 && Find(fs, h.tag).None? && SkipField(h.after, h.wireType) == Got((), Whole([]))
  }

  /** Inserted between any two fields, or at either end, it changes nothing. */
  lemma UnknownFieldIsTransparent(fs: seq<FieldDef>, m: seq<Slot>, a: seq<Byte>, u: seq<Byte>, b: seq<Byte>)
    requires WellFormed(fs) && TypedMessage(fs, m) && EndsCleanly(fs, m, {}, a) && UnknownField(fs, u)
    ensures DecodeNoInit(fs, m, Whole(a + u + b)) == DecodeNoInit(fs, m, Whole(a + b))
  {
    hide DecodeLoop, ReadTag, SkipField;
    var r := DecodeLoop(fs, m, {}, Whole(a));
    assert a + u + b == a + (u + b);
    WholeConcat(fs, m, {}, a, u + b);
    WholeConcat(fs, m, {}, a, b);
    var whole := Ext(Whole(u), b, |b|);
    assert whole == Whole(u + b);
    if u == [] {
      EmptyHasNoTag();
    }
    TurnExt(fs, r.m, r.seen, Whole(u), b, |b|);
    LoopTurn(fs, r.m, r.seen, whole);
    assert Ext(Whole([]), b, |b|) == Whole(b);
  }

  lemma EmptyHasNoTag()
    ensures ReadTag(Whole([])).Eof?
  {
  }

  /** Fields of every wire type that can be skipped. */
  lemma SkippableFields(fs: seq<FieldDef>, tag: nat, v: nat, body: seq<Byte>)
    requires 0 < tag < 0x2000_0000 && Find(fs, tag).None?
    ensures UnknownField(fs, Tag(0, tag) + Varint(v))
    ensures |body| == 8 ==> UnknownField(fs, Tag(1, tag) + body)
    ensures |body| < TWO_32 ==> UnknownField(fs, Tag(2, tag) + Prefixed(body))
    ensures |body| == 4 ==> UnknownField(fs, Tag(5, tag) + body)
  {
    hide ReadVarintFrom, Tag, Varint, SkipVarint, Find;
    SkipsVarint(v);
    TagRoundTrip(0, tag, Varint(v), |Tag(0, tag)| + |Varint(v)|);
    if |body| == 8 {
      TagRoundTrip(1, tag, body, |Tag(1, tag)| + 8);
      BytesRoundTrip(body, [], 8);
      assert body + [] == body;
    }
    if |body| < TWO_32 {
      TagRoundTrip(2, tag, Prefixed(body), |Tag(2, tag)| + |Prefixed(body)|);
      Varint32RoundTrip(|body|, body, |Prefixed(body)|);
      BytesRoundTrip(body, [], |body|);
      assert body + [] == body;
    }
    if |body| == 4 {
      TagRoundTrip(5, tag, body, |Tag(5, tag)| + 4);
      BytesRoundTrip(body, [], 4);
      assert body + [] == body;
    }
  }

  lemma {:induction false} SkipsVarint(v: nat)
    ensures SkipVarint(Whole(Varint(v))) == Got((), Whole([]))
    decreases v
  {
    if v >= 128 {
      SkipsVarint(v / 128);
      assert Varint(v)[1..] == Varint(v / 128);
    }
  }

  /** What pb_encode writes always ends cleanly. */
  lemma EncodedEndsCleanly(fs: seq<FieldDef>, m: seq<Slot>)
    requires WellFormed(fs) && TypedMessage(fs, m) && PbRoundTrip.Terminated(fs, m)
    requires EncodeMessage(fs, m).Some? && |EncodeMessage(fs, m).value| < TWO_32
    ensures EndsCleanly(fs, Defaults(fs), {}, EncodeMessage(fs, m).value)
  {
    hide DecodeLoop;
    var e := EncodeMessage(fs, m).value;
    PbRoundTrip.FieldsArrive(fs, m, |fs|, [], 0);
    assert e + [] == e;
    assert forall i :: 0 <= i < |fs| ==> PbRoundTrip.TerminatedSlot(fs, m, i);
    LoopEnds(fs, PbRoundTrip.Canon(fs, m), PbRoundTrip.SeenUpTo(fs, |fs|), Whole([]));
  }

  /** Decoding and being read in full is not enough: a lone continuation byte does, and then
      swallows the tag of the next field. */
  lemma ReadInFullIsNotEnough()
    ensures var fs := [FieldDef(1, Optional, LUVarint(4), None)];
            var m := [Maybe(false, Int(0))];
            && WellFormed(fs) && TypedMessage(fs, m)
            && DecodeNoInit(fs, m, Whole([0x80])) == Decoded(m, Whole([]))
            && DecodeNoInit(fs, m, Whole([0x08, 5])) == Decoded([Maybe(true, Int(5))], Whole([]))
            && DecodeNoInit(fs, m, Whole([0x80, 0x08, 5])) == Decoded(m, Whole([]))
  {
    hide ReadVarintFrom;
    var fs := [FieldDef(1, Optional, LUVarint(4), None)];
    var m := [Maybe(false, Int(0))];
    assert RequiredBefore(fs, 1) == 0;
    assert TypedSlot(fs, m, 0);
    assert ReadTag(Whole([0x80])) == Eof(Whole([])) by {
      ReadVarintStep(0x80, [], 1, 0, 5, 16);
      NoByteNoVarint(1);
      assert Whole([0x80]) == In([0x80] + [], 1);
    }
    assert ReadTag(Whole([0x08, 5])) == Header(1, 0, Whole([5])) by {
      ReadVarintStep(0x08, [5], 2, 0, 5, 16);
      assert Whole([0x08, 5]) == In([0x08] + [5], 2);
    }
    assert ReadVarint(Whole([5])) == Got(5, Whole([])) by {
      ReadVarintStep(5, [], 1, 0, 10, 2);
      assert Whole([5]) == In([5] + [], 1);
    }
    assert ReadTag(Whole([0x80, 0x08, 5])) == Header(128, 0, Whole([5])) by {
      ReadVarintStep(0x08, [5], 2, 1, 5, 16);
      ReadVarintStep(0x80, [0x08, 5], 3, 0, 5, 16);
      assert Whole([0x80, 0x08, 5]) == In([0x80] + [0x08, 5], 3);
      assert In([0x08, 5], 2) == In([0x08] + [5], 2);
    }
    SmallLoops(fs, m);
  }

  lemma NoByteNoVarint(k: nat)
    requires k < 5
    ensures ReadVarintFrom(Whole([]), k, 5, 16) == Bad(Whole([]))
  {
  }

  lemma SmallLoops(fs: seq<FieldDef>, m: seq<Slot>)
    requires fs == [FieldDef(1, Optional, LUVarint(4), None)] && m == [Maybe(false, Int(0))]
    requires WellFormed(fs) && TypedMessage(fs, m)
    requires ReadTag(Whole([0x80])) == Eof(Whole([]))
    requires ReadTag(Whole([0x08, 5])) == Header(1, 0, Whole([5]))
    requires ReadVarint(Whole([5])) == Got(5, Whole([]))
    requires ReadTag(Whole([0x80, 0x08, 5])) == Header(128, 0, Whole([5]))
    ensures DecodeNoInit(fs, m, Whole([0x80])) == Decoded(m, Whole([]))
    ensures DecodeNoInit(fs, m, Whole([0x08, 5])) == Decoded([Maybe(true, Int(5))], Whole([]))
    ensures DecodeNoInit(fs, m, Whole([0x80, 0x08, 5])) == Decoded(m, Whole([]))
  {
    hide ReadTag, ReadVarint, Find, SkipVarint, DecodeLoop;
    FindUnique(fs, 0);
    assert fs[0].tag == 1;
    assert Find(fs, 128).None?;
    assert SkipVarint(Whole([5])) == Got((), Whole([])) by {
      SkipsVarint(5);
      assert Varint(5) == [5];
    }
    var m' := [Maybe(true, Int(5))];
    assert m[0 := Maybe(true, Int(5))] == m';
    LoopTurn(fs, m, {}, Whole([0x80]));
    LoopTurn(fs, m, {}, Whole([0x08, 5]));
    LoopTurn(fs, m, {}, Whole([0x80, 0x08, 5]));
    assert DecodeField(fs, m, 0, 0, Whole([5])) == FieldDone(m', Whole([])) by {
      assert DecodeAs(fs[0], m[0].v, Whole([5])) == Got(Int(5), Whole([]));
    }
    LoopEnds(fs, m', {}, Whole([]));
    LoopEnds(fs, m, {}, Whole([]));
  }

  // ---- The last tag ----

  /** The stream at the last tag that the field loop looks at. */
  function LastTag(fs: seq<FieldDef>, m: seq<Slot>, seen: set<nat>, s: In): (last: In)
    requires WellFormed(fs) && TypedMessage(fs, m) && Sound(s)
    ensures Sound(last)
    decreases s.left
  {
    if s.left == 0 then s
    else match OneTurn(fs, m, seen, s) case Stops(_) => s case Goes(m', seen', s') => LastTag(fs, m', seen', s')
  }

  /** A run that does not end cleanly stops at a tag that is zero or cut short. */
  lemma {:induction false} StopsAtLastTag(fs: seq<FieldDef>, m: seq<Slot>, seen: set<nat>, s: In, b: seq<Byte>)
    requires WellFormed(fs) && TypedMessage(fs, m) && Sound(s)
    requires DecodeLoop(fs, m, seen, s).Done? && !DecodeLoop(fs, m, seen, s).clean
    ensures var r, last := DecodeLoop(fs, m, seen, s), LastTag(fs, m, seen, s);
            last.left > 0 && ReadTag(last) == Eof(r.after)
              && DecodeLoop(fs, m, seen, Ext(s, b, |b|)) == DecodeLoop(fs, r.m, r.seen, Ext(last, b, |b|))
    decreases s.left
  {
    hide DecodeLoop, OneTurn, ReadTag;
    if s.left == 0 {
      LoopEnds(fs, m, seen, s);
    }
    LoopTurn(fs, m, seen, s);
    StopsAtEnd(fs, m, seen, s);
    var t := OneTurn(fs, m, seen, s);
    if t.Goes? {
      LoopTurn(fs, m, seen, Ext(s, b, |b|));
      TurnExt(fs, m, seen, s, b, |b|);
      StopsAtLastTag(fs, t.m, t.seen, t.after, b);
    }
  }

  /** The run stops between fields exactly when nothing is left at the last tag. */
  lemma {:induction false} CleanIsNothingLeft(fs: seq<FieldDef>, m: seq<Slot>, seen: set<nat>, s: In)
    requires WellFormed(fs) && TypedMessage(fs, m) && Sound(s) && DecodeLoop(fs, m, seen, s).Done?
    ensures DecodeLoop(fs, m, seen, s).clean <==> LastTag(fs, m, seen, s).left == 0
    decreases s.left
  {
    hide DecodeLoop, OneTurn, ReadTag;
    if s.left == 0 {
      LoopEnds(fs, m, seen, s);
    } else {
      LoopTurn(fs, m, seen, s);
      StopsAtEnd(fs, m, seen, s);
      var t := OneTurn(fs, m, seen, s);
      if t.Goes? {
        CleanIsNothingLeft(fs, t.m, t.seen, t.after);
      }
    }
  }

  /** Too many continuation bytes fail before the stream runs out. */
  lemma {:induction false} Overruns(s: In, k: nat)
    requires Sound(s) && k <= 5 && s.left > 5 - k && forall j :: 0 <= j < 5 - k ==> s.rest[j] >= 128
    ensures ReadVarintFrom(s, k, 5, 16).Bad? && ReadVarintFrom(s, k, 5, 16).after.left == s.left - (5 - k)
    decreases 5 - k
  {
    if k < 5 {
      var r := ReadByte(s);
      assert r.value == s.rest[0];
      forall j | 0 <= j < 4 - k ensures r.after.rest[j] >= 128 {
        assert r.after.rest[j] == s.rest[j + 1];
      }
      Overruns(r.after, k + 1);
    }
  }

  /** A varint cut short by the end of the stream has continuation bytes only. */
  lemma {:induction false} CutShort(s: In, k: nat)
    requires Sound(s) && k <= 5 && ReadVarintFrom(s, k, 5, 16).Bad? && ReadVarintFrom(s, k, 5, 16).after.left == 0
    ensures k + s.left <= 5 && forall j :: 0 <= j < s.left ==> s.rest[j] >= 128
    decreases s.left
  {
    var r := ReadByte(s);
    if k < 5 && r.Got? {
      CutShort(r.after, k + 1);
      forall j | 0 <= j < s.left ensures s.rest[j] >= 128 {
        assert j > 0 ==> s.rest[j] == r.after.rest[j - 1];
      }
    }
  }

  // ---- When decoding in two calls is decoding at once ----

  /** pb_decode_noinit succeeds and reads every byte. */
  predicate DecodesInFull(fs: seq<FieldDef>, m: seq<Slot>, a: seq<Byte>)
    requires WellFormed(fs) && TypedMessage(fs, m)
  {
    var r := DecodeNoInit(fs, m, Whole(a));
    r.Decoded? && r.after == Whole([])
  }

  /** What a leaves of the input at the last tag that is looked at. */
  function LeftAtLastTag(fs: seq<FieldDef>, m: seq<Slot>, a: seq<Byte>): nat
    requires WellFormed(fs) && TypedMessage(fs, m)
  {
    LastTag(fs, m, {}, Whole(a)).left
  }

  /** For inputs that decode in full, ending between fields is having no byte left at the last tag. */
  lemma EndsCleanlyWhenNothingIsLeft(fs: seq<FieldDef>, m: seq<Slot>, a: seq<Byte>)
    requires WellFormed(fs) && TypedMessage(fs, m) && DecodesInFull(fs, m, a)
    ensures EndsCleanly(fs, m, {}, a) <==> LeftAtLastTag(fs, m, a) == 0
  {
    hide DecodeLoop;
    CleanIsNothingLeft(fs, m, {}, Whole(a));
  }

  /** Every b that decodes in full into the result of a may as well be appended to a. */
  ghost predicate MergesWithAll(fs: seq<FieldDef>, m: seq<Slot>, a: seq<Byte>)
    requires WellFormed(fs) && TypedMessage(fs, m) && DecodesInFull(fs, m, a)
  {
    var m1 := DecodeNoInit(fs, m, Whole(a)).m;
    forall b: seq<Byte> :: DecodesInFull(fs, m1, b) ==> DecodeNoInit(fs, m, Whole(a + b)) == DecodeNoInit(fs, m1, Whole(b))
  }

  /** Decoding a ++ b is decoding a and then b, for every b that decodes, exactly when a leaves
      nothing at the last tag that is looked at: neither a zero tag nor one that is cut short.
      If nothing at all decodes after a, there is nothing to merge. */
  lemma MergesExactly(fs: seq<FieldDef>, m: seq<Slot>, a: seq<Byte>)
    requires WellFormed(fs) && TypedMessage(fs, m) && DecodesInFull(fs, m, a)
    ensures var m1 := DecodeNoInit(fs, m, Whole(a)).m;
            MergesWithAll(fs, m, a) <==> LeftAtLastTag(fs, m, a) == 0 || !exists b :: DecodesInFull(fs, m1, b)
  {
    hide DecodeNoInit;
    var m1 := DecodeNoInit(fs, m, Whole(a)).m;
    EndsCleanlyWhenNothingIsLeft(fs, m, a);
    if LeftAtLastTag(fs, m, a) == 0 {
      forall b: seq<Byte> | DecodesInFull(fs, m1, b) ensures DecodeNoInit(fs, m, Whole(a + b)) == DecodeNoInit(fs, m1, Whole(b)) {
        Merge(fs, m, a, b);
      }
    } else if b0: seq<Byte> :| DecodesInFull(fs, m1, b0) {
      LeftoverDiffers(fs, m, a, b0);
    }
  }

  /** The same, where some continuation is known to decode. */
  lemma MergesExactlyWhenNothingIsLeft(fs: seq<FieldDef>, m: seq<Slot>, a: seq<Byte>, b0: seq<Byte>)
    requires WellFormed(fs) && TypedMessage(fs, m) && DecodesInFull(fs, m, a)
    requires DecodesInFull(fs, DecodeNoInit(fs, m, Whole(a)).m, b0)
    ensures MergesWithAll(fs, m, a) <==> LeftAtLastTag(fs, m, a) == 0
  {
    hide DecodeNoInit, MergesWithAll, DecodesInFull;
    MergesExactly(fs, m, a);
  }

  /** Without required entries the empty input decodes, so the condition stands alone. */
  lemma NothingDecodesInFull(fs: seq<FieldDef>, m: seq<Slot>)
    requires WellFormed(fs) && TypedMessage(fs, m) && forall i :: 0 <= i < |fs| ==> !fs[i].rule.Required?
    ensures DecodesInFull(fs, m, [])
  {
    LoopEnds(fs, m, {}, Whole([]));
  }

  /** A field no descriptor has, whose tag takes five bytes, in front of what decodes. */
  const LONG_TAG: seq<Byte> := [0x80, 0x80, 0x80, 0x80, 1, 0]

  lemma LongTagIsUnknown(fs: seq<FieldDef>)
    requires WellFormed(fs)
    ensures UnknownField(fs, LONG_TAG)
  {
    var tag := 0x200_0000;
    assert forall i :: 0 <= i < |fs| ==> fs[i].tag != tag by {
      assert forall i :: 0 <= i < |fs| ==> WellFormedField(fs[i]);
    }
    assert Find(fs, tag).None?;
    hide UnknownField, WellFormed, Find;
    SkippableFields(fs, tag, 0, []);
    LongTagText();
  }

  lemma LongTagText()
    ensures Tag(0, 0x200_0000) + Varint(0) == LONG_TAG
  {
    assert Varint(1) == [1] && Varint(0x80) == [0x80] + Varint(1) && Varint(0x4000) == [0x80] + Varint(0x80);
    assert Varint(0x20_0000) == [0x80] + Varint(0x4000) && Varint(0x1000_0000) == [0x80] + Varint(0x20_0000);
  }

  /** The field in front changes nothing when it starts a call of its own. */
  lemma LongTagInFront(fs: seq<FieldDef>, m: seq<Slot>, b: seq<Byte>)
    requires WellFormed(fs) && TypedMessage(fs, m)
    ensures DecodeNoInit(fs, m, Whole(LONG_TAG + b)) == DecodeNoInit(fs, m, Whole(b))
  {
    hide DecodeNoInit, UnknownField;
    LongTagIsUnknown(fs);
    LoopEnds(fs, m, {}, Whole([]));
    UnknownFieldIsTransparent(fs, m, [], LONG_TAG, b);
    assert [] + LONG_TAG + b == LONG_TAG + b && [] + b == b;
  }

  /** Behind a leftover the same field is either never reached or breaks the tag before it. */
  lemma LeftoverDiffers(fs: seq<FieldDef>, m: seq<Slot>, a: seq<Byte>, b0: seq<Byte>)
    requires WellFormed(fs) && TypedMessage(fs, m) && DecodesInFull(fs, m, a) && LeftAtLastTag(fs, m, a) > 0
    requires DecodesInFull(fs, DecodeNoInit(fs, m, Whole(a)).m, b0)
    ensures !MergesWithAll(fs, m, a)
  {
    hide DecodeLoop, ReadVarintFrom, LastTag;
    var r := DecodeLoop(fs, m, {}, Whole(a));
    var last, b := LastTag(fs, m, {}, Whole(a)), LONG_TAG + b0;
    LongTagInFront(fs, r.m, b0);
    CleanIsNothingLeft(fs, m, {}, Whole(a));
    StopsAtLastTag(fs, m, {}, Whole(a), b);
    assert Ext(Whole(a), b, |b|) == Whole(a + b);
    if ReadVarint32(last).Got? {
      EndsAtZero(fs, r.m, r.seen, last, b);
    } else {
      FailsCutShort(fs, r.m, r.seen, last, b0);
    }
    assert DecodesInFull(fs, r.m, b);
    assert DecodeNoInit(fs, m, Whole(a + b)) != DecodeNoInit(fs, r.m, Whole(b));
  }

  /** A zero tag still ends the message, with what follows unread. */
  lemma EndsAtZero(fs: seq<FieldDef>, m: seq<Slot>, seen: set<nat>, last: In, b: seq<Byte>)
    requires WellFormed(fs) && TypedMessage(fs, m) && Sound(last) && last.left > 0
    requires ReadVarint32(last).Got? && ReadTag(last) == Eof(Whole([]))
    ensures DecodeLoop(fs, m, seen, Ext(last, b, |b|)) == Done(m, seen, Whole(b), false)
  {
    hide DecodeLoop, OneTurn;
    TagExt(last, b, |b|);
    assert Ext(Whole([]), b, |b|) == Whole(b);
    LoopTurn(fs, m, seen, Ext(last, b, |b|));
    StopsAtEnd(fs, m, seen, Ext(last, b, |b|));
  }

  /** A tag that was cut short runs on into the long one, past the five bytes a tag may have. */
  lemma FailsCutShort(fs: seq<FieldDef>, m: seq<Slot>, seen: set<nat>, last: In, b: seq<Byte>)
    requires WellFormed(fs) && TypedMessage(fs, m) && Sound(last) && 0 < last.left == |last.rest|
    requires ReadVarint32(last).Bad? && ReadTag(last).Eof?
    ensures DecodeLoop(fs, m, seen, Ext(last, LONG_TAG + b, |LONG_TAG + b|)) == Stuck
  {
    hide DecodeLoop, ReadVarintFrom;
    CutShort(last, 0);
    var s := Ext(last, LONG_TAG + b, |LONG_TAG + b|);
    forall j | 0 <= j < 5 ensures s.rest[j] >= 128 {
      if j >= last.left {
        assert s.rest[j] == LONG_TAG[j - last.left];
      }
    }
    Overruns(s, 0);
    assert ReadTag(s).TagError?;
    LoopTurn(fs, m, seen, s);
  }
}
