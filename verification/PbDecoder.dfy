/** The decoder as it runs, from single fields to whole messages. */
module PbDecoder {
  import opened PbWire
  import opened PbTypes
  import opened PbDecoding
  import opened PbIterator
  import opened PbIStream
  import PbMerge
  import opened Options

  // ---- Required entries and their flags ----

  lemma {:induction false} RequiredOrder(fs: seq<FieldDef>, i: nat, j: nat)
    requires i <= j <= |fs|
    ensures RequiredBefore(fs, i) <= RequiredBefore(fs, j)
    ensures i < j && fs[i].rule.Required? ==> RequiredBefore(fs, i) < RequiredBefore(fs, j)
    decreases j
  {
    if i < j {
      RequiredOrder(fs, i, j - 1);
    }
  }

  /** The entry whose flag has number r. */
  lemma {:induction false} NthRequired(fs: seq<FieldDef>, n: nat, r: nat) returns (i: nat)
    requires n <= |fs| && r < RequiredBefore(fs, n)
    ensures i < n && fs[i].rule.Required? && RequiredBefore(fs, i) == r
    decreases n
  {
    if r < RequiredBefore(fs, n - 1) {
      i := NthRequired(fs, n - 1, r);
    } else {
      i := n - 1;
    }
  }

  /** Flag number r of fields_seen tells whether the required entry with that number was seen. */
  predicate Flags(fs: seq<FieldDef>, seen: set<nat>, flags: seq<bool>) {
    && |flags| == 64 && RequiredBefore(fs, |fs|) < 64
    && (forall i :: 0 <= i < |fs| && fs[i].rule.Required? ==>
          RequiredBefore(fs, i) < 64 && flags[RequiredBefore(fs, i)] == (i in seen))
    && forall r :: RequiredBefore(fs, |fs|) <= r < 64 ==> !flags[r]
  }

  lemma NoFlags(fs: seq<FieldDef>, flags: seq<bool>)
    requires RequiredBefore(fs, |fs|) < 64 && |flags| == 64 && forall r :: 0 <= r < 64 ==> !flags[r]
    ensures Flags(fs, {}, flags)
  {
    forall i | 0 <= i < |fs| ensures RequiredBefore(fs, i) < 64 {
      RequiredOrder(fs, i, |fs|);
    }
  }

  lemma FlagSet(fs: seq<FieldDef>, seen: set<nat>, flags: seq<bool>, i: nat)
    requires Flags(fs, seen, flags) && i < |fs| && fs[i].rule.Required?
    ensures RequiredBefore(fs, i) < RequiredBefore(fs, |fs|)
    ensures Flags(fs, seen + {i}, flags[RequiredBefore(fs, i) := true])
  {
    RequiredOrder(fs, i, |fs|);
    forall k | 0 <= k < |fs| && fs[k].rule.Required? && k != i ensures RequiredBefore(fs, k) != RequiredBefore(fs, i) {
      if k < i {
        RequiredOrder(fs, k, i);
      } else {
        RequiredOrder(fs, i, k);
      }
    }
  }

  predicate AllSet(flags: seq<bool>, count: nat) {
    count <= |flags| && forall r :: 0 <= r < count ==> flags[r]
  }

  lemma FlagsDecide(fs: seq<FieldDef>, seen: set<nat>, flags: seq<bool>)
    requires Flags(fs, seen, flags)
    ensures |flags| == 64 && ClearFrom(flags, RequiredBefore(fs, |fs|))
    ensures AllRequired(fs, seen) <==> AllSet(flags, RequiredBefore(fs, |fs|))
  {
    if AllRequired(fs, seen) {
      forall r | 0 <= r < RequiredBefore(fs, |fs|) ensures flags[r] {
        var i := NthRequired(fs, |fs|, r);
      }
    }
    if AllSet(flags, RequiredBefore(fs, |fs|)) {
      forall i | 0 <= i < |fs| && fs[i].rule.Required? ensures i in seen {
        RequiredOrder(fs, i, |fs|);
        assert flags[RequiredBefore(fs, i)];
      }
    }
  }

  predicate ClearFrom(flags: seq<bool>, count: nat) { forall r :: count <= r < |flags| ==> !flags[r] }

  /** A 32-bit word of flags compared with the word whose lowest n bits are set. */
  method WordIs(flags: array<bool>, word: nat, n: nat) returns (same: bool)
    requires 32 * word + 32 <= flags.Length
    ensures same == forall j :: 32 * word <= j < 32 * word + 32 ==> flags[j] == (j < 32 * word + n)
  {
    var j := 32 * word;
    while j < 32 * word + 32
      invariant 32 * word <= j <= 32 * word + 32
      invariant forall k :: 32 * word <= k < j ==> flags[k] == (k < 32 * word + n)
    {
      if flags[j] != (j < 32 * word + n) {
        return false;
      }
      j := j + 1;
    }
    same := true;
  }

  /** The final check of pb_decode_noinit: whole words first, then the remaining bits. */
  method CheckRequired(flags: array<bool>, count: nat) returns (ok: bool)
    requires flags.Length == 64 && count < 64 && count != 32 && ClearFrom(flags[..], count)
    ensures ok == AllSet(flags[..], count)
  {
    assert forall r :: count <= r < 64 ==> !flags[..][r];
    if count == 0 {
      return true;
    }
    var i := 0;
    while i < count / 32
      invariant i <= count / 32 && forall r :: 0 <= r < 32 * i ==> flags[r]
    {
      ok := WordIs(flags, i, 32);
      if !ok {
        return;
      }
      i := i + 1;
    }
    ok := WordIs(flags, count / 32, count % 32);
  }

  /** How many required entries there are, by running the iterator to the end from anywhere. */
  method CountRequired(iter: FieldIter) returns (count: nat)
    requires iter.Valid()
    modifies iter
    ensures count == RequiredBefore(iter.start, |iter.start|)
  {
    count := iter.requiredIndex;
    if iter.start == [] {
      return;
    }
    var last: nat := iter.pos;
    var more := iter.Next();
    while more
      invariant iter.Valid() && last < |iter.start| && count == RequiredBefore(iter.start, last)
      invariant if more then iter.pos == last + 1 else last + 1 == |iter.start|
      decreases more, |iter.start| - last
    {
      count := iter.requiredIndex;
      last := iter.pos;
      more := iter.Next();
    }
    if iter.start[last].rule.Required? {
      count := count + 1;
    }
  }

  // ---- Fields ----

  /** The field decoders by type; a submessage is decoded into `into` on a substream of its own. */
  method DecodeValueField(stream: IStream, t: LType, into: Value) returns (ok: bool, v: Value)
    requires stream.Valid() && WellFormedType(t) && (t.LSub? ==> Typed(t, into))
    modifies stream
    ensures stream.Valid() && Follows(old(stream.View()), stream.View())
    ensures ok == DecodeValue(t, into, old(stream.View())).Got?
    ensures ok ==> DecodeValue(t, into, old(stream.View())) == Got(v, stream.View())
    decreases t, 0
  {
    if t.LBytes? {
      ok, v := stream.DecodeBytesField(t.dataSize);
    } else if t.LString? {
      ok, v := stream.DecodeStringField(t.dataSize);
    } else if t.LSub? {
      ok, v := DecodeSubmessage(stream, t.fields, into.slots);
    } else {
      ok, v := stream.DecodeScalarField(t);
    }
  }

  /** pb_dec_submessage. */
  method DecodeSubmessage(stream: IStream, fs: seq<FieldDef>, into: seq<Slot>) returns (ok: bool, v: Value)
    requires stream.Valid() && WellFormed(fs) && TypedMessage(fs, into)
    modifies stream
    ensures stream.Valid() && Follows(old(stream.View()), stream.View())
    ensures ok == DecodeValue(LSub(fs), Msg(into), old(stream.View())).Got?
    ensures ok ==> DecodeValue(LSub(fs), Msg(into), old(stream.View())) == Got(v, stream.View())
    decreases fs, 3
  {
    hide DecodeNoInit, OpenSub;
    v := Msg(into);
    var substream, m;
    ok, substream := stream.MakeSubstream();
    if !ok {
      return;
    }
    ok, m := DecodeMessage(substream, fs, into);
    stream.CloseSubstream(substream);
    v := Msg(m);
  }

  method DecodeAsField(stream: IStream, f: FieldDef, into: Value) returns (ok: bool, v: Value)
    requires stream.Valid() && WellFormedField(f) && TypedAs(f, into)
    modifies stream
    ensures stream.Valid() && Follows(old(stream.View()), stream.View())
    ensures ok == DecodeAs(f, into, old(stream.View())).Got?
    ensures ok ==> DecodeAs(f, into, old(stream.View())) == Got(v, stream.View())
    decreases f, 0
  {
    ok, v := DecodeValueField(stream, f.ltype, into);
  }

  /** The packed loop of decode_static_field. */
  method DecodePackedRun(substream: IStream, t: LType, max: nat, before: seq<Value>) returns (ok: bool, items: seq<Value>)
    requires substream.Valid() && Packable(t) && WellFormedType(t) && forall k :: 0 <= k < |before| ==> Typed(t, before[k])
    modifies substream
    ensures substream.Valid() && Follows(old(substream.View()), substream.View())
    ensures ok == DecodePacked(t, max, before, old(substream.View())).Got?
    ensures ok ==> DecodePacked(t, max, before, old(substream.View())) == Got(items, substream.View())
  {
    hide DecodeScalar;
    items := before;
    ghost var s0 := substream.View();
    while substream.bytesLeft > 0 && |items| < max
      invariant substream.Valid() && Follows(s0, substream.View())
      invariant forall k :: 0 <= k < |items| ==> Typed(t, items[k])
      invariant DecodePacked(t, max, before, s0) == DecodePacked(t, max, items, substream.View())
      decreases substream.bytesLeft
    {
      var v;
      ok, v := substream.DecodeScalarField(t);
      if !ok {
        return;
      }
      items := items + [v];
    }
    ok := true;
  }

  /** The repeated case of decode_static_field. */
  method DecodeRepeatedField(stream: IStream, f: FieldDef, before: seq<Value>, wireType: nat) returns (ok: bool, items: seq<Value>)
    requires stream.Valid() && WellFormedField(f) && f.rule.Repeated?
    requires forall k :: 0 <= k < |before| ==> TypedAs(f, before[k])
    modifies stream
    ensures stream.Valid() && Follows(old(stream.View()), stream.View())
    ensures ok == DecodeRepeated(f, before, wireType, old(stream.View())).Got?
    ensures ok ==> DecodeRepeated(f, before, wireType, old(stream.View())) == Got(items, stream.View())
    decreases f, 1
  {
    hide DecodePacked, OpenSub, DecodeAs;
    items := before;
    if wireType == 2 && Packable(f.ltype) {
      forall k | 0 <= k < |before| ensures Typed(f.ltype, before[k]) {
        assert TypedAs(f, before[k]);
      }
      var substream;
      ok, substream := stream.MakeSubstream();
      if !ok {
        return;
      }
      ok, items := DecodePackedRun(substream, f.ltype, f.rule.max, before);
      stream.CloseSubstream(substream);
      if substream.bytesLeft != 0 {
        ok := false;
      }
    } else {
      if |before| >= f.rule.max {
        return false, items;
      }
      var v;
      ok, v := DecodeAsField(stream, f, DefaultValue(f));
      items := before + [v];
    }
  }

  /** decode_static_field on entry i, whose data stands in slot `data`. */
  method DecodeStaticField(stream: IStream, wireType: nat, fs: seq<FieldDef>, i: nat, data: nat, m: seq<Slot>)
    returns (ok: bool, m': seq<Slot>)
    requires stream.Valid() && WellFormed(fs) && TypedMessage(fs, m) && i < |fs| && data == Leader(fs, i)
    modifies stream
    ensures stream.Valid() && Follows(old(stream.View()), stream.View())
    ensures ok == DecodeField(fs, m, i, wireType, old(stream.View())).FieldDone?
    ensures ok ==> DecodeField(fs, m, i, wireType, old(stream.View())) == FieldDone(m', stream.View())
    decreases fs, 0
  {
    hide DecodeAs, DecodeRepeated;
    m' := m;
    var f := fs[i];
    assert TypedSlot(fs, m, i) && WellFormedField(f);
    LeaderFacts(fs, i);
    var v;
    match f.rule
    case Required =>
      ok, v := DecodeAsField(stream, f, m[data].v);
      m' := m[data := One(v)];
    case Optional =>
      ok, v := DecodeAsField(stream, f, m[data].v);
      m' := m[data := Maybe(true, v)];
    case Repeated(_) =>
      var items;
      ok, items := DecodeRepeatedField(stream, f, m[data].items, wireType);
      m' := m[data := Many(items)];
    case Oneof =>
      ok, v := DecodeAsField(stream, f, DefaultValue(f));
      m' := m[data := Union(f.tag, v)];
  }

  // ---- Messages ----

  /** One turn of the field loop of pb_decode_noinit. */
  method DecodeOne(stream: IStream, iter: FieldIter, m: seq<Slot>, flags: array<bool>, ghost seen: set<nat>)
    returns (ok: bool, eof: bool, m': seq<Slot>, ghost seen': set<nat>)
    requires stream.Valid() && stream.bytesLeft > 0 && iter.Valid() && WellFormed(iter.start) && TypedMessage(iter.start, m)
    requires flags.Length == 64 && Flags(iter.start, seen, flags[..])
    modifies stream, iter, flags
    ensures stream.Valid() && iter.Valid() && Follows(old(stream.View()), stream.View())
    ensures ok ==> TypedMessage(iter.start, m') && Flags(iter.start, seen', flags[..])
    ensures match PbMerge.OneTurn(iter.start, m, seen, old(stream.View()))
            case Stops(Stuck) => !ok
            case Stops(r) => ok && eof && r == Done(m', seen', stream.View(), false)
            case Goes(m1, seen1, s1) => ok && !eof && m1 == m' && seen1 == seen' && s1 == stream.View()
    decreases iter.start, 1
  {
    hide DecodeLoop, DecodeField, ReadTag, SkipField, Find;
    m', seen' := m, seen;
    var wireType, tag;
    ok, wireType, tag, eof := stream.DecodeTag();
    if !ok {
      return eof, eof, m', seen';
    }
    var found := iter.FindTag(tag);
    if !found {
      ok := stream.SkipField(wireType);
    } else if iter.TagHere() == 0 {
      // The terminator answers to tag 0; its zero-sized value cannot be decoded.
      ok := false;
    } else {
      SameEntry(iter.start, iter.pos, tag);
      if iter.start[iter.pos].rule.Required? {
        FlagSet(iter.start, seen, flags[..], iter.pos);
        flags[iter.requiredIndex] := true;
      }
      ok, m' := DecodeStaticField(stream, wireType, iter.start, iter.pos, iter.data, m);
      seen' := Mark(iter.start, seen, iter.pos);
    }
  }

  /** pb_decode_noinit. */
  method DecodeMessage(stream: IStream, fs: seq<FieldDef>, m: seq<Slot>) returns (ok: bool, m': seq<Slot>)
    requires stream.Valid() && WellFormed(fs) && TypedMessage(fs, m)
    modifies stream
    ensures stream.Valid() && Follows(old(stream.View()), stream.View())
    ensures ok == DecodeNoInit(fs, m, old(stream.View())).Decoded?
    ensures ok ==> DecodeNoInit(fs, m, old(stream.View())) == Decoded(m', stream.View())
    decreases fs, 2
  {
    hide DecodeLoop, PbMerge.OneTurn, AllSet, Flags, AllRequired;
    m' := m;
    ghost var s0 := stream.View();
    ghost var seen: set<nat> := {};
    forall j | 0 <= j < |fs| ensures fs[j].tag != 0 {
      assert WellFormedField(fs[j]);
    }
    var fieldsSeen := new bool[64](_ => false);
    NoFlags(fs, fieldsSeen[..]);
    var iter := new FieldIter(fs);
    var _ := iter.Begin();
    var eof := false;
    while stream.bytesLeft != 0 && !eof
      invariant stream.Valid() && Follows(s0, stream.View())
      invariant fresh(iter) && fresh(fieldsSeen) && iter.Valid() && iter.start == fs && fieldsSeen.Length == 64
      invariant TypedMessage(fs, m') && Flags(fs, seen, fieldsSeen[..])
      invariant !eof ==> DecodeLoop(fs, m, {}, s0) == DecodeLoop(fs, m', seen, stream.View())
      invariant eof ==> DecodeLoop(fs, m, {}, s0) == Done(m', seen, stream.View(), false)
      decreases !eof, stream.bytesLeft
    {
      PbMerge.LoopTurn(fs, m', seen, stream.View());
      ok, eof, m', seen := DecodeOne(stream, iter, m', fieldsSeen, seen);
      if !ok {
        return;
      }
    }
    if !eof {
      PbMerge.LoopEnds(fs, m', seen, stream.View());
    }
    var count := CountRequired(iter);
    FlagsDecide(fs, seen, fieldsSeen[..]);
    ok := CheckRequired(fieldsSeen, count);
  }

  lemma SameEntry(fs: seq<FieldDef>, i: nat, tag: nat)
    requires WellFormed(fs) && i < |fs| && fs[i].tag == tag
    ensures Find(fs, tag) == Some(i)
  {
    FindUnique(fs, i);
  }

  /** pb_decode. */
  method DecodeFresh(stream: IStream, fs: seq<FieldDef>) returns (ok: bool, m: seq<Slot>)
    requires stream.Valid() && WellFormed(fs)
    modifies stream
    ensures stream.Valid()
    ensures ok == Decode(fs, old(stream.View())).Decoded?
    ensures ok ==> Decode(fs, old(stream.View())) == Decoded(m, stream.View())
  {
    ok, m := DecodeMessage(stream, fs, Defaults(fs));
  }
}
