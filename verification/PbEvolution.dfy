/** Writers and readers with different descriptors: what a reader lacks, it skips. */
module PbEvolution {
  import opened PbWire
  import opened PbTypes
  import opened PbEncoding
  import opened PbDecoding
  import opened PbRoundTrip
  import opened PbMerge
  import opened Options

  // ---- Values and fields that the reader lacks ----

  lemma SkipsOne(b: Byte, rest: seq<Byte>, left: nat)
    requires left <= |rest|
    ensures SkipVarint(In([b] + rest, 1 + left)) == if b < 128 then Got((), In(rest, left)) else SkipVarint(In(rest, left))
  {
    assert ([b] + rest)[1..] == rest;
  }

  lemma {:induction false} SkipsVarintBefore(v: nat, rest: seq<Byte>, left: nat)
    requires left <= |rest|
    ensures SkipVarint(In(Varint(v) + rest, |Varint(v)| + left)) == Got((), In(rest, left))
    decreases v
  {
    hide SkipVarint;
    if v < 128 {
      SkipsOne(v, rest, left);
    } else {
      var back := Varint(v / 128);
      SkipsVarintBefore(v / 128, rest, left);
      SkipsOne(v % 128 + 128, back + rest, |back| + left);
      assert Varint(v) + rest == [v % 128 + 128] + (back + rest);
    }
  }

  lemma SkipsPrefixed(body: seq<Byte>, rest: seq<Byte>, left: nat)
    requires |body| < TWO_32 && left <= |rest|
    ensures SkipField(In(Prefixed(body) + rest, |Prefixed(body)| + left), 2) == Got((), In(rest, left))
  {
    hide ReadVarint32, ReadBytes, Prefixed;
    PrefixedArrives(body, rest, left);
  }

  /** The wire type that a value is announced with says how to skip it. */
  lemma ValueIsSkipped(t: LType, v: Value, rest: seq<Byte>, left: nat)
    requires Typed(t, v) && EncodeValue(t, v).Some? && |EncodeValue(t, v).value| < TWO_32 && left <= |rest|
    ensures var b := EncodeValue(t, v).value;
            SkipField(In(b + rest, |b| + left), WireType(t)) == Got((), In(rest, left))
  {
    hide Varint, SkipVarint, ReadVarint32, ReadBytes, Little, Prefixed, ZigZag, EncodeMessage;
    match t
    case LVarint(_) => SkipsVarintBefore(ToUnsigned64(v.i), rest, left);
    case LUVarint(_) => SkipsVarintBefore(v.i, rest, left);
    case LSVarint(_) => SkipsVarintBefore(ZigZag(v.i), rest, left);
    case LFixed32 => BytesRoundTrip(Little(v.i, 4), rest, 4 + left);
    case LFixed64 => BytesRoundTrip(Little(v.i, 8), rest, 8 + left);
    case LBytes(_) =>
      PrefixedIsLonger(v.bytes);
      SkipsPrefixed(v.bytes, rest, left);
    case LString(n) =>
      PrefixedIsLonger(v.bytes[..TextLength(v.bytes, n)]);
      SkipsPrefixed(v.bytes[..TextLength(v.bytes, n)], rest, left);
    case LSub(fs) =>
      PrefixedIsLonger(EncodeMessage(fs, v.slots).value);
      SkipsPrefixed(EncodeMessage(fs, v.slots).value, rest, left);
  }

  lemma PrefixedIsLonger(body: seq<Byte>)
    ensures |body| < |Prefixed(body)|
  {
  }

  /** A tag that the reader lacks, in front of a value that can be skipped. */
  lemma UnknownIsSkipped(gs: seq<FieldDef>, g: seq<Slot>, seen: set<nat>, wireType: nat, tag: nat, b: seq<Byte>, rest: seq<Byte>, left: nat)
    requires WellFormed(gs) && TypedMessage(gs, g) && Find(gs, tag).None? && 0 < tag <= 0xffff && wireType < 8 && left <= |rest|
    requires SkipField(In(b + rest, |b| + left), wireType) == Got((), In(rest, left))
    ensures var e := Tag(wireType, tag) + b;
            DecodeLoop(gs, g, seen, In(e + rest, |e| + left)) == DecodeLoop(gs, g, seen, In(rest, left))
  {
    hide ReadVarintFrom, SkipField, Tag, DecodeField;
    var t := Tag(wireType, tag);
    assert (t + b) + rest == t + (b + rest);
    TagRoundTrip(wireType, tag, b + rest, |t| + (|b| + left));
  }

  lemma TaggedIsSkipped(gs: seq<FieldDef>, g: seq<Slot>, seen: set<nat>, f: FieldDef, v: Value, rest: seq<Byte>, left: nat)
    requires WellFormed(gs) && TypedMessage(gs, g) && Find(gs, f.tag).None? && WellFormedField(f) && TypedAs(f, v) && left <= |rest|
    requires EncodeTagged(f, v).Some? && |EncodeTagged(f, v).value| < TWO_32
    ensures var e := EncodeTagged(f, v).value;
            DecodeLoop(gs, g, seen, In(e + rest, |e| + left)) == DecodeLoop(gs, g, seen, In(rest, left))
  {
    hide EncodeValue, SkipField, Tag, DecodeLoop, WireType;
    ValueIsSkipped(f.ltype, v, rest, left);
    UnknownIsSkipped(gs, g, seen, WireType(f.ltype), f.tag, EncodeValue(f.ltype, v).value, rest, left);
  }

  lemma {:induction false} SeparateIsSkipped(gs: seq<FieldDef>, g: seq<Slot>, seen: set<nat>, f: FieldDef, items: seq<Value>, rest: seq<Byte>, left: nat)
    requires WellFormed(gs) && TypedMessage(gs, g) && Find(gs, f.tag).None? && WellFormedField(f) && left <= |rest|
    requires forall k :: 0 <= k < |items| ==> TypedAs(f, items[k])
    requires EncodeSeparate(f, items).Some? && |EncodeSeparate(f, items).value| < TWO_32
    ensures var e := EncodeSeparate(f, items).value;
            DecodeLoop(gs, g, seen, In(e + rest, |e| + left)) == DecodeLoop(gs, g, seen, In(rest, left))
    decreases |items|
  {
    hide EncodeTagged, DecodeLoop, TypedAs;
    if items == [] {
      assert [] + rest == rest;
    } else {
      var front, last := items[..|items| - 1], items[|items| - 1];
      var e0, e1 := EncodeSeparate(f, front).value, EncodeTagged(f, last).value;
      assert (e0 + e1) + rest == e0 + (e1 + rest);
      SeparateIsSkipped(gs, g, seen, f, front, e1 + rest, |e1| + left);
      TaggedIsSkipped(gs, g, seen, f, last, rest, left);
    }
  }

  /** Whatever the rule of an entry, what it sends is skipped by a reader that lacks its tag. */
  lemma FieldIsSkipped(gs: seq<FieldDef>, g: seq<Slot>, seen: set<nat>, fs: seq<FieldDef>, m: seq<Slot>, i: nat, rest: seq<Byte>, left: nat)
    requires WellFormed(gs) && TypedMessage(gs, g) && WellFormed(fs) && TypedMessage(fs, m) && i < |fs| && left <= |rest|
    requires Find(gs, fs[i].tag).None? && EncodeField(fs, m, i).Some? && |EncodeField(fs, m, i).value| < TWO_32
    ensures var e := EncodeField(fs, m, i).value;
            DecodeLoop(gs, g, seen, In(e + rest, |e| + left)) == DecodeLoop(gs, g, seen, In(rest, left))
  {
    hide EncodeTagged, DecodeLoop, EncodeSeparate, Payload, Tag, Prefixed, SkipField, Find;
    var f := fs[i];
    assert WellFormedField(f) && TypedSlot(fs, m, i);
    assert [] + rest == rest;
    match f.rule
    case Required => TaggedIsSkipped(gs, g, seen, f, m[i].v, rest, left);
    case Optional =>
      if m[i].has {
        TaggedIsSkipped(gs, g, seen, f, m[i].v, rest, left);
      }
    case Repeated(_) =>
      if m[i].items != [] {
        if Packable(f.ltype) {
          PackedIsSkipped(gs, g, seen, f, m[i].items, rest, left);
        } else {
          SeparateIsSkipped(gs, g, seen, f, m[i].items, rest, left);
        }
      }
    case Oneof =>
      if m[Leader(fs, i)].which == f.tag {
        TaggedIsSkipped(gs, g, seen, f, m[Leader(fs, i)].v, rest, left);
      }
  }

  lemma PackedIsSkipped(gs: seq<FieldDef>, g: seq<Slot>, seen: set<nat>, f: FieldDef, items: seq<Value>, rest: seq<Byte>, left: nat)
    requires WellFormed(gs) && TypedMessage(gs, g) && Find(gs, f.tag).None? && WellFormedField(f) && left <= |rest|
    requires f.rule.Repeated? && Packable(f.ltype) && 0 < |items| <= f.rule.max && forall k :: 0 <= k < |items| ==> TypedAs(f, items[k])
    requires |EncodeArray(f, items).value| < TWO_32
    ensures var e := EncodeArray(f, items).value;
            DecodeLoop(gs, g, seen, In(e + rest, |e| + left)) == DecodeLoop(gs, g, seen, In(rest, left))
  {
    hide Payload, Tag, Prefixed, SkipField, DecodeLoop, Find;
    forall k | 0 <= k < |items| ensures Typed(f.ltype, items[k]) {
      assert TypedAs(f, items[k]);
    }
    var p := Payload(f.ltype, items);
    PrefixedIsLonger(p);
    SkipsPrefixed(p, rest, left);
    UnknownIsSkipped(gs, g, seen, 2, f.tag, Prefixed(p), rest, left);
  }

  /** None of the first n entries is known to the reader. */
  lemma {:induction false} FieldsAreSkipped(gs: seq<FieldDef>, g: seq<Slot>, seen: set<nat>, fs: seq<FieldDef>, m: seq<Slot>, n: nat, rest: seq<Byte>, left: nat)
    requires WellFormed(gs) && TypedMessage(gs, g) && WellFormed(fs) && TypedMessage(fs, m) && n <= |fs| && left <= |rest|
    requires forall i :: 0 <= i < n ==> Find(gs, fs[i].tag).None?
    requires EncodeUpTo(fs, m, n).Some? && |EncodeUpTo(fs, m, n).value| < TWO_32
    ensures var e := EncodeUpTo(fs, m, n).value;
            DecodeLoop(gs, g, seen, In(e + rest, |e| + left)) == DecodeLoop(gs, g, seen, In(rest, left))
    decreases n
  {
    hide EncodeField, DecodeLoop, Find;
    if n == 0 {
      assert [] + rest == rest;
    } else {
      var e0, e1 := EncodeUpTo(fs, m, n - 1).value, EncodeField(fs, m, n - 1).value;
      assert (e0 + e1) + rest == e0 + (e1 + rest);
      FieldsAreSkipped(gs, g, seen, fs, m, n - 1, e1 + rest, |e1| + left);
      FieldIsSkipped(gs, g, seen, fs, m, n - 1, rest, left);
    }
  }

  /** A reader that shares no tag with the writer skips the whole message, whatever follows it. */
  lemma ForeignMessageIsSkipped(gs: seq<FieldDef>, g: seq<Slot>, fs: seq<FieldDef>, m: seq<Slot>, tail: seq<Byte>)
    requires WellFormed(gs) && TypedMessage(gs, g) && WellFormed(fs) && TypedMessage(fs, m)
    requires forall i :: 0 <= i < |fs| ==> Find(gs, fs[i].tag).None?
    requires EncodeMessage(fs, m).Some? && |EncodeMessage(fs, m).value| < TWO_32
    ensures var b := EncodeMessage(fs, m).value;
            DecodeLoop(gs, g, {}, In(b + tail, |b|)) == Done(g, {}, In(tail, 0), true)
  {
    hide DecodeLoop, Find;
    FieldsAreSkipped(gs, g, {}, fs, m, |fs|, tail, 0);
    LoopEnds(gs, g, {}, In(tail, 0));
  }

  // ---- What was not sent ----

  /** Absent, empty or not chosen; single values are the descriptor's initial ones, or else zero,
      the empty text or the unset message. */
  predicate Unset(f: FieldDef, s: Slot)
    decreases f, 1
  {
    match f.rule
    case Required => s.One? && UnsetValue(f, s.v)
    case Optional => s.Maybe? && !s.has && UnsetValue(f, s.v)
    case Repeated(_) => s == Many([])
    case Oneof => s == Shared || (s.Union? && s.which == 0)
  }

  predicate UnsetValue(f: FieldDef, v: Value)
    decreases f, 0
  {
    match f.ltype
    case LSub(gs) => v.Msg? && |v.slots| == |gs| && forall i :: 0 <= i < |gs| ==> Unset(gs[i], v.slots[i])
    case LBytes(_) => v == if f.initial.Some? then f.initial.value else Raw([])
    case LString(_) => v == if f.initial.Some? then f.initial.value else Raw([])
    case _ => v == if f.initial.Some? then f.initial.value else Int(0)
  }

  lemma {:induction false} DefaultsAreUnset(fs: seq<FieldDef>)
    requires WellFormed(fs)
    ensures |Defaults(fs)| == |fs| && forall i :: 0 <= i < |fs| ==> Unset(fs[i], Defaults(fs)[i])
    decreases fs, 1
  {
    forall i | 0 <= i < |fs| ensures Unset(fs[i], Defaults(fs)[i]) {
      assert WellFormedField(fs[i]);
      DefaultIsUnset(fs[i]);
    }
  }

  lemma {:induction false} DefaultIsUnset(f: FieldDef)
    requires WellFormedField(f)
    ensures UnsetValue(f, DefaultValue(f))
    decreases f, 0
  {
    if f.ltype.LSub? {
      DefaultsAreUnset(f.ltype.fields);
    }
  }

  /** A reader of a message it knows nothing of, and requires nothing of, has all its fields unset. */
  lemma ForeignMessageIsUnset(gs: seq<FieldDef>, fs: seq<FieldDef>, m: seq<Slot>, tail: seq<Byte>) returns (g: seq<Slot>)
    requires WellFormed(gs) && WellFormed(fs) && TypedMessage(fs, m) && forall i :: 0 <= i < |gs| ==> !gs[i].rule.Required?
    requires forall i :: 0 <= i < |fs| ==> Find(gs, fs[i].tag).None?
    requires EncodeMessage(fs, m).Some? && |EncodeMessage(fs, m).value| < TWO_32
    ensures Decode(gs, In(EncodeMessage(fs, m).value + tail, |EncodeMessage(fs, m).value|)) == Decoded(g, In(tail, 0))
    ensures |g| == |gs| && forall i :: 0 <= i < |gs| ==> Unset(gs[i], g[i])
  {
    g := Defaults(gs);
    DefaultsAreUnset(gs);
    ForeignMessageIsSkipped(gs, g, fs, m, tail);
  }

  // ---- A reader that lacks one entry ----

  /** Without entry i. It must not be all that keeps two oneofs apart, which this model does not
      tell apart otherwise. */
  predicate Removable(fs: seq<FieldDef>, i: nat) {
    && i < |fs|
    && (0 < i && i + 1 < |fs| && fs[i - 1].rule.Oneof? && fs[i + 1].rule.Oneof? ==> fs[i].rule.Oneof?)
  }

  function Less(fs: seq<FieldDef>, i: nat): (gs: seq<FieldDef>)
    requires i < |fs|
    ensures |gs| == |fs| - 1 && forall j :: 0 <= j < |gs| ==> gs[j] == fs[Old(i, j)]
  {
    fs[..i] + fs[i + 1..]
  }

  /** The entry of the longer descriptor that entry j of the shorter one is. */
  function Old(i: nat, j: nat): nat { if j < i then j else j + 1 }

  /** The union of a oneof whose first entry is removed goes to the next one. */
  function LessSlots(fs: seq<FieldDef>, m: seq<Slot>, i: nat): (g: seq<Slot>)
    requires |m| == |fs| && i < |fs|
    ensures |g| == |fs| - 1
  {
    if Heir(fs, i) then m[..i + 1] + m[i + 2..] else m[..i] + m[i + 1..]
  }

  predicate Heir(fs: seq<FieldDef>, i: nat) {
    i + 1 < |fs| && fs[i].rule.Oneof? && fs[i + 1].rule.Oneof? && Leader(fs, i) == i
  }

  lemma {:induction false} LeaderOfPrefix(fs: seq<FieldDef>, gs: seq<FieldDef>, j: nat)
    requires j < |fs| && j < |gs| && forall k :: 0 <= k <= j ==> fs[k] == gs[k]
    ensures Leader(gs, j) == Leader(fs, j)
    decreases j
  {
    if j > 0 {
      LeaderOfPrefix(fs, gs, j - 1);
    }
  }

  lemma {:induction false} LeaderWithout(fs: seq<FieldDef>, i: nat, j: nat)
    requires Removable(fs, i) && j < |fs| - 1
    ensures var l := Leader(fs, Old(i, j));
            Leader(Less(fs, i), j) == if l <= i then l else l - 1
    ensures j >= i && Leader(fs, j + 1) == i ==> Heir(fs, i)
    decreases j
  {
    var gs := Less(fs, i);
    if j < i {
      LeaderOfPrefix(fs, gs, j);
    } else {
      if j > 0 {
        LeaderWithout(fs, i, j - 1);
      }
    }
  }

  lemma SlotAt(fs: seq<FieldDef>, m: seq<Slot>, i: nat, j: nat)
    requires |m| == |fs| && i < |fs| && j < |fs| - 1
    ensures LessSlots(fs, m, i)[j] == if j == i && Heir(fs, i) then m[i] else m[Old(i, j)]
    ensures Heir(fs, i) ==> fs[i + 1].rule.Oneof? && Leader(fs, i + 1) == i
  {
    if Heir(fs, i) {
      assert Leader(fs, i + 1) == Leader(fs, i);
    }
  }

  lemma LeaderSlot(fs: seq<FieldDef>, m: seq<Slot>, i: nat, j: nat)
    requires Removable(fs, i) && |m| == |fs| && j < |fs| - 1
    ensures LessSlots(fs, m, i)[Leader(Less(fs, i), j)] == m[Leader(fs, Old(i, j))]
  {
    hide Less, LessSlots, Leader;
    LeaderWithout(fs, i, j);
    LeaderFacts(fs, Old(i, j));
    SlotAt(fs, m, i, Leader(Less(fs, i), j));
  }

  lemma LessIsTyped(fs: seq<FieldDef>, m: seq<Slot>, i: nat)
    requires TypedMessage(fs, m) && Removable(fs, i)
    ensures TypedMessage(Less(fs, i), LessSlots(fs, m, i))
  {
    hide TypedAs;
    var gs, g := Less(fs, i), LessSlots(fs, m, i);
    forall j | 0 <= j < |gs| ensures TypedSlot(gs, g, j) {
      var k := Old(i, j);
      assert TypedSlot(fs, m, k) && gs[j] == fs[k];
      LeaderWithout(fs, i, j);
      LeaderSlot(fs, m, i, j);
      if !fs[k].rule.Oneof? || Leader(gs, j) != j {
        PlainSlot(fs, m, i, j);
      }
    }
  }

  /** Except for the heir of a union, entry j keeps its slot. */
  lemma PlainSlot(fs: seq<FieldDef>, m: seq<Slot>, i: nat, j: nat)
    requires Removable(fs, i) && |m| == |fs| && j < |fs| - 1
    requires !fs[Old(i, j)].rule.Oneof? || Leader(Less(fs, i), j) != j
    ensures LessSlots(fs, m, i)[j] == m[Old(i, j)]
    ensures Leader(Less(fs, i), j) != j ==> Leader(fs, Old(i, j)) != Old(i, j)
  {
    hide Less, LessSlots, Leader;
    LeaderWithout(fs, i, j);
    LeaderFacts(fs, Old(i, j));
    SlotAt(fs, m, i, j);
  }

  /** The entries that are left encode as they did. */
  lemma FieldEncodesAlike(fs: seq<FieldDef>, m: seq<Slot>, i: nat, j: nat)
    requires TypedMessage(fs, m) && Removable(fs, i) && j < |fs| - 1
    ensures TypedMessage(Less(fs, i), LessSlots(fs, m, i))
    ensures EncodeField(Less(fs, i), LessSlots(fs, m, i), j) == EncodeField(fs, m, Old(i, j))
  {
    hide EncodeTagged, EncodeArray, TypedAs;
    LessIsTyped(fs, m, i);
    LeaderSlot(fs, m, i, j);
    if !fs[Old(i, j)].rule.Oneof? {
      PlainSlot(fs, m, i, j);
    }
    assert TypedSlot(fs, m, Old(i, j)) && TypedSlot(Less(fs, i), LessSlots(fs, m, i), j);
  }

  lemma LessIsUnique(fs: seq<FieldDef>, i: nat)
    requires WellFormed(fs) && i < |fs|
    ensures Find(Less(fs, i), fs[i].tag).None?
  {
    hide WellFormedField;
    var gs := Less(fs, i);
    forall j | 0 <= j < |gs| ensures gs[j].tag != fs[i].tag {
      assert gs[j] == fs[Old(i, j)];
    }
  }

  /** Of the first k entries of the writer the reader takes those it has. */
  lemma {:induction false} FieldsArriveWithout(fs: seq<FieldDef>, m: seq<Slot>, i: nat, k: nat, rest: seq<Byte>, left: nat)
    requires WellFormed(fs) && TypedMessage(fs, m) && Removable(fs, i) && WellFormed(Less(fs, i)) && k <= |fs| && left <= |rest|
    requires EncodeUpTo(fs, m, k).Some? && |EncodeUpTo(fs, m, k).value| < TWO_32
    ensures TypedMessage(Less(fs, i), LessSlots(fs, m, i))
    ensures var gs, g, n := Less(fs, i), LessSlots(fs, m, i), if k <= i then k else k - 1;
            var e := EncodeUpTo(fs, m, k).value;
            var r := DecodeLoop(gs, Defaults(gs), {}, In(e + rest, |e| + left));
            if forall j :: 0 <= j < n ==> TerminatedSlot(gs, g, j)
            then r == DecodeLoop(gs, Partly(gs, g, n), SeenUpTo(gs, n), In(rest, left))
            else r == Stuck
    decreases k
  {
    hide DecodeLoop, TerminatedSlot, EncodeField, Partly, SeenUpTo, Less, LessSlots, Find, WellFormed, TypedSlot;
    LessIsTyped(fs, m, i);
    var gs, g := Less(fs, i), LessSlots(fs, m, i);
    if k == 0 {
      FieldsArrive(gs, g, 0, rest, left);
    } else {
      var e0, e1 := EncodeUpTo(fs, m, k - 1).value, EncodeField(fs, m, k - 1).value;
      assert (e0 + e1) + rest == e0 + (e1 + rest);
      FieldsArriveWithout(fs, m, i, k - 1, e1 + rest, |e1| + left);
      if k - 1 == i {
        LessIsUnique(fs, i);
        FieldIsSkipped(gs, Partly(gs, g, i), SeenUpTo(gs, i), fs, m, i, rest, left);
      } else {
        var n := if k <= i then k else k - 1;
        FieldEncodesAlike(fs, m, i, n - 1);
        FieldArrives(gs, g, n - 1, rest, left);
        assert (forall j :: 0 <= j < n ==> TerminatedSlot(gs, g, j))
            == ((forall j :: 0 <= j < n - 1 ==> TerminatedSlot(gs, g, j)) && TerminatedSlot(gs, g, n - 1));
      }
    }
  }

  /** A reader whose descriptor lacks entry i gets the message without that entry: every other
      entry arrives as it does for a reader that has them all. */
  lemma ReaderWithoutEntry(fs: seq<FieldDef>, m: seq<Slot>, i: nat, tail: seq<Byte>)
    requires WellFormed(fs) && TypedMessage(fs, m) && Removable(fs, i) && WellFormed(Less(fs, i))
    requires EncodeMessage(fs, m).Some? && |EncodeMessage(fs, m).value| < TWO_32
    ensures TypedMessage(Less(fs, i), LessSlots(fs, m, i))
    ensures var gs, g, b := Less(fs, i), LessSlots(fs, m, i), EncodeMessage(fs, m).value;
            Decode(gs, In(b + tail, |b|)) == if Terminated(gs, g) then Decoded(Canon(gs, g), In(tail, 0)) else Failed
  {
    hide DecodeLoop, TerminatedSlot, Less, LessSlots;
    FieldsArriveWithout(fs, m, i, |fs|, tail, 0);
    var gs, g := Less(fs, i), LessSlots(fs, m, i);
    LoopEnds(gs, Partly(gs, g, |gs|), SeenUpTo(gs, |gs|), In(tail, 0));
  }
}
