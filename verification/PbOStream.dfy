/** The encoder as it runs: an output stream that either counts or fills a buffer. */
module PbOStream {
  import opened PbWire
  import opened PbTypes
  import opened PbEncoding
  import opened PbIterator
  import opened Options

  /** A snapshot of an output stream: its buffer, if it is not just counting, and its counters. */
  datatype Out = Out(counting: bool, bytes: seq<Byte>, at: nat, maxSize: nat, written: nat)

  predicate Fits(s: Out) {
    !s.counting ==> s.written <= s.maxSize && s.at + (s.maxSize - s.written) <= |s.bytes|
  }

  function RoomIn(s: Out): nat
    requires Fits(s)
  {
    if s.counting then 0 else s.maxSize - s.written
  }

  /** Encoding to `e` led from s to s'. A counting stream succeeds whenever there is an encoding;
      a writing one also needs the room, and then holds exactly these bytes more. Bytes before
      the start and beyond the limit stay as they were even when it fails. */
  predicate Emits(s: Out, s': Out, ok: bool, e: Option<seq<Byte>>)
    requires Fits(s)
  {
    && Fits(s') && s'.counting == s.counting
    && ok == (e.Some? && (s.counting || |e.value| <= RoomIn(s)))
    && (ok ==> s'.written == s.written + |e.value|)
    && (!s.counting ==>
          var limit := s.at + RoomIn(s);
          && s.at <= s'.at && s'.at + RoomIn(s') == limit && s'.maxSize == s.maxSize && |s'.bytes| == |s.bytes|
          && s'.bytes[..s.at] == s.bytes[..s.at] && s'.bytes[limit..] == s.bytes[limit..]
          && (ok ==> s'.bytes[..s'.at] == s.bytes[..s.at] + e.value && s'.bytes[s'.at..] == s.bytes[s'.at..]))
  }

  function Join(a: Option<seq<Byte>>, b: Option<seq<Byte>>): Option<seq<Byte>> {
    if a.Some? && b.Some? then Some(a.value + b.value) else None
  }

  /** One encoding after another. */
  lemma EmitsBoth(s: Out, s': Out, s'': Out, ok: bool, e: Option<seq<Byte>>, e': Option<seq<Byte>>)
    requires Fits(s) && Emits(s, s', true, e) && Emits(s', s'', ok, e')
    ensures Emits(s, s'', ok, Join(e, e')) && Fits(s'')
  {
    if !s.counting {
      assert s''.bytes[..s.at] == s''.bytes[..s'.at][..s.at];
      if ok {
        assert s''.bytes[s''.at..] == s'.bytes[s'.at..][s''.at - s'.at..];
        assert s.bytes[s''.at..] == s.bytes[s'.at..][s''.at - s'.at..];
        assert s.bytes[..s.at] + (e.value + e'.value) == s.bytes[..s.at] + e.value + e'.value;
      }
    }
  }

  /** A first encoding that fails decides. */
  lemma EmitsFails(s: Out, s': Out, e: Option<seq<Byte>>, e': Option<seq<Byte>>)
    requires Fits(s) && Emits(s, s', false, e)
    ensures Emits(s, s', false, Join(e, e'))
  {
  }

  lemma EmitsFailsEarly(s: Out, s': Out, e: Option<seq<Byte>>, e': Option<seq<Byte>>)
    requires Fits(s) && Emits(s, s', false, e) && (e'.Some? ==> e.Some? && |e.value| <= |e'.value|)
    ensures Emits(s, s', false, e')
  {
  }

  lemma EmitsNone(s: Out)
    requires Fits(s)
    ensures Emits(s, s, false, None)
  {
  }

  lemma EmitsNothing(s: Out)
    requires Fits(s)
    ensures Emits(s, s, true, Some([]))
  {
  }

  /** A successful run on a stream over the same bytes whose limit is exactly what it wrote. */
  lemma EmitsThroughSub(s: Out, sub: Out, ok: bool, body: seq<Byte>)
    requires Fits(s) && !s.counting && |body| <= RoomIn(s)
    requires Emits(Out(false, s.bytes, s.at, |body|, 0), sub, ok, Some(body))
    ensures ok && sub.written == |body|
    ensures Emits(s, Out(false, sub.bytes, sub.at, s.maxSize, s.written + sub.written), true, Some(body))
  {
  }

  function PrefixedOption(body: Option<seq<Byte>>): Option<seq<Byte>> {
    match body case None => None case Some(b) => Some(Prefixed(b))
  }

  // ---- Lengths that a size_t holds ----

  predicate ShortEncoding(e: Option<seq<Byte>>) { e.Some? ==> |e.value| < TWO_32 }

  /** Every submessage that is sent, at any depth, is shorter than 2^32 bytes. */
  predicate ShortValue(t: LType, v: Value)
    requires Typed(t, v)
    decreases t, 0
  {
    t.LSub? ==> ShortEncoding(EncodeMessage(t.fields, v.slots)) && Short(t.fields, v.slots)
  }

  predicate ShortAs(f: FieldDef, v: Value)
    requires TypedAs(f, v)
    decreases f, 1
  {
    ShortValue(f.ltype, v)
  }

  predicate ShortSlot(fs: seq<FieldDef>, m: seq<Slot>, i: nat)
    requires TypedMessage(fs, m) && i < |fs|
    decreases fs, 0
  {
    assert TypedSlot(fs, m, i);
    match fs[i].rule
    case Required => ShortAs(fs[i], m[i].v)
    case Optional => m[i].has ==> ShortAs(fs[i], m[i].v)
    case Repeated(max) => forall k :: 0 <= k < |m[i].items| ==> ShortAs(fs[i], m[i].items[k])
    case Oneof => m[Leader(fs, i)].which == fs[i].tag ==> ShortAs(fs[i], m[Leader(fs, i)].v)
  }

  predicate Short(fs: seq<FieldDef>, m: seq<Slot>)
    requires TypedMessage(fs, m)
    decreases fs, 1
  {
    forall i :: 0 <= i < |fs| ==> ShortSlot(fs, m, i)
  }

  /** A message whose own encoding is shorter has no longer submessage in it. */
  lemma {:induction false} ShortIfWholeIsShort(fs: seq<FieldDef>, m: seq<Slot>)
    requires TypedMessage(fs, m) && EncodeMessage(fs, m).Some? && |EncodeMessage(fs, m).value| < TWO_32
    ensures Short(fs, m)
    decreases fs, 2
  {
    hide ShortSlot;
    FieldsAreShort(fs, m, |fs|);
  }

  lemma {:induction false} FieldsAreShort(fs: seq<FieldDef>, m: seq<Slot>, n: nat)
    requires TypedMessage(fs, m) && n <= |fs| && EncodeUpTo(fs, m, n).Some? && |EncodeUpTo(fs, m, n).value| < TWO_32
    ensures forall i :: 0 <= i < n ==> ShortSlot(fs, m, i)
    decreases fs, 1, n
  {
    hide ShortSlot, EncodeField;
    if n != 0 {
      FieldsAreShort(fs, m, n - 1);
      SlotIsShort(fs, m, n - 1);
    }
  }

  lemma {:induction false} SlotIsShort(fs: seq<FieldDef>, m: seq<Slot>, i: nat)
    requires TypedMessage(fs, m) && i < |fs|
    requires EncodeField(fs, m, i).Some? && |EncodeField(fs, m, i).value| < TWO_32
    ensures ShortSlot(fs, m, i)
    decreases fs, 0
  {
    hide ShortAs, EncodeTagged, EncodeSeparate, TypedAs;
    assert TypedSlot(fs, m, i);
    var f := fs[i];
    match f.rule
    case Required => TaggedIsShort(f, m[i].v);
    case Optional =>
      if m[i].has {
        TaggedIsShort(f, m[i].v);
      }
    case Repeated(_) =>
      if Packable(f.ltype) {
        ScalarsAreShort(f, m[i].items);
      } else if m[i].items != [] {
        ItemsAreShort(f, m[i].items);
      }
    case Oneof =>
      if m[Leader(fs, i)].which == f.tag {
        TaggedIsShort(f, m[Leader(fs, i)].v);
      }
  }

  lemma {:induction false} TaggedIsShort(f: FieldDef, v: Value)
    requires TypedAs(f, v) && EncodeTagged(f, v).Some? && |EncodeTagged(f, v).value| < TWO_32
    ensures ShortAs(f, v)
    decreases f, 0
  {
    if f.ltype.LSub? {
      ShortIfWholeIsShort(f.ltype.fields, v.slots);
    }
  }

  lemma {:induction false} ItemsAreShort(f: FieldDef, items: seq<Value>)
    requires forall k :: 0 <= k < |items| ==> TypedAs(f, items[k])
    requires EncodeSeparate(f, items).Some? && |EncodeSeparate(f, items).value| < TWO_32
    ensures forall k :: 0 <= k < |items| ==> ShortAs(f, items[k])
    decreases f, 1, |items|
  {
    hide ShortAs, EncodeTagged;
    if items != [] {
      var n := |items| - 1;
      assert items == items[..n] + [items[n]];
      ItemsAreShort(f, items[..n]);
      TaggedIsShort(f, items[n]);
    }
  }

  lemma ScalarsAreShort(f: FieldDef, items: seq<Value>)
    requires Packable(f.ltype) && forall k :: 0 <= k < |items| ==> TypedAs(f, items[k])
    ensures forall k :: 0 <= k < |items| ==> ShortAs(f, items[k])
  {
    forall k | 0 <= k < |items| ensures ShortAs(f, items[k]) {
      assert ShortValue(f.ltype, items[k]);
    }
  }

  /** pb_ostream_t. Without a buffer it only counts (PB_OSTREAM_SIZING). */
  class OStream {
    const buf: array?<Byte>
    /** Where the next byte goes (state). */
    var at: nat
    var maxSize: nat
    var bytesWritten: nat

    ghost function View(): Out
      reads this, buf
    {
      Out(buf == null, if buf == null then [] else buf[..], at, maxSize, bytesWritten)
    }

    ghost predicate Valid()
      reads this, buf
    {
      Fits(View())
    }

    constructor Sizing()
      ensures Valid() && buf == null && bytesWritten == 0
    {
      buf := null;
      at, maxSize, bytesWritten := 0, 0, 0;
    }

    /** pb_ostream_from_buffer, or a stream that goes on where another stands, with its own limit. */
    constructor FromBuffer(b: array<Byte>, state: nat, size: nat)
      requires state + size <= b.Length
      ensures Valid() && View() == Out(false, b[..], state, size, 0)
      ensures buf == b
    {
      buf := b;
      at, maxSize, bytesWritten := state, size, 0;
    }

    /** pb_write; a counting stream is given no data. */
    method Write(data: seq<Byte>, count: nat) returns (ok: bool)
      requires Valid() && (buf != null ==> count == |data|)
      modifies this, buf
      ensures Valid()
      ensures buf == null ==> ok && bytesWritten == old(bytesWritten) + count
      ensures count == |data| ==> Emits(old(View()), View(), ok, Some(data))
    {
      if buf != null {
        if bytesWritten + count > maxSize {
          return false;
        }
        BufWrite(buf, at, data);
        WroteAll(old(View()), data);
        at := at + count;
      }
      bytesWritten := bytesWritten + count;
      ok := true;
    }

    /** pb_encode_varint. */
    method EncodeVarint(value: nat) returns (ok: bool)
      requires Valid() && value < TWO_64
      modifies this, buf
      ensures Emits(old(View()), View(), ok, Some(Varint(value)))
    {
      if value <= 0x7F {
        ok := Write([value], 1);
        return;
      }
      var buffer, count := VarintBuffer(value);
      ok := Write(buffer[..count], count);
    }

    /** pb_encode_svarint. */
    method EncodeSVarint(value: int) returns (ok: bool)
      requires Valid() && SignedFits(value, 8)
      modifies this, buf
      ensures Emits(old(View()), View(), ok, Some(Varint(ZigZag(value))))
    {
      var zigzagged := if value < 0 then TWO_64 - 1 - 2 * (value + TWO_64) % TWO_64 else 2 * value;
      ok := EncodeVarint(zigzagged);
    }

    /** pb_encode_fixed32. */
    method EncodeFixed32(val: nat) returns (ok: bool)
      requires Valid() && val < TWO_32
      modifies this, buf
      ensures Emits(old(View()), View(), ok, Some(Little(val, 4)))
    {
      var bytes: seq<Byte> := [val % 256, val / 0x100 % 256, val / 0x1_0000 % 256, val / 0x100_0000 % 256];
      FourBytes(val);
      ok := Write(bytes, 4);
    }

    /** pb_encode_fixed64. */
    method EncodeFixed64(val: nat) returns (ok: bool)
      requires Valid() && val < TWO_64
      modifies this, buf
      ensures Emits(old(View()), View(), ok, Some(Little(val, 8)))
    {
      var bytes: seq<Byte> := [val % 256, val / 0x100 % 256, val / 0x1_0000 % 256, val / 0x100_0000 % 256,
                               val / 0x1_0000_0000 % 256, val / 0x100_0000_0000 % 256,
                               val / 0x1_0000_0000_0000 % 256, val / 0x100_0000_0000_0000 % 256];
      EightBytes(val);
      ok := Write(bytes, 8);
    }

    /** pb_encode_tag. */
    method EncodeTag(wireType: nat, fieldNumber: nat) returns (ok: bool)
      requires Valid() && wireType < 8 && fieldNumber < TWO_32
      modifies this, buf
      ensures Emits(old(View()), View(), ok, Some(Tag(wireType, fieldNumber)))
    {
      ok := EncodeVarint(fieldNumber * 8 + wireType);
    }

    /** pb_encode_string. */
    method EncodeString(data: seq<Byte>) returns (ok: bool)
      requires Valid() && |data| < TWO_64
      modifies this, buf
      ensures Emits(old(View()), View(), ok, Some(Prefixed(data)))
    {
      ok := EncodeVarint(|data|);
      ghost var mid := View();
      if ok {
        ok := Write(data, |data|);
        EmitsBoth(old(View()), mid, View(), ok, Some(Varint(|data|)), Some(data));
      }
    }

    /** The field encoders pb_enc_varint to pb_enc_submessage, by type. */
    method EncodeValue(t: LType, v: Value) returns (ok: bool)
      requires Valid() && WellFormedType(t) && Typed(t, v) && ShortValue(t, v)
      modifies this, buf
      ensures Emits(old(View()), View(), ok, PbEncoding.EncodeValue(t, v))
      decreases t, 0
    {
      hide Varint, ZigZag, Little, Emits, Prefixed, EncodeMessage, Short;
      EmitsNone(View());
      match t
      case LVarint(_) => ok := EncodeVarint(ToUnsigned64(v.i));
      case LUVarint(_) => ok := EncodeVarint(v.i);
      case LSVarint(_) => ok := EncodeSVarint(v.i);
      case LFixed32 => ok := EncodeFixed32(v.i);
      case LFixed64 => ok := EncodeFixed64(v.i);
      case LBytes(dataSize) =>
        if |v.bytes| + 2 > dataSize {
          return false;
        }
        ok := EncodeString(v.bytes);
      case LString(dataSize) =>
        var size := StringLength(v.bytes, dataSize);
        ok := EncodeString(v.bytes[..size]);
      case LSub(fs) => ok := EncodeSubmessage(fs, v.slots);
    }

    /** pb_encode_submessage: size first, then the same again for real on a stream limited to it. */
    method EncodeSubmessage(fs: seq<FieldDef>, slots: seq<Slot>) returns (ok: bool)
      requires Valid() && WellFormed(fs) && TypedMessage(fs, slots) && Short(fs, slots) && ShortEncoding(EncodeMessage(fs, slots))
      modifies this, buf
      ensures Emits(old(View()), View(), ok, PrefixedOption(EncodeMessage(fs, slots)))
      decreases fs, 4
    {
      var sizing := new OStream.Sizing();
      ok := sizing.Encode(fs, slots);
      if !ok {
        return;
      }
      var size := sizing.bytesWritten;
      ghost var body := EncodeMessage(fs, slots).value;
      ok := EncodeVarint(size);
      ghost var mid := View();
      if !ok {
        EmitsFails(old(View()), mid, Some(Varint(|body|)), Some(body));
        return;
      }
      if buf == null {
        ok := Write([], size);
      } else {
        ok := WriteBody(fs, slots, size);
      }
      EmitsBoth(old(View()), mid, View(), ok, Some(Varint(|body|)), Some(body));
    }

    /** The second pass, on a stream over the same buffer limited to the size found. */
    method WriteBody(fs: seq<FieldDef>, slots: seq<Slot>, size: nat) returns (ok: bool)
      requires Valid() && buf != null && WellFormed(fs) && TypedMessage(fs, slots) && Short(fs, slots)
      requires EncodeMessage(fs, slots).Some? && size == |EncodeMessage(fs, slots).value|
      modifies this, buf
      ensures Emits(old(View()), View(), ok, EncodeMessage(fs, slots))
      decreases fs, 3
    {
      if bytesWritten + size > maxSize {
        return false;
      }
      var sub := new OStream.FromBuffer(buf, at, size);
      var status := sub.Encode(fs, slots);
      EmitsThroughSub(old(View()), sub.View(), status, EncodeMessage(fs, slots).value);
      bytesWritten := bytesWritten + sub.bytesWritten;
      at := sub.at;
      // "submsg size changed" cannot happen
      ok := sub.bytesWritten == size && status;
    }

    /** A tag and a value. */
    method EncodeTagged(f: FieldDef, v: Value) returns (ok: bool)
      requires Valid() && WellFormedField(f) && TypedAs(f, v) && ShortAs(f, v)
      modifies this, buf
      ensures Emits(old(View()), View(), ok, PbEncoding.EncodeTagged(f, v))
      decreases f, 0
    {
      ok := EncodeTag(WireType(f.ltype), f.tag);
      ghost var mid := View();
      ghost var t, e := Tag(WireType(f.ltype), f.tag), PbEncoding.EncodeValue(f.ltype, v);
      if ok {
        ok := EncodeValue(f.ltype, v);
        EmitsBoth(old(View()), mid, View(), ok, Some(t), e);
      } else {
        EmitsFails(old(View()), mid, Some(t), e);
      }
    }

    /** encode_array. */
    method EncodeArray(f: FieldDef, items: seq<Value>) returns (ok: bool)
      requires Valid() && WellFormedField(f) && f.rule.Repeated?
      requires forall k :: 0 <= k < |items| ==> TypedAs(f, items[k]) && ShortAs(f, items[k])
      modifies this, buf
      ensures Emits(old(View()), View(), ok, PbEncoding.EncodeArray(f, items))
      decreases f, 1
    {
      EmitsNothing(View());
      if |items| == 0 {
        return true;
      }
      if |items| > f.rule.max {
        return false;
      }
      if Packable(f.ltype) {
        ok := EncodePacked(f, items);
      } else {
        ok := EncodeSeparate(f, items);
      }
    }

    /** The loop of encode_array over entries that cannot be packed. */
    method EncodeSeparate(f: FieldDef, items: seq<Value>) returns (ok: bool)
      requires Valid() && WellFormedField(f)
      requires forall k :: 0 <= k < |items| ==> TypedAs(f, items[k]) && ShortAs(f, items[k])
      modifies this, buf
      ensures Emits(old(View()), View(), ok, PbEncoding.EncodeSeparate(f, items))
      decreases f, 1, 0
    {
      hide Emits, Fits, Join, PbEncoding.EncodeSeparate, PbEncoding.EncodeTagged, TypedAs, ShortAs, WellFormedField;
      ghost var s := View();
      EmitsNothing(s);
      NoEntries(f, items);
      var i := 0;
      while i < |items|
        invariant i <= |items| && Valid()
        invariant Emits(s, View(), true, PbEncoding.EncodeSeparate(f, items[..i]))
      {
        ghost var mid := View();
        ok := EncodeTagged(f, items[i]);
        SeparateStep(f, items, i, s, mid, View(), ok);
        if !ok {
          return;
        }
        i := i + 1;
      }
      assert items[..i] == items;
      ok := true;
    }

    /** The packable branch of encode_array. */
    method EncodePacked(f: FieldDef, items: seq<Value>) returns (ok: bool)
      requires Valid() && WellFormedField(f) && f.rule.Repeated? && Packable(f.ltype) && 0 < |items| <= f.rule.max
      requires forall k :: 0 <= k < |items| ==> TypedAs(f, items[k])
      modifies this, buf
      ensures Emits(old(View()), View(), ok, PbEncoding.EncodeArray(f, items))
      decreases f, 0
    {
      var t := f.ltype;
      forall k | 0 <= k < |items| ensures Typed(t, items[k]) {
        assert TypedAs(f, items[k]);
      }
      ghost var tag, payload := Tag(2, f.tag), Payload(t, items);
      assert PbEncoding.EncodeArray(f, items) == Join(Some(tag), Some(Prefixed(payload)));
      hide Emits, Fits, Join, PbEncoding.EncodeArray, Payload, Prefixed, Tag, Typed, TypedAs, Packable;
      ok := EncodeTag(2, f.tag);
      ghost var mid := View();
      if ok {
        ok := WritePacked(t, items);
        EmitsBoth(old(View()), mid, View(), ok, Some(tag), Some(Prefixed(payload)));
      } else {
        EmitsFails(old(View()), mid, Some(tag), Some(Prefixed(payload)));
      }
    }

    /** The size computed beforehand, and then the entries. */
    method WritePacked(t: LType, items: seq<Value>) returns (ok: bool)
      requires Valid() && Packable(t) && WellFormedType(t) && |items| < TWO_32
      requires forall k :: 0 <= k < |items| ==> Typed(t, items[k])
      modifies this, buf
      ensures Emits(old(View()), View(), ok, Some(Prefixed(Payload(t, items))))
      decreases t, 3
    {
      ghost var payload := Payload(t, items);
      var size := PackedSize(t, items);
      PayloadLength(t, items);
      assert Join(Some(Varint(size)), Some(payload)) == Some(Prefixed(payload));
      hide Emits, Fits, Join, Payload, Prefixed, Varint, Typed, Packable;
      ok := EncodeVarint(size);
      ghost var mid := View();
      if !ok {
        EmitsFails(old(View()), mid, Some(Varint(size)), Some(payload));
        return;
      }
      if buf == null {
        ok := Write([], size);
        CountsAll(mid, View(), payload);
      } else {
        ok := EncodeEach(t, items);
      }
      EmitsBoth(old(View()), mid, View(), ok, Some(Varint(size)), Some(payload));
    }

    /** Entry after entry, without tags. */
    method EncodeEach(t: LType, items: seq<Value>) returns (ok: bool)
      requires Valid() && Packable(t) && WellFormedType(t)
      requires forall k :: 0 <= k < |items| ==> Typed(t, items[k])
      modifies this, buf
      ensures Emits(old(View()), View(), ok, Some(Payload(t, items)))
      decreases t, 1
    {
      ghost var s := View();
      EmitsNothing(s);
      assert Payload(t, items[..0]) == [];
      hide Emits, Fits, Payload, Typed, Packable;
      var i := 0;
      while i < |items|
        invariant i <= |items| && Valid()
        invariant Emits(s, View(), true, Some(Payload(t, items[..i])))
      {
        ok := EncodeNext(t, items, i, s);
        if !ok {
          return;
        }
        i := i + 1;
      }
      assert items[..i] == items;
      ok := true;
    }

    /** The body of that loop; s is the stream as it was before the first entry. */
    method EncodeNext(t: LType, items: seq<Value>, i: nat, ghost s: Out) returns (ok: bool)
      requires Valid() && Packable(t) && WellFormedType(t)
      requires i < |items| && forall k :: 0 <= k < |items| ==> Typed(t, items[k])
      requires Fits(s) && Emits(s, View(), true, Some(Payload(t, items[..i])))
      modifies this, buf
      ensures Valid() && Emits(s, View(), ok, Some(Payload(t, if ok then items[..i + 1] else items)))
      decreases t, 1, 0
    {
      hide Emits, Fits, Payload, PbEncoding.EncodeValue, Typed;
      ghost var mid := View();
      ok := EncodeValue(t, items[i]);
      EachStep(t, items, i, s, mid, View(), ok);
    }

    /** encode_basic_field on entry i, whose data stands in slot `data`. */
    method EncodeField(fs: seq<FieldDef>, m: seq<Slot>, i: nat, data: nat) returns (ok: bool)
      requires Valid() && WellFormed(fs) && TypedMessage(fs, m) && i < |fs| && ShortSlot(fs, m, i) && data == Leader(fs, i)
      modifies this, buf
      ensures Emits(old(View()), View(), ok, PbEncoding.EncodeField(fs, m, i))
      decreases fs, 0
    {
      assert TypedSlot(fs, m, i) && WellFormedField(fs[i]);
      EmitsNothing(View());
      LeaderFacts(fs, i);
      ok := true;
      match fs[i].rule
      case Required => ok := EncodeTagged(fs[i], m[data].v);
      case Optional =>
        if m[data].has {
          ok := EncodeTagged(fs[i], m[data].v);
        }
      case Repeated(_) => ok := EncodeArray(fs[i], m[data].items);
      case Oneof =>
        if m[data].which == fs[i].tag {
          ok := EncodeTagged(fs[i], m[data].v);
        }
    }

    /** pb_encode. */
    method Encode(fs: seq<FieldDef>, m: seq<Slot>) returns (ok: bool)
      requires Valid() && WellFormed(fs) && TypedMessage(fs, m) && Short(fs, m)
      modifies this, buf
      ensures Emits(old(View()), View(), ok, EncodeMessage(fs, m))
      decreases fs, 2
    {
      hide Emits, Fits, EncodeUpTo, EncodeMessage, TypedMessage, Short, WellFormed;
      ghost var s := View();
      EmitsNothing(s);
      NoFields(fs, m);
      TagsNotZero(fs);
      var iter := new FieldIter(fs);
      var more := iter.Begin();
      while more
        invariant iter.Valid() && fresh(iter) && iter.start == fs && Valid()
        invariant more ==> iter.pos < |fs| && Emits(s, View(), true, EncodeUpTo(fs, m, iter.pos))
        invariant !more ==> Emits(s, View(), true, EncodeMessage(fs, m))
        decreases more, |fs| - iter.pos
      {
        ok := EncodeNextField(fs, m, iter.pos, iter.data, s);
        if !ok {
          return;
        }
        more := iter.Next();
      }
      ok := true;
    }

    /** The body of that loop; s is the stream as it was before the first field. */
    method EncodeNextField(fs: seq<FieldDef>, m: seq<Slot>, i: nat, data: nat, ghost s: Out) returns (ok: bool)
      requires Valid() && WellFormed(fs) && TypedMessage(fs, m) && Short(fs, m) && i < |fs| && data == Leader(fs, i)
      requires Fits(s) && Emits(s, View(), true, EncodeUpTo(fs, m, i))
      modifies this, buf
      ensures Valid() && Emits(s, View(), ok, if ok then EncodeUpTo(fs, m, i + 1) else EncodeMessage(fs, m))
      decreases fs, 1, 0
    {
      assert ShortSlot(fs, m, i);
      hide Emits, Fits, EncodeUpTo, EncodeMessage, PbEncoding.EncodeField, TypedMessage, Short, WellFormed;
      ghost var mid := View();
      ok := EncodeField(fs, m, i, data);
      FieldStep(fs, m, i, s, mid, View(), ok);
    }
  }

  function Overwritten(bytes: seq<Byte>, dest: nat, data: seq<Byte>): (r: seq<Byte>)
    requires dest + |data| <= |bytes|
    ensures |r| == |bytes|
  {
    bytes[..dest] + data + bytes[dest + |data|..]
  }

  lemma OverwriteOne(bytes: seq<Byte>, dest: nat, data: seq<Byte>, i: nat)
    requires i < |data| && dest + |data| <= |bytes|
    ensures Overwritten(bytes, dest, data[..i])[dest + i := data[i]] == Overwritten(bytes, dest, data[..i + 1])
  {
  }

  /** buf_write. */
  method BufWrite(buf: array<Byte>, dest: nat, data: seq<Byte>)
    requires dest + |data| <= buf.Length
    modifies buf
    ensures buf[..] == Overwritten(old(buf[..]), dest, data)
  {
    assert buf[..] == Overwritten(buf[..], dest, data[..0]);
    hide Overwritten;
    var i := 0;
    while i < |data|
      invariant i <= |data|
      invariant buf[..] == Overwritten(old(buf[..]), dest, data[..i])
    {
      OverwriteOne(old(buf[..]), dest, data, i);
      buf[dest + i] := data[i];
      i := i + 1;
    }
    assert data[..i] == data;
  }

  lemma WroteAll(s: Out, data: seq<Byte>)
    requires Fits(s) && !s.counting && |data| <= RoomIn(s)
    ensures Emits(s, Out(false, Overwritten(s.bytes, s.at, data), s.at + |data|, s.maxSize, s.written + |data|), true, Some(data))
  {
  }

  lemma CountsAll(s: Out, s': Out, data: seq<Byte>)
    requires Fits(s) && s.counting && s'.counting && s'.written == s.written + |data|
    ensures Emits(s, s', true, Some(data))
  {
  }

  lemma TagsNotZero(fs: seq<FieldDef>)
    requires WellFormed(fs)
    ensures forall j :: 0 <= j < |fs| ==> fs[j].tag != 0
  {
    forall j | 0 <= j < |fs| ensures fs[j].tag != 0 {
      assert WellFormedField(fs[j]);
    }
  }

  lemma FourBytes(v: nat)
    ensures Little(v, 4) == [v % 256, v / 0x100 % 256, v / 0x1_0000 % 256, v / 0x100_0000 % 256]
  {
    assert Little(v, 4) == [v % 256] + Little(v / 256, 3);
    assert Little(v / 256, 3) == [v / 256 % 256] + Little(v / 256 / 256, 2);
    assert Little(v / 256 / 256, 2) == [v / 256 / 256 % 256] + Little(v / 256 / 256 / 256, 1);
    assert Little(v / 256 / 256 / 256, 1) == [v / 256 / 256 / 256 % 256] + Little(v / 256 / 256 / 256 / 256, 0);
  }

  lemma EightBytes(v: nat)
    ensures Little(v, 8) == [v % 256, v / 0x100 % 256, v / 0x1_0000 % 256, v / 0x100_0000 % 256,
                             v / 0x1_0000_0000 % 256, v / 0x100_0000_0000 % 256,
                             v / 0x1_0000_0000_0000 % 256, v / 0x100_0000_0000_0000 % 256]
  {
    var q := v / 0x1_0000_0000;
    FourBytes(v);
    FourBytes(q);
    assert v / 0x100 / 256 / 256 / 256 == q;
    LittleStep(v, 7);
    LittleStep(v / 256, 6);
    LittleStep(v / 256 / 256, 5);
    LittleStep(v / 256 / 256 / 256, 4);
    hide Little;
    assert v / 256 / 256 == v / 0x1_0000 && v / 0x1_0000 / 256 == v / 0x100_0000;
    assert q / 0x100 == v / 0x100_0000_0000;
    assert q / 0x1_0000 == v / 0x1_0000_0000_0000;
    assert q / 0x100_0000 == v / 0x100_0000_0000_0000;
  }

  lemma LittleStep(v: nat, n: nat)
    ensures Little(v, n + 1) == [v % 256] + Little(v / 256, n)
  {
  }

  lemma {:induction false} SeparateGrows(f: FieldDef, items: seq<Value>, n: nat)
    requires n <= |items| && forall k :: 0 <= k < |items| ==> TypedAs(f, items[k])
    ensures PbEncoding.EncodeSeparate(f, items).Some? ==> PbEncoding.EncodeSeparate(f, items[..n]).Some?
    ensures PbEncoding.EncodeSeparate(f, items).Some? ==>
              |PbEncoding.EncodeSeparate(f, items[..n]).value| <= |PbEncoding.EncodeSeparate(f, items).value|
    decreases |items|
  {
    if n == |items| {
      assert items[..n] == items;
    } else {
      SeparateGrows(f, items[..|items| - 1], n);
      assert items[..|items| - 1][..n] == items[..n];
    }
  }

  lemma {:induction false} PayloadGrows(t: LType, items: seq<Value>, n: nat)
    requires n <= |items| && Packable(t) && forall k :: 0 <= k < |items| ==> Typed(t, items[k])
    ensures |Payload(t, items[..n])| <= |Payload(t, items)|
    decreases |items|
  {
    if n == |items| {
      assert items[..n] == items;
    } else {
      PayloadGrows(t, items[..|items| - 1], n);
      assert items[..|items| - 1][..n] == items[..n];
    }
  }

  lemma {:induction false} UpToGrows(fs: seq<FieldDef>, m: seq<Slot>, n: nat, k: nat)
    requires TypedMessage(fs, m) && n <= k <= |fs|
    ensures EncodeUpTo(fs, m, k).Some? ==>
              EncodeUpTo(fs, m, n).Some? && |EncodeUpTo(fs, m, n).value| <= |EncodeUpTo(fs, m, k).value|
    decreases k
  {
    if n < k {
      UpToGrows(fs, m, n, k - 1);
    }
  }

  lemma ScalarLength(t: LType, i: int)
    requires Packable(t) && WellFormedType(t) && Typed(t, Int(i))
    ensures |EncodeScalar(t, i)| <= 10
    ensures t.LFixed32? ==> |EncodeScalar(t, i)| == 4
    ensures t.LFixed64? ==> |EncodeScalar(t, i)| == 8
  {
    assert Power128(5) == 128 * 128 * 128 * 128 * 128;
    assert Power128(10) == 128 * 128 * 128 * 128 * 128 * Power128(5);
    match t
    case LVarint(_) => VarintLength(ToUnsigned64(i), 10);
    case LUVarint(_) => VarintLength(i, 10);
    case LSVarint(_) => VarintLength(ZigZag(i), 10);
    case _ =>
  }

  /** The two shortcuts in encode_array, and a bound for the rest. */
  lemma {:induction false} PayloadLength(t: LType, items: seq<Value>)
    requires Packable(t) && WellFormedType(t) && forall k :: 0 <= k < |items| ==> Typed(t, items[k])
    ensures |Payload(t, items)| <= 10 * |items|
    ensures t.LFixed32? ==> |Payload(t, items)| == 4 * |items|
    ensures t.LFixed64? ==> |Payload(t, items)| == 8 * |items|
    decreases |items|
  {
    if items != [] {
      assert Typed(t, items[|items| - 1]);
      PayloadLength(t, items[..|items| - 1]);
      ScalarLength(t, items[|items| - 1].i);
    }
  }

  /** The loop of pb_encode_varint: ten bytes are always enough. */
  method VarintBuffer(value: nat) returns (buffer: array<Byte>, count: nat)
    requires 0 < value < TWO_64
    ensures buffer.Length == 10 && count <= 10 && buffer[..count] == Varint(value)
    ensures fresh(buffer)
  {
    buffer := new Byte[10];
    count := 0;
    var rest: nat := value;
    TenGroups(value);
    hide Varint;
    ghost var front: seq<Byte> := [];
    assert Buffered(value, front, value);
    hide *;
    while rest != 0
      invariant count <= 10 && rest < Power128(10 - count)
      invariant front == buffer[..count] && Buffered(value, front, rest)
      decreases rest
    {
      GroupFits(rest, 10 - count);
      BufferStep(value, front, rest);
      buffer[count] := Marked(rest);
      front := front + [Marked(rest)];
      rest := rest / 128;
      count := count + 1;
    }
    BufferEnd(value, front);
    buffer[count - 1] := buffer[count - 1] - 128;
    assert buffer[..count] == front[count - 1 := front[count - 1] - 128];
  }

  lemma TenGroups(value: nat)
    requires value < TWO_64
    ensures value < Power128(10)
  {
    assert Power128(10) == 128 * 128 * 128 * 128 * 128 * Power128(5) && Power128(5) == 128 * 128 * 128 * 128 * 128;
  }

  /** The lowest seven bits, marked as continued. */
  function Marked(v: nat): Byte { v % 128 + 128 }

  lemma GroupFits(rest: nat, n: nat)
    requires 0 < rest < Power128(n)
    ensures n > 0 && rest / 128 < rest && rest / 128 < Power128(n - 1)
  {
  }

  /** The groups of `value` written so far, all marked as continued, and what is left to write. */
  predicate Buffered(value: nat, front: seq<Byte>, rest: nat) {
    if rest > 0 then Varint(value) == front + Varint(rest)
    else front != [] && front[|front| - 1] >= 128 && Varint(value) == front[..|front| - 1] + [front[|front| - 1] - 128]
  }

  lemma BufferStep(value: nat, front: seq<Byte>, rest: nat)
    requires rest > 0 && Buffered(value, front, rest)
    ensures Buffered(value, front + [Marked(rest)], rest / 128)
  {
    var next := front + [Marked(rest)];
    assert next[..|next| - 1] == front;
    if rest >= 128 {
      assert front + Varint(rest) == next + Varint(rest / 128);
    }
  }

  /** Taking the mark off the last group leaves the varint. */
  lemma BufferEnd(value: nat, front: seq<Byte>)
    requires Buffered(value, front, 0)
    ensures front != [] && front[|front| - 1] >= 128
    ensures Varint(value) == front[|front| - 1 := front[|front| - 1] - 128]
  {
  }

  /** One more field, or the first that fails. */
  lemma FieldStep(fs: seq<FieldDef>, m: seq<Slot>, i: nat, s: Out, s': Out, s'': Out, ok: bool)
    requires TypedMessage(fs, m) && i < |fs|
    requires Fits(s) && Emits(s, s', true, EncodeUpTo(fs, m, i))
    requires Fits(s') && Emits(s', s'', ok, PbEncoding.EncodeField(fs, m, i))
    ensures Fits(s'')
    ensures Emits(s, s'', ok, if ok then EncodeUpTo(fs, m, i + 1) else EncodeMessage(fs, m))
  {
    hide Emits, PbEncoding.EncodeField;
    EmitsBoth(s, s', s'', ok, EncodeUpTo(fs, m, i), PbEncoding.EncodeField(fs, m, i));
    if !ok {
      UpToGrows(fs, m, i + 1, |fs|);
      EmitsFailsEarly(s, s'', EncodeUpTo(fs, m, i + 1), EncodeMessage(fs, m));
    }
  }

  lemma NoEntries(f: FieldDef, items: seq<Value>)
    ensures PbEncoding.EncodeSeparate(f, items[..0]) == Some([])
  {
  }

  lemma NoFields(fs: seq<FieldDef>, m: seq<Slot>)
    requires TypedMessage(fs, m)
    ensures EncodeUpTo(fs, m, 0) == Some([]) && EncodeMessage(fs, m) == EncodeUpTo(fs, m, |fs|)
  {
  }

  /** One more entry of a plain array, or the first that fails. */
  lemma SeparateStep(f: FieldDef, items: seq<Value>, i: nat, s: Out, s': Out, s'': Out, ok: bool)
    requires i < |items| && forall k :: 0 <= k < |items| ==> TypedAs(f, items[k])
    requires Fits(s) && Emits(s, s', true, PbEncoding.EncodeSeparate(f, items[..i]))
    requires Fits(s') && Emits(s', s'', ok, PbEncoding.EncodeTagged(f, items[i]))
    ensures Fits(s'')
    ensures Emits(s, s'', ok, PbEncoding.EncodeSeparate(f, if ok then items[..i + 1] else items))
  {
    assert items[..i + 1][..i] == items[..i];
    assert PbEncoding.EncodeSeparate(f, items[..i + 1])
        == Join(PbEncoding.EncodeSeparate(f, items[..i]), PbEncoding.EncodeTagged(f, items[i]));
    hide *;
    EmitsBoth(s, s', s'', ok, PbEncoding.EncodeSeparate(f, items[..i]), PbEncoding.EncodeTagged(f, items[i]));
    if !ok {
      SeparateGrows(f, items, i + 1);
      EmitsFailsEarly(s, s'', PbEncoding.EncodeSeparate(f, items[..i + 1]), PbEncoding.EncodeSeparate(f, items));
    }
  }

  lemma PayloadStep(t: LType, items: seq<Value>, i: nat)
    requires Packable(t) && i < |items| && forall k :: 0 <= k < |items| ==> Typed(t, items[k])
    ensures Join(Some(Payload(t, items[..i])), PbEncoding.EncodeValue(t, items[i])) == Some(Payload(t, items[..i + 1]))
  {
    hide EncodeScalar;
    assert Typed(t, items[i]);
    assert items[..i + 1][..i] == items[..i];
  }

  /** One more entry of a packed array, or the first that does not fit. */
  lemma EachStep(t: LType, items: seq<Value>, i: nat, s: Out, s': Out, s'': Out, ok: bool)
    requires Packable(t) && i < |items| && forall k :: 0 <= k < |items| ==> Typed(t, items[k])
    requires Fits(s) && Emits(s, s', true, Some(Payload(t, items[..i])))
    requires Fits(s') && Emits(s', s'', ok, PbEncoding.EncodeValue(t, items[i]))
    ensures Fits(s'')
    ensures Emits(s, s'', ok, Some(Payload(t, if ok then items[..i + 1] else items)))
  {
    PayloadStep(t, items, i);
    hide Emits, Fits, Payload, PbEncoding.EncodeValue, Typed, Packable;
    var e, e' := Payload(t, items[..i + 1]), Payload(t, items);
    EmitsBoth(s, s', s'', ok, Some(Payload(t, items[..i])), PbEncoding.EncodeValue(t, items[i]));
    if !ok {
      PayloadGrows(t, items, i + 1);
      EmitsFailsEarly(s, s'', Some(e), Some(e'));
    }
  }

  /** The loop of pb_enc_string: no further than the slot. */
  method StringLength(text: seq<Byte>, maxSize: nat) returns (size: nat)
    ensures size == TextLength(text, maxSize)
  {
    size := 0;
    while size < maxSize && size < |text| && text[size] != 0
      invariant size <= maxSize && size <= |text|
      invariant TextLength(text, maxSize) == size + TextLength(text[size..], maxSize - size)
    {
      assert text[size..][1..] == text[size + 1..];
      size := size + 1;
    }
  }

  /** The size encode_array computes for a packed array before it writes it. */
  method PackedSize(t: LType, items: seq<Value>) returns (size: nat)
    requires Packable(t) && WellFormedType(t)
    requires forall k :: 0 <= k < |items| ==> Typed(t, items[k])
    ensures size == |Payload(t, items)|
    decreases t, 2
  {
    PayloadLength(t, items);
    if t.LFixed32? {
      size := 4 * |items|;
    } else if t.LFixed64? {
      size := 8 * |items|;
    } else {
      var sizestream := new OStream.Sizing();
      var _ := sizestream.EncodeEach(t, items);
      size := sizestream.bytesWritten;
    }
  }

  /** pb_get_encoded_size. */
  method GetEncodedSize(fs: seq<FieldDef>, m: seq<Slot>) returns (ok: bool, size: nat)
    requires WellFormed(fs) && TypedMessage(fs, m) && Short(fs, m)
    ensures ok == EncodeMessage(fs, m).Some?
    ensures ok ==> size == |EncodeMessage(fs, m).value|
  {
    size := 0;
    var stream := new OStream.Sizing();
    ok := stream.Encode(fs, m);
    if ok {
      size := stream.bytesWritten;
    }
  }

  /** Counting and writing agree: the message goes into a buffer exactly when its encoded size is
      no more than the room there, and then takes exactly that many bytes. */
  lemma SizingAgreesWithWriting(e: Option<seq<Byte>>, c: Out, c': Out, fits: bool, w: Out, w': Out, ok: bool)
    requires c.counting && Fits(c) && c.written == 0 && Emits(c, c', fits, e)
    requires !w.counting && Fits(w) && Emits(w, w', ok, e)
    ensures ok <==> fits && c'.written <= RoomIn(w)
    ensures ok ==> w'.written == w.written + c'.written && w'.at == w.at + c'.written
    ensures ok ==> w'.bytes == Overwritten(w.bytes, w.at, e.value)
  {
    if ok {
      assert w'.bytes == w'.bytes[..w'.at] + w'.bytes[w'.at..];
    }
  }
}
