/** What a message encodes to: the bytes pb_encode produces, or None where it reports an error. */
module PbEncoding {
  import opened PbWire
  import opened PbTypes
  import opened Options

  function ToUnsigned64(i: int): nat
    requires -0x8000_0000_0000_0000 <= i < TWO_64
  {
    if i < 0 then i + TWO_64 else i
  }

  /** The text of a string slot: up to the terminator, and never past the slot. */
  function TextLength(b: seq<Byte>, max: nat): (n: nat)
    ensures n <= |b| && n <= max
    ensures forall k :: 0 <= k < n ==> b[k] != 0
    ensures n < max && n < |b| ==> b[n] == 0
  {
    if max == 0 || b == [] || b[0] == 0 then 0 else 1 + TextLength(b[1..], max - 1)
  }

  function Prefixed(body: seq<Byte>): seq<Byte> { Varint(|body|) + body }

  function EncodeScalar(t: LType, i: int): seq<Byte>
    requires Packable(t) && Typed(t, Int(i))
  {
    match t
    case LVarint(_) => Varint(ToUnsigned64(i))
    case LUVarint(_) => Varint(i)
    case LSVarint(_) => Varint(ZigZag(i))
    case LFixed32 => Little(i, 4)
    case LFixed64 => Little(i, 8)
  }

  function EncodeValue(t: LType, v: Value): Option<seq<Byte>>
    requires Typed(t, v)
    decreases t, 0
  {
    match t
    case LBytes(n) => if |v.bytes| + 2 > n then None else Some(Prefixed(v.bytes))
    case LString(n) => Some(Prefixed(v.bytes[..TextLength(v.bytes, n)]))
    case LSub(fs) => (match EncodeMessage(fs, v.slots) case None => None case Some(body) => Some(Prefixed(body)))
    case _ => Some(EncodeScalar(t, v.i))
  }

  /** The entries of a packed array, one after the other. */
  function Payload(t: LType, items: seq<Value>): seq<Byte>
    requires Packable(t) && forall k :: 0 <= k < |items| ==> Typed(t, items[k])
  {
    if items == [] then []
    else
      assert Typed(t, items[|items| - 1]);
      Payload(t, items[..|items| - 1]) + EncodeScalar(t, items[|items| - 1].i)
  }

  /** Tag and value. */
  function EncodeTagged(f: FieldDef, v: Value): Option<seq<Byte>>
    requires TypedAs(f, v)
    decreases f, 0
  {
    match EncodeValue(f.ltype, v)
    case None => None
    case Some(b) => Some(Tag(WireType(f.ltype), f.tag) + b)
  }

  /** Entries that cannot be packed: each with its own tag. */
  function EncodeSeparate(f: FieldDef, items: seq<Value>): Option<seq<Byte>>
    requires forall k :: 0 <= k < |items| ==> TypedAs(f, items[k])
    decreases f, 1, |items|
  {
    if items == [] then Some([])
    else
      match EncodeSeparate(f, items[..|items| - 1])
      case None => None
      case Some(front) =>
        match EncodeTagged(f, items[|items| - 1])
        case None => None
        case Some(last) => Some(front + last)
  }

  /** encode_array. */
  function EncodeArray(f: FieldDef, items: seq<Value>): Option<seq<Byte>>
    requires f.rule.Repeated? && forall k :: 0 <= k < |items| ==> TypedAs(f, items[k])
    decreases f, 2
  {
    assert forall k :: 0 <= k < |items| ==> TypedAs(f, items[k]) ==> Typed(f.ltype, items[k]);
    if items == [] then Some([])
    else if |items| > f.rule.max then None
    else if Packable(f.ltype) then Some(Tag(2, f.tag) + Prefixed(Payload(f.ltype, items)))
    else EncodeSeparate(f, items)
  }

  /** encode_basic_field on entry i. */
  function EncodeField(fs: seq<FieldDef>, m: seq<Slot>, i: nat): Option<seq<Byte>>
    requires TypedMessage(fs, m) && i < |fs|
    decreases fs, 0
  {
    assert TypedSlot(fs, m, i);
    match fs[i].rule
    case Required => EncodeTagged(fs[i], m[i].v)
    case Optional => if m[i].has then EncodeTagged(fs[i], m[i].v) else Some([])
    case Repeated(_) => EncodeArray(fs[i], m[i].items)
    case Oneof =>
      var u := m[Leader(fs, i)];
      if u.which == fs[i].tag then EncodeTagged(fs[i], u.v) else Some([])
  }

  /** The first n entries in order. */
  function EncodeUpTo(fs: seq<FieldDef>, m: seq<Slot>, n: nat): Option<seq<Byte>>
    requires TypedMessage(fs, m) && n <= |fs|
    decreases fs, 1, n
  {
    if n == 0 then Some([])
    else
      match EncodeUpTo(fs, m, n - 1)
      case None => None
      case Some(front) =>
        match EncodeField(fs, m, n - 1)
        case None => None
        case Some(last) => Some(front + last)
  }

  function EncodeMessage(fs: seq<FieldDef>, m: seq<Slot>): Option<seq<Byte>>
    requires TypedMessage(fs, m)
    decreases fs, 2
  {
    EncodeUpTo(fs, m, |fs|)
  }

  // ---- Valid messages ----

  /** Bytes that fit their slot, strings that end inside theirs, counts within bounds. */
  predicate ValidValue(t: LType, v: Value)
    requires Typed(t, v)
    decreases t, 0
  {
    match t
    case LBytes(n) => |v.bytes| + 2 <= n
    case LString(n) => |v.bytes| < n || 0 in v.bytes
    case LSub(fs) => ValidMessage(fs, v.slots)
    case _ => true
  }

  predicate ValidAs(f: FieldDef, v: Value)
    requires TypedAs(f, v)
    decreases f, 1
  {
    ValidValue(f.ltype, v)
  }

  predicate ValidSlot(fs: seq<FieldDef>, m: seq<Slot>, i: nat)
    requires TypedMessage(fs, m) && i < |fs|
    decreases fs, 0
  {
    assert TypedSlot(fs, m, i);
    match fs[i].rule
    case Required => ValidAs(fs[i], m[i].v)
    case Optional => m[i].has ==> ValidAs(fs[i], m[i].v)
    case Repeated(max) => |m[i].items| <= max && forall k :: 0 <= k < |m[i].items| ==> ValidAs(fs[i], m[i].items[k])
    case Oneof => m[Leader(fs, i)].which == fs[i].tag ==> ValidAs(fs[i], m[Leader(fs, i)].v)
  }

  predicate ValidMessage(fs: seq<FieldDef>, m: seq<Slot>)
    requires TypedMessage(fs, m)
    decreases fs, 1
  {
    forall i :: 0 <= i < |fs| ==> ValidSlot(fs, m, i)
  }
}
