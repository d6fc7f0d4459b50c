/** What an input decodes to: the message pb_decode leaves behind, or failure. */
module PbDecoding {
  import opened PbWire
  import opened PbTypes
  import opened PbEncoding
  import opened Options

  function Signed(u: nat, width: nat): int
    requires u < Limit(width)
  {
    if u < -Minimum(width) then u else u - Limit(width)
  }

  /** pb_dec_varint: fields of up to four bytes see only the low 32 bits. */
  function NarrowSigned(u: nat, width: nat): Option<int>
    requires u < TWO_64
  {
    var s := if width == 8 then Signed(u, 8) else Signed(u % TWO_32, 4);
    if SignedFits(s, width) then Some(s) else None
  }

  lemma {:induction false} VarintBound(s: In, k: nat)
    requires Sound(s) && k < 10
    requires ReadVarintFrom(s, k, 10, 2).Got?
    ensures ReadVarintFrom(s, k, 10, 2).value < Room(k, 10, 2)
    decreases s.left
  {
    var r := ReadByte(s);
    if r.value >= 128 {
      if k < 9 {
        VarintBound(r.after, k + 1);
        assert LowGroup(r.value, k, 10, 2) < 128;
        assert Room(k, 10, 2) == 128 * Room(k + 1, 10, 2);
      }
    } else if k == 9 {
      assert Room(9, 10, 2) == 2;
    } else {
      RoomGrows(k);
    }
  }

  lemma {:induction false} RoomGrows(k: nat)
    requires k < 9
    ensures Room(k, 10, 2) >= 128
    decreases 9 - k
  {
    if k < 8 {
      RoomGrows(k + 1);
    } else {
      assert Room(9, 10, 2) == 2;
    }
  }

  function ReadVarint(s: In): (r: Read<nat>)
    requires Sound(s)
    ensures Follows(s, r.after)
    ensures r.Got? ==> r.value < TWO_64 && r.after.left < s.left
  {
    var r := ReadVarint64(s);
    assert r.Got? ==> r.value < TWO_64 by {
      if r.Got? {
        VarintBound(s, 0);
        assert Room(5, 10, 2) == 128 * 128 * 128 * 128 * 2;
        assert Room(0, 10, 2) == TWO_64;
      }
    }
    r
  }

  function Checked(fits: bool, i: int, after: In): Read<Value> { if fits then Got(Int(i), after) else Bad(after) }

  /** pb_dec_varint, pb_dec_uvarint, pb_dec_svarint, pb_dec_fixed32 and pb_dec_fixed64. */
  function DecodeScalar(t: LType, s: In): (r: Read<Value>)
    requires Packable(t) && Sound(s)
    ensures Follows(s, r.after)
    ensures r.Got? ==> r.after.left < s.left && Typed(t, r.value)
  {
    match t
    case LVarint(w) =>
      (match ReadVarint(s)
       case Bad(s') => Bad(s')
       case Got(u, s') =>
         match NarrowSigned(u, w)
         case None => Bad(s')
         case Some(i) => Got(Int(i), s'))
    case LUVarint(w) =>
      (match ReadVarint(s)
       case Bad(s') => Bad(s')
       case Got(u, s') => Checked(u < Limit(w), u, s'))
    case LSVarint(w) =>
      (match ReadVarint(s)
       case Bad(s') => Bad(s')
       case Got(u, s') => Checked(SignedFits(UnZigZag(u), w), UnZigZag(u), s'))
    case LFixed32 =>
      (match ReadBytes(s, 4)
       case Bad(s') => Bad(s')
       case Got(b, s') => LittleBound(b); Got(Int(LittleValue(b)), s'))
    case LFixed64 =>
      (match ReadBytes(s, 8)
       case Bad(s') => Bad(s')
       case Got(b, s') => LittleBound(b); Got(Int(LittleValue(b)), s'))
  }

  lemma {:induction false} LittleBound(b: seq<Byte>)
    ensures LittleValue(b) < Power256(|b|)
    ensures Power256(4) == TWO_32 && Power256(8) == TWO_64
  {
    if b != [] {
      LittleBound(b[1..]);
    }
    assert Power256(4) == TWO_32;
    assert Power256(8) == TWO_64;
  }

  /** pb_dec_bytes. */
  function DecodeBytes(n: nat, s: In): (r: Read<Value>)
    requires Sound(s)
    ensures Follows(s, r.after)
    ensures r.Got? ==> r.value.Raw? && |r.value.bytes| <= 0xffff
  {
    match ReadVarint32(s)
    case Bad(s') => Bad(s')
    case Got(size, s') =>
      if size > 0xffff || size + 2 > n then Bad(s')
      else
        match ReadBytes(s', size)
        case Bad(s'') => Bad(s'')
        case Got(b, s'') => Got(Raw(b), s'')
  }

  /** pb_dec_string: the text ends at the first terminator. */
  function DecodeString(n: nat, s: In): (r: Read<Value>)
    requires Sound(s)
    ensures Follows(s, r.after)
    ensures r.Got? ==> r.value.Raw? && |r.value.bytes| <= n
  {
    match ReadVarint32(s)
    case Bad(s') => Bad(s')
    case Got(size, s') =>
      if size + 1 > n then Bad(s')
      else
        match ReadBytes(s', size)
        case Bad(s'') => Bad(s'')
        case Got(b, s'') => Got(Raw(b[..TextLength(b, n)]), s'')
  }

  /** The field decoders, by type. A submessage decodes into `into`. */
  function DecodeValue(t: LType, into: Value, s: In): (r: Read<Value>)
    requires WellFormedType(t) && Sound(s) && (t.LSub? ==> Typed(t, into))
    ensures Follows(s, r.after)
    ensures r.Got? ==> Typed(t, r.value)
    decreases t, 0
  {
    match t
    case LBytes(n) => DecodeBytes(n, s)
    case LString(n) => DecodeString(n, s)
    case LSub(fs) =>
      (match OpenSub(s)
       case Bad(s') => Bad(s')
       case Got(sub, parent) =>
         match DecodeNoInit(fs, into.slots, sub)
         case Failed => Bad(parent)
         case Decoded(m, sub') => Got(Msg(m), CloseSub(sub', parent)))
    case _ => DecodeScalar(t, s)
  }

  function DecodeAs(f: FieldDef, into: Value, s: In): (r: Read<Value>)
    requires WellFormedField(f) && Sound(s) && TypedAs(f, into)
    ensures Follows(s, r.after)
    ensures r.Got? ==> TypedAs(f, r.value)
    decreases f, 0
  {
    DecodeValue(f.ltype, into, s)
  }

  /** The packed loop: entries until the substream or the array is exhausted. */
  function DecodePacked(t: LType, max: nat, items: seq<Value>, sub: In): (r: Read<seq<Value>>)
    requires Packable(t) && Sound(sub) && forall k :: 0 <= k < |items| ==> Typed(t, items[k])
    ensures Follows(sub, r.after)
    ensures r.Got? ==> forall k :: 0 <= k < |r.value| ==> Typed(t, r.value[k])
    decreases sub.left
  {
    if sub.left == 0 || |items| >= max then Got(items, sub)
    else
      match DecodeScalar(t, sub)
      case Bad(s') => Bad(s')
      case Got(v, s') => DecodePacked(t, max, items + [v], s')
  }

  datatype FieldResult = NoField | FieldDone(m: seq<Slot>, after: In)

  function DecodeRepeated(f: FieldDef, items: seq<Value>, wireType: nat, s: In): (r: Read<seq<Value>>)
    requires WellFormedField(f) && f.rule.Repeated? && Sound(s)
    requires forall k :: 0 <= k < |items| ==> TypedAs(f, items[k])
    ensures Follows(s, r.after)
    ensures r.Got? ==> forall k :: 0 <= k < |r.value| ==> TypedAs(f, r.value[k])
    decreases f, 1
  {
    if wireType == 2 && Packable(f.ltype) then
      assert forall k :: 0 <= k < |items| ==> TypedAs(f, items[k]) ==> Typed(f.ltype, items[k]);
      match OpenSub(s)
      case Bad(s') => Bad(s')
      case Got(sub, parent) =>
        match DecodePacked(f.ltype, f.rule.max, items, sub)
        case Bad(sub') => Bad(parent)
        case Got(items', sub') => if sub'.left != 0 then Bad(parent) else Got(items', CloseSub(sub', parent))
    else if |items| >= f.rule.max then Bad(s)
    else
      match DecodeAs(f, DefaultValue(f), s)
      case Bad(s') => Bad(s')
      case Got(v, s') => Got(items + [v], s')
  }

  /** decode_static_field on entry i. */
  function DecodeField(fs: seq<FieldDef>, m: seq<Slot>, i: nat, wireType: nat, s: In): (r: FieldResult)
    requires WellFormed(fs) && TypedMessage(fs, m) && i < |fs| && Sound(s)
    ensures r.FieldDone? ==> Follows(s, r.after) && TypedMessage(fs, r.m)
    decreases fs, 0
  {
    var f := fs[i];
    assert TypedSlot(fs, m, i) && WellFormedField(f);
    match f.rule
    case Required =>
      (match DecodeAs(f, m[i].v, s)
       case Bad(_) => NoField
       case Got(v, s') => StoreTyped(fs, m, i, One(v)); FieldDone(m[i := One(v)], s'))
    case Optional =>
      (match DecodeAs(f, m[i].v, s)
       case Bad(_) => NoField
       case Got(v, s') => StoreTyped(fs, m, i, Maybe(true, v)); FieldDone(m[i := Maybe(true, v)], s'))
    case Repeated(_) =>
      (match DecodeRepeated(f, m[i].items, wireType, s)
       case Bad(_) => NoField
       case Got(items, s') => StoreTyped(fs, m, i, Many(items)); FieldDone(m[i := Many(items)], s'))
    case Oneof =>
      (match DecodeAs(f, DefaultValue(f), s)
       case Bad(_) => NoField
       case Got(v, s') =>
         UnionTyped(fs, m, i, v);
         FieldDone(m[Leader(fs, i) := Union(f.tag, v)], s'))
  }

  lemma StoreTyped(fs: seq<FieldDef>, m: seq<Slot>, i: nat, slot: Slot)
    requires TypedMessage(fs, m) && i < |fs| && !fs[i].rule.Oneof?
    requires fs[i].rule.Required? ==> slot.One? && TypedAs(fs[i], slot.v)
    requires fs[i].rule.Optional? ==> slot.Maybe? && TypedAs(fs[i], slot.v)
    requires fs[i].rule.Repeated? ==> slot.Many? && forall k :: 0 <= k < |slot.items| ==> TypedAs(fs[i], slot.items[k])
    ensures TypedMessage(fs, m[i := slot])
  {
    var m' := m[i := slot];
    LeadersAreOneofs(fs);
    forall j | 0 <= j < |fs| ensures TypedSlot(fs, m', j) {
      assert TypedSlot(fs, m, j);
      assert fs[j].rule.Oneof? ==> Leader(fs, j) != i;
    }
    assert |m'| == |fs|;
    assert TypedMessage(fs, m');
  }

  lemma UnionTyped(fs: seq<FieldDef>, m: seq<Slot>, i: nat, v: Value)
    requires WellFormed(fs) && TypedMessage(fs, m) && i < |fs| && fs[i].rule.Oneof? && TypedAs(fs[i], v)
    ensures TypedMessage(fs, m[Leader(fs, i) := Union(fs[i].tag, v)])
  {
    var l := Leader(fs, i);
    var m' := m[l := Union(fs[i].tag, v)];
    LeadersAreOneofs(fs);
    forall j | 0 <= j < |fs| ensures TypedSlot(fs, m', j) {
      assert TypedSlot(fs, m, j);
      if j != i {
        assert fs[j].tag != fs[i].tag by {
          if j < i {} else {}
        }
      }
    }
    assert |m'| == |fs|;
    assert TypedMessage(fs, m');
  }

  datatype Result = Failed | Decoded(m: seq<Slot>, after: In)

  /** How the field loop ended: by failure, or with the message, the required entries met, the
      stream, and whether it stopped between fields rather than at an end marker. */
  datatype LoopResult = Stuck | Done(m: seq<Slot>, seen: set<nat>, after: In, clean: bool)

  /** The loop of pb_decode_noinit. */
  function DecodeLoop(fs: seq<FieldDef>, m: seq<Slot>, seen: set<nat>, s: In): (r: LoopResult)
    requires WellFormed(fs) && TypedMessage(fs, m) && Sound(s)
    ensures r.Done? ==> Follows(s, r.after) && TypedMessage(fs, r.m)
    decreases fs, 1, s.left
  {
    if s.left == 0 then Done(m, seen, s, true)
    else
      match ReadTag(s)
      case Eof(s') => Done(m, seen, s', false)
      case TagError(_) => Stuck
      case Header(tag, wireType, s') =>
        if fs == [] && tag == 0 then Stuck
        else
          match Find(fs, tag)
          case None =>
            (match SkipField(s', wireType)
             case Bad(_) => Stuck
             case Got(_, s'') => DecodeLoop(fs, m, seen, s''))
          case Some(i) =>
            match DecodeField(fs, m, i, wireType, s')
            case NoField => Stuck
            case FieldDone(m', s'') => DecodeLoop(fs, m', Mark(fs, seen, i), s'')
  }

  function Mark(fs: seq<FieldDef>, seen: set<nat>, i: nat): set<nat>
    requires i < |fs|
  {
    if fs[i].rule.Required? then seen + {i} else seen
  }

  predicate AllRequired(fs: seq<FieldDef>, seen: set<nat>) {
    forall i :: 0 <= i < |fs| && fs[i].rule.Required? ==> i in seen
  }

  /** pb_decode_noinit. */
  function DecodeNoInit(fs: seq<FieldDef>, m: seq<Slot>, s: In): (r: Result)
    requires WellFormed(fs) && TypedMessage(fs, m) && Sound(s)
    ensures r.Decoded? ==> Follows(s, r.after) && TypedMessage(fs, r.m)
    decreases fs, 2
  {
    match DecodeLoop(fs, m, {}, s)
    case Stuck => Failed
    case Done(m', seen, s', _) => if AllRequired(fs, seen) then Decoded(m', s') else Failed
  }

  /** pb_decode. */
  function Decode(fs: seq<FieldDef>, s: In): (r: Result)
    requires WellFormed(fs) && Sound(s)
    ensures r.Decoded? ==> Follows(s, r.after) && TypedMessage(fs, r.m)
  {
    DecodeNoInit(fs, Defaults(fs), s)
  }
}
