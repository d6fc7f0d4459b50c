/** Message descriptors (pb_field_t arrays) and messages. A message is a sequence of typed
    slots, one per descriptor entry, in place of raw struct offsets. */
module PbTypes {
  import opened PbWire
  import opened Options

  // ---- Descriptors ----

  /** The PB_LTYPE, with data_size where it matters; a submessage carries its own descriptor. */
  datatype LType =
    | LVarint(width: nat)
    | LUVarint(width: nat)
    | LSVarint(width: nat)
    | LFixed32
    | LFixed64
    | LBytes(dataSize: nat)
    | LString(dataSize: nat)
    | LSub(fields: seq<FieldDef>)

  /** The PB_HTYPE; a repeated field has room for `max` entries. */
  datatype Rule = Required | Optional | Repeated(max: nat) | Oneof

  datatype FieldDef = FieldDef(tag: nat, rule: Rule, ltype: LType, initial: Option<Value>)

  predicate Packable(t: LType) { !t.LBytes? && !t.LString? && !t.LSub? }

  /** Wire type of a single value (pb_encode_tag_for_field). */
  function WireType(t: LType): (w: nat)
    ensures w < 8
  {
    match t
    case LVarint(_) => 0
    case LUVarint(_) => 0
    case LSVarint(_) => 0
    case LFixed32 => 5
    case LFixed64 => 1
    case LBytes(_) => 2
    case LString(_) => 2
    case LSub(_) => 2
  }

  /** The first entry of the run of oneof entries that entry i belongs to: it owns the union. */
  function Leader(fs: seq<FieldDef>, i: nat): (j: nat)
    requires i < |fs|
    ensures j <= i
  {
    if i > 0 && fs[i].rule.Oneof? && fs[i - 1].rule.Oneof? then Leader(fs, i - 1) else i
  }

  /** The entry with a given tag. */
  function Find(fs: seq<FieldDef>, tag: nat): (r: Option<nat>)
    ensures r.Some? ==> r.value < |fs| && fs[r.value].tag == tag
    ensures r.None? ==> forall j :: 0 <= j < |fs| ==> fs[j].tag != tag
  {
    FindFrom(fs, tag, 0)
  }

  function FindFrom(fs: seq<FieldDef>, tag: nat, i: nat): (r: Option<nat>)
    requires i <= |fs|
    ensures r.Some? ==> i <= r.value < |fs| && fs[r.value].tag == tag
    ensures r.None? ==> forall j :: i <= j < |fs| ==> fs[j].tag != tag
    decreases |fs| - i
  {
    if i == |fs| then None else if fs[i].tag == tag then Some(i) else FindFrom(fs, tag, i + 1)
  }

  /** Number of required entries before position i. */
  function RequiredBefore(fs: seq<FieldDef>, i: nat): nat
    requires i <= |fs|
  {
    if i == 0 then 0 else RequiredBefore(fs, i - 1) + (if fs[i - 1].rule.Required? then 1 else 0)
  }

  // ---- Messages ----

  datatype Value = Int(i: int) | Raw(bytes: seq<Byte>) | Msg(slots: seq<Slot>)

  /** What a descriptor entry owns in the struct. The union of a oneof run is held by its first
      entry: which_ tag and data; the other entries of the run hold nothing. */
  datatype Slot =
    | One(v: Value)
    | Maybe(has: bool, v: Value)
    | Many(items: seq<Value>)
    | Union(which: nat, v: Value)
    | Shared

  function Minimum(width: nat): int {
    if width == 1 then -0x80 else if width == 2 then -0x8000
    else if width == 4 then -0x8000_0000 else -0x8000_0000_0000_0000
  }

  function Limit(width: nat): int {
    if width == 1 then 0x100 else if width == 2 then 0x1_0000 else if width == 4 then TWO_32 else TWO_64
  }

  predicate SignedFits(i: int, width: nat) { Minimum(width) <= i < -Minimum(width) }

  /** The value has the C type of its slot. */
  predicate Typed(t: LType, v: Value)
    decreases t, 0
  {
    match t
    case LVarint(w) => v.Int? && SignedFits(v.i, w)
    case LUVarint(w) => v.Int? && 0 <= v.i < Limit(w)
    case LSVarint(w) => v.Int? && SignedFits(v.i, w)
    case LFixed32 => v.Int? && 0 <= v.i < TWO_32
    case LFixed64 => v.Int? && 0 <= v.i < TWO_64
    case LBytes(_) => v.Raw? && |v.bytes| <= 0xffff
    case LString(n) => v.Raw? && |v.bytes| <= n
    case LSub(fs) => v.Msg? && TypedMessage(fs, v.slots)
  }

  predicate TypedAs(f: FieldDef, v: Value)
    decreases f, 1
  {
    Typed(f.ltype, v)
  }

  predicate TypedMessage(fs: seq<FieldDef>, m: seq<Slot>)
    decreases fs, 1
  {
    |m| == |fs| && forall i :: 0 <= i < |fs| ==> TypedSlot(fs, m, i)
  }

  predicate TypedSlot(fs: seq<FieldDef>, m: seq<Slot>, i: nat)
    requires |m| == |fs| && i < |fs|
    decreases fs, 0
  {
    match fs[i].rule
    case Required => m[i].One? && TypedAs(fs[i], m[i].v)
    case Optional => m[i].Maybe? && TypedAs(fs[i], m[i].v)
    case Repeated(_) => m[i].Many? && forall k :: 0 <= k < |m[i].items| ==> TypedAs(fs[i], m[i].items[k])
    case Oneof =>
      && (if Leader(fs, i) == i then m[i].Union? else m[i].Shared?)
      && m[Leader(fs, i)].Union?
      && (m[Leader(fs, i)].which == fs[i].tag ==> TypedAs(fs[i], m[Leader(fs, i)].v))
  }

  // ---- Well-formed descriptors ----

  predicate WellFormedType(t: LType)
    decreases t, 0
  {
    match t
    case LVarint(w) => w in {1, 2, 4, 8}
    case LUVarint(w) => w in {1, 2, 4, 8}
    case LSVarint(w) => w in {1, 2, 4, 8}
    case LBytes(n) => 2 <= n <= 0xffff
    case LString(n) => 1 <= n <= 0xffff
    case LSub(fs) => WellFormed(fs)
    case _ => true
  }

  /** Distinct nonzero 16-bit tags, and a number of required entries the bit array can hold
      without a shift by the word size. */
  predicate WellFormed(fs: seq<FieldDef>)
    decreases fs, 1
  {
    && (forall i :: 0 <= i < |fs| ==> WellFormedField(fs[i]))
    && (forall i, j :: 0 <= i < j < |fs| ==> fs[i].tag != fs[j].tag)
    && RequiredBefore(fs, |fs|) < 64 && RequiredBefore(fs, |fs|) != 32
  }

  predicate WellFormedField(f: FieldDef)
    decreases f, 0
  {
    && 0 < f.tag <= 0xffff
    && (f.rule.Repeated? ==> f.rule.max <= 0xffff)
    && WellFormedType(f.ltype)
    && (f.initial.Some? && !f.ltype.LSub? ==> Typed(f.ltype, f.initial.value))
  }

  // ---- Defaults (pb_message_set_to_defaults) ----

  function DefaultValue(f: FieldDef): (v: Value)
    requires WellFormedField(f)
    ensures Typed(f.ltype, v)
    decreases f, 0
  {
    assert WellFormedType(f.ltype);
    match f.ltype
    case LSub(fs) => Msg(Defaults(fs))
    case LBytes(_) => if f.initial.Some? then f.initial.value else Raw([])
    case LString(_) => if f.initial.Some? then f.initial.value else Raw([])
    case _ => if f.initial.Some? then f.initial.value else Int(0)
  }

  /** Optional: absent, but initialised. Repeated: no entries. Oneof: nothing chosen. */
  function DefaultSlot(fs: seq<FieldDef>, i: nat): (s: Slot)
    requires WellFormed(fs) && i < |fs|
    ensures fs[i].rule.Required? ==> s.One? && TypedAs(fs[i], s.v)
    ensures fs[i].rule.Optional? ==> s.Maybe? && !s.has && TypedAs(fs[i], s.v)
    ensures fs[i].rule.Repeated? ==> s == Many([])
    ensures fs[i].rule.Oneof? ==> s == if Leader(fs, i) == i then Union(0, Int(0)) else Shared
    decreases fs, 0
  {
    match fs[i].rule
    case Required => One(DefaultValue(fs[i]))
    case Optional => Maybe(false, DefaultValue(fs[i]))
    case Repeated(_) => Many([])
    case Oneof => if Leader(fs, i) == i then Union(0, Int(0)) else Shared
  }

  function Defaults(fs: seq<FieldDef>): (m: seq<Slot>)
    requires WellFormed(fs)
    ensures |m| == |fs| && forall i :: 0 <= i < |fs| ==> m[i] == DefaultSlot(fs, i)
    ensures TypedMessage(fs, m)
    decreases fs, 1
  {
    LeadersAreOneofs(fs);
    var m := seq(|fs|, i requires 0 <= i < |fs| => DefaultSlot(fs, i));
    assert forall i :: 0 <= i < |fs| ==> fs[i].tag != 0 by {
      assert forall i :: 0 <= i < |fs| ==> WellFormedField(fs[i]);
    }
    assert forall i :: 0 <= i < |fs| ==> m[i] == DefaultSlot(fs, i) && TypedSlot(fs, m, i);
    m
  }

  lemma {:induction false} LeaderFacts(fs: seq<FieldDef>, i: nat)
    requires i < |fs|
    ensures Leader(fs, Leader(fs, i)) == Leader(fs, i)
    ensures fs[i].rule.Oneof? ==> fs[Leader(fs, i)].rule.Oneof?
    ensures !fs[i].rule.Oneof? ==> Leader(fs, i) == i
  {
    if i > 0 && fs[i].rule.Oneof? && fs[i - 1].rule.Oneof? {
      LeaderFacts(fs, i - 1);
    }
  }

  lemma LeadersAreOneofs(fs: seq<FieldDef>)
    ensures forall i :: 0 <= i < |fs| ==> Leader(fs, Leader(fs, i)) == Leader(fs, i)
    ensures forall i :: 0 <= i < |fs| && fs[i].rule.Oneof? ==> fs[Leader(fs, i)].rule.Oneof?
  {
    forall i | 0 <= i < |fs|
      ensures Leader(fs, Leader(fs, i)) == Leader(fs, i)
      ensures fs[i].rule.Oneof? ==> fs[Leader(fs, i)].rule.Oneof?
    {
      LeaderFacts(fs, i);
    }
  }

  lemma FindUnique(fs: seq<FieldDef>, i: nat)
    requires i < |fs| && forall j, k :: 0 <= j < k < |fs| ==> fs[j].tag != fs[k].tag
    ensures Find(fs, fs[i].tag) == Some(i)
  {
  }
}
