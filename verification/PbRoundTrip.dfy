/** Decoding what was encoded. */
module PbRoundTrip {
  import opened PbWire
  import opened PbTypes
  import opened PbEncoding
  import opened PbDecoding
  import opened Options

  // ---- The message that arrives ----

  /** The entry that the which_ tag of the oneof run led by l selects, if the run has it. */
  function Chosen(fs: seq<FieldDef>, m: seq<Slot>, l: nat): (r: Option<nat>)
    requires TypedMessage(fs, m) && l < |fs| && fs[l].rule.Oneof? && Leader(fs, l) == l
    ensures r.Some? ==> r.value < |fs| && fs[r.value].rule.Oneof? && Leader(fs, r.value) == l && m[l].Union?
    ensures r.Some? ==> m[l].which == fs[r.value].tag && TypedAs(fs[r.value], m[l].v)
  {
    assert TypedSlot(fs, m, l);
    match Find(fs, m[l].which)
    case None => None
    case Some(c) => if fs[c].rule.Oneof? && Leader(fs, c) == l then assert TypedSlot(fs, m, c); Some(c) else None
  }

  function CanonValue(t: LType, v: Value): (r: Value)
    requires WellFormedType(t) && Typed(t, v)
    ensures Typed(t, r)
    decreases t, 0
  {
    match t
    case LString(n) => Raw(v.bytes[..TextLength(v.bytes, n)])
    case LSub(fs) => Msg(Canon(fs, v.slots))
    case _ => v
  }

  function CanonAs(f: FieldDef, v: Value): (r: Value)
    requires WellFormedField(f) && TypedAs(f, v)
    ensures TypedAs(f, r)
    decreases f, 1
  {
    CanonValue(f.ltype, v)
  }

  function CanonItems(f: FieldDef, items: seq<Value>): (r: seq<Value>)
    requires WellFormedField(f) && forall k :: 0 <= k < |items| ==> TypedAs(f, items[k])
    ensures |r| == |items| && forall k :: 0 <= k < |r| ==> TypedAs(f, r[k])
    decreases f, 2, |items|
  {
    if items == [] then [] else CanonItems(f, items[..|items| - 1]) + [CanonAs(f, items[|items| - 1])]
  }

  /** Slot i once the first n entries have arrived. */
  function PartlySlot(fs: seq<FieldDef>, m: seq<Slot>, n: nat, i: nat): (s: Slot)
    requires WellFormed(fs) && TypedMessage(fs, m) && n <= |fs| && i < |fs|
    decreases fs, 0
  {
    var f := fs[i];
    assert TypedSlot(fs, m, i) && WellFormedField(f);
    if !f.rule.Oneof? && n <= i then DefaultSlot(fs, i)
    else
      match f.rule
      case Required => One(CanonAs(f, m[i].v))
      case Optional => if m[i].has then Maybe(true, CanonAs(f, m[i].v)) else DefaultSlot(fs, i)
      case Repeated(_) => Many(CanonItems(f, m[i].items))
      case Oneof =>
        if Leader(fs, i) != i then Shared
        else
          match Chosen(fs, m, i)
          case None => Union(0, Int(0))
          case Some(c) =>
            assert WellFormedField(fs[c]);
            if c < n then Union(fs[c].tag, CanonAs(fs[c], m[i].v)) else Union(0, Int(0))
  }

  function Partly(fs: seq<FieldDef>, m: seq<Slot>, n: nat): (r: seq<Slot>)
    requires WellFormed(fs) && TypedMessage(fs, m) && n <= |fs|
    ensures |r| == |fs| && forall i :: 0 <= i < |fs| ==> r[i] == PartlySlot(fs, m, n, i)
    ensures TypedMessage(fs, r)
    decreases fs, 1
  {
    LeadersAreOneofs(fs);
    var r := seq(|fs|, i requires 0 <= i < |fs| => PartlySlot(fs, m, n, i));
    assert forall i :: 0 <= i < |fs| ==> TypedSlot(fs, r, i) by {
      forall i | 0 <= i < |fs| ensures TypedSlot(fs, r, i) {
        assert WellFormedField(fs[i]);
        if fs[i].rule.Oneof? {
          var l := Leader(fs, i);
          assert r[l] == PartlySlot(fs, m, n, l);
          if r[l].which == fs[i].tag {
            var c := Chosen(fs, m, l).value;
            assert fs[c].tag == fs[i].tag;
            assert c == i by { if c < i {} else if i < c {} }
          }
        }
      }
    }
    r
  }

  /** The message as it arrives: absent optional entries hold their defaults, strings end at
      their terminator, a oneof run whose which_ tag it does not have is unset. */
  function Canon(fs: seq<FieldDef>, m: seq<Slot>): (r: seq<Slot>)
    requires WellFormed(fs) && TypedMessage(fs, m)
    ensures |r| == |fs| && TypedMessage(fs, r)
    decreases fs, 2
  {
    Partly(fs, m, |fs|)
  }

  // ---- Every string that is sent has room for its terminator ----

  predicate TerminatedValue(t: LType, v: Value)
    requires Typed(t, v)
    decreases t, 0
  {
    match t
    case LString(n) => TextLength(v.bytes, n) < n
    case LSub(fs) => Terminated(fs, v.slots)
    case _ => true
  }

  predicate TerminatedAs(f: FieldDef, v: Value)
    requires TypedAs(f, v)
    decreases f, 1
  {
    TerminatedValue(f.ltype, v)
  }

  predicate TerminatedSlot(fs: seq<FieldDef>, m: seq<Slot>, i: nat)
    requires TypedMessage(fs, m) && i < |fs|
    decreases fs, 0
  {
    assert TypedSlot(fs, m, i);
    match fs[i].rule
    case Required => TerminatedAs(fs[i], m[i].v)
    case Optional => m[i].has ==> TerminatedAs(fs[i], m[i].v)
    case Repeated(max) => forall k :: 0 <= k < |m[i].items| ==> TerminatedAs(fs[i], m[i].items[k])
    case Oneof => m[Leader(fs, i)].which == fs[i].tag ==> TerminatedAs(fs[i], m[Leader(fs, i)].v)
  }

  predicate Terminated(fs: seq<FieldDef>, m: seq<Slot>)
    requires TypedMessage(fs, m)
    decreases fs, 1
  {
    forall i :: 0 <= i < |fs| ==> TerminatedSlot(fs, m, i)
  }

  // ---- Single values ----

  lemma VarintScalarArrives(t: LType, i: int, rest: seq<Byte>, left: nat)
    requires (t.LVarint? || t.LUVarint? || t.LSVarint?) && WellFormedType(t) && Typed(t, Int(i)) && left <= |rest|
    ensures DecodeScalar(t, In(EncodeScalar(t, i) + rest, |EncodeScalar(t, i)| + left)) == Got(Int(i), In(rest, left))
  {
    hide ReadVarint64, Varint, UnZigZag, ZigZag, Sound, Follows;
    match t
    case LVarint(w) =>
      Varint64RoundTrip(ToUnsigned64(i), rest, |EncodeScalar(t, i)| + left);
      NarrowRestores(i, w);
    case LUVarint(_) => Varint64RoundTrip(i, rest, |EncodeScalar(t, i)| + left);
    case LSVarint(_) =>
      ZigZagFits(i);
      Varint64RoundTrip(ZigZag(i), rest, |EncodeScalar(t, i)| + left);
      ZigZagRoundTrip(i);
  }

  /** A sign-extended value survives the cast back to its field's width. */
  lemma NarrowRestores(i: int, w: nat)
    requires w in {1, 2, 4, 8} && SignedFits(i, w)
    ensures NarrowSigned(ToUnsigned64(i), w) == Some(i)
  {
    if w != 8 {
      assert ToUnsigned64(i) % TWO_32 == if i < 0 then i + TWO_32 else i;
    }
  }

  lemma ZigZagFits(i: int)
    requires SignedFits(i, 8)
    ensures ZigZag(i) < TWO_64
  {
  }

  lemma ScalarArrives(t: LType, i: int, rest: seq<Byte>, left: nat)
    requires Packable(t) && WellFormedType(t) && Typed(t, Int(i)) && left <= |rest|
    ensures DecodeScalar(t, In(EncodeScalar(t, i) + rest, |EncodeScalar(t, i)| + left)) == Got(Int(i), In(rest, left))
  {
    hide ReadVarint, Varint, ReadBytes, Little, Sound, Follows;
    LittleBound([]);
    if t.LFixed32? {
      LittleRoundTrip(i, 4);
      BytesRoundTrip(Little(i, 4), rest, 4 + left);
    } else if t.LFixed64? {
      LittleRoundTrip(i, 8);
      BytesRoundTrip(Little(i, 8), rest, 8 + left);
    } else {
      VarintScalarArrives(t, i, rest, left);
    }
  }

  lemma PrefixedArrives(body: seq<Byte>, rest: seq<Byte>, left: nat)
    requires |body| < TWO_32 && left <= |rest|
    ensures ReadVarint32(In(Prefixed(body) + rest, |Prefixed(body)| + left)) == Got(|body|, In(body + rest, |body| + left))
    ensures ReadBytes(In(body + rest, |body| + left), |body|) == Got(body, In(rest, left))
  {
    assert Prefixed(body) + rest == Varint(|body|) + (body + rest);
    Varint32RoundTrip(|body|, body + rest, |Prefixed(body)| + left);
    BytesRoundTrip(body, rest, |body| + left);
  }

  lemma {:induction false} TextIsWhole(b: seq<Byte>, max: nat)
    ensures TextLength(b[..TextLength(b, max)], max) == TextLength(b, max)
  {
    var n := TextLength(b, max);
    if n > 0 {
      TextIsWhole(b[1..], max - 1);
      assert b[..n][1..] == b[1..][..n - 1];
    }
  }

  lemma TextArrives(n: nat, text: seq<Byte>, rest: seq<Byte>, left: nat)
    requires n <= 0xffff && |text| <= n && TextLength(text, n) == |text| && left <= |rest|
    ensures var r := DecodeString(n, In(Prefixed(text) + rest, |Prefixed(text)| + left));
            if |text| < n then r == Got(Raw(text), In(rest, left)) else r.Bad?
  {
    hide ReadVarint32, ReadBytes, Prefixed, TextLength, Sound, Follows;
    PrefixedArrives(text, rest, left);
    assert text[..|text|] == text;
  }

  lemma BytesArrive(n: nat, v: seq<Byte>, rest: seq<Byte>, left: nat)
    requires |v| <= 0xffff && |v| + 2 <= n && left <= |rest|
    ensures DecodeBytes(n, In(Prefixed(v) + rest, |Prefixed(v)| + left)) == Got(Raw(v), In(rest, left))
  {
    hide ReadVarint32, ReadBytes, Prefixed;
    PrefixedArrives(v, rest, left);
  }

  lemma {:induction false} ValueArrives(t: LType, v: Value, into: Value, rest: seq<Byte>, left: nat)
    requires WellFormedType(t) && Typed(t, v) && EncodeValue(t, v).Some? && |EncodeValue(t, v).value| < TWO_32
    requires left <= |rest| && (t.LSub? ==> into == Msg(Defaults(t.fields)))
    ensures var b := EncodeValue(t, v).value;
            var r := DecodeValue(t, into, In(b + rest, |b| + left));
            if TerminatedValue(t, v) then r == Got(CanonValue(t, v), In(rest, left)) else r.Bad?
    decreases t, 0
  {
    hide DecodeNoInit, DecodeScalar, EncodeScalar, Varint, DecodeString, DecodeBytes, OpenSub, Follows, Sound, Defaults, WellFormed;
    match t
    case LBytes(n) => BytesArrive(n, v.bytes, rest, left);
    case LString(n) =>
      TextIsWhole(v.bytes, n);
      TextArrives(n, v.bytes[..TextLength(v.bytes, n)], rest, left);
    case LSub(fs) =>
      var body := EncodeMessage(fs, v.slots).value;
      SubRoundTrip(body, rest, |Prefixed(body)| + left);
      MessageArrives(fs, v.slots, rest);
    case _ => ScalarArrives(t, v.i, rest, left);
  }

  lemma {:induction false} TaggedArrives(f: FieldDef, v: Value, rest: seq<Byte>, left: nat)
    requires WellFormedField(f) && TypedAs(f, v) && left <= |rest|
    requires EncodeValue(f.ltype, v).Some? && |EncodeValue(f.ltype, v).value| < TWO_32
    ensures var b := EncodeValue(f.ltype, v).value;
            var r := DecodeAs(f, DefaultValue(f), In(b + rest, |b| + left));
            if TerminatedAs(f, v) then r == Got(CanonAs(f, v), In(rest, left)) else r.Bad?
    decreases f, 1
  {
    hide EncodeValue, DecodeValue, TerminatedValue, CanonValue, Defaults;
    ValueArrives(f.ltype, v, DefaultValue(f), rest, left);
  }

  // ---- Arrays ----

  lemma {:induction false} PackedArrives(t: LType, max: nat, before: seq<Value>, items: seq<Value>, rest: seq<Byte>, left: nat)
    requires Packable(t) && WellFormedType(t) && left <= |rest|
    requires forall k :: 0 <= k < |items| ==> Typed(t, items[k])
    requires forall k :: 0 <= k < |before| ==> Typed(t, before[k])
    requires |before| + |items| <= max
    ensures var p := Payload(t, items);
            DecodePacked(t, max, before, In(p + rest, |p| + left)) == DecodePacked(t, max, before + items, In(rest, left))
    decreases |items|
  {
    hide EncodeScalar, DecodeScalar;
    if items == [] {
      assert before + items == before;
      assert [] + rest == rest;
    } else {
      var front, last := items[..|items| - 1], items[|items| - 1];
      assert Typed(t, items[|items| - 1]);
      var e := EncodeScalar(t, last.i);
      assert Payload(t, items) + rest == Payload(t, front) + (e + rest);
      PackedArrives(t, max, before, front, e + rest, |e| + left);
      ScalarArrives(t, last.i, rest, left);
      assert before + items == before + front + [last];
      assert last == Int(last.i);
      assert |e| + left > 0;
    }
  }

  // ---- The field loop ----

  /** One turn of the loop on a tag that the descriptor has. */
  lemma KnownField(fs: seq<FieldDef>, m: seq<Slot>, seen: set<nat>, i: nat, wireType: nat, body: seq<Byte>, left: nat)
    requires WellFormed(fs) && TypedMessage(fs, m) && i < |fs| && wireType < 8 && left <= |body|
    ensures DecodeLoop(fs, m, seen, In(Tag(wireType, fs[i].tag) + body, |Tag(wireType, fs[i].tag)| + left))
         == match DecodeField(fs, m, i, wireType, In(body, left))
            case NoField => Stuck
            case FieldDone(m', s) => DecodeLoop(fs, m', Mark(fs, seen, i), s)
  {
    hide DecodeField, ReadVarintFrom, Varint;
    assert WellFormedField(fs[i]);
    TagRoundTrip(wireType, fs[i].tag, body, |Tag(wireType, fs[i].tag)| + left);
    FindUnique(fs, i);
  }

  function SeenUpTo(fs: seq<FieldDef>, n: nat): set<nat>
    requires n <= |fs|
  {
    set i: nat | i < n && fs[i].rule.Required?
  }

  /** The slots when entry i holds the items `done` so far. */
  function WithItems(fs: seq<FieldDef>, m: seq<Slot>, i: nat, done: seq<Value>): (r: seq<Slot>)
    requires WellFormed(fs) && TypedMessage(fs, m) && i < |fs| && fs[i].rule.Repeated?
    requires forall k :: 0 <= k < |done| ==> TypedAs(fs[i], done[k])
    ensures TypedMessage(fs, r) && |r| == |fs|
  {
    StoreTyped(fs, m, i, Many(done));
    m[i := Many(done)]
  }

  lemma {:induction false} SeparateArrives(fs: seq<FieldDef>, m: seq<Slot>, seen: set<nat>, i: nat, items: seq<Value>, rest: seq<Byte>, left: nat)
    requires WellFormed(fs) && TypedMessage(fs, m) && i < |fs| && fs[i].rule.Repeated? && !Packable(fs[i].ltype)
    requires (forall k :: 0 <= k < |items| ==> TypedAs(fs[i], items[k])) && |items| <= fs[i].rule.max
    requires EncodeSeparate(fs[i], items).Some? && |EncodeSeparate(fs[i], items).value| < TWO_32
    requires left <= |rest|
    ensures assert WellFormedField(fs[i]);
            var e := EncodeSeparate(fs[i], items).value;
            var r := DecodeLoop(fs, WithItems(fs, m, i, []), seen, In(e + rest, |e| + left));
            if forall k :: 0 <= k < |items| ==> TerminatedAs(fs[i], items[k])
            then r == DecodeLoop(fs, WithItems(fs, m, i, CanonItems(fs[i], items)), seen, In(rest, left))
            else r == Stuck
    decreases fs, 1, |items|
  {
    hide DecodeLoop, EncodeTagged, EncodeValue, DecodeAs, TerminatedAs, CanonAs, Tag;
    var f := fs[i];
    assert WellFormedField(f);
    if items == [] {
      assert [] + rest == rest;
    } else {
      var front, last := items[..|items| - 1], items[|items| - 1];
      var e0 := EncodeSeparate(f, front).value;
      var e1 := EncodeTagged(f, last).value;
      assert (e0 + e1) + rest == e0 + (e1 + rest);
      SeparateArrives(fs, m, seen, i, front, e1 + rest, |e1| + left);
      if forall k :: 0 <= k < |front| ==> TerminatedAs(f, front[k]) {
        ItemArrives(fs, WithItems(fs, m, i, CanonItems(f, front)), seen, i, last, rest, left);
        assert WithItems(fs, m, i, CanonItems(f, front))[i := Many(CanonItems(f, items))]
            == WithItems(fs, m, i, CanonItems(f, items));
      } else {
        var k :| 0 <= k < |front| && !TerminatedAs(f, front[k]);
        assert !TerminatedAs(f, items[k]);
      }
    }
  }

  /** One more entry of an array that is not packed. */
  lemma {:induction false} ItemArrives(fs: seq<FieldDef>, m: seq<Slot>, seen: set<nat>, i: nat, v: Value, rest: seq<Byte>, left: nat)
    requires WellFormed(fs) && TypedMessage(fs, m) && i < |fs| && fs[i].rule.Repeated? && !Packable(fs[i].ltype)
    requires m[i].Many? && |m[i].items| < fs[i].rule.max && left <= |rest|
    requires TypedAs(fs[i], v) && EncodeTagged(fs[i], v).Some? && |EncodeTagged(fs[i], v).value| < TWO_32
    ensures assert WellFormedField(fs[i]);
            var e := EncodeTagged(fs[i], v).value;
            var r := DecodeLoop(fs, m, seen, In(e + rest, |e| + left));
            if TerminatedAs(fs[i], v)
            then TypedMessage(fs, m[i := Many(m[i].items + [CanonAs(fs[i], v)])])
              && r == DecodeLoop(fs, m[i := Many(m[i].items + [CanonAs(fs[i], v)])], seen, In(rest, left))
            else r == Stuck
    decreases fs, 0
  {
    hide DecodeLoop, EncodeValue, DecodeAs, TerminatedAs, CanonAs, Tag;
    var f := fs[i];
    assert WellFormedField(f) && TypedSlot(fs, m, i);
    var t := Tag(WireType(f.ltype), f.tag);
    var b := EncodeValue(f.ltype, v).value;
    assert (t + b) + rest == t + (b + rest);
    KnownField(fs, m, seen, i, WireType(f.ltype), b + rest, |b| + left);
    TaggedArrives(f, v, rest, left);
    if TerminatedAs(f, v) {
      StoreTyped(fs, m, i, Many(m[i].items + [CanonAs(f, v)]));
    }
  }

  // ---- Whole messages ----

  lemma {:induction false} MessageArrives(fs: seq<FieldDef>, m: seq<Slot>, rest: seq<Byte>)
    requires WellFormed(fs) && TypedMessage(fs, m)
    requires EncodeMessage(fs, m).Some? && |EncodeMessage(fs, m).value| < TWO_32
    ensures DecodeNoInit(fs, Defaults(fs), In(EncodeMessage(fs, m).value + rest, |EncodeMessage(fs, m).value|))
         == if Terminated(fs, m) then Decoded(Canon(fs, m), In(rest, 0)) else Failed
    decreases fs, 4
  {
    FieldsArrive(fs, m, |fs|, rest, 0);
  }

  lemma {:induction false} FieldsArrive(fs: seq<FieldDef>, m: seq<Slot>, n: nat, rest: seq<Byte>, left: nat)
    requires WellFormed(fs) && TypedMessage(fs, m) && n <= |fs| && left <= |rest|
    requires EncodeUpTo(fs, m, n).Some? && |EncodeUpTo(fs, m, n).value| < TWO_32
    ensures var e := EncodeUpTo(fs, m, n).value;
            var r := DecodeLoop(fs, Defaults(fs), {}, In(e + rest, |e| + left));
            if forall i :: 0 <= i < n ==> TerminatedSlot(fs, m, i)
            then r == DecodeLoop(fs, Partly(fs, m, n), SeenUpTo(fs, n), In(rest, left))
            else r == Stuck
    decreases fs, 3, n
  {
    hide DecodeLoop, TerminatedSlot, EncodeField;
    if n == 0 {
      assert Partly(fs, m, 0) == Defaults(fs) by {
        forall i | 0 <= i < |fs| ensures Partly(fs, m, 0)[i] == Defaults(fs)[i] {
        }
      }
      assert SeenUpTo(fs, 0) == {};
      assert [] + rest == rest;
    } else {
      var e0 := EncodeUpTo(fs, m, n - 1).value;
      var e1 := EncodeField(fs, m, n - 1).value;
      assert (e0 + e1) + rest == e0 + (e1 + rest);
      FieldsArrive(fs, m, n - 1, e1 + rest, |e1| + left);
      if forall i :: 0 <= i < n - 1 ==> TerminatedSlot(fs, m, i) {
        FieldArrives(fs, m, n - 1, rest, left);
      } else {
        var i :| 0 <= i < n - 1 && !TerminatedSlot(fs, m, i);
      }
    }
  }

  /** What the arrival of entry i changes. */
  lemma PartlyStep(fs: seq<FieldDef>, m: seq<Slot>, i: nat)
    requires WellFormed(fs) && TypedMessage(fs, m) && i < |fs| && TypedSlot(fs, m, i)
    ensures !fs[i].rule.Oneof? ==> Partly(fs, m, i + 1) == Partly(fs, m, i)[i := PartlySlot(fs, m, i + 1, i)]
    ensures fs[i].rule.Oneof? && m[Leader(fs, i)].which != fs[i].tag ==> Partly(fs, m, i + 1) == Partly(fs, m, i)
    ensures fs[i].rule.Oneof? && m[Leader(fs, i)].which == fs[i].tag ==>
              Partly(fs, m, i + 1) == Partly(fs, m, i)[Leader(fs, i) := Union(fs[i].tag, CanonAs(fs[i], m[Leader(fs, i)].v))]
  {
    hide CanonAs, DefaultSlot, CanonItems;
    LeadersAreOneofs(fs);
    var l := Leader(fs, i);
    var p, q := Partly(fs, m, i), Partly(fs, m, i + 1);
    FindUnique(fs, i);
    forall j | 0 <= j < |fs| && (if fs[i].rule.Oneof? then j != l || m[l].which != fs[i].tag else j != i)
      ensures p[j] == q[j]
    {
      if fs[j].rule.Oneof? && Leader(fs, j) == j {
        assert Chosen(fs, m, j) != Some(i);
      }
    }
    if fs[i].rule.Oneof? && m[l].which == fs[i].tag {
      assert Chosen(fs, m, l) == Some(i);
      assert q[l] == PartlySlot(fs, m, i + 1, l);
    }
  }

  lemma SeenStep(fs: seq<FieldDef>, i: nat)
    requires i < |fs|
    ensures SeenUpTo(fs, i + 1) == Mark(fs, SeenUpTo(fs, i), i)
  {
  }

  /** Entry i sent as a single tagged value. */
  lemma {:induction false} SingleArrives(fs: seq<FieldDef>, m: seq<Slot>, i: nat, v: Value, rest: seq<Byte>, left: nat)
    requires WellFormed(fs) && TypedMessage(fs, m) && i < |fs| && TypedSlot(fs, m, i) && left <= |rest|
    requires TypedAs(fs[i], v) && EncodeTagged(fs[i], v).Some? && |EncodeTagged(fs[i], v).value| < TWO_32
    requires match fs[i].rule
             case Required => m[i].v == v
             case Optional => m[i].has && m[i].v == v
             case Repeated(_) => false
             case Oneof => m[Leader(fs, i)].which == fs[i].tag && m[Leader(fs, i)].v == v
    ensures var e := EncodeTagged(fs[i], v).value;
            var r := DecodeLoop(fs, Partly(fs, m, i), SeenUpTo(fs, i), In(e + rest, |e| + left));
            if TerminatedAs(fs[i], v)
            then r == DecodeLoop(fs, Partly(fs, m, i + 1), SeenUpTo(fs, i + 1), In(rest, left))
            else r == Stuck
    decreases fs, 0
  {
    hide DecodeLoop, EncodeValue, DecodeAs, TerminatedAs, CanonAs, Tag, Partly;
    var f := fs[i];
    assert WellFormedField(f) && TypedSlot(fs, m, i);
    var t := Tag(WireType(f.ltype), f.tag);
    var b := EncodeValue(f.ltype, v).value;
    assert (t + b) + rest == t + (b + rest);
    assert Partly(fs, m, i)[i] == PartlySlot(fs, m, i, i);
    KnownField(fs, Partly(fs, m, i), SeenUpTo(fs, i), i, WireType(f.ltype), b + rest, |b| + left);
    TaggedArrives(f, v, rest, left);
    PartlyStep(fs, m, i);
    SeenStep(fs, i);
  }

  /** Entry i sent as a packed array. */
  lemma {:induction false} PackedFieldArrives(fs: seq<FieldDef>, m: seq<Slot>, i: nat, rest: seq<Byte>, left: nat)
    requires WellFormed(fs) && TypedMessage(fs, m) && i < |fs| && left <= |rest|
    requires fs[i].rule.Repeated? && Packable(fs[i].ltype) && TypedSlot(fs, m, i) && 0 < |m[i].items| <= fs[i].rule.max
    requires |EncodeArray(fs[i], m[i].items).value| < TWO_32
    ensures var e := EncodeArray(fs[i], m[i].items).value;
            DecodeLoop(fs, Partly(fs, m, i), SeenUpTo(fs, i), In(e + rest, |e| + left))
              == DecodeLoop(fs, Partly(fs, m, i + 1), SeenUpTo(fs, i + 1), In(rest, left))
  {
    hide DecodeLoop, Tag, Partly, EncodeScalar, DecodeScalar, Varint, OpenSub;
    var f, items := fs[i], m[i].items;
    assert WellFormedField(f);
    forall k | 0 <= k < |items| ensures Typed(f.ltype, items[k]) {
      assert TypedAs(f, items[k]);
    }
    var p := Payload(f.ltype, items);
    assert (Tag(2, f.tag) + Prefixed(p)) + rest == Tag(2, f.tag) + (Prefixed(p) + rest);
    KnownField(fs, Partly(fs, m, i), SeenUpTo(fs, i), i, 2, Prefixed(p) + rest, |Prefixed(p)| + left);
    SubRoundTrip(p, rest, |Prefixed(p)| + left);
    PackedArrives(f.ltype, f.rule.max, [], items, rest, 0);
    assert [] + items == items;
    ScalarsAreCanon(f, items);
    PartlyStep(fs, m, i);
    SeenStep(fs, i);
  }

  lemma {:induction false} ScalarsAreCanon(f: FieldDef, items: seq<Value>)
    requires WellFormedField(f) && Packable(f.ltype) && forall k :: 0 <= k < |items| ==> TypedAs(f, items[k])
    ensures CanonItems(f, items) == items
    ensures forall k :: 0 <= k < |items| ==> TerminatedAs(f, items[k])
    decreases |items|
  {
    if items != [] {
      ScalarsAreCanon(f, items[..|items| - 1]);
      var last := items[|items| - 1];
      assert TypedAs(f, last) && CanonAs(f, last) == last;
      assert items == items[..|items| - 1] + [last];
      forall k | 0 <= k < |items| ensures TerminatedAs(f, items[k]) {
      }
    }
  }

  /** Entry i sent as an array of separately tagged values. */
  lemma {:induction false} SeparateFieldArrives(fs: seq<FieldDef>, m: seq<Slot>, i: nat, rest: seq<Byte>, left: nat)
    requires WellFormed(fs) && TypedMessage(fs, m) && i < |fs| && left <= |rest| && TypedSlot(fs, m, i)
    requires fs[i].rule.Repeated? && !Packable(fs[i].ltype) && |m[i].items| <= fs[i].rule.max
    requires EncodeSeparate(fs[i], m[i].items).Some? && |EncodeSeparate(fs[i], m[i].items).value| < TWO_32
    ensures var e := EncodeSeparate(fs[i], m[i].items).value;
            var r := DecodeLoop(fs, Partly(fs, m, i), SeenUpTo(fs, i), In(e + rest, |e| + left));
            if TerminatedSlot(fs, m, i)
            then r == DecodeLoop(fs, Partly(fs, m, i + 1), SeenUpTo(fs, i + 1), In(rest, left))
            else r == Stuck
    decreases fs, 1, |m[i].items| + 1
  {
    hide DecodeLoop, TerminatedAs, EncodeSeparate, Partly, CanonAs, CanonItems;
    var f, p, items := fs[i], Partly(fs, m, i), m[i].items;
    assert WellFormedField(f);
    SeparateArrives(fs, p, SeenUpTo(fs, i), i, items, rest, left);
    PartlyStep(fs, m, i);
    SeenStep(fs, i);
    assert p[i] == PartlySlot(fs, m, i, i) == Many([]);
    assert WithItems(fs, p, i, []) == p;
    assert PartlySlot(fs, m, i + 1, i) == Many(CanonItems(f, items));
    assert WithItems(fs, p, i, CanonItems(f, items)) == Partly(fs, m, i + 1);
    assert TerminatedSlot(fs, m, i) == forall k :: 0 <= k < |items| ==> TerminatedAs(f, items[k]);
  }

  lemma {:induction false} FieldArrives(fs: seq<FieldDef>, m: seq<Slot>, i: nat, rest: seq<Byte>, left: nat)
    requires WellFormed(fs) && TypedMessage(fs, m) && i < |fs| && left <= |rest|
    requires EncodeField(fs, m, i).Some? && |EncodeField(fs, m, i).value| < TWO_32
    ensures var e := EncodeField(fs, m, i).value;
            var r := DecodeLoop(fs, Partly(fs, m, i), SeenUpTo(fs, i), In(e + rest, |e| + left));
            if TerminatedSlot(fs, m, i)
            then r == DecodeLoop(fs, Partly(fs, m, i + 1), SeenUpTo(fs, i + 1), In(rest, left))
            else r == Stuck
    decreases fs, 2
  {
    hide DecodeLoop, TerminatedAs, EncodeTagged, EncodeSeparate, Partly, CanonAs;
    var f := fs[i];
    assert WellFormedField(f) && TypedSlot(fs, m, i);
    PartlyStep(fs, m, i);
    SeenStep(fs, i);
    assert [] + rest == rest;
    match f.rule
    case Required => SingleArrives(fs, m, i, m[i].v, rest, left);
    case Optional =>
      if m[i].has {
        SingleArrives(fs, m, i, m[i].v, rest, left);
      } else {
        assert Partly(fs, m, i)[i] == PartlySlot(fs, m, i, i) == DefaultSlot(fs, i);
        assert Partly(fs, m, i + 1) == Partly(fs, m, i);
      }
    case Repeated(_) =>
      if m[i].items == [] {
        assert Partly(fs, m, i)[i] == PartlySlot(fs, m, i, i) == Many([]);
        assert Partly(fs, m, i + 1) == Partly(fs, m, i);
      } else if Packable(f.ltype) {
        PackedFieldArrives(fs, m, i, rest, left);
        ScalarsAreCanon(f, m[i].items);
      } else {
        SeparateFieldArrives(fs, m, i, rest, left);
      }
    case Oneof =>
      if m[Leader(fs, i)].which == f.tag {
        SingleArrives(fs, m, i, m[Leader(fs, i)].v, rest, left);
      }
  }

  /** pb_decode of what pb_encode produced reads every byte of it and gives the message back, if
      and only if every string that was sent has room for its terminator. */
  lemma RoundTrip(fs: seq<FieldDef>, m: seq<Slot>, tail: seq<Byte>)
    requires WellFormed(fs) && TypedMessage(fs, m)
    requires EncodeMessage(fs, m).Some? && |EncodeMessage(fs, m).value| < TWO_32
    ensures Decode(fs, In(EncodeMessage(fs, m).value + tail, |EncodeMessage(fs, m).value|))
         == if Terminated(fs, m) then Decoded(Canon(fs, m), In(tail, 0)) else Failed
  {
    MessageArrives(fs, m, tail);
  }

  // ---- Valid messages ----

  lemma {:induction false} TextEnds(b: seq<Byte>, max: nat)
    requires |b| <= max
    ensures TextLength(b, max) < max <==> |b| < max || 0 in b
    decreases |b|
  {
    if max > 0 && b != [] && b[0] != 0 {
      TextEnds(b[1..], max - 1);
      assert b == [b[0]] + b[1..];
    }
  }

  lemma {:induction false} ValueIsValidExactly(t: LType, v: Value)
    requires Typed(t, v)
    ensures ValidValue(t, v) <==> EncodeValue(t, v).Some? && TerminatedValue(t, v)
    decreases t, 0
  {
    hide EncodeScalar;
    match t
    case LString(n) => TextEnds(v.bytes, n);
    case LSub(fs) => IsValidExactly(fs, v.slots);
    case _ =>
  }

  lemma {:induction false} TaggedIsValidExactly(f: FieldDef, v: Value)
    requires TypedAs(f, v)
    ensures ValidAs(f, v) <==> EncodeTagged(f, v).Some? && TerminatedAs(f, v)
    decreases f, 0
  {
    ValueIsValidExactly(f.ltype, v);
  }

  lemma {:induction false} ItemsAreValidExactly(f: FieldDef, items: seq<Value>)
    requires forall k :: 0 <= k < |items| ==> TypedAs(f, items[k])
    ensures (forall k :: 0 <= k < |items| ==> ValidAs(f, items[k]))
       <==> EncodeSeparate(f, items).Some? && (forall k :: 0 <= k < |items| ==> TerminatedAs(f, items[k]))
    decreases f, 1, |items|
  {
    hide ValidAs, TerminatedAs, EncodeTagged;
    if items != [] {
      var n := |items| - 1;
      assert items == items[..n] + [items[n]];
      ItemsAreValidExactly(f, items[..n]);
      TaggedIsValidExactly(f, items[n]);
    }
  }

  lemma ScalarsAreValid(f: FieldDef, items: seq<Value>)
    requires Packable(f.ltype) && forall k :: 0 <= k < |items| ==> TypedAs(f, items[k])
    ensures forall k :: 0 <= k < |items| ==> ValidAs(f, items[k]) && TerminatedAs(f, items[k])
  {
    forall k | 0 <= k < |items| ensures ValidAs(f, items[k]) && TerminatedAs(f, items[k]) {
      assert ValidValue(f.ltype, items[k]) && TerminatedValue(f.ltype, items[k]);
    }
  }

  lemma {:induction false} SlotIsValidExactly(fs: seq<FieldDef>, m: seq<Slot>, i: nat)
    requires TypedMessage(fs, m) && i < |fs|
    ensures ValidSlot(fs, m, i) <==> EncodeField(fs, m, i).Some? && TerminatedSlot(fs, m, i)
    decreases fs, 0
  {
    hide ValidAs, TerminatedAs, EncodeTagged, EncodeSeparate, TypedAs;
    assert TypedSlot(fs, m, i);
    var f := fs[i];
    match f.rule
    case Required => TaggedIsValidExactly(f, m[i].v);
    case Optional => TaggedIsValidExactly(f, m[i].v);
    case Repeated(_) =>
      if Packable(f.ltype) {
        ScalarsAreValid(f, m[i].items);
      } else {
        ItemsAreValidExactly(f, m[i].items);
      }
    case Oneof =>
      if m[Leader(fs, i)].which == f.tag {
        TaggedIsValidExactly(f, m[Leader(fs, i)].v);
      }
  }

  lemma {:induction false} FieldsAreValidExactly(fs: seq<FieldDef>, m: seq<Slot>, n: nat)
    requires TypedMessage(fs, m) && n <= |fs|
    ensures (forall i :: 0 <= i < n ==> ValidSlot(fs, m, i))
       <==> EncodeUpTo(fs, m, n).Some? && (forall i :: 0 <= i < n ==> TerminatedSlot(fs, m, i))
    decreases fs, 1, n
  {
    hide ValidSlot, TerminatedSlot, EncodeField;
    if n != 0 {
      FieldsAreValidExactly(fs, m, n - 1);
      SlotIsValidExactly(fs, m, n - 1);
    }
  }

  /** A message is valid exactly when it encodes without an error and its sent strings have room
      for their terminators. */
  lemma {:induction false} IsValidExactly(fs: seq<FieldDef>, m: seq<Slot>)
    requires TypedMessage(fs, m)
    ensures ValidMessage(fs, m) <==> EncodeMessage(fs, m).Some? && Terminated(fs, m)
    decreases fs, 2
  {
    FieldsAreValidExactly(fs, m, |fs|);
    if ValidMessage(fs, m) {
      forall i | 0 <= i < |fs| ensures ValidSlot(fs, m, i) {
      }
      assert Terminated(fs, m);
    }
    if EncodeMessage(fs, m).Some? && Terminated(fs, m) {
      forall i | 0 <= i < |fs| ensures TerminatedSlot(fs, m, i) {
      }
      assert ValidMessage(fs, m);
    }
  }

  /** Encoding and decoding both succeed exactly for the valid messages. */
  lemma ValidRoundTrip(fs: seq<FieldDef>, m: seq<Slot>, tail: seq<Byte>)
    requires WellFormed(fs) && TypedMessage(fs, m)
    ensures ValidMessage(fs, m) ==> EncodeMessage(fs, m).Some?
    ensures EncodeMessage(fs, m).Some? && |EncodeMessage(fs, m).value| < TWO_32 ==>
              var b := EncodeMessage(fs, m).value;
              Decode(fs, In(b + tail, |b|)) == if ValidMessage(fs, m) then Decoded(Canon(fs, m), In(tail, 0)) else Failed
  {
    IsValidExactly(fs, m);
    if EncodeMessage(fs, m).Some? && |EncodeMessage(fs, m).value| < TWO_32 {
      RoundTrip(fs, m, tail);
    }
  }

  // ---- The message that arrives is the same message ----

  lemma {:induction false} CanonValueEncodes(t: LType, v: Value)
    requires WellFormedType(t) && Typed(t, v)
    ensures EncodeValue(t, CanonValue(t, v)) == EncodeValue(t, v)
    decreases t, 0
  {
    hide EncodeScalar, WellFormed;
    match t
    case LString(n) =>
      TextIsWhole(v.bytes, n);
      var text := v.bytes[..TextLength(v.bytes, n)];
      assert text[..|text|] == text;
    case LSub(fs) => CanonEncodes(fs, v.slots);
    case _ =>
  }

  lemma {:induction false} CanonAsEncodes(f: FieldDef, v: Value)
    requires WellFormedField(f) && TypedAs(f, v)
    ensures EncodeTagged(f, CanonAs(f, v)) == EncodeTagged(f, v)
    decreases f, 0
  {
    CanonValueEncodes(f.ltype, v);
  }

  lemma {:induction false} CanonItemsEncode(f: FieldDef, items: seq<Value>)
    requires WellFormedField(f) && forall k :: 0 <= k < |items| ==> TypedAs(f, items[k])
    ensures EncodeSeparate(f, CanonItems(f, items)) == EncodeSeparate(f, items)
    decreases f, 1, |items|
  {
    hide EncodeTagged, CanonAs, TypedAs;
    if items != [] {
      CanonItemsEncode(f, items[..|items| - 1]);
      CanonAsEncodes(f, items[|items| - 1]);
      var c := CanonItems(f, items);
      assert c[..|c| - 1] == CanonItems(f, items[..|items| - 1]);
    }
  }

  lemma {:induction false} CanonFieldEncodes(fs: seq<FieldDef>, m: seq<Slot>, i: nat)
    requires WellFormed(fs) && TypedMessage(fs, m) && i < |fs|
    ensures EncodeField(fs, Canon(fs, m), i) == EncodeField(fs, m, i)
    decreases fs, 0
  {
    hide EncodeTagged, EncodeSeparate, CanonAs, TypedAs, Partly, DefaultSlot, Payload;
    var f, c := fs[i], Canon(fs, m);
    assert WellFormedField(f) && TypedSlot(fs, m, i) && TypedSlot(fs, c, i);
    assert c[i] == PartlySlot(fs, m, |fs|, i);
    match f.rule
    case Required => CanonAsEncodes(f, m[i].v);
    case Optional =>
      if m[i].has {
        CanonAsEncodes(f, m[i].v);
      }
    case Repeated(_) =>
      CanonItemsEncode(f, m[i].items);
      if Packable(f.ltype) {
        ScalarsAreCanon(f, m[i].items);
      }
    case Oneof =>
      var l := Leader(fs, i);
      LeaderFacts(fs, i);
      FindUnique(fs, i);
      assert c[l] == PartlySlot(fs, m, |fs|, l);
      if m[l].which == f.tag {
        assert Chosen(fs, m, l) == Some(i);
        CanonAsEncodes(f, m[l].v);
      }
  }

  lemma {:induction false} CanonEncodesUpTo(fs: seq<FieldDef>, m: seq<Slot>, n: nat)
    requires WellFormed(fs) && TypedMessage(fs, m) && n <= |fs|
    ensures EncodeUpTo(fs, Canon(fs, m), n) == EncodeUpTo(fs, m, n)
    decreases fs, 1, n
  {
    if n != 0 {
      CanonEncodesUpTo(fs, m, n - 1);
      CanonFieldEncodes(fs, m, n - 1);
    }
  }

  /** What arrives encodes to the same bytes again. */
  lemma {:induction false} CanonEncodes(fs: seq<FieldDef>, m: seq<Slot>)
    requires WellFormed(fs) && TypedMessage(fs, m)
    ensures EncodeMessage(fs, Canon(fs, m)) == EncodeMessage(fs, m)
    decreases fs, 2
  {
    CanonEncodesUpTo(fs, m, |fs|);
  }
}
