/** Which messages arrive exactly as they were sent. */
module PbCanon {
  import opened PbWire
  import opened PbTypes
  import opened PbEncoding
  import opened PbDecoding
  import opened PbRoundTrip
  import opened Options

  predicate SettledValue(t: LType, v: Value)
    requires WellFormedType(t) && Typed(t, v)
    decreases t, 0
  {
    match t
    case LString(n) => TextLength(v.bytes, n) == |v.bytes|
    case LSub(fs) => Settled(fs, v.slots)
    case _ => true
  }

  predicate SettledAs(f: FieldDef, v: Value)
    requires WellFormedField(f) && TypedAs(f, v)
    decreases f, 0
  {
    SettledValue(f.ltype, v)
  }

  predicate SettledSlot(fs: seq<FieldDef>, m: seq<Slot>, i: nat)
    requires WellFormed(fs) && TypedMessage(fs, m) && i < |fs|
    decreases fs, 0
  {
    assert TypedSlot(fs, m, i) && WellFormedField(fs[i]);
    match fs[i].rule
    case Required => SettledAs(fs[i], m[i].v)
    case Optional => if m[i].has then SettledAs(fs[i], m[i].v) else m[i] == DefaultSlot(fs, i)
    case Repeated(_) => forall k :: 0 <= k < |m[i].items| ==> SettledAs(fs[i], m[i].items[k])
    case Oneof =>
      Leader(fs, i) == i ==>
        match Chosen(fs, m, i)
        case None => m[i] == Union(0, Int(0))
        case Some(c) => assert WellFormedField(fs[c]); SettledAs(fs[c], m[i].v)
  }

  /** Absent entries hold their defaults, strings end where their bytes do, and a oneof run has
      chosen one of its entries or nothing. */
  predicate Settled(fs: seq<FieldDef>, m: seq<Slot>)
    requires WellFormed(fs) && TypedMessage(fs, m)
    decreases fs, 1
  {
    forall i :: 0 <= i < |fs| ==> SettledSlot(fs, m, i)
  }

  lemma {:induction false} SettledValueStays(t: LType, v: Value)
    requires WellFormedType(t) && Typed(t, v)
    ensures CanonValue(t, v) == v <==> SettledValue(t, v)
    decreases t, 0
  {
    match t
    case LString(n) =>
      var k := TextLength(v.bytes, n);
      assert v.bytes[..k] == v.bytes <==> k == |v.bytes|;
    case LSub(fs) => SettledStays(fs, v.slots);
    case _ =>
  }

  lemma {:induction false} SettledItemsStay(f: FieldDef, items: seq<Value>)
    requires WellFormedField(f) && forall k :: 0 <= k < |items| ==> TypedAs(f, items[k])
    ensures CanonItems(f, items) == items <==> forall k :: 0 <= k < |items| ==> SettledAs(f, items[k])
    decreases f, 1, |items|
  {
    hide CanonValue;
    if items != [] {
      var front, last := items[..|items| - 1], items[|items| - 1];
      SettledItemsStay(f, front);
      SettledAsStays(f, last);
      assert items == front + [last];
      assert forall k :: 0 <= k < |front| ==> front[k] == items[k];
    }
  }

  lemma {:induction false} SettledAsStays(f: FieldDef, v: Value)
    requires WellFormedField(f) && TypedAs(f, v)
    ensures CanonAs(f, v) == v <==> SettledAs(f, v)
    decreases f, 0
  {
    SettledValueStays(f.ltype, v);
  }

  lemma {:induction false} SettledSlotStays(fs: seq<FieldDef>, m: seq<Slot>, i: nat)
    requires WellFormed(fs) && TypedMessage(fs, m) && i < |fs|
    ensures PartlySlot(fs, m, |fs|, i) == m[i] <==> SettledSlot(fs, m, i)
    decreases fs, 0
  {
    hide CanonAs, SettledAs, DefaultSlot, TypedAs;
    assert TypedSlot(fs, m, i) && WellFormedField(fs[i]);
    match fs[i].rule
    case Required => SettledAsStays(fs[i], m[i].v);
    case Optional =>
      if m[i].has {
        SettledAsStays(fs[i], m[i].v);
      }
    case Repeated(_) => SettledItemsStay(fs[i], m[i].items);
    case Oneof =>
      if Leader(fs, i) == i {
        match Chosen(fs, m, i)
        case None =>
        case Some(c) =>
          assert WellFormedField(fs[c]);
          SettledAsStays(fs[c], m[i].v);
      }
  }

  /** The messages that arrive exactly as they were sent. */
  lemma {:induction false} SettledStays(fs: seq<FieldDef>, m: seq<Slot>)
    requires WellFormed(fs) && TypedMessage(fs, m)
    ensures Canon(fs, m) == m <==> Settled(fs, m)
    decreases fs, 1
  {
    hide PartlySlot, SettledSlot;
    forall i | 0 <= i < |fs| ensures Canon(fs, m)[i] == m[i] <==> SettledSlot(fs, m, i) {
      SettledSlotStays(fs, m, i);
    }
  }

  lemma {:induction false} CanonValueSettles(t: LType, v: Value)
    requires WellFormedType(t) && Typed(t, v)
    ensures SettledValue(t, CanonValue(t, v))
    decreases t, 0
  {
    match t
    case LString(n) => TextIsWhole(v.bytes, n);
    case LSub(fs) => CanonSettles(fs, v.slots);
    case _ =>
  }

  lemma {:induction false} CanonAsSettles(f: FieldDef, v: Value)
    requires WellFormedField(f) && TypedAs(f, v)
    ensures SettledAs(f, CanonAs(f, v))
    decreases f, 0
  {
    CanonValueSettles(f.ltype, v);
  }

  lemma {:induction false} CanonItemsSettle(f: FieldDef, items: seq<Value>)
    requires WellFormedField(f) && forall k :: 0 <= k < |items| ==> TypedAs(f, items[k])
    ensures forall k :: 0 <= k < |items| ==> SettledAs(f, CanonItems(f, items)[k])
    decreases f, 1, |items|
  {
    hide CanonAs, SettledAs;
    if items != [] {
      CanonItemsSettle(f, items[..|items| - 1]);
      CanonAsSettles(f, items[|items| - 1]);
    }
  }

  lemma {:induction false} CanonSlotSettles(fs: seq<FieldDef>, m: seq<Slot>, i: nat)
    requires WellFormed(fs) && TypedMessage(fs, m) && i < |fs|
    ensures SettledSlot(fs, Canon(fs, m), i)
    decreases fs, 0
  {
    hide CanonAs, SettledAs, DefaultSlot, TypedAs, Canon;
    var c := Canon(fs, m);
    assert TypedSlot(fs, m, i) && TypedSlot(fs, c, i) && WellFormedField(fs[i]);
    CanonSlot(fs, m, i);
    match fs[i].rule
    case Required => CanonAsSettles(fs[i], m[i].v);
    case Optional =>
      if m[i].has {
        CanonAsSettles(fs[i], m[i].v);
      }
    case Repeated(_) => CanonItemsSettle(fs[i], m[i].items);
    case Oneof =>
      if Leader(fs, i) == i {
        match Chosen(fs, m, i)
        case None => NoTagIsZero(fs);
        case Some(j) =>
          assert WellFormedField(fs[j]);
          FindUnique(fs, j);
          CanonAsSettles(fs[j], m[i].v);
      }
  }

  lemma CanonSlot(fs: seq<FieldDef>, m: seq<Slot>, i: nat)
    requires WellFormed(fs) && TypedMessage(fs, m) && i < |fs|
    ensures Canon(fs, m)[i] == PartlySlot(fs, m, |fs|, i)
  {
  }

  lemma NoTagIsZero(fs: seq<FieldDef>)
    requires WellFormed(fs)
    ensures Find(fs, 0).None?
  {
    assert forall i :: 0 <= i < |fs| ==> WellFormedField(fs[i]);
  }

  /** What arrives is settled. */
  lemma {:induction false} CanonSettles(fs: seq<FieldDef>, m: seq<Slot>)
    requires WellFormed(fs) && TypedMessage(fs, m)
    ensures Settled(fs, Canon(fs, m))
    decreases fs, 1
  {
    forall i | 0 <= i < |fs| ensures SettledSlot(fs, Canon(fs, m), i) {
      CanonSlotSettles(fs, m, i);
    }
  }

  /** A message that has made the trip once arrives unchanged ever after. */
  lemma CanonTwice(fs: seq<FieldDef>, m: seq<Slot>)
    requires WellFormed(fs) && TypedMessage(fs, m)
    ensures Canon(fs, Canon(fs, m)) == Canon(fs, m)
  {
    CanonSettles(fs, m);
    SettledStays(fs, Canon(fs, m));
  }

  /** A message comes back as the very value that was sent exactly when it is settled and every
      string that is sent has room for its terminator. */
  lemma ArrivesUnchangedExactly(fs: seq<FieldDef>, m: seq<Slot>, tail: seq<Byte>)
    requires WellFormed(fs) && TypedMessage(fs, m)
    requires EncodeMessage(fs, m).Some? && |EncodeMessage(fs, m).value| < TWO_32
    ensures Decode(fs, In(EncodeMessage(fs, m).value + tail, |EncodeMessage(fs, m).value|)) == Decoded(m, In(tail, 0))
       <==> Terminated(fs, m) && Settled(fs, m)
  {
    RoundTrip(fs, m, tail);
    SettledStays(fs, m);
  }
}
