/** An input that decodes after anything: each required field once, with the least value. */
module PbContinuation {
  import opened PbWire
  import opened PbTypes
  import opened PbEncoding
  import opened PbDecoding
  import opened PbRoundTrip
  import opened PbMerge

  function LeastValue(t: LType): seq<Byte>
    requires WellFormedType(t)
    decreases t, 0
  {
    match t
    case LBytes(_) => Prefixed([])
    case LString(_) => Prefixed([])
    case LSub(fs) => Prefixed(LeastUpTo(fs, |fs|))
    case _ => EncodeScalar(t, 0)
  }

  function LeastField(f: FieldDef): seq<Byte>
    requires WellFormedField(f)
    decreases f, 0
  {
    if f.rule.Required? then Tag(WireType(f.ltype), f.tag) + LeastValue(f.ltype) else []
  }

  function LeastUpTo(fs: seq<FieldDef>, n: nat): seq<Byte>
    requires WellFormed(fs) && n <= |fs|
    decreases fs, 1, n
  {
    if n == 0 then []
    else
      assert WellFormedField(fs[n - 1]);
      LeastUpTo(fs, n - 1) + LeastField(fs[n - 1])
  }

  /** The shortest thing to say that has every required field. */
  function Least(fs: seq<FieldDef>): seq<Byte>
    requires WellFormed(fs)
  {
    LeastUpTo(fs, |fs|)
  }

  lemma {:induction false} LeastValueArrives(t: LType, into: Value, rest: seq<Byte>, left: nat)
    requires WellFormedType(t) && (t.LSub? ==> Typed(t, into)) && |LeastValue(t)| < TWO_32 && left <= |rest|
    ensures var r := DecodeValue(t, into, In(LeastValue(t) + rest, |LeastValue(t)| + left));
            r.Got? && r.after == In(rest, left)
    decreases t, 0
  {
    hide DecodeNoInit, DecodeScalar, EncodeScalar, Varint, DecodeString, DecodeBytes, OpenSub, Follows, WellFormed;
    match t
    case LBytes(n) => BytesArrive(n, [], rest, left);
    case LString(n) => TextArrives(n, [], rest, left);
    case LSub(fs) =>
      var body := LeastUpTo(fs, |fs|);
      SubRoundTrip(body, rest, |Prefixed(body)| + left);
      LeastMessageArrives(fs, into.slots, rest);
    case _ => ScalarArrives(t, 0, rest, left);
  }

  lemma {:induction false} LeastAsArrives(f: FieldDef, into: Value, rest: seq<Byte>, left: nat)
    requires WellFormedField(f) && TypedAs(f, into) && |LeastValue(f.ltype)| < TWO_32 && left <= |rest|
    ensures var r := DecodeAs(f, into, In(LeastValue(f.ltype) + rest, |LeastValue(f.ltype)| + left));
            r.Got? && r.after == In(rest, left)
    decreases f, 0
  {
    hide DecodeValue, LeastValue;
    LeastValueArrives(f.ltype, into, rest, left);
  }

  lemma {:induction false} LeastFieldArrives(fs: seq<FieldDef>, m: seq<Slot>, i: nat, rest: seq<Byte>, left: nat) returns (m': seq<Slot>)
    requires WellFormed(fs) && TypedMessage(fs, m) && i < |fs| && WellFormedField(fs[i]) && left <= |rest|
    requires |LeastField(fs[i])| < TWO_32
    ensures TypedMessage(fs, m')
    ensures var e := LeastField(fs[i]);
            DecodeLoop(fs, m, SeenUpTo(fs, i), In(e + rest, |e| + left)) == DecodeLoop(fs, m', SeenUpTo(fs, i + 1), In(rest, left))
    decreases fs, 0
  {
    hide DecodeLoop, DecodeAs, LeastValue, Tag;
    var f := fs[i];
    SeenStep(fs, i);
    if f.rule.Required? {
      var tag, body := Tag(WireType(f.ltype), f.tag), LeastValue(f.ltype);
      assert tag + body + rest == tag + (body + rest);
      assert TypedSlot(fs, m, i);
      LeastAsArrives(f, m[i].v, rest, left);
      KnownField(fs, m, SeenUpTo(fs, i), i, WireType(f.ltype), body + rest, |body| + left);
      m' := DecodeField(fs, m, i, WireType(f.ltype), In(body + rest, |body| + left)).m;
    } else {
      m' := m;
      assert [] + rest == rest;
    }
  }

  lemma {:induction false} LeastRuns(fs: seq<FieldDef>, m: seq<Slot>, n: nat, rest: seq<Byte>, left: nat) returns (m': seq<Slot>)
    requires WellFormed(fs) && TypedMessage(fs, m) && n <= |fs| && |LeastUpTo(fs, n)| < TWO_32 && left <= |rest|
    ensures TypedMessage(fs, m')
    ensures var e := LeastUpTo(fs, n);
            DecodeLoop(fs, m, {}, In(e + rest, |e| + left)) == DecodeLoop(fs, m', SeenUpTo(fs, n), In(rest, left))
    decreases fs, 1, n
  {
    hide DecodeLoop, LeastField;
    if n == 0 {
      m' := m;
      assert SeenUpTo(fs, 0) == {} && [] + rest == rest;
    } else {
      assert WellFormedField(fs[n - 1]);
      var e0, e1 := LeastUpTo(fs, n - 1), LeastField(fs[n - 1]);
      assert e0 + e1 + rest == e0 + (e1 + rest);
      var m1 := LeastRuns(fs, m, n - 1, e1 + rest, |e1| + left);
      m' := LeastFieldArrives(fs, m1, n - 1, rest, left);
    }
  }

  lemma {:induction false} LeastMessageArrives(fs: seq<FieldDef>, m: seq<Slot>, rest: seq<Byte>)
    requires WellFormed(fs) && TypedMessage(fs, m) && |LeastUpTo(fs, |fs|)| < TWO_32
    ensures var e := LeastUpTo(fs, |fs|);
            var r := DecodeNoInit(fs, m, In(e + rest, |e|));
            r.Decoded? && r.after == In(rest, 0)
    decreases fs, 2
  {
    hide DecodeLoop, LeastUpTo;
    var m' := LeastRuns(fs, m, |fs|, rest, 0);
    LoopEnds(fs, m', SeenUpTo(fs, |fs|), In(rest, 0));
  }

  /** It decodes in full into any message. */
  lemma LeastDecodesInFull(fs: seq<FieldDef>, m: seq<Slot>)
    requires WellFormed(fs) && TypedMessage(fs, m) && |Least(fs)| < TWO_32
    ensures DecodesInFull(fs, m, Least(fs))
  {
    hide DecodeNoInit, LeastUpTo;
    LeastMessageArrives(fs, m, []);
    assert Least(fs) + [] == Least(fs);
  }

  /** So for every descriptor whose required fields can be said in less than 2^32 bytes, the two
      calls are one exactly when the first leaves nothing at its last tag. */
  lemma MergesExactlyWhenRequiredIsShort(fs: seq<FieldDef>, m: seq<Slot>, a: seq<Byte>)
    requires WellFormed(fs) && TypedMessage(fs, m) && DecodesInFull(fs, m, a) && |Least(fs)| < TWO_32
    ensures MergesWithAll(fs, m, a) <==> LeftAtLastTag(fs, m, a) == 0
  {
    hide MergesWithAll, Least;
    LeastDecodesInFull(fs, DecodeNoInit(fs, m, Whole(a)).m);
    MergesExactlyWhenNothingIsLeft(fs, m, a, Least(fs));
  }
}
