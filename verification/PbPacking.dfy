/** A repeated scalar may arrive packed, in several packed pieces, or entry by entry. */
module PbPacking {
  import opened PbWire
  import opened PbTypes
  import opened PbEncoding
  import opened PbDecoding
  import opened PbRoundTrip

  /** A piece of a repeated scalar on the wire: a packed run, or one entry with its own tag. */
  datatype Piece = Packed(items: seq<Value>) | Alone(item: Value)

  function Items(p: Piece): seq<Value> { match p case Packed(items) => items case Alone(v) => [v] }

  function AllItems(ps: seq<Piece>): seq<Value> {
    if ps == [] then [] else AllItems(ps[..|ps| - 1]) + Items(ps[|ps| - 1])
  }

  predicate TypedPiece(t: LType, p: Piece) { forall k :: 0 <= k < |Items(p)| ==> Typed(t, Items(p)[k]) }

  predicate TypedPieces(t: LType, ps: seq<Piece>) { forall k :: 0 <= k < |ps| ==> TypedPiece(t, ps[k]) }

  function PieceWire(f: FieldDef, p: Piece): (w: nat)
    ensures w < 8
  {
    if p.Packed? then 2 else WireType(f.ltype)
  }

  function PieceBody(f: FieldDef, p: Piece): seq<Byte>
    requires Packable(f.ltype) && TypedPiece(f.ltype, p)
  {
    match p
    case Packed(items) =>
      assert Items(p) == items;
      Prefixed(Payload(f.ltype, items))
    case Alone(v) =>
      assert Typed(f.ltype, Items(p)[0]);
      EncodeScalar(f.ltype, v.i)
  }

  function PieceBytes(f: FieldDef, p: Piece): seq<Byte>
    requires Packable(f.ltype) && TypedPiece(f.ltype, p)
  {
    Tag(PieceWire(f, p), f.tag) + PieceBody(f, p)
  }

  function PiecesBytes(f: FieldDef, ps: seq<Piece>): seq<Byte>
    requires Packable(f.ltype) && TypedPieces(f.ltype, ps)
  {
    if ps == [] then [] else PiecesBytes(f, ps[..|ps| - 1]) + PieceBytes(f, ps[|ps| - 1])
  }

  // ---- One packed run ----

  lemma {:induction false} PayloadAppend(t: LType, a: seq<Value>, b: seq<Value>)
    requires Packable(t) && (forall k :: 0 <= k < |a| ==> Typed(t, a[k])) && forall k :: 0 <= k < |b| ==> Typed(t, b[k])
    ensures Payload(t, a + b) == Payload(t, a) + Payload(t, b)
    decreases |b|
  {
    hide EncodeScalar;
    if b == [] {
      assert a + b == a;
    } else {
      var front, last := b[..|b| - 1], b[|b| - 1];
      assert Typed(t, last);
      assert last.Int?;
      hide Typed;
      assert (a + b)[..|a + b| - 1] == a + front;
      PayloadAppend(t, a, front);
      var e := EncodeScalar(t, last.i);
      assert Payload(t, a + b) == Payload(t, a) + Payload(t, front) + e;
    }
  }

  lemma {:induction false} PayloadNotEmpty(t: LType, items: seq<Value>)
    requires Packable(t) && items != [] && forall k :: 0 <= k < |items| ==> Typed(t, items[k])
    ensures |Payload(t, items)| > 0
  {
    assert Typed(t, items[|items| - 1]);
  }

  /** A packed run is taken in full if the array has room for it, and refused otherwise. */
  lemma {:induction false} PackedRun(t: LType, max: nat, before: seq<Value>, items: seq<Value>, rest: seq<Byte>)
    requires Packable(t) && WellFormedType(t) && |before| <= max
    requires (forall k :: 0 <= k < |items| ==> Typed(t, items[k])) && forall k :: 0 <= k < |before| ==> Typed(t, before[k])
    ensures var p := Payload(t, items);
            var r := DecodePacked(t, max, before, In(p + rest, |p|));
            if |before| + |items| <= max then r == Got(before + items, In(rest, 0)) else r.Got? && r.after.left > 0
  {
    hide Payload, DecodeScalar;
    if |before| + |items| <= max {
      PackedArrives(t, max, before, items, rest, 0);
    } else {
      var fit, over := items[..max - |before|], items[max - |before|..];
      assert items == fit + over;
      PayloadAppend(t, fit, over);
      PayloadNotEmpty(t, over);
      var p := Payload(t, over);
      assert Payload(t, fit) + p + rest == Payload(t, fit) + (p + rest);
      PackedArrives(t, max, before, fit, p + rest, |p|);
    }
  }

  // ---- One piece ----

  lemma PieceArrives(f: FieldDef, before: seq<Value>, p: Piece, rest: seq<Byte>, left: nat)
    requires WellFormedField(f) && f.rule.Repeated? && Packable(f.ltype) && TypedPiece(f.ltype, p)
    requires |before| <= f.rule.max && left <= |rest| && |PieceBytes(f, p)| < TWO_32
    requires forall k :: 0 <= k < |before| ==> TypedAs(f, before[k])
    ensures var body := PieceBody(f, p);
            var r := DecodeRepeated(f, before, PieceWire(f, p), In(body + rest, |body| + left));
            if |before| + |Items(p)| <= f.rule.max then r == Got(before + Items(p), In(rest, left)) else r.Bad?
  {
    hide Payload, DecodeScalar, EncodeScalar, DecodePacked, OpenSub, Varint;
    forall k | 0 <= k < |before| ensures Typed(f.ltype, before[k]) {
      assert TypedAs(f, before[k]);
    }
    match p
    case Packed(items) =>
      assert Items(p) == items;
      var body := Payload(f.ltype, items);
      SubRoundTrip(body, rest, |Prefixed(body)| + left);
      PackedRun(f.ltype, f.rule.max, before, items, rest);
    case Alone(v) =>
      assert Items(p) == [v] && Typed(f.ltype, Items(p)[0]);
      ScalarArrives(f.ltype, v.i, rest, left);
      assert v == Int(v.i);
      if |before| < f.rule.max {
        var e := EncodeScalar(f.ltype, v.i);
        assert DecodeAs(f, DefaultValue(f), In(e + rest, |e| + left)) == Got(v, In(rest, left));
      }
  }

  // ---- All pieces ----

  /** However the items are cut into pieces, the array that arrives holds all of them in order,
      or the decoder reports that there are too many. */
  lemma {:induction false} PiecesArrive(fs: seq<FieldDef>, m: seq<Slot>, seen: set<nat>, i: nat, ps: seq<Piece>, rest: seq<Byte>, left: nat)
    requires WellFormed(fs) && TypedMessage(fs, m) && i < |fs| && fs[i].rule.Repeated? && Packable(fs[i].ltype)
    requires m[i].Many? && |m[i].items| <= fs[i].rule.max && TypedPieces(fs[i].ltype, ps)
    requires left <= |rest| && |PiecesBytes(fs[i], ps)| < TWO_32
    ensures var e := PiecesBytes(fs[i], ps);
            var r := DecodeLoop(fs, m, seen, In(e + rest, |e| + left));
            var all := m[i].items + AllItems(ps);
            if |all| <= fs[i].rule.max
            then TypedMessage(fs, m[i := Many(all)]) && r == DecodeLoop(fs, m[i := Many(all)], seen, In(rest, left))
            else r == Stuck
    decreases |ps|
  {
    hide DecodeLoop, PieceBytes, Typed, TypedAs, TypedPiece, WellFormed, Leader, Items;
    var f := fs[i];
    assert TypedSlot(fs, m, i);
    if ps == [] {
      assert m[i].items + [] == m[i].items && m[i := Many(m[i].items)] == m;
      assert [] + rest == rest;
    } else {
      var front, last := ps[..|ps| - 1], ps[|ps| - 1];
      var e0, e1 := PiecesBytes(f, front), PieceBytes(f, last);
      assert (e0 + e1) + rest == e0 + (e1 + rest);
      PiecesArrive(fs, m, seen, i, front, e1 + rest, |e1| + left);
      var done := m[i].items + AllItems(front);
      assert m[i].items + AllItems(ps) == done + Items(last);
      if |done| <= f.rule.max {
        var m' := m[i := Many(done)];
        assert TypedSlot(fs, m', i);
        PieceTurn(fs, m', seen, i, last, rest, left);
        assert m'[i := Many(done + Items(last))] == m[i := Many(done + Items(last))];
      }
    }
  }

  lemma PieceTurn(fs: seq<FieldDef>, m: seq<Slot>, seen: set<nat>, i: nat, p: Piece, rest: seq<Byte>, left: nat)
    requires WellFormed(fs) && TypedMessage(fs, m) && i < |fs| && fs[i].rule.Repeated? && Packable(fs[i].ltype)
    requires m[i].Many? && |m[i].items| <= fs[i].rule.max && TypedPiece(fs[i].ltype, p)
    requires left <= |rest| && |PieceBytes(fs[i], p)| < TWO_32
    ensures var e := PieceBytes(fs[i], p);
            var r := DecodeLoop(fs, m, seen, In(e + rest, |e| + left));
            var all := m[i].items + Items(p);
            if |all| <= fs[i].rule.max
            then TypedMessage(fs, m[i := Many(all)]) && r == DecodeLoop(fs, m[i := Many(all)], seen, In(rest, left))
            else r == Stuck
  {
    hide DecodeLoop, DecodeRepeated, Tag, PieceBody, PieceWire, Items;
    var f := fs[i];
    assert WellFormedField(f) && TypedSlot(fs, m, i);
    var wireType, body := PieceWire(f, p), PieceBody(f, p);
    assert (Tag(wireType, f.tag) + body) + rest == Tag(wireType, f.tag) + (body + rest);
    KnownField(fs, m, seen, i, wireType, body + rest, |body| + left);
    PieceArrives(f, m[i].items, p, rest, left);
  }

  /** What the pieces, followed by b, decode to. */
  function DecodePieces(fs: seq<FieldDef>, m: seq<Slot>, i: nat, ps: seq<Piece>, b: seq<Byte>): Result
    requires WellFormed(fs) && TypedMessage(fs, m) && i < |fs| && Packable(fs[i].ltype) && TypedPieces(fs[i].ltype, ps)
  {
    DecodeNoInit(fs, m, In(PiecesBytes(fs[i], ps) + b, |PiecesBytes(fs[i], ps)| + |b|))
  }

  /** Only the items count. */
  lemma PiecesDecode(fs: seq<FieldDef>, m: seq<Slot>, i: nat, ps: seq<Piece>, b: seq<Byte>)
    requires WellFormed(fs) && TypedMessage(fs, m) && i < |fs| && fs[i].rule.Repeated? && Packable(fs[i].ltype)
    requires m[i].Many? && |m[i].items| <= fs[i].rule.max && TypedPieces(fs[i].ltype, ps)
    requires |PiecesBytes(fs[i], ps)| < TWO_32
    ensures var all := m[i].items + AllItems(ps);
            if |all| <= fs[i].rule.max
            then TypedMessage(fs, m[i := Many(all)])
              && DecodePieces(fs, m, i, ps, b) == DecodeNoInit(fs, m[i := Many(all)], In(b, |b|))
            else DecodePieces(fs, m, i, ps, b) == Failed
  {
    hide DecodeLoop, PiecesBytes, WellFormed, TypedMessage, TypedPieces, AllItems, Packable, AllRequired;
    PiecesArrive(fs, m, {}, i, ps, b, |b|);
  }

  /** Two ways to send the same items are decoded alike, whatever follows. */
  lemma PackingDoesNotMatter(fs: seq<FieldDef>, m: seq<Slot>, i: nat, ps: seq<Piece>, qs: seq<Piece>, b: seq<Byte>)
    requires WellFormed(fs) && TypedMessage(fs, m) && i < |fs| && fs[i].rule.Repeated? && Packable(fs[i].ltype)
    requires m[i].Many? && |m[i].items| <= fs[i].rule.max
    requires TypedPieces(fs[i].ltype, ps) && TypedPieces(fs[i].ltype, qs) && AllItems(ps) == AllItems(qs)
    requires |PiecesBytes(fs[i], ps)| < TWO_32 && |PiecesBytes(fs[i], qs)| < TWO_32
    ensures DecodePieces(fs, m, i, ps, b) == DecodePieces(fs, m, i, qs, b)
  {
    hide *;
    PiecesDecode(fs, m, i, ps, b);
    PiecesDecode(fs, m, i, qs, b);
  }
}
