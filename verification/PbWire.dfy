/** The protobuf wire format as pb_encode.c writes it and pb_decode.c reads it: varints,
    zigzag, fixed-width integers, tags, skipping and length-limited substreams. */
module PbWire {

  type Byte = x: int | 0 <= x < 256

  const TWO_32 := 0x1_0000_0000
  const TWO_64 := 0x1_0000_0000_0000_0000

  // ---- Writing ----

  /** Seven bits a byte, least significant first, the top bit marking all but the last. */
  function Varint(v: nat): (s: seq<Byte>)
    ensures |s| > 0
  {
    if v < 128 then [v] else [v % 128 + 128] + Varint(v / 128)
  }

  function Little(v: nat, n: nat): (s: seq<Byte>)
    ensures |s| == n
  {
    if n == 0 then [] else [v % 256] + Little(v / 256, n - 1)
  }

  function ZigZag(v: int): nat { if v < 0 then -2 * v - 1 else 2 * v }

  function Tag(wireType: nat, tag: nat): (s: seq<Byte>)
    ensures |s| > 0
  {
    Varint(tag * 8 + wireType)
  }

  // ---- Reading ----

  /** An input stream: the bytes from the read position on, and how many may still be read.
      After a substream the two counts may differ. */
  datatype In = In(rest: seq<Byte>, left: nat)

  predicate Sound(s: In) { s.left <= |s.rest| }

  /** `after` is where a read from `s` may stop: no more may be read, and at least as many bytes
      stay behind the limit. */
  predicate Follows(s: In, after: In) {
    Sound(after) && after.left <= s.left && |after.rest| - after.left >= |s.rest| - s.left
  }

  datatype Read<T> = Got(value: T, after: In) | Bad(after: In)

  function ReadByte(s: In): (r: Read<Byte>)
    requires Sound(s)
    ensures Follows(s, r.after)
    ensures r.Got? ==> r.after.left == s.left - 1
  {
    if s.left == 0 then Bad(s) else Got(s.rest[0], In(s.rest[1..], s.left - 1))
  }

  function ReadBytes(s: In, n: nat): (r: Read<seq<Byte>>)
    requires Sound(s)
    ensures Follows(s, r.after)
    ensures r.Got? ==> |r.value| == n && r.after.left == s.left - n
  {
    if s.left < n then Bad(s) else Got(s.rest[..n], In(s.rest[n..], s.left - n))
  }

  /** What byte k of a varint contributes, before scaling. */
  function LowGroup(b: Byte, k: nat, limit: nat, lastMod: nat): nat
    requires lastMod > 0
  {
    if k + 1 == limit then b % 128 % lastMod else b % 128
  }

  /** A varint of at most `limit` bytes; of the last one only `lastMod` values survive the shift.
      The bytes read so far number k. */
  function ReadVarintFrom(s: In, k: nat, limit: nat, lastMod: nat): (r: Read<nat>)
    requires Sound(s) && lastMod > 0
    ensures Follows(s, r.after)
    ensures r.Got? ==> r.after.left < s.left
    decreases s.left
  {
    if k >= limit then Bad(s)
    else match ReadByte(s)
      case Bad(s') => Bad(s')
      case Got(b, s') =>
        var low := LowGroup(b, k, limit, lastMod);
        if b < 128 then Got(low, s')
        else
          match ReadVarintFrom(s', k + 1, limit, lastMod)
          case Bad(s'') => Bad(s'')
          case Got(high, s'') => Got(low + 128 * high, s'')
  }

  /** pb_decode_varint: ten bytes, of the tenth only the lowest bit fits. */
  function ReadVarint64(s: In): (r: Read<nat>)
    requires Sound(s)
    ensures Follows(s, r.after)
    ensures r.Got? ==> r.after.left < s.left
  {
    ReadVarintFrom(s, 0, 10, 2)
  }

  /** pb_decode_varint32: five bytes, of the fifth only four bits fit. */
  function ReadVarint32(s: In): (r: Read<nat>)
    requires Sound(s)
    ensures Follows(s, r.after)
    ensures r.Got? ==> r.after.left < s.left
  {
    ReadVarintFrom(s, 0, 5, 16)
  }

  function LittleValue(b: seq<Byte>): nat {
    if b == [] then 0 else b[0] + 256 * LittleValue(b[1..])
  }

  function UnZigZag(v: nat): int { if v % 2 == 1 then -(v / 2) - 1 else v / 2 }

  datatype TagRead = Header(tag: nat, wireType: nat, after: In) | Eof(after: In) | TagError(after: In)

  /** pb_decode_tag: running out of input inside the tag, or a zero tag, ends the message. */
  function ReadTag(s: In): (r: TagRead)
    requires Sound(s)
    ensures Follows(s, r.after)
    ensures r.Header? ==> r.after.left < s.left && r.wireType < 8
  {
    match ReadVarint32(s)
    case Bad(s') => if s'.left == 0 then Eof(s') else TagError(s')
    case Got(v, s') => if v == 0 then Eof(s') else Header(v / 8, v % 8, s')
  }

  /** pb_skip_varint: no limit on the length. */
  function SkipVarint(s: In): (r: Read<()>)
    requires Sound(s)
    ensures Follows(s, r.after)
    decreases s.left
  {
    match ReadByte(s)
    case Bad(s') => Bad(s')
    case Got(b, s') => if b < 128 then Got((), s') else SkipVarint(s')
  }

  function SkipBytes(s: In, n: nat): (r: Read<()>)
    requires Sound(s)
    ensures Follows(s, r.after)
  {
    match ReadBytes(s, n)
    case Bad(s') => Bad(s')
    case Got(_, s') => Got((), s')
  }

  /** pb_skip_field. */
  function SkipField(s: In, wireType: nat): (r: Read<()>)
    requires Sound(s)
    ensures Follows(s, r.after)
  {
    match wireType
    case 0 => SkipVarint(s)
    case 1 => SkipBytes(s, 8)
    case 2 => (match ReadVarint32(s) case Bad(s') => Bad(s') case Got(n, s') => SkipBytes(s', n))
    case 5 => SkipBytes(s, 4)
    case _ => Bad(s)
  }

  /** pb_make_string_substream: the substream, and what the parent may read after it. */
  function OpenSub(s: In): (r: Read<In>)
    requires Sound(s)
    ensures Follows(s, r.after)
    ensures r.Got? ==> Sound(r.value) && r.value.rest == r.after.rest && r.value.left + r.after.left < s.left
    ensures r.Got? ==> |r.after.rest| - r.value.left - r.after.left >= |s.rest| - s.left
  {
    match ReadVarint32(s)
    case Bad(s') => Bad(s')
    case Got(n, s') => if s'.left < n then Bad(s') else Got(In(s'.rest, n), In(s'.rest, s'.left - n))
  }

  /** pb_close_string_substream: the parent goes on where the substream stopped. */
  function CloseSub(sub: In, parent: In): In { In(sub.rest, parent.left) }

  // ---- Round trips ----

  /** The largest value that fits from byte k on. */
  function Room(k: nat, limit: nat, lastMod: nat): nat
    requires k < limit
    decreases limit - k
  {
    if k == limit - 1 then lastMod else 128 * Room(k + 1, limit, lastMod)
  }

  lemma ReadVarintStep(b: Byte, tail: seq<Byte>, left: nat, k: nat, limit: nat, lastMod: nat)
    requires k < limit && lastMod > 0 && 0 < left <= 1 + |tail|
    ensures ReadVarintFrom(In([b] + tail, left), k, limit, lastMod)
         == if b < 128 then Got(LowGroup(b, k, limit, lastMod), In(tail, left - 1))
            else match ReadVarintFrom(In(tail, left - 1), k + 1, limit, lastMod)
                 case Bad(s) => Bad(s)
                 case Got(high, s) => Got(LowGroup(b, k, limit, lastMod) + 128 * high, s)
  {
    assert ([b] + tail)[1..] == tail;
    assert ReadByte(In([b] + tail, left)) == Got(b, In(tail, left - 1));
  }

  lemma LowOfLast(v: nat, k: nat, limit: nat, lastMod: nat)
    requires k < limit && 0 < lastMod <= 128 && v < 128 && v < Room(k, limit, lastMod)
    ensures LowGroup(v, k, limit, lastMod) == v
  {
    if k + 1 == limit {
      SmallMod(v, lastMod);
    }
  }

  lemma SmallMod(v: nat, m: nat)
    requires v < m
    ensures v % m == v
  {
  }

  lemma {:induction false} VarintRoundTripFrom(v: nat, tail: seq<Byte>, left: nat, k: nat, limit: nat, lastMod: nat)
    requires k < limit && 0 < lastMod <= 128
    requires v < Room(k, limit, lastMod)
    requires |Varint(v)| <= left <= |Varint(v)| + |tail|
    ensures ReadVarintFrom(In(Varint(v) + tail, left), k, limit, lastMod) == Got(v, In(tail, left - |Varint(v)|))
    decreases v
  {
    hide ReadVarintFrom;
    if v < 128 {
      ReadVarintStep(v, tail, left, k, limit, lastMod);
      LowOfLast(v, k, limit, lastMod);
    } else {
      assert k + 1 < limit;
      var rest := Varint(v / 128);
      assert Varint(v) + tail == [v % 128 + 128] + (rest + tail);
      ReadVarintStep(v % 128 + 128, rest + tail, left, k, limit, lastMod);
      VarintRoundTripFrom(v / 128, tail, left - 1, k + 1, limit, lastMod);
    }
  }

  lemma Varint64RoundTrip(v: nat, tail: seq<Byte>, left: nat)
    requires v < TWO_64
    requires |Varint(v)| <= left <= |Varint(v)| + |tail|
    ensures ReadVarint64(In(Varint(v) + tail, left)) == Got(v, In(tail, left - |Varint(v)|))
  {
    assert Room(5, 10, 2) == 128 * 128 * 128 * 128 * 2;
    assert Room(0, 10, 2) == TWO_64;
    VarintRoundTripFrom(v, tail, left, 0, 10, 2);
  }

  lemma Varint32RoundTrip(v: nat, tail: seq<Byte>, left: nat)
    requires v < TWO_32
    requires |Varint(v)| <= left <= |Varint(v)| + |tail|
    ensures ReadVarint32(In(Varint(v) + tail, left)) == Got(v, In(tail, left - |Varint(v)|))
  {
    assert Room(0, 5, 16) == TWO_32;
    VarintRoundTripFrom(v, tail, left, 0, 5, 16);
  }

  lemma {:induction false} VarintLength(v: nat, n: nat)
    requires n > 0 && v < Power128(n)
    ensures |Varint(v)| <= n
    decreases v
  {
    if v >= 128 {
      VarintLength(v / 128, n - 1);
    }
  }

  function Power128(n: nat): nat { if n == 0 then 1 else 128 * Power128(n - 1) }

  lemma ZigZagRoundTrip(v: int)
    ensures UnZigZag(ZigZag(v)) == v
  {
  }

  lemma UnZigZagRoundTrip(v: nat)
    ensures ZigZag(UnZigZag(v)) == v
  {
  }

  function Power256(n: nat): nat { if n == 0 then 1 else 256 * Power256(n - 1) }

  lemma {:induction false} LittleRoundTrip(v: nat, n: nat)
    requires v < Power256(n)
    ensures LittleValue(Little(v, n)) == v
  {
    if n != 0 {
      LittleRoundTrip(v / 256, n - 1);
      assert Little(v, n)[1..] == Little(v / 256, n - 1);
    }
  }

  lemma TagRoundTrip(wireType: nat, tag: nat, tail: seq<Byte>, left: nat)
    requires wireType < 8 && 0 < tag < 0x2000_0000
    requires |Tag(wireType, tag)| <= left <= |Tag(wireType, tag)| + |tail|
    ensures ReadTag(In(Tag(wireType, tag) + tail, left)) == Header(tag, wireType, In(tail, left - |Tag(wireType, tag)|))
  {
    Varint32RoundTrip(tag * 8 + wireType, tail, left);
  }

  lemma BytesRoundTrip(b: seq<Byte>, tail: seq<Byte>, left: nat)
    requires |b| <= left <= |b| + |tail|
    ensures ReadBytes(In(b + tail, left), |b|) == Got(b, In(tail, left - |b|))
  {
    assert (b + tail)[..|b|] == b;
    assert (b + tail)[|b|..] == tail;
  }

  /** A length prefix opens a substream over exactly the payload. */
  lemma SubRoundTrip(body: seq<Byte>, tail: seq<Byte>, left: nat)
    requires |body| < TWO_32
    requires |Varint(|body|)| + |body| <= left <= |Varint(|body|)| + |body| + |tail|
    ensures OpenSub(In(Varint(|body|) + body + tail, left))
         == Got(In(body + tail, |body|), In(body + tail, left - |Varint(|body|)| - |body|))
  {
    Varint32RoundTrip(|body|, body + tail, left);
    assert Varint(|body|) + body + tail == Varint(|body|) + (body + tail);
  }
}
