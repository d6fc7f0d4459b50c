/** The decoder as it runs: an input stream over a buffer, substreams and the field loop. */
module PbIStream {
  import opened PbWire
  import opened PbTypes
  import opened PbEncoding
  import opened PbDecoding
  import opened Powers
  import opened Options

  // ---- Varint loops ----

  lemma {:induction false} Pow2Groups(k: nat)
    ensures Pow2(7 * k) == Power128(k) && Power128(k) > 0
  {
    if k > 0 {
      Pow2Groups(k - 1);
      var p := Pow2(7 * k - 7);
      assert Pow2(7 * k - 6) == 2 * p && Pow2(7 * k - 5) == 4 * p && Pow2(7 * k - 4) == 8 * p;
      assert Pow2(7 * k - 3) == 16 * p && Pow2(7 * k - 2) == 32 * p && Pow2(7 * k - 1) == 64 * p;
    }
  }

  /** A value read from byte k on, put behind the groups before it. */
  function Behind(low: nat, factor: nat, r: Read<nat>): Read<nat> {
    match r case Bad(s) => Bad(s) case Got(high, s) => Got(low + factor * high, s)
  }

  lemma {:induction false} PowerGrows(k: nat, n: nat)
    requires k <= n
    ensures 0 < Power128(k) <= Power128(n)
    decreases n
  {
    if k < n {
      PowerGrows(k, n - 1);
    } else if n > 0 {
      PowerGrows(n - 1, n - 1);
    }
  }

  /** Shifting a group to its place in a word of the right width loses what LowGroup drops. */
  lemma ShiftedGroup(b: Byte, k: nat, limit: nat, lastMod: nat)
    requires k < limit && lastMod > 0
    ensures Power128(limit - 1) > 0
    ensures b % 128 * Power128(k) % (lastMod * Power128(limit - 1)) == LowGroup(b, k, limit, lastMod) * Power128(k)
  {
    var x, p, w := b % 128, Power128(k), lastMod * Power128(limit - 1);
    PowerGrows(k, limit - 1);
    if k + 1 == limit {
      ModScaled(x, p, lastMod);
    } else {
      PowerGrows(k + 1, limit - 1);
      assert x * p < 128 * p by { LessTimes(x, 128, p); }
      assert Power128(limit - 1) <= w by { LessTimes(0, lastMod, Power128(limit - 1)); AtLeastOnce(lastMod, Power128(limit - 1)); }
      SmallMod(x * p, w);
    }
  }

  lemma LessTimes(x: nat, y: nat, p: nat)
    requires x < y && p > 0
    ensures x * p < y * p
  {
  }

  lemma AtLeastOnce(n: nat, p: nat)
    requires n > 0
    ensures p <= n * p
  {
  }

  lemma ModScaled(x: nat, p: nat, m: nat)
    requires p > 0 && m > 0
    ensures m * p > 0 && x * p % (m * p) == x % m * p
  {
    var q, r := x / m, x % m;
    assert x * p == q * (m * p) + r * p;
    assert r * p < m * p by { LessTimes(r, m, p); }
    QuotientUnique(x * p, m * p, q, r * p);
  }

  lemma QuotientUnique(a: nat, d: nat, q: nat, r: nat)
    requires d > 0 && r < d && a == q * d + r
    ensures a % d == r
  {
    var q', r' := a / d, a % d;
    assert (q - q') * d == r' - r;
    if q > q' {
      AtLeastOnce(q - q', d);
    } else if q < q' {
      AtLeastOnce(q' - q, d);
    }
  }

  lemma BehindStep(low: nat, k: nat, b: Byte, limit: nat, lastMod: nat, s: In)
    requires Sound(s) && k < limit && lastMod > 0 && ReadByte(s) == Got(b, ReadByte(s).after)
    ensures var g := LowGroup(b, k, limit, lastMod);
            Behind(low, Power128(k), ReadVarintFrom(s, k, limit, lastMod))
              == if b < 128 then Got(low + g * Power128(k), ReadByte(s).after)
            else Behind(low + g * Power128(k), Power128(k + 1), ReadVarintFrom(ReadByte(s).after, k + 1, limit, lastMod))
  {
    var g, p := LowGroup(b, k, limit, lastMod), Power128(k);
    if b >= 128 {
      var r := ReadVarintFrom(ReadByte(s).after, k + 1, limit, lastMod);
      if r.Got? {
        Distribute(p, g, r.value);
      }
    }
  }

  /** One more byte of a varint, its group shifted to its place in a word of `width` values. */
  lemma VarintStep(low: nat, k: nat, b: Byte, limit: nat, lastMod: nat, width: nat, s: In)
    requires Sound(s) && k < limit && lastMod > 0 && ReadByte(s) == Got(b, ReadByte(s).after)
    requires width == lastMod * Power128(limit - 1) && width > 0
    ensures var next := low + b % 128 * Pow2(7 * k) % width;
            Behind(low, Power128(k), ReadVarintFrom(s, k, limit, lastMod))
              == if b < 128 then Got(next, ReadByte(s).after)
                 else Behind(next, Power128(k + 1), ReadVarintFrom(ReadByte(s).after, k + 1, limit, lastMod))
  {
    BehindStep(low, k, b, limit, lastMod, s);
    Pow2Groups(k);
    ShiftedGroup(b, k, limit, lastMod);
  }

  lemma BehindNothing(r: Read<nat>)
    ensures Behind(0, Power128(0), r) == r
  {
  }

  lemma VarintStops(low: nat, k: nat, limit: nat, lastMod: nat, s: In)
    requires Sound(s) && lastMod > 0 && (k >= limit || s.left == 0)
    ensures Behind(low, Power128(k), ReadVarintFrom(s, k, limit, lastMod)) == Bad(s)
  {
  }

  lemma Widths()
    ensures 16 * Power128(4) == TWO_32 && 2 * Power128(9) == TWO_64
  {
    assert Power128(4) == 128 * 128 * 128 * 128;
    assert Power128(9) == 128 * 128 * 128 * 128 * 128 * Power128(4);
  }

  lemma Distribute(p: nat, g: nat, h: nat)
    ensures p * (g + 128 * h) == g * p + 128 * p * h
  {
  }

  // ---- Casts ----

  /** A cast to a signed type of so many bytes: the low bits, read as two's complement. */
  function CastSigned(i: int, width: nat): int
    requires width in {1, 2, 4, 8}
  {
    Signed(i % Limit(width), width)
  }

  lemma CastSignedFits(i: int, width: nat)
    requires width in {1, 2, 4, 8}
    ensures CastSigned(i, width) == i <==> SignedFits(i, width)
    ensures SignedFits(CastSigned(i, width), width)
  {
    if SignedFits(i, width) {
      assert i % Limit(width) == if i < 0 then i + Limit(width) else i;
    }
  }

  /** Two casts and a comparison decide what NarrowSigned says. */
  lemma NarrowIsCast(u: nat, width: nat)
    requires u < TWO_64 && width in {1, 2, 4, 8}
    ensures var s := if width == 8 then CastSigned(u, 8) else CastSigned(u, 4);
            NarrowSigned(u, width) == if CastSigned(s, width) == s then Some(s) else None
  {
    var s := if width == 8 then CastSigned(u, 8) else CastSigned(u, 4);
    CastSignedFits(s, width);
  }

  lemma CastUnsignedFits(i: nat, width: nat)
    ensures i % Limit(width) == i <==> i < Limit(width)
  {
  }

  /** Bytes put in their places in a word, least significant first. */
  function FromFour(b0: int, b1: int, b2: int, b3: int): int { b0 + b1 * 0x100 + b2 * 0x1_0000 + b3 * 0x100_0000 }

  function FromEight(b0: int, b1: int, b2: int, b3: int, b4: int, b5: int, b6: int, b7: int): int {
    b0 + b1 * 0x100 + b2 * 0x1_0000 + b3 * 0x100_0000
    + b4 * 0x1_0000_0000 + b5 * 0x100_0000_0000 + b6 * 0x1_0000_0000_0000 + b7 * 0x100_0000_0000_0000
  }

  lemma LittleOfFour(b: seq<Byte>)
    requires |b| == 4
    ensures LittleValue(b) == FromFour(b[0], b[1], b[2], b[3])
  {
    assert LittleValue(b) == b[0] + 256 * LittleValue(b[1..]);
    assert LittleValue(b[1..]) == b[1] + 256 * LittleValue(b[1..][1..]);
    assert LittleValue(b[1..][1..]) == b[2] + 256 * LittleValue(b[1..][1..][1..]);
    assert LittleValue(b[1..][1..][1..]) == b[3] + 256 * LittleValue(b[1..][1..][1..][1..]);
  }

  lemma LittleValueSplit(b: seq<Byte>)
    requires |b| == 8
    ensures LittleValue(b) == LittleValue(b[..4]) + TWO_32 * LittleValue(b[4..])
  {
    assert b == [b[0]] + ([b[1]] + ([b[2]] + ([b[3]] + b[4..])));
    assert b[..4] == [b[0]] + ([b[1]] + ([b[2]] + ([b[3]] + [])));
    LittleCons(b[3], b[4..]);
    LittleCons(b[2], [b[3]] + b[4..]);
    LittleCons(b[1], [b[2]] + ([b[3]] + b[4..]));
    LittleCons(b[0], [b[1]] + ([b[2]] + ([b[3]] + b[4..])));
    LittleCons(b[3], []);
    LittleCons(b[2], [b[3]] + []);
    LittleCons(b[1], [b[2]] + ([b[3]] + []));
    LittleCons(b[0], [b[1]] + ([b[2]] + ([b[3]] + [])));
  }

  lemma LittleCons(b: Byte, tail: seq<Byte>)
    ensures LittleValue([b] + tail) == b + 256 * LittleValue(tail)
  {
    assert ([b] + tail)[1..] == tail;
  }

  lemma LittleOfEight(b: seq<Byte>)
    requires |b| == 8
    ensures LittleValue(b) == FromEight(b[0], b[1], b[2], b[3], b[4], b[5], b[6], b[7])
  {
    LittleOfFour(b[..4]);
    LittleOfFour(b[4..]);
    LittleValueSplit(b);
  }

  /** pb_istream_t over a buffer (pb_istream_from_buffer); a substream shares the buffer. */
  class IStream {
    const source: seq<Byte>
    /** Where the next byte comes from (state). */
    var pos: nat
    var bytesLeft: nat

    ghost predicate Valid()
      reads this
    {
      pos + bytesLeft <= |source|
    }

    ghost function View(): (s: In)
      requires Valid()
      reads this
      ensures Sound(s)
    {
      In(source[pos..], bytesLeft)
    }

    constructor (buf: seq<Byte>, start: nat, size: nat)
      requires start + size <= |buf|
      ensures Valid() && source == buf && View() == In(buf[start..], size)
    {
      source := buf;
      pos, bytesLeft := start, size;
    }

    /** pb_readbyte. */
    method NextByte() returns (ok: bool, byte: Byte)
      requires Valid()
      modifies this
      ensures Valid() && View() == ReadByte(old(View())).after
      ensures ok == ReadByte(old(View())).Got? && (ok ==> byte == ReadByte(old(View())).value)
    {
      if bytesLeft == 0 {
        return false, 0;
      }
      byte := source[pos];
      pos := pos + 1;
      bytesLeft := bytesLeft - 1;
      ok := true;
    }

    /** pb_read. */
    method Read(count: nat) returns (ok: bool, data: seq<Byte>)
      requires Valid()
      modifies this
      ensures Valid() && View() == ReadBytes(old(View()), count).after
      ensures ok == ReadBytes(old(View()), count).Got? && (ok ==> data == ReadBytes(old(View()), count).value)
    {
      data := [];
      if bytesLeft < count {
        return false, data;
      }
      while |data| < count
        invariant |data| <= count && data == source[pos..][..|data|]
      {
        data := data + [source[pos + |data|]];
      }
      assert source[pos..][count..] == source[pos + count..];
      pos := pos + count;
      bytesLeft := bytesLeft - count;
      ok := true;
    }

    /** pb_decode_varint32. */
    method DecodeVarint32() returns (ok: bool, dest: nat)
      requires Valid()
      modifies this
      ensures Valid() && View() == ReadVarint32(old(View())).after
      ensures ok == ReadVarint32(old(View())).Got? && (ok ==> dest == ReadVarint32(old(View())).value)
    {
      dest := 0;
      ghost var s0 := View();
      Widths();
      BehindNothing(ReadVarint32(s0));
      assert Pow2(0) == 1;
      var byte: Byte;
      ok, byte := NextByte();
      if !ok {
        VarintStops(0, 0, 5, 16, s0);
        return;
      }
      VarintStep(0, 0, byte, 5, 16, TWO_32, s0);
      hide ReadVarintFrom;
      if byte < 128 {
        dest := byte;
      } else {
        ok, dest := MoreGroups(byte % 128);
      }
    }

    /** The multibyte case of pb_decode_varint32. */
    method MoreGroups(first: nat) returns (ok: bool, dest: nat)
      requires Valid()
      modifies this
      ensures Valid()
      ensures var r := Behind(first, Power128(1), ReadVarintFrom(old(View()), 1, 5, 16));
              View() == r.after && ok == r.Got? && (ok ==> dest == r.value)
    {
      ghost var s0 := View();
      ghost var spec := Behind(first, Power128(1), ReadVarintFrom(s0, 1, 5, 16));
      Widths();
      hide ReadVarintFrom, Behind, Pow2, Power128;
      var bitpos := 7;
      ghost var k := 1;
      dest := first;
      var byte: Byte := 128;
      while byte >= 128
        invariant Valid() && 1 <= k <= 5 && bitpos == 7 * k
        invariant byte >= 128 ==> Behind(dest, Power128(k), ReadVarintFrom(View(), k, 5, 16)) == spec
        invariant byte < 128 ==> spec == Got(dest, View())
        decreases 5 - k, byte
      {
        ghost var s := View();
        if bitpos >= 32 {
          VarintStops(dest, k, 5, 16, s);
          return false, dest;
        }
        ok, byte := NextByte();
        if !ok {
          VarintStops(dest, k, 5, 16, s);
          return;
        }
        VarintStep(dest, k, byte, 5, 16, TWO_32, s);
        dest := dest + byte % 128 * Pow2(bitpos) % TWO_32;
        bitpos := bitpos + 7;
        k := k + 1;
      }
      ok := true;
    }

    /** pb_decode_varint. */
    method DecodeVarint() returns (ok: bool, dest: nat)
      requires Valid()
      modifies this
      ensures Valid() && View() == ReadVarint(old(View())).after
      ensures ok == ReadVarint(old(View())).Got? && (ok ==> dest == ReadVarint(old(View())).value)
    {
      dest := 0;
      ghost var s0 := View();
      Widths();
      BehindNothing(ReadVarint64(s0));
      hide ReadVarintFrom, Behind, Pow2, Power128;
      var bitpos, byte: Byte := 0, 128;
      ghost var k := 0;
      while byte >= 128
        invariant Valid() && k <= 10 && bitpos == 7 * k
        invariant byte >= 128 ==> Behind(dest, Power128(k), ReadVarintFrom(View(), k, 10, 2)) == ReadVarint64(s0)
        invariant byte < 128 ==> ReadVarint64(s0) == Got(dest, View())
        decreases 10 - k, byte
      {
        ghost var s := View();
        if bitpos >= 64 {
          VarintStops(dest, k, 10, 2, s);
          return false, dest;
        }
        ok, byte := NextByte();
        if !ok {
          VarintStops(dest, k, 10, 2, s);
          return;
        }
        VarintStep(dest, k, byte, 10, 2, TWO_64, s);
        dest := dest + byte % 128 * Pow2(bitpos) % TWO_64;
        bitpos := bitpos + 7;
        k := k + 1;
      }
      ok := true;
    }

    /** pb_skip_varint. */
    method SkipVarint() returns (ok: bool)
      requires Valid()
      modifies this
      ensures Valid() && View() == PbWire.SkipVarint(old(View())).after
      ensures ok == PbWire.SkipVarint(old(View())).Got?
    {
      ghost var s0 := View();
      var byte: Byte := 128;
      while byte >= 128
        invariant Valid()
        invariant PbWire.SkipVarint(s0) == if byte >= 128 then PbWire.SkipVarint(View()) else Got((), View())
        decreases byte >= 128, bytesLeft
      {
        ok, byte := NextByte();
        if !ok {
          return;
        }
      }
      ok := true;
    }

    /** pb_decode_tag. */
    method DecodeTag() returns (ok: bool, wireType: nat, tag: nat, eof: bool)
      requires Valid()
      modifies this
      ensures Valid() && View() == ReadTag(old(View())).after
      ensures match ReadTag(old(View()))
              case Header(t, w, _) => ok && !eof && tag == t && wireType == w
              case Eof(_) => !ok && eof
              case TagError(_) => !ok && !eof
    {
      eof, wireType, tag := false, 0, 0;
      var temp;
      ok, temp := DecodeVarint32();
      if !ok {
        eof := bytesLeft == 0;
        return;
      }
      if temp == 0 {
        eof := true;
        return false, wireType, tag, eof;
      }
      tag, wireType := temp / 8, temp % 8;
    }

    /** pb_skip_field. */
    method SkipField(wireType: nat) returns (ok: bool)
      requires Valid()
      modifies this
      ensures Valid() && View() == PbWire.SkipField(old(View()), wireType).after
      ensures ok == PbWire.SkipField(old(View()), wireType).Got?
    {
      ok := false;
      if wireType == 0 {
        ok := SkipVarint();
      } else if wireType == 1 {
        var skipped;
        ok, skipped := Read(8);
      } else if wireType == 2 {
        var length, skipped;
        ok, length := DecodeVarint32();
        if ok {
          ok, skipped := Read(length);
        }
      } else if wireType == 5 {
        var skipped;
        ok, skipped := Read(4);
      }
    }

    /** pb_make_string_substream. */
    method MakeSubstream() returns (ok: bool, substream: IStream)
      requires Valid()
      modifies this
      ensures Valid() && View() == OpenSub(old(View())).after
      ensures ok == OpenSub(old(View())).Got?
      ensures ok ==> fresh(substream) && substream.Valid() && substream.source == source
      ensures ok ==> substream.View() == OpenSub(old(View())).value
    {
      var size;
      substream := this;
      ok, size := DecodeVarint32();
      if !ok {
        return;
      }
      if bytesLeft < size {
        return false, substream;
      }
      substream := new IStream(source, pos, size);
      bytesLeft := bytesLeft - size;
    }

    /** pb_close_string_substream: go on where the substream stopped. */
    method CloseSubstream(substream: IStream)
      requires Valid() && substream.Valid() && substream.source == source && substream != this
      requires Sound(CloseSub(substream.View(), View()))
      modifies this
      ensures Valid() && View() == CloseSub(old(substream.View()), old(View()))
    {
      pos := substream.pos;
    }

    /** pb_dec_varint: fields of up to four bytes are first cast to 32 bits. */
    method DecodeSigned(dataSize: nat) returns (ok: bool, v: Value)
      requires Valid() && WellFormedType(LVarint(dataSize))
      modifies this
      ensures Valid() && Follows(old(View()), View())
      ensures ok == DecodeScalar(LVarint(dataSize), old(View())).Got?
      ensures ok ==> DecodeScalar(LVarint(dataSize), old(View())) == Got(v, View())
    {
      v := Int(0);
      var value;
      ok, value := DecodeVarint();
      if ok {
        var svalue := if dataSize == 8 then CastSigned(value, 8) else CastSigned(value, 4);
        NarrowIsCast(value, dataSize);
        hide CastSigned, NarrowSigned, ReadVarint;
        var clamped := CastSigned(svalue, dataSize);
        v := Int(clamped);
        ok := clamped == svalue;
      }
    }

    /** pb_dec_uvarint. */
    method DecodeUnsigned(dataSize: nat) returns (ok: bool, v: Value)
      requires Valid() && WellFormedType(LUVarint(dataSize))
      modifies this
      ensures Valid() && Follows(old(View()), View())
      ensures ok == DecodeScalar(LUVarint(dataSize), old(View())).Got?
      ensures ok ==> DecodeScalar(LUVarint(dataSize), old(View())) == Got(v, View())
    {
      v := Int(0);
      var value;
      ok, value := DecodeVarint();
      if ok {
        CastUnsignedFits(value, dataSize);
        var clamped := value % Limit(dataSize);
        v := Int(clamped);
        ok := clamped == value;
      }
    }

    /** pb_dec_svarint. */
    method DecodeZigZag(dataSize: nat) returns (ok: bool, v: Value)
      requires Valid() && WellFormedType(LSVarint(dataSize))
      modifies this
      ensures Valid() && Follows(old(View()), View())
      ensures ok == DecodeScalar(LSVarint(dataSize), old(View())).Got?
      ensures ok ==> DecodeScalar(LSVarint(dataSize), old(View())) == Got(v, View())
    {
      v := Int(0);
      var raw;
      ok, raw := DecodeVarint();
      if ok {
        var half: int := raw / 2;
        var value := if raw % 2 == 1 then -half - 1 else half;
        CastSignedFits(value, dataSize);
        var clamped := CastSigned(value, dataSize);
        v := Int(clamped);
        ok := clamped == value;
      }
    }

    /** The field decoders for packable types. */
    method DecodeScalarField(t: LType) returns (ok: bool, v: Value)
      requires Valid() && Packable(t) && WellFormedType(t)
      modifies this
      ensures Valid() && Follows(old(View()), View())
      ensures ok == DecodeScalar(t, old(View())).Got?
      ensures ok ==> DecodeScalar(t, old(View())) == Got(v, View())
    {
      v := Int(0);
      match t
      case LVarint(dataSize) => ok, v := DecodeSigned(dataSize);
      case LUVarint(dataSize) => ok, v := DecodeUnsigned(dataSize);
      case LSVarint(dataSize) => ok, v := DecodeZigZag(dataSize);
      case LFixed32 =>
        var bytes;
        ok, bytes := Read(4);
        if ok {
          LittleOfFour(bytes);
          v := Int(FromFour(bytes[0], bytes[1], bytes[2], bytes[3]));
        }
      case LFixed64 =>
        var bytes;
        ok, bytes := Read(8);
        if ok {
          LittleOfEight(bytes);
          v := Int(FromEight(bytes[0], bytes[1], bytes[2], bytes[3], bytes[4], bytes[5], bytes[6], bytes[7]));
        }
    }

    /** pb_dec_bytes. */
    method DecodeBytesField(dataSize: nat) returns (ok: bool, v: Value)
      requires Valid()
      modifies this
      ensures Valid() && Follows(old(View()), View())
      ensures ok == DecodeBytes(dataSize, old(View())).Got?
      ensures ok ==> DecodeBytes(dataSize, old(View())) == Got(v, View())
    {
      v := Raw([]);
      var size, data;
      ok, size := DecodeVarint32();
      if !ok {
        return;
      }
      if size > 0xffff || size + 2 > dataSize {
        return false, v;
      }
      ok, data := Read(size);
      v := Raw(data);
    }

    /** pb_dec_string: the slot then holds the bytes up to the first terminator. */
    method DecodeStringField(dataSize: nat) returns (ok: bool, v: Value)
      requires Valid()
      modifies this
      ensures Valid() && Follows(old(View()), View())
      ensures ok == DecodeString(dataSize, old(View())).Got?
      ensures ok ==> DecodeString(dataSize, old(View())) == Got(v, View())
    {
      v := Raw([]);
      var size, data;
      ok, size := DecodeVarint32();
      if !ok {
        return;
      }
      if size + 1 > dataSize {
        return false, v;
      }
      ok, data := Read(size);
      v := Raw(data[..TextLength(data, dataSize)]);
    }
  }
}
