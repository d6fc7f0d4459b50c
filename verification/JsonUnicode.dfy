/** The characters that a JSON string stands for, however they are written. */
module JsonUnicode {
  import opened Json
  import opened JsonEscapes
  import opened Options

  // ---- UTF-8 (section 3 of RFC 3629) ----

  predicate Scalar(u: nat) { u < 0xD800 || 0xDFFF < u < 0x11_0000 }

  predicate IsTail(c: char) { 0x80 <= c as int < 0xC0 }

  /** The six bits that a byte of a longer sequence carries. */
  function TailBits(c: char): nat
    requires IsTail(c)
  {
    c as int - 0x80
  }

  /** The first code point of a text, and the bytes it takes. Neither longer forms than needed nor
      surrogates are code points. */
  function FirstPoint(s: Text): (r: Option<(nat, nat)>)
    ensures r.Some? ==> 0 < r.value.1 <= |s|
  {
    if s == [] then None
    else
      var b := s[0] as int;
      if b < 0x80 then Some((b, 1))
      else if 0xC0 <= b < 0xE0 && |s| >= 2 && IsTail(s[1]) then
        Checked((b - 0xC0) * 0x40 + TailBits(s[1]), 0x80, 2)
      else if 0xE0 <= b < 0xF0 && |s| >= 3 && IsTail(s[1]) && IsTail(s[2]) then
        Checked((b - 0xE0) * 0x1000 + TailBits(s[1]) * 0x40 + TailBits(s[2]), 0x800, 3)
      else if 0xF0 <= b < 0xF8 && |s| >= 4 && IsTail(s[1]) && IsTail(s[2]) && IsTail(s[3]) then
        Checked((b - 0xF0) * 0x4_0000 + TailBits(s[1]) * 0x1000 + TailBits(s[2]) * 0x40 + TailBits(s[3]), 0x1_0000, 4)
      else None
  }

  function Checked(u: nat, least: nat, length: nat): Option<(nat, nat)> {
    if least <= u && Scalar(u) then Some((u, length)) else None
  }

  function CodePoints(s: Text): Option<seq<nat>>
    decreases |s|
  {
    if s == [] then Some([])
    else
      match FirstPoint(s)
      case None => None
      case Some((u, n)) =>
        match CodePoints(s[n..]) case None => None case Some(us) => Some([u] + us)
  }

  lemma Utf8IsPoint(u: nat, rest: Text)
    requires 0 < u && Scalar(u)
    ensures FirstPoint(Utf8(u) + rest) == Some((u, |Utf8(u)|))
    ensures (Utf8(u) + rest)[|Utf8(u)|..] == rest
  {
    Base64(u);
    Utf8Bytes(u);
    hide Utf8, IsTail;
    var s := Utf8(u) + rest;
    assert forall k :: 0 <= k < |Utf8(u)| ==> s[k] == Utf8(u)[k];
  }

  lemma Base64(u: nat)
    ensures u == u / 0x40 * 0x40 + u % 0x40 == u / 0x1000 * 0x1000 + u / 0x40 % 0x40 * 0x40 + u % 0x40
         == u / 0x4_0000 * 0x4_0000 + u / 0x1000 % 0x40 * 0x1000 + u / 0x40 % 0x40 * 0x40 + u % 0x40
  {
    assert u / 0x40 == u / 0x40 / 0x40 * 0x40 + u / 0x40 % 0x40 && u / 0x40 / 0x40 == u / 0x1000;
    assert u / 0x1000 == u / 0x1000 / 0x40 * 0x40 + u / 0x1000 % 0x40 && u / 0x1000 / 0x40 == u / 0x4_0000;
  }

  /** Which bytes those are. */
  lemma Utf8Bytes(u: nat)
    requires 0 < u && Scalar(u)
    ensures var s := Utf8(u);
            && (u < 0x80 ==> |s| == 1 && s[0] as int == u)
            && (0x80 <= u < 0x800 ==> |s| == 2 && s[0] as int == 0xC0 + u / 0x40 < 0xE0)
            && (0x800 <= u < 0x1_0000 ==> |s| == 3 && s[0] as int == 0xE0 + u / 0x1000 < 0xF0)
            && (0x1_0000 <= u ==> |s| == 4 && s[0] as int == 0xF0 + u / 0x4_0000 < 0xF8)
            && (|s| > 1 ==> IsTail(s[|s| - 1]) && TailBits(s[|s| - 1]) == u % 0x40)
            && (|s| > 2 ==> IsTail(s[|s| - 2]) && TailBits(s[|s| - 2]) == u / 0x40 % 0x40)
            && (|s| > 3 ==> IsTail(s[|s| - 3]) && TailBits(s[|s| - 3]) == u / 0x1000 % 0x40)
  {
  }

  // ---- Written characters ----

  const LOWER_DIGITS: Text := "0123456789abcdef"
  const UPPER_DIGITS: Text := "0123456789ABCDEF"

  predicate DigitFor(c: Char, d: nat)
    requires d < 16
  {
    c == LOWER_DIGITS[d] || c == UPPER_DIGITS[d]
  }

  /** Four digits in base 16, in either case each. */
  predicate Hex(ds: Text, u: nat) {
    && u < 0x1_0000 && |ds| == 4
    && DigitFor(ds[0], u / 0x1000) && DigitFor(ds[1], u / 0x100 % 16) && DigitFor(ds[2], u / 0x10 % 16) && DigitFor(ds[3], u % 16)
  }

  /** A character as it stands, a short escape, the escape of a code unit, or of two for a code
      point beyond them. */
  datatype Piece = Raw(u: nat) | Short(c: Char) | Unit(u: nat, digits: Text) | Pair(u: nat, high: Text, low: Text)

  const SHORTS: map<Char, nat> :=
    map['\"' := 0x22, '\\' := 0x5C, '/' := 0x2F, 'b' := 0x08, 'f' := 0x0C, 'n' := 0x0A, 'r' := 0x0D, 't' := 0x09]

  predicate Proper(x: Piece) {
    match x
    case Raw(u) => 0 < u && Scalar(u) && u != 0x22 && u != 0x5C
    case Short(c) => c in SHORTS
    case Unit(u, digits) => 0 < u && Scalar(u) && Hex(digits, u)
    case Pair(u, high, low) =>
      0x1_0000 <= u && Scalar(u) && Hex(high, 0xD800 + (u - 0x1_0000) / 0x400) && Hex(low, 0xDC00 + (u - 0x1_0000) % 0x400)
  }

  function Point(x: Piece): (u: nat)
    requires Proper(x)
    ensures 0 < u && Scalar(u)
  {
    match x case Short(c) => SHORTS[c] case _ => x.u
  }

  function PieceText(x: Piece): Text
    requires Proper(x)
  {
    match x
    case Raw(u) => Utf8(u)
    case Short(c) => ['\\', c]
    case Unit(_, digits) => ['\\', 'u'] + digits
    case Pair(_, high, low) => ['\\', 'u'] + (high + (['\\', 'u'] + low))
  }

  function Written(xs: seq<Piece>): Text
    requires forall x :: x in xs ==> Proper(x)
  {
    if xs == [] then [] else PieceText(xs[0]) + Written(xs[1..])
  }

  function Points(xs: seq<Piece>): (us: seq<nat>)
    requires forall x :: x in xs ==> Proper(x)
    ensures |us| == |xs| && forall k :: 0 <= k < |us| ==> 0 < us[k] && Scalar(us[k])
  {
    if xs == [] then [] else [Point(xs[0])] + Points(xs[1..])
  }

  function Encoded(us: seq<nat>): Text
    requires forall k :: 0 <= k < |us| ==> 0 < us[k] && Scalar(us[k])
  {
    if us == [] then []
    else
      assert Scalar(us[0]);
      Utf8(us[0]) + Encoded(us[1..])
  }

  lemma DigitReads(c: Char, d: nat)
    requires d < 16 && DigitFor(c, d)
    ensures IsHex(c) && HexValue(c) == d
  {
  }

  lemma Base16(u: nat)
    ensures u == ((u / 0x1000 * 16 + u / 0x100 % 16) * 16 + u / 0x10 % 16) * 16 + u % 16
  {
    assert u / 0x10 == u / 0x10 / 16 * 16 + u / 0x10 % 16 && u / 0x10 / 16 == u / 0x100;
    assert u / 0x100 == u / 0x100 / 16 * 16 + u / 0x100 % 16 && u / 0x100 / 16 == u / 0x1000;
  }

  lemma HexReads(ds: Text, u: nat, p: Text)
    requires Hex(ds, u)
    ensures HasHex4(ds + p) && Hex4(ds + p) == u && (ds + p)[4..] == p && (ds + p)[..4] == ds
    ensures StepsOver(ds)
  {
    hide IsHex, HexValue, DigitFor, StepsOver;
    DigitReads(ds[0], u / 0x1000);
    DigitReads(ds[1], u / 0x100 % 16);
    DigitReads(ds[2], u / 0x10 % 16);
    DigitReads(ds[3], u % 16);
    HexSteps(ds);
    Base16(u);
  }

  // ---- What the parser makes of them ----

  lemma PrependTwice(a: Text, b: Text, r: Parsed<Text>)
    ensures Prepend(a, Prepend(b, r)) == Prepend(a + b, r)
  {
    if r.Ok? {
      assert a + (b + r.value) == a + b + r.value;
    }
  }

  /** Characters that are neither quotes nor backslashes are kept. */
  lemma {:induction false} RawDecodes(s: Text, q: Text)
    requires forall k :: 0 <= k < |s| ==> s[k] != '\"' && s[k] != '\\'
    ensures StringBody(s + q) == Prepend(s, StringBody(q)) && (InStep(q) ==> InStep(s + q))
    decreases |s|
  {
    hide Unicode;
    if s == [] {
      assert s + q == q;
      PrependNothing(StringBody(q));
    } else {
      assert (s + q)[1..] == s[1..] + q;
      RawDecodes(s[1..], q);
      PrependTwice([s[0]], s[1..], StringBody(q));
      assert [s[0]] + s[1..] == s;
    }
  }

  lemma Utf8IsRaw(u: nat)
    requires 0 < u < 0x11_0000 && u != 0x22 && u != 0x5C
    ensures forall k :: 0 <= k < |Utf8(u)| ==> Utf8(u)[k] != '\"' && Utf8(u)[k] != '\\'
  {
  }

  lemma ShortDecodes(c: Char, q: Text)
    requires c in SHORTS
    ensures StringBody(['\\', c] + q) == Prepend(Utf8(SHORTS[c]), StringBody(q)) && (InStep(q) ==> InStep(['\\', c] + q))
  {
    hide Unicode;
    assert (['\\', c] + q)[2..] == q;
  }

  lemma UnitDecodes(u: nat, ds: Text, q: Text)
    requires 0 < u && Scalar(u) && Hex(ds, u)
    ensures var p := ['\\', 'u'] + (ds + q);
            StringBody(p) == Prepend(Utf8(u), StringBody(q)) && (InStep(q) ==> InStep(p))
  {
    hide Hex4, HasHex4, Utf8, StepsOver, Hex;
    var p := ['\\', 'u'] + (ds + q);
    HexReads(ds, u, q);
    assert p[2..] == ds + q && p[6..] == q && p[2..6] == ds;
  }

  lemma SurrogatesJoin(u: nat)
    requires 0x1_0000 <= u < 0x11_0000
    ensures var high, low := 0xD800 + (u - 0x1_0000) / 0x400, 0xDC00 + (u - 0x1_0000) % 0x400;
            HighSurrogate(high) && LowSurrogate(low) && 0x1_0000 + high % 0x400 * 0x400 + low % 0x400 == u
  {
    var v := u - 0x1_0000;
    assert v / 0x400 < 0x400;
    assert (0xD800 + v / 0x400) % 0x400 == v / 0x400 && (0xDC00 + v % 0x400) % 0x400 == v % 0x400;
  }

  lemma PairDecodes(u: nat, high: Text, low: Text, q: Text)
    requires Proper(Pair(u, high, low))
    ensures var p := ['\\', 'u'] + (high + (['\\', 'u'] + (low + q)));
            StringBody(p) == Prepend(Utf8(u), StringBody(q)) && (InStep(q) ==> InStep(p))
  {
    hide Hex4, HasHex4, Utf8, StepsOver, Hex;
    var second := ['\\', 'u'] + (low + q);
    var p := ['\\', 'u'] + (high + second);
    SurrogatesJoin(u);
    HexReads(high, 0xD800 + (u - 0x1_0000) / 0x400, second);
    HexReads(low, 0xDC00 + (u - 0x1_0000) % 0x400, q);
    var h := p[2..];
    assert h == high + second && h[4..] == second && h[6..] == low + q && h[10..] == q;
    assert second[..2] == "\\u";
    assert p[2..6] == high && p[6..] == second && second[2..6] == low && second[6..] == q;
    assert Unicode(h) == Ok(Utf8(u), q);
  }

  lemma PieceDecodes(x: Piece, q: Text)
    requires Proper(x)
    ensures StringBody(PieceText(x) + q) == Prepend(Utf8(Point(x)), StringBody(q)) && (InStep(q) ==> InStep(PieceText(x) + q))
  {
    hide StringBody, InStep, Utf8, Hex;
    match x
    case Raw(u) =>
      Utf8IsRaw(u);
      RawDecodes(Utf8(u), q);
    case Short(c) => ShortDecodes(c, q);
    case Unit(u, ds) =>
      assert ['\\', 'u'] + ds + q == ['\\', 'u'] + (ds + q);
      UnitDecodes(u, ds, q);
    case Pair(u, high, low) =>
      assert ['\\', 'u'] + (high + (['\\', 'u'] + low)) + q == ['\\', 'u'] + (high + (['\\', 'u'] + (low + q)));
      PairDecodes(u, high, low, q);
  }

  lemma {:induction false} WrittenDecodes(xs: seq<Piece>, rest: Text)
    requires forall x :: x in xs ==> Proper(x)
    ensures StringBody(Written(xs) + (['\"'] + rest)) == Ok(Encoded(Points(xs)), rest) && InStep(Written(xs) + (['\"'] + rest))
    decreases |xs|
  {
    hide Proper, PieceText, Utf8, Unicode;
    var close: Text := ['\"'];
    if xs == [] {
      assert Written(xs) + (close + rest) == close + rest && (close + rest)[1..] == rest;
    } else {
      assert forall x :: x in xs[1..] ==> x in xs;
      var more := Written(xs[1..]) + (close + rest);
      assert Written(xs) + (close + rest) == PieceText(xs[0]) + more;
      WrittenDecodes(xs[1..], rest);
      PieceDecodes(xs[0], more);
      var us := Points(xs);
      assert us[0] == Point(xs[0]) && us[1..] == Points(xs[1..]);
    }
  }

  lemma {:induction false} EncodedDecodes(us: seq<nat>)
    requires forall k :: 0 <= k < |us| ==> 0 < us[k] && Scalar(us[k])
    ensures CodePoints(Encoded(us)) == Some(us)
    decreases |us|
  {
    hide Utf8, FirstPoint;
    if us != [] {
      EncodedDecodes(us[1..]);
      Utf8IsPoint(us[0], Encoded(us[1..]));
      assert us == [us[0]] + us[1..];
    }
  }

  /** A string literal, with its characters written in any way that JSON has, is read as the UTF-8
      of exactly these characters, and the text goes on behind its closing quote. */
  lemma StringStandsFor(xs: seq<Piece>, rest: Text)
    requires forall x :: x in xs ==> Proper(x)
    ensures var r := ParseString(['\"'] + (Written(xs) + (['\"'] + rest)));
            r.Ok? && r.rest == rest && CodePoints(r.value) == Some(Points(xs))
  {
    hide StringBody, InStep, Units, Escaped, Written, Points, CodePoints, Proper;
    var body := Written(xs) + (['\"'] + rest);
    assert (['\"'] + body)[1..] == body;
    WrittenDecodes(xs, rest);
    InStepFits(body);
    EncodedDecodes(Points(xs));
  }
}
