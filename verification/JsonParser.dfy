/** The parser as it runs: an index moves over the text, strings are decoded into a buffer whose
    size is counted first. Proved to find what Json.Parse says. */
module JsonParser {
  import opened Json
  import opened Texts

  /** skip. */
  method SkipAt(text: Text, at: nat) returns (at': nat)
    requires at <= |text|
    ensures at <= at' <= |text| && text[at'..] == Skip(text[at..])
  {
    at' := at;
    while at' < |text| && text[at'] <= ' '
      invariant at <= at' <= |text| && Skip(text[at'..]) == Skip(text[at..])
    {
      Drop(text, at', 1);
      at' := at' + 1;
    }
  }

  /** strncmp(value, word, strlen(word)) == 0. */
  method Compare(text: Text, at: nat, word: Text) returns (same: bool)
    requires at <= |text|
    ensures same == StartsWith(text[at..], word)
  {
    var i := 0;
    while i < |word|
      invariant i <= |word| && at + i <= |text| && text[at..at + i] == word[..i]
    {
      if CharAt(text, at + i) != word[i] {
        Differs(text[at..], word, i);
        return false;
      }
      assert text[at..at + i + 1] == text[at..at + i] + [text[at + i]];
      i := i + 1;
    }
    assert word[..i] == word && text[at..][..i] == text[at..at + i];
    same := true;
  }

  lemma Differs(p: Text, word: Text, i: nat)
    requires i < |word| && (i < |p| ==> p[i] != word[i])
    ensures !StartsWith(p, word)
  {
    assert i < |word| <= |p| ==> p[..|word|][i] == p[i];
  }

  // ---- Numbers ----

  /** parse_number of the integer build. */
  method ParseNumberAt(text: Text, at: nat) returns (item: Tree, end: nat)
    requires at < |text| && (text[at] == '-' || IsDigit(text[at])) && ParseNumber(text[at..]) != Undefined
    ensures end <= |text| && ParseNumber(text[at..]) == Ok(item, text[end..])
  {
    hide Magnitude;
    var n, sign: int := 0, 1;
    end := at;
    if CharAt(text, end) == '-' {
      sign := -1;
      end := end + 1;
      Drop(text, at, 1);
    }
    n, end := MagnitudeAt(text, end);
    item := Number(sign * n, 0);
  }

  /** Its digits, after the sign. */
  method MagnitudeAt(text: Text, at: nat) returns (n: nat, end: nat)
    requires at <= |text| && Magnitude(text[at..]) != Undefined
    ensures end <= |text| && Magnitude(text[at..]) == Ok(n, text[end..])
  {
    hide DigitsFrom;
    n, end := 0, at;
    if CharAt(text, end) == '0' {
      end := end + 1;
      Drop(text, at, 1);
    }
    if '1' <= CharAt(text, end) <= '9' {
      n, end := DigitsAt(text, end);
    }
  }

  method DigitsAt(text: Text, at: nat) returns (n: nat, end: nat)
    requires at <= |text| && DigitsFrom(0, text[at..]) != Undefined
    ensures end <= |text| && DigitsFrom(0, text[at..]) == Ok(n, text[end..])
  {
    hide DigitsFrom;
    n, end := 0, at;
    ghost var whole := DigitsFrom(0, text[at..]);
    while end < |text| && IsDigit(text[end])
      invariant end <= |text| && n <= INT_MAX && whole == DigitsFrom(n, text[end..])
    {
      DigitsStep(n, text[end..]);
      Drop(text, end, 1);
      n := n * 10 + (text[end] as int - '0' as int);
      end := end + 1;
    }
    DigitsStep(n, text[end..]);
  }

  lemma DigitsStep(n: nat, p: Text)
    requires n <= INT_MAX && DigitsFrom(n, p) != Undefined
    ensures p == [] || !IsDigit(p[0]) ==> DigitsFrom(n, p) == Ok(n, p)
    ensures p != [] && IsDigit(p[0]) ==>
              var n' := n * 10 + (p[0] as int - '0' as int); n' <= INT_MAX && DigitsFrom(n, p) == DigitsFrom(n', p[1..])
  {
  }

  // ---- Strings ----

  /** The first loop of parse_string. */
  method CountUnits(text: Text, at: nat) returns (len: nat)
    requires at <= |text| && Escaped(text[at..])
    ensures len == Units(text[at..])
  {
    len := 0;
    var ptr := at;
    while ptr < |text| && text[ptr] != '\"'
      invariant at <= ptr <= |text| && Units(text[at..]) == len + Units(text[ptr..])
      invariant Escaped(text[ptr..])
      decreases |text| - ptr
    {
      EscapedGoesOn(text[ptr..]);
      Drop(text, ptr, 1);
      len := len + 1;
      if text[ptr] == '\\' {
        Drop(text, ptr, 2);
        ptr := ptr + 1;
      }
      ptr := ptr + 1;
    }
  }

  /** The value of i hex digits. */
  predicate HexSoFar(p: Text, i: nat, h: nat) {
    && i <= 4 && i <= |p| && (i > 0 ==> IsHex(p[0])) && (i > 1 ==> IsHex(p[1])) && (i > 2 ==> IsHex(p[2])) && (i > 3 ==> IsHex(p[3]))
    && h == if i == 0 then 0 else if i == 1 then HexValue(p[0]) else if i == 2 then HexValue(p[0]) * 16 + HexValue(p[1])
            else if i == 3 then (HexValue(p[0]) * 16 + HexValue(p[1])) * 16 + HexValue(p[2])
            else Hex4(p)
  }

  /** parse_hex4: four digits, or zero at the first character that is none. */
  method DecodeHex4(text: Text, at: nat) returns (h: nat)
    requires at <= |text|
    ensures h == Hex4(text[at..])
  {
    h := 0;
    var i := 0;
    while i < 4
      invariant HexSoFar(text[at..], i, h)
    {
      if !IsHex(CharAt(text, at + i)) {
        return 0;
      }
      h := h * 16 + HexValue(text[at + i]);
      i := i + 1;
    }
  }

  lemma EscapedGoesOn(p: Text)
    requires p != [] && p[0] != '\"' && Escaped(p)
    ensures p[0] == '\\' ==> |p| > 1
  {
  }

  /** (uc | 0x80) & 0xBF */
  function Low6(uc: nat): Char { (uc % 64 + 128) as char }

  /** uc | firstByteMark[len] */
  function FirstByte(uc: nat, len: nat): Char
    requires 1 <= len <= 4 && 0 < uc + len && uc < (if len == 1 then 128 else if len == 2 then 32 else if len == 3 then 16 else 8)
    requires len == 1 ==> uc > 0
  {
    (uc + if len == 1 then 0 else if len == 2 then 0xC0 else if len == 3 then 0xE0 else 0xF0) as char
  }

  function Utf8Length(uc: nat): nat { if uc < 0x80 then 1 else if uc < 0x800 then 2 else if uc < 0x1_0000 then 3 else 4 }

  /** uc >> 6 * k */
  function Shifted(uc: nat, k: nat): nat { if k == 0 then uc else Shifted(uc, k - 1) / 64 }

  /** The last k bytes. */
  function Trail(uc: nat, k: nat): (t: Text)
    ensures |t| == k
  {
    if k == 0 then [] else [Low6(Shifted(uc, k - 1))] + Trail(uc, k - 1)
  }

  lemma FirstByteFits(uc: nat)
    requires 0 < uc < 0x11_0000
    ensures var n := Utf8Length(uc); var first := Shifted(uc, n - 1);
            0 < first + n && (n == 1 ==> first > 0) && first < (if n == 1 then 128 else if n == 2 then 32 else if n == 3 then 16 else 8)
  {
    ShiftsAndTrails(uc);
  }

  lemma Utf8Cases(uc: nat)
    requires 0 < uc < 0x11_0000
    ensures uc < 0x80 ==> Utf8(uc) == [FirstByte(uc, 1)]
    ensures 0x80 <= uc < 0x800 ==> Utf8(uc) == [FirstByte(uc / 64, 2), Low6(uc)]
    ensures 0x800 <= uc < 0x1_0000 ==> Utf8(uc) == [FirstByte(uc / 64 / 64, 3), Low6(uc / 64), Low6(uc)]
    ensures 0x1_0000 <= uc ==> Utf8(uc) == [FirstByte(uc / 64 / 64 / 64, 4), Low6(uc / 64 / 64), Low6(uc / 64), Low6(uc)]
  {
  }

  lemma ShiftsAndTrails(uc: nat)
    ensures Shifted(uc, 0) == uc && Shifted(uc, 1) == uc / 64 && Shifted(uc, 2) == uc / 64 / 64 && Shifted(uc, 3) == uc / 64 / 64 / 64
    ensures Trail(uc, 0) == [] && Trail(uc, 1) == [Low6(uc)] && Trail(uc, 2) == [Low6(uc / 64), Low6(uc)]
    ensures Trail(uc, 3) == [Low6(uc / 64 / 64), Low6(uc / 64), Low6(uc)]
  {
    hide Low6;
  }

  lemma Utf8Bytes(uc: nat)
    requires 0 < uc < 0x11_0000
    ensures |Utf8(uc)| == Utf8Length(uc)
    ensures FirstByte.requires(Shifted(uc, Utf8Length(uc) - 1), Utf8Length(uc))
    ensures Utf8(uc) == [FirstByte(Shifted(uc, Utf8Length(uc) - 1), Utf8Length(uc))] + Trail(uc, Utf8Length(uc) - 1)
  {
    hide Shifted, Trail, FirstByte, Low6, Utf8;
    FirstByteFits(uc);
    Utf8Cases(uc);
    ShiftsAndTrails(uc);
  }

  /** One step backwards: the lowest six bits of what is left. */
  method PutLow(out: array<char>, pos: nat, rest: nat, ghost at: nat, ghost end: nat, ghost uc: nat, ghost k: nat)
    returns (pos': nat, rest': nat)
    requires at < pos <= end <= out.Length && rest == Shifted(uc, k) && out[pos..end] == Trail(uc, k)
    modifies out
    ensures pos' == pos - 1 && rest' == Shifted(uc, k + 1) && out[pos'..end] == Trail(uc, k + 1)
    ensures out[..at] == old(out[..at])
  {
    hide Low6;
    pos' := pos - 1;
    out[pos'] := Low6(rest);
    rest' := rest / 64;
    assert out[pos..end] == Trail(uc, k);
  }

  /** Writing a code point from its last byte backwards. */
  method WriteUtf8(out: array<char>, at: nat, uc: nat) returns (end: nat)
    requires 0 < uc < 0x11_0000 && at + |Utf8(uc)| <= out.Length
    modifies out
    ensures end == at + |Utf8(uc)| && out[..end] == old(out[..at]) + Utf8(uc)
  {
    Utf8Bytes(uc);
    assert Trail(uc, 0) == [] && Shifted(uc, 0) == uc;
    hide Utf8, FirstByte, Shifted, Trail;
    var len := Utf8Length(uc);
    end := at + len;
    var rest, pos := uc, end;
    if len >= 4 {
      pos, rest := PutLow(out, pos, rest, at, end, uc, len - 4);
    }
    if len >= 3 {
      pos, rest := PutLow(out, pos, rest, at, end, uc, len - 3);
    }
    if len >= 2 {
      pos, rest := PutLow(out, pos, rest, at, end, uc, len - 2);
    }
    pos := PutFirst(out, pos, end, FirstByte(rest, len), Trail(uc, len - 1));
  }

  method PutFirst(out: array<char>, pos: nat, ghost end: nat, c: Char, ghost tail: Text) returns (pos': nat)
    requires 0 < pos <= end <= out.Length && out[pos..end] == tail
    modifies out
    ensures pos' == pos - 1 && out[..end] == old(out[..pos']) + ([c] + tail)
  {
    pos' := pos - 1;
    out[pos'] := c;
    assert out[..end] == out[..pos'] + [c] + out[pos..end];
  }

  /** The case 'u': the code point, or nothing, and where the text goes on. */
  method DecodeUnicode(text: Text, at: nat) returns (uc: nat, end: nat)
    requires at <= |text| && Unicode(text[at..]).Ok?
    ensures at <= end <= |text| && Unicode(text[at..]).rest == text[end..]
    ensures if uc == 0 then Unicode(text[at..]).value == [] else uc < 0x11_0000 && Unicode(text[at..]).value == Utf8(uc)
  {
    ghost var p := text[at..];
    Drop(text, at, 4);
    uc := DecodeHex4(text, at);
    end := at + 4;
    if 0xDC00 <= uc <= 0xDFFF || uc == 0 {
      return 0, end;
    }
    if 0xD800 <= uc <= 0xDBFF {
      if CharAt(text, end) != '\\' || CharAt(text, end + 1) != 'u' {
        assert p[4..] == text[end..];
        NotAPair(p[4..]);
        return 0, end;
      }
      IsAPair(p[4..]);
      assert p[6..] == text[at + 6..] && p[10..] == text[at + 6..][4..];
      var uc2 := DecodeHex4(text, at + 6);
      Drop(text, at + 6, 4);
      end := at + 10;
      if uc2 < 0xDC00 || uc2 > 0xDFFF {
        return 0, end;
      }
      uc := 0x1_0000 + uc % 0x400 * 0x400 + uc2 % 0x400;
    }
  }

  lemma NotAPair(q: Text)
    requires q == [] || q[0] != '\\' || |q| == 1 || q[1] != 'u'
    ensures !StartsWith(q, "\\u")
  {
    assert |q| >= 2 ==> q[..2] == [q[0], q[1]];
  }

  lemma IsAPair(q: Text)
    requires |q| > 1 && q[0] == '\\' && q[1] == 'u'
    ensures StartsWith(q, "\\u")
  {
    assert q[..2] == [q[0], q[1]];
  }

  /** One turn of the second loop of parse_string: the bytes of one character or escape. */
  method DecodeOne(text: Text, ptr0: nat, out: array<char>, into0: nat) returns (ptr: nat, into: nat, ghost piece: Text)
    requires ptr0 < |text| && text[ptr0] != '\"' && StringBody(text[ptr0..]).Ok?
    requires into0 + |StringBody(text[ptr0..]).value| < out.Length
    modifies out
    ensures ptr0 < ptr <= |text| && into == into0 + |piece| < out.Length
    ensures out[..into] == old(out[..into0]) + piece
    ensures StringBody(text[ptr0..]) == Prepend(piece, StringBody(text[ptr..]))
  {
    hide Utf8, Unicode;
    ghost var p := text[ptr0..];
    Drop(text, ptr0, 1);
    ptr, into := ptr0, into0;
    if text[ptr] != '\\' {
      out[into] := text[ptr];
      ptr, into, piece := ptr + 1, into + 1, [text[ptr]];
    } else {
      Drop(text, ptr0, 2);
      var c := text[ptr + 1];
      if c == 'u' {
        var uc;
        uc, ptr := DecodeUnicode(text, ptr + 2);
        piece := [];
        if uc != 0 {
          piece := Utf8(uc);
          into := WriteUtf8(out, into, uc);
        }
      } else {
        out[into] := Unescape(c);
        ptr, into, piece := ptr + 2, into + 1, [Unescape(c)];
      }
    }
  }

  /** parse_string. */
  method ParseStringAt(text: Text, at: nat) returns (ok: bool, valuestring: Text, end: nat)
    requires at <= |text| && ParseString(text[at..]) != Undefined
    ensures end <= |text|
    ensures ParseString(text[at..]) == if ok then Ok(valuestring, text[end..]) else Fail
  {
    valuestring, end := [], at;
    if CharAt(text, at) != '\"' {
      return false, valuestring, end;
    }
    Drop(text, at, 1);
    ghost var whole := StringBody(text[at + 1..]);
    var len := CountUnits(text, at + 1);
    var out := new char[len + 1];
    var ptr, into := at + 1, 0;
    ghost var done: Text := [];
    PrependNothing(whole);
    hide StringBody, Units;
    while ptr < |text| && text[ptr] != '\"'
      invariant at + 1 <= ptr <= |text|
      invariant |done| == into <= len && out[..into] == done
      invariant StringBody(text[ptr..]).Ok? && Prepend(done, StringBody(text[ptr..])) == whole
      decreases |text| - ptr
    {
      ghost var piece;
      ghost var rest := text[ptr..];
      ptr, into, piece := DecodeOne(text, ptr, out, into);
      PrependTwice(done, piece, StringBody(text[ptr..]));
      done := done + piece;
    }
    out[into] := '\0';
    assert out[..into] == done;
    StringEnds(text, ptr, done);
    if CharAt(text, ptr) == '\"' {
      ptr := ptr + 1;
    }
    valuestring, end := out[..into], ptr;
    ok := true;
  }

  lemma PrependTwice(a: Text, b: Text, r: Parsed<Text>)
    ensures Prepend(a, Prepend(b, r)) == Prepend(a + b, r)
    ensures Prepend(b, r) != Undefined ==> r != Undefined
  {
    if r.Ok? {
      assert a + (b + r.value) == a + b + r.value;
    }
  }

  lemma StringEnds(text: Text, ptr: nat, done: Text)
    requires ptr <= |text| && (ptr < |text| ==> text[ptr] == '\"')
    ensures Prepend(done, StringBody(text[ptr..])) == Ok(done, if ptr < |text| then text[ptr + 1..] else text[ptr..])
  {
    assert done + [] == done;
    if ptr < |text| {
      Drop(text, ptr, 1);
    }
  }

  // ---- Values ----

  /** parse_value. */
  method ParseValueAt(text: Text, at: nat) returns (ok: bool, item: Tree, end: nat)
    requires at <= |text| && ParseValue(text[at..]) != Undefined
    ensures end <= |text|
    ensures ParseValue(text[at..]) == if ok then Ok(item, text[end..]) else Fail
    decreases |text| - at, 0
  {
    hide ParseArray, ParseObject, ParseString, ParseNumber, StartsWith;
    item, end, ok := Null, at, true;
    ghost var p := text[at..];
    KeywordLengths(p);
    var isNull := Compare(text, at, "null");
    if isNull {
      Drop(text, at, 4);
      return ok, Null, at + 4;
    }
    var isFalse := Compare(text, at, "false");
    if isFalse {
      Drop(text, at, 5);
      return ok, False, at + 5;
    }
    var isTrue := Compare(text, at, "true");
    if isTrue {
      Drop(text, at, 4);
      return ok, True, at + 4;
    }
    var c := CharAt(text, at);
    if c == '\"' {
      var s;
      ok, s, end := ParseStringAt(text, at);
      item := String(s);
    } else if c == '-' || IsDigit(c) {
      item, end := ParseNumberAt(text, at);
    } else if c == '[' {
      ok, item, end := ParseArrayAt(text, at);
    } else if c == '{' {
      ok, item, end := ParseObjectAt(text, at);
    } else {
      ok := false;
    }
  }

  lemma KeywordLengths(p: Text)
    ensures StartsWith(p, "null") ==> |p| >= 4
    ensures StartsWith(p, "false") ==> |p| >= 5
    ensures StartsWith(p, "true") ==> |p| >= 4
  {
  }

  /** parse_array. */
  method ParseArrayAt(text: Text, at: nat) returns (ok: bool, item: Tree, end: nat)
    requires at < |text| && ParseArray(text[at..]) != Undefined
    ensures end <= |text|
    ensures ParseArray(text[at..]) == if ok then Ok(item, text[end..]) else Fail
    decreases |text| - at - 1, 3
  {
    hide ParseValue, Skip;
    item := Array([]);
    Drop(text, at, 1);
    end := SkipAt(text, at + 1);
    if CharAt(text, end) == ']' {
      Drop(text, end, 1);
      return true, item, end + 1;
    }
    var items;
    ok, items, end := ParseItemsAt(text, end);
    item := Array(items);
  }

  /** The loop of parse_array. */
  method ParseItemsAt(text: Text, at: nat) returns (ok: bool, items: seq<Tree>, end: nat)
    requires at <= |text| && ParseItems(text[at..]) != Undefined
    ensures end <= |text|
    ensures ParseItems(text[at..]) == if ok then Ok(items, text[end..]) else Fail
    decreases |text| - at, 2
  {
    ghost var whole := ParseItems(text[at..]);
    items, end := [], at;
    AfterNothing(whole);
    var more := true;
    assert ItemsAhead(whole, items, text, end);
    hide *;
    while more
      invariant at <= end <= |text|
      invariant if more then ItemsAhead(whole, items, text, end) else ItemsOver(whole, items, text, end)
      decreases more, |text| - end
    {
      var v;
      ok, v, end, more := MoreItems(text, end, whole, items);
      if !ok {
        return;
      }
      items := items + [v];
    }
    ItemsEnd(whole, items, text, end);
    ok := CharAt(text, end) == ']';
    if ok {
      end := end + 1;
    }
  }

  lemma AfterNothing<T>(r: Parsed<seq<T>>)
    ensures After([], r) == r
  {
    if r.Ok? {
      assert [] + r.value == r.value;
    }
  }

  /** Values that come after those read already. */
  function After<T>(done: seq<T>, r: Parsed<seq<T>>): Parsed<seq<T>> {
    match r case Ok(items, rest) => Ok(done + items, rest) case other => other
  }

  /** The list is what was read already and what the text from here on has. */
  predicate ItemsAhead(whole: Parsed<seq<Tree>>, done: seq<Tree>, text: Text, at: nat)
    requires at <= |text|
  {
    ParseItems(text[at..]) != Undefined && whole == After(done, ParseItems(text[at..]))
  }

  /** No comma follows: the list is complete if its closing bracket does. */
  predicate ItemsOver(whole: Parsed<seq<Tree>>, done: seq<Tree>, text: Text, end: nat)
    requires end <= |text|
  {
    CharAt(text, end) != ',' && whole == if CharAt(text, end) == ']' then Ok(done, text[end + 1..]) else Fail
  }

  /** One turn of the loop: an entry, and whether a comma follows. */
  method MoreItems(text: Text, at: nat, ghost whole: Parsed<seq<Tree>>, ghost done: seq<Tree>)
    returns (ok: bool, v: Tree, end: nat, more: bool)
    requires at <= |text| && ItemsAhead(whole, done, text, at)
    ensures end <= |text| && (ok ==> at < end) && (!ok ==> whole == Fail)
    ensures ok ==> if more then ItemsAhead(whole, done + [v], text, end) else ItemsOver(whole, done + [v], text, end)
    decreases |text| - at, 2, 0
  {
    hide ParseValue, Skip, ParseItems, After, ItemsAhead, ItemsOver;
    ItemsNeedValue(whole, done, text, at);
    end := SkipAt(text, at);
    ok, v, end := ParseValueAt(text, end);
    more := false;
    if !ok {
      return;
    }
    end := SkipAt(text, end);
    ItemsTurn(whole, done, v, text, at, end);
    more := CharAt(text, end) == ',';
    if more {
      end := end + 1;
    }
  }

  lemma ItemsNeedValue(whole: Parsed<seq<Tree>>, done: seq<Tree>, text: Text, at: nat)
    requires at <= |text| && ItemsAhead(whole, done, text, at)
    ensures ParseValue(Skip(text[at..])) != Undefined
    ensures ParseValue(Skip(text[at..])) == Fail ==> whole == Fail
  {
    hide ParseValue, Skip;
  }

  /** What stands behind an entry decides how the list goes on. */
  lemma ItemsTurn(whole: Parsed<seq<Tree>>, done: seq<Tree>, v: Tree, text: Text, at: nat, end: nat)
    requires at <= |text| && end <= |text| && ItemsAhead(whole, done, text, at)
    requires ParseValue(Skip(text[at..])).Ok? && ParseValue(Skip(text[at..])).value == v && text[end..] == Skip(ParseValue(Skip(text[at..])).rest)
    ensures if CharAt(text, end) == ',' then ItemsAhead(whole, done + [v], text, end + 1) else ItemsOver(whole, done + [v], text, end)
  {
    hide ParseValue, Skip;
    if end < |text| {
      Drop(text, end, 1);
    }
    if CharAt(text, end) == ',' {
      var r := ParseItems(text[end + 1..]);
      if r.Ok? {
        assert done + ([v] + r.value) == done + [v] + r.value;
      }
    }
  }

  lemma ItemsEnd(whole: Parsed<seq<Tree>>, done: seq<Tree>, text: Text, end: nat)
    requires end <= |text| && ItemsOver(whole, done, text, end)
    ensures whole == if CharAt(text, end) == ']' then Ok(done, text[end + 1..]) else Fail
  {
  }

  /** parse_object. */
  method ParseObjectAt(text: Text, at: nat) returns (ok: bool, item: Tree, end: nat)
    requires at < |text| && ParseObject(text[at..]) != Undefined
    ensures end <= |text|
    ensures ParseObject(text[at..]) == if ok then Ok(item, text[end..]) else Fail
    decreases |text| - at - 1, 3
  {
    hide ParseMembers, Skip;
    item := Object([]);
    Drop(text, at, 1);
    end := SkipAt(text, at + 1);
    if CharAt(text, end) == '}' {
      Drop(text, end, 1);
      return true, item, end + 1;
    }
    var members;
    ok, members, end := ParseMembersAt(text, end);
    item := Object(members);
  }

  /** A name, a colon and a value. */
  method ParseMemberAt(text: Text, at: nat) returns (ok: bool, m: Member, end: nat)
    requires at <= |text| && ParseMember(text[at..]) != Undefined
    ensures end <= |text|
    ensures ParseMember(text[at..]) == if ok then Ok(m, text[end..]) else Fail
    decreases |text| - at, 1
  {
    hide ParseValue, ParseString, Skip;
    m := Member([], Null);
    end := SkipAt(text, at);
    var name, v;
    ok, name, end := ParseStringAt(text, end);
    if !ok {
      return;
    }
    end := SkipAt(text, end);
    if CharAt(text, end) != ':' {
      return false, m, end;
    }
    Drop(text, end, 1);
    end := SkipAt(text, end + 1);
    ok, v, end := ParseValueAt(text, end);
    m := Member(name, v);
  }

  /** The loop of parse_object. */
  method ParseMembersAt(text: Text, at: nat) returns (ok: bool, members: seq<Member>, end: nat)
    requires at <= |text| && ParseMembers(text[at..]) != Undefined
    ensures end <= |text|
    ensures ParseMembers(text[at..]) == if ok then Ok(members, text[end..]) else Fail
    decreases |text| - at, 2
  {
    ghost var whole := ParseMembers(text[at..]);
    members, end := [], at;
    AfterNothing(whole);
    var more := true;
    assert MembersAhead(whole, members, text, end);
    hide *;
    while more
      invariant at <= end <= |text|
      invariant if more then MembersAhead(whole, members, text, end) else MembersOver(whole, members, text, end)
      decreases more, |text| - end
    {
      var m;
      ok, m, end, more := MoreMembers(text, end, whole, members);
      if !ok {
        return;
      }
      members := members + [m];
    }
    MembersEnd(whole, members, text, end);
    ok := CharAt(text, end) == '}';
    if ok {
      end := end + 1;
    }
  }

  /** The list is what was read already and what the text from here on has. */
  predicate MembersAhead(whole: Parsed<seq<Member>>, done: seq<Member>, text: Text, at: nat)
    requires at <= |text|
  {
    ParseMembers(text[at..]) != Undefined && whole == After(done, ParseMembers(text[at..]))
  }

  /** No comma follows: the list is complete if its closing bracket does. */
  predicate MembersOver(whole: Parsed<seq<Member>>, done: seq<Member>, text: Text, end: nat)
    requires end <= |text|
  {
    CharAt(text, end) != ',' && whole == if CharAt(text, end) == '}' then Ok(done, text[end + 1..]) else Fail
  }

  /** One turn of the loop: an entry, and whether a comma follows. */
  method MoreMembers(text: Text, at: nat, ghost whole: Parsed<seq<Member>>, ghost done: seq<Member>)
    returns (ok: bool, m: Member, end: nat, more: bool)
    requires at <= |text| && MembersAhead(whole, done, text, at)
    ensures end <= |text| && (ok ==> at < end) && (!ok ==> whole == Fail)
    ensures ok ==> if more then MembersAhead(whole, done + [m], text, end) else MembersOver(whole, done + [m], text, end)
    decreases |text| - at, 2, 0
  {
    hide ParseMember, Skip, ParseMembers, After, MembersAhead, MembersOver;
    MembersNeedMember(whole, done, text, at);
    ok, m, end := ParseMemberAt(text, at);
    more := false;
    if !ok {
      return;
    }
    end := SkipAt(text, end);
    MembersTurn(whole, done, m, text, at, end);
    more := CharAt(text, end) == ',';
    if more {
      end := end + 1;
    }
  }

  lemma MembersNeedMember(whole: Parsed<seq<Member>>, done: seq<Member>, text: Text, at: nat)
    requires at <= |text| && MembersAhead(whole, done, text, at)
    ensures ParseMember(text[at..]) != Undefined
    ensures ParseMember(text[at..]) == Fail ==> whole == Fail
  {
    hide ParseMember, Skip;
  }

  /** What stands behind an entry decides how the list goes on. */
  lemma MembersTurn(whole: Parsed<seq<Member>>, done: seq<Member>, m: Member, text: Text, at: nat, end: nat)
    requires at <= |text| && end <= |text| && MembersAhead(whole, done, text, at)
    requires ParseMember(text[at..]).Ok? && ParseMember(text[at..]).value == m && text[end..] == Skip(ParseMember(text[at..]).rest)
    ensures if CharAt(text, end) == ',' then MembersAhead(whole, done + [m], text, end + 1) else MembersOver(whole, done + [m], text, end)
  {
    hide ParseMember, Skip;
    if end < |text| {
      Drop(text, end, 1);
    }
    if CharAt(text, end) == ',' {
      var r := ParseMembers(text[end + 1..]);
      if r.Ok? {
        assert done + ([m] + r.value) == done + [m] + r.value;
      }
    }
  }

  lemma MembersEnd(whole: Parsed<seq<Member>>, done: seq<Member>, text: Text, end: nat)
    requires end <= |text| && MembersOver(whole, done, text, end)
    ensures whole == if CharAt(text, end) == '}' then Ok(done, text[end + 1..]) else Fail
  {
  }

  /** cJSON_ParseWithOpts; cJSON_Parse passes false. */
  method ParseWithOpts(text: Text, requireNullTerminated: bool) returns (ok: bool, item: Tree, end: nat)
    requires Parse(text, requireNullTerminated) != Undefined
    ensures end <= |text|
    ensures Parse(text, requireNullTerminated) == if ok then Ok(item, text[end..]) else Fail
  {
    hide ParseValue, Skip;
    assert text[0..] == text;
    var start := SkipAt(text, 0);
    ok, item, end := ParseValueAt(text, start);
    if ok && requireNullTerminated {
      end := SkipAt(text, end);
      ok := CharAt(text, end) == '\0';
    }
  }
}
