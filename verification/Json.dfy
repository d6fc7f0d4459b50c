/** JSON trees as cJSON holds them, the text they print to and the tree a text parses to. */
module Json {
  import opened Texts

  /** A character of a C string: a byte that is not the terminator. */
  type Char = c: char | 0 < c as int < 256 witness 'a'
  type Text = seq<Char>

  /** cJSON nodes. A number has an integer and a floating value; only whole floating values occur. */
  datatype Tree =
    | Null
    | False
    | True
    | Number(valueint: int, valuedouble: int)
    | String(text: Text)
    | Array(items: seq<Tree>)
    | Object(members: seq<Member>)

  datatype Member = Member(name: Text, value: Tree)

  const INT_MAX := 0x7fff_ffff

  /** Numbers that print as integers and that the parser can read back: not INT_MIN. */
  predicate PrintableNumber(i: int, d: int) { -INT_MAX <= i <= INT_MAX && (d == 0 || d == i) }

  predicate Printable(t: Tree) {
    match t
    case Number(i, d) => PrintableNumber(i, d)
    case Array(items) => forall k :: 0 <= k < |items| ==> Printable(items[k])
    case Object(members) => forall k :: 0 <= k < |members| ==> PrintableMember(members[k])
    case _ => true
  }

  predicate PrintableMember(m: Member) { Printable(m.value) }

  // ---- Printing ----

  function Digit(d: nat): Char
    requires d < 10
  {
    ('0' as int + d) as char
  }

  function Digits(n: nat): (s: Text)
    ensures s != [] && forall k :: 0 <= k < |s| ==> '0' <= s[k] <= '9'
    ensures n > 0 ==> s[0] != '0'
  {
    if n < 10 then [Digit(n)] else Digits(n / 10) + [Digit(n % 10)]
  }

  function Decimal(i: int): Text { if i < 0 then ['-'] + Digits(-i) else Digits(i) }

  /** print_number: a floating value of zero prints as 0, whatever the integer value. */
  function PrintNumber(i: int, d: int): Text { if d == 0 then "0" else Decimal(i) }

  function HexDigit(d: nat): Char
    requires d < 16
  {
    if d < 10 then Digit(d) else ('a' as int + d - 10) as char
  }

  predicate Plain(c: Char) { c >= ' ' && c != '\"' && c != '\\' }

  const BACKSPACE: Char := 8 as char
  const FORM_FEED: Char := 12 as char

  function EscapeChar(c: Char): (s: Text)
    ensures s != []
  {
    if Plain(c) then [c]
    else if c == '\\' || c == '\"' then ['\\', c]
    else if c == BACKSPACE then "\\b"
    else if c == FORM_FEED then "\\f"
    else if c == '\n' then "\\n"
    else if c == '\r' then "\\r"
    else if c == '\t' then "\\t"
    else ['\\', 'u', '0', '0', HexDigit(c as int / 16), HexDigit(c as int % 16)]
  }

  function Escape(s: Text): Text { if s == [] then [] else EscapeChar(s[0]) + Escape(s[1..]) }

  function PrintString(s: Text): Text { ['\"'] + Escape(s) + ['\"'] }

  function Tabs(n: int): (s: Text)
    ensures |s| == if n < 0 then 0 else n
  {
    if n <= 0 then [] else Tabs(n - 1) + ['\t']
  }

  function If(fmt: bool, s: Text): Text { if fmt then s else [] }

  /** print_value at some depth, indented or compact. */
  function Print(t: Tree, depth: nat, fmt: bool): (s: Text)
    decreases t, 2
  {
    match t
    case Null => "null"
    case False => "false"
    case True => "true"
    case Number(i, d) => PrintNumber(i, d)
    case String(text) => PrintString(text)
    case Array(items) => ['['] + PrintItems(items, depth + 1, fmt) + [']']
    case Object(members) =>
      if members == [] then ['{'] + If(fmt, ['\n'] + Tabs(depth - 1)) + ['}']
      else ['{'] + If(fmt, ['\n']) + PrintMembers(members, depth + 1, fmt) + If(fmt, Tabs(depth)) + ['}']
  }

  function PrintItems(items: seq<Tree>, depth: nat, fmt: bool): Text
    decreases items, 1
  {
    if items == [] then []
    else if |items| == 1 then Print(items[0], depth, fmt)
    else Print(items[0], depth, fmt) + [','] + If(fmt, [' ']) + PrintItems(items[1..], depth, fmt)
  }

  function PrintMember(m: Member, last: bool, depth: nat, fmt: bool): Text
    decreases m, 3
  {
    If(fmt, Tabs(depth)) + PrintString(m.name) + [':'] + If(fmt, ['\t'])
    + Print(m.value, depth, fmt) + If(!last, [',']) + If(fmt, ['\n'])
  }

  function PrintMembers(members: seq<Member>, depth: nat, fmt: bool): Text
    decreases members, 4
  {
    if members == [] then []
    else PrintMember(members[0], |members| == 1, depth, fmt) + PrintMembers(members[1..], depth, fmt)
  }

  lemma {:induction false} TabsAreTabs(n: int)
    ensures forall k :: 0 <= k < |Tabs(n)| ==> Tabs(n)[k] == '\t'
    decreases n
  {
    if n > 0 {
      TabsAreTabs(n - 1);
    }
  }

  lemma PrintedObject(members: seq<Member>, depth: nat, fmt: bool)
    ensures Print(Object(members), depth, fmt)
         == if members == [] then ['{'] + If(fmt, ['\n'] + Tabs(depth - 1)) + ['}']
            else ['{'] + If(fmt, ['\n']) + PrintMembers(members, depth + 1, fmt) + If(fmt, Tabs(depth)) + ['}']
  {
  }

  // ---- Parsing ----

  /** The outcome of parsing a prefix of a text. Where the C code would overflow an int or run
      past the terminator, nothing is promised. */
  datatype Parsed<T> = Ok(value: T, rest: Text) | Fail | Undefined

  function Skip(p: Text): (r: Text)
    ensures |r| <= |p|
    ensures r != [] ==> r[0] > ' '
  {
    if p != [] && p[0] <= ' ' then Skip(p[1..]) else p
  }

  predicate StartsWith(p: Text, prefix: Text) { |prefix| <= |p| && p[..|prefix|] == prefix }

  function DigitsFrom(n: nat, p: Text): (r: Parsed<nat>)
    requires n <= INT_MAX
    ensures r.Ok? ==> |r.rest| <= |p|
    decreases |p|
  {
    if p == [] || !IsDigit(p[0]) then Ok(n, p)
    else
      var n' := n * 10 + (p[0] as int - '0' as int);
      if n' > INT_MAX then Undefined else DigitsFrom(n', p[1..])
  }

  /** parse_number after the sign: one zero is skipped, and digits follow only if the next one is
      not another zero. */
  function Magnitude(p: Text): (r: Parsed<nat>)
    ensures r.Ok? ==> |r.rest| <= |p|
    ensures r.Ok? && p != [] && IsDigit(p[0]) ==> |r.rest| < |p|
  {
    var q := if p != [] && p[0] == '0' then p[1..] else p;
    if q != [] && '1' <= q[0] <= '9' then DigitsFrom(0, q) else Ok(0, q)
  }

  function ParseNumber(p: Text): (r: Parsed<Tree>)
    requires p != [] && (p[0] == '-' || IsDigit(p[0]))
    ensures r.Ok? ==> |r.rest| < |p|
  {
    if p[0] == '-' then
      match Magnitude(p[1..]) case Ok(n, rest) => Ok(Number(0 - n, 0), rest) case Fail => Fail case Undefined => Undefined
    else
      match Magnitude(p) case Ok(n, rest) => Ok(Number(n, 0), rest) case Fail => Fail case Undefined => Undefined
  }

  // Strings

  predicate IsHex(c: char) { '0' <= c <= '9' || 'A' <= c <= 'F' || 'a' <= c <= 'f' }

  function HexValue(c: char): (v: nat)
    requires IsHex(c)
    ensures v < 16
  {
    if '0' <= c <= '9' then c as int - '0' as int
    else if 'A' <= c <= 'F' then c as int - 'A' as int + 10
    else c as int - 'a' as int + 10
  }

  predicate HasHex4(p: Text) { |p| >= 4 && IsHex(p[0]) && IsHex(p[1]) && IsHex(p[2]) && IsHex(p[3]) }

  /** parse_hex4: zero if one of the four characters is no hex digit. */
  function Hex4(p: Text): (v: nat)
    ensures v < 0x1_0000
    ensures |p| < 4 ==> v == 0
  {
    if HasHex4(p) then ((HexValue(p[0]) * 16 + HexValue(p[1])) * 16 + HexValue(p[2])) * 16 + HexValue(p[3]) else 0
  }

  function Byte(i: nat): Char
    requires 0 < i < 256
  {
    i as char
  }

  /** UTF-8 of a code point. */
  function Utf8(uc: nat): (s: Text)
    requires 0 < uc < 0x11_0000
    ensures 1 <= |s| <= 4
  {
    if uc < 0x80 then [Byte(uc)]
    else if uc < 0x800 then [Byte(0xC0 + uc / 0x40), Byte(0x80 + uc % 0x40)]
    else if uc < 0x1_0000 then [Byte(0xE0 + uc / 0x1000), Byte(0x80 + uc / 0x40 % 0x40), Byte(0x80 + uc % 0x40)]
    else [Byte(0xF0 + uc / 0x4_0000), Byte(0x80 + uc / 0x1000 % 0x40), Byte(0x80 + uc / 0x40 % 0x40), Byte(0x80 + uc % 0x40)]
  }

  predicate LowSurrogate(uc: nat) { 0xDC00 <= uc <= 0xDFFF }

  predicate HighSurrogate(uc: nat) { 0xD800 <= uc <= 0xDBFF }

  /** What follows "\u": the bytes it stands for and the text behind it. Zero, lone surrogates and
      broken pairs stand for nothing. Four characters are skipped whether they are hex digits or
      not, which is undefined if the text ends among them. */
  function Unicode(p: Text): (r: Parsed<Text>)
    ensures r.Ok? ==> |r.rest| <= |p| - 4
    ensures r != Fail
  {
    if |p| < 4 then Undefined
    else
      var uc := Hex4(p);
      if LowSurrogate(uc) || uc == 0 then Ok([], p[4..])
      else if !HighSurrogate(uc) then Ok(Utf8(uc), p[4..])
      else if !StartsWith(p[4..], "\\u") then Ok([], p[4..])
      else if |p| < 10 then Undefined
      else if !LowSurrogate(Hex4(p[6..])) then Ok([], p[10..])
      else Ok(Utf8(0x1_0000 + uc % 0x400 * 0x400 + Hex4(p[6..]) % 0x400), p[10..])
  }

  function Unescape(c: Char): Char {
    match c
    case 'b' => BACKSPACE
    case 'f' => FORM_FEED
    case 'n' => '\n'
    case 'r' => '\r'
    case 't' => '\t'
    case _ => c
  }

  function Prepend(s: Text, r: Parsed<Text>): Parsed<Text> {
    match r case Ok(t, rest) => Ok(s + t, rest) case other => other
  }

  lemma PrependNothing(r: Parsed<Text>)
    ensures Prepend([], r) == r
  {
    if r.Ok? {
      assert [] + r.value == r.value;
    }
  }

  /** parse_string after the opening quote. A string that is never closed ends with the text. */
  function StringBody(p: Text): (r: Parsed<Text>)
    ensures r.Ok? ==> |r.rest| <= |p|
    ensures r != Fail
    decreases |p|
  {
    if p == [] then Ok([], [])
    else if p[0] == '\"' then Ok([], p[1..])
    else if p[0] != '\\' then Prepend([p[0]], StringBody(p[1..]))
    else if |p| == 1 then Undefined
    else if p[1] != 'u' then Prepend([Unescape(p[1])], StringBody(p[2..]))
    else
      match Unicode(p[2..])
      case Ok(s, rest) => Prepend(s, StringBody(rest))
      case other => other
  }

  /** The number of bytes parse_string counts before it allocates: an escape counts once, the
      characters behind "\u" one by one. */
  function Units(p: Text): nat
    decreases |p|
  {
    if p == [] || p[0] == '\"' then 0
    else if p[0] == '\\' && |p| > 1 then 1 + Units(p[2..])
    else 1 + Units(p[1..])
  }

  /** No backslash before the closing quote, as the count finds it, is the last character. */
  predicate Escaped(p: Text)
    decreases |p|
  {
    p != [] && p[0] != '\"' ==> if p[0] == '\\' then |p| > 1 && Escaped(p[2..]) else Escaped(p[1..])
  }

  /** parse_string. Undefined if the count runs past the terminator or falls short of what is
      then decoded. */
  function ParseString(p: Text): (r: Parsed<Text>)
    ensures r.Ok? ==> |r.rest| < |p|
  {
    if p == [] || p[0] != '\"' then Fail
    else if !Escaped(p[1..]) then Undefined
    else
      match StringBody(p[1..])
      case Ok(s, rest) => if |s| <= Units(p[1..]) then Ok(s, rest) else Undefined
      case other => other
  }

  // Values

  function ParseValue(p: Text): (r: Parsed<Tree>)
    ensures r.Ok? ==> |r.rest| < |p|
    decreases |p|, 0
  {
    if StartsWith(p, "null") then Ok(Null, p[4..])
    else if StartsWith(p, "false") then Ok(False, p[5..])
    else if StartsWith(p, "true") then Ok(True, p[4..])
    else if p == [] then Fail
    else if p[0] == '\"' then
      match ParseString(p) case Ok(s, rest) => Ok(String(s), rest) case Fail => Fail case Undefined => Undefined
    else if p[0] == '-' || IsDigit(p[0]) then ParseNumber(p)
    else if p[0] == '[' then ParseArray(p)
    else if p[0] == '{' then ParseObject(p)
    else Fail
  }

  function ParseArray(p: Text): (r: Parsed<Tree>)
    requires p != []
    ensures r.Ok? ==> |r.rest| < |p|
    decreases |p| - 1, 3
  {
    var q := Skip(p[1..]);
    if q != [] && q[0] == ']' then Ok(Array([]), q[1..])
    else
      match ParseItems(q)
      case Ok(items, rest) => Ok(Array(items), rest)
      case Fail => Fail
      case Undefined => Undefined
  }

  /** A value and what follows it after a comma, up to the closing bracket. */
  function ParseItems(p: Text): (r: Parsed<seq<Tree>>)
    ensures r.Ok? ==> |r.rest| < |p|
    decreases |p|, 2
  {
    match ParseValue(Skip(p))
    case Fail => Fail
    case Undefined => Undefined
    case Ok(v, rest) =>
      var q := Skip(rest);
      if q != [] && q[0] == ',' then
        match ParseItems(q[1..])
        case Ok(items, rest') => Ok([v] + items, rest')
        case Fail => Fail
        case Undefined => Undefined
      else if q != [] && q[0] == ']' then Ok([v], q[1..])
      else Fail
  }

  function ParseObject(p: Text): (r: Parsed<Tree>)
    requires p != []
    ensures r.Ok? ==> |r.rest| < |p|
    decreases |p| - 1, 3
  {
    var q := Skip(p[1..]);
    if q != [] && q[0] == '}' then Ok(Object([]), q[1..])
    else
      match ParseMembers(q)
      case Ok(members, rest) => Ok(Object(members), rest)
      case Fail => Fail
      case Undefined => Undefined
  }

  /** A name, a colon and a value. */
  function ParseMember(p: Text): (r: Parsed<Member>)
    ensures r.Ok? ==> |r.rest| < |p|
    decreases |p|, 1
  {
    match ParseString(Skip(p))
    case Fail => Fail
    case Undefined => Undefined
    case Ok(name, rest) =>
      var q := Skip(rest);
      if q == [] || q[0] != ':' then Fail
      else
        match ParseValue(Skip(q[1..]))
        case Ok(v, rest') => Ok(Member(name, v), rest')
        case Fail => Fail
        case Undefined => Undefined
  }

  function ParseMembers(p: Text): (r: Parsed<seq<Member>>)
    ensures r.Ok? ==> |r.rest| < |p|
    decreases |p|, 2
  {
    match ParseMember(p)
    case Fail => Fail
    case Undefined => Undefined
    case Ok(m, rest) =>
      var q := Skip(rest);
      if q != [] && q[0] == ',' then
        match ParseMembers(q[1..])
        case Ok(members, rest') => Ok([m] + members, rest')
        case Fail => Fail
        case Undefined => Undefined
      else if q != [] && q[0] == '}' then Ok([m], q[1..])
      else Fail
  }

  /** cJSON_ParseWithOpts; cJSON_Parse does not require the text to end there. */
  function Parse(p: Text, nullTerminated: bool): Parsed<Tree> {
    match ParseValue(Skip(p))
    case Ok(t, rest) => if nullTerminated && Skip(rest) != [] then Fail else Ok(t, if nullTerminated then [] else rest)
    case other => other
  }
}
