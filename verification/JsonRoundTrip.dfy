/** Parsing what was printed. */
module JsonRoundTrip {
  import opened Json
  import opened Texts

  /** What a tree becomes on its way through text: numbers keep what was printed as their integer
      value, and lose their floating value, which the parser never sets. */
  function Norm(t: Tree): Tree
    decreases t, 0
  {
    match t
    case Number(i, d) => Number(if d == 0 then 0 else i, 0)
    case Array(items) => Array(NormItems(items))
    case Object(members) => Object(NormMembers(members))
    case _ => t
  }

  function NormItems(items: seq<Tree>): (r: seq<Tree>)
    ensures |r| == |items|
    decreases items, 1
  {
    if items == [] then [] else [Norm(items[0])] + NormItems(items[1..])
  }

  function NormMembers(members: seq<Member>): (r: seq<Member>)
    ensures |r| == |members|
    decreases members, 1
  {
    if members == [] then [] else [Member(members[0].name, Norm(members[0].value))] + NormMembers(members[1..])
  }

  // ---- Numbers ----

  /** What may follow a number without being taken for another digit. */
  predicate SafeEnd(rest: Text) { rest == [] || !IsDigit(rest[0]) }

  lemma {:induction false} DigitsRoundTrip(n: nat, rest: Text)
    requires n <= INT_MAX
    ensures DigitsFrom(0, Digits(n) + rest) == DigitsFrom(n, rest)
  {
    var d := Digit(n % 10);
    if n < 10 {
      assert (Digits(n) + rest)[1..] == rest;
    } else {
      assert Digits(n) + rest == Digits(n / 10) + ([d] + rest);
      DigitsRoundTrip(n / 10, [d] + rest);
      assert ([d] + rest)[1..] == rest;
    }
  }

  lemma MagnitudeRoundTrip(n: nat, rest: Text)
    requires n <= INT_MAX && SafeEnd(rest)
    ensures Magnitude(Digits(n) + rest) == Ok(n, rest)
  {
    DigitsRoundTrip(n, rest);
    if n == 0 {
      assert Digits(n) == ['0'];
      assert (Digits(n) + rest)[1..] == rest;
    }
  }

  lemma NaturalParses(n: nat, rest: Text)
    requires n <= INT_MAX && SafeEnd(rest)
    ensures ParseNumberText(Digits(n) + rest) == Ok(Number(n, 0), rest)
  {
    hide Digits, Magnitude, SafeEnd;
    MagnitudeRoundTrip(n, rest);
    assert (Digits(n) + rest)[0] == Digits(n)[0];
  }

  lemma NegativeParses(n: nat, rest: Text)
    requires n <= INT_MAX && SafeEnd(rest)
    ensures ParseNumberText(['-'] + Digits(n) + rest) == Ok(Number(0 - n, 0), rest)
  {
    hide Digits, Magnitude, SafeEnd;
    MagnitudeRoundTrip(n, rest);
    assert ['-'] + Digits(n) + rest == ['-'] + (Digits(n) + rest);
    assert (['-'] + (Digits(n) + rest))[1..] == Digits(n) + rest;
  }

  lemma NumberRoundTrip(i: int, d: int, rest: Text)
    requires PrintableNumber(i, d) && SafeEnd(rest)
    ensures ParseNumberText(PrintNumber(i, d) + rest) == Ok(Norm(Number(i, d)), rest)
  {
    assert "0" == Digits(0);
    hide Digits, ParseNumberText;
    if d == 0 {
      NaturalParses(0, rest);
    } else if i < 0 {
      NegativeParses(-i, rest);
    } else {
      NaturalParses(i, rest);
    }
  }

  /** ParseNumber where it applies. */
  function ParseNumberText(p: Text): Parsed<Tree> {
    if p != [] && (p[0] == '-' || IsDigit(p[0])) then ParseNumber(p) else Fail
  }

  lemma {:induction false} DigitsOverflow(n: nat, rest: Text)
    requires n > INT_MAX
    ensures DigitsFrom(0, Digits(n) + rest) == Undefined
  {
    var more: Text := [Digit(n % 10)] + rest;
    assert Digits(n) + rest == Digits(n / 10) + more;
    if n / 10 > INT_MAX {
      DigitsOverflow(n / 10, more);
    } else {
      DigitsRoundTrip(n / 10, more);
    }
  }

  /** The other numbers leave the range of an int while they are read. */
  lemma LargeNumberOverflows(n: nat, rest: Text)
    requires n > 0x7fff_ffff
    ensures ParseNumber(Digits(n) + rest) == Undefined
    ensures ParseNumber(['-'] + (Digits(n) + rest)) == Undefined
  {
    hide DigitsFrom, Digits;
    DigitsOverflow(n, rest);
    var p := ['-'] + (Digits(n) + rest);
    assert p[1..] == Digits(n) + rest;
  }

  /** One leading zero is skipped before a number, and a second one is left behind. */
  lemma LeadingZeros(n: nat, p: Text)
    requires n <= INT_MAX
    ensures Magnitude(['0'] + (['0'] + p)) == Ok(0, ['0'] + p)
    ensures n > 0 && SafeEnd(p) ==> Magnitude(['0'] + (Digits(n) + p)) == Ok(n, p)
  {
    assert (['0'] + (['0'] + p))[1..] == ['0'] + p;
    assert (['0'] + (Digits(n) + p))[1..] == Digits(n) + p;
    if n > 0 && SafeEnd(p) {
      MagnitudeRoundTrip(n, p);
    }
  }

  lemma SecondZeroEnds(p: Text)
    ensures ParseValue(['0', '0'] + p) == Ok(Number(0, 0), ['0'] + p)
  {
    var q := ['0'] + (['0'] + p);
    assert q == ['0', '0'] + p && q[0] == '0';
    LeadingZeros(0, p);
    NoKeyword(q);
    hide Magnitude, ParseString, ParseArray, ParseObject;
  }

  lemma NoItemEnds(p: Text, t: Tree, rest: Text)
    requires p != [] && p[0] > ' ' && ParseValue(p) == Ok(t, rest)
    requires rest != [] && rest[0] > ' ' && rest[0] != ',' && rest[0] != ']'
    ensures ParseItems(p) == Fail && Parse(p, true) == Fail
  {
    hide ParseValue;
    assert Skip(p) == p && Skip(rest) == rest;
  }

  lemma NoArray(p: Text)
    requires p != [] && p[0] > ' ' && p[0] != ']' && ParseItems(p) == Fail
    ensures ParseValue(['['] + p) == Fail
  {
    var q := ['['] + p;
    assert q[1..] == p && q[0] == '[';
    NoKeyword(q);
    hide ParseItems, ParseString, ParseNumber, ParseObject;
  }

  /** So a second zero ends the number, and no array or text may go on with it. */
  lemma SecondZeroIsRefused(p: Text)
    ensures ParseValue(['0', '0'] + p) == Ok(Number(0, 0), ['0'] + p)
    ensures Parse(['0', '0'] + p, true) == Fail
    ensures ParseValue(['[', '0', '0'] + p) == Fail
  {
    hide *;
    SecondZeroEnds(p);
    NoItemEnds(['0', '0'] + p, Number(0, 0), ['0'] + p);
    NoArray(['0', '0'] + p);
    assert ['[', '0', '0'] + p == ['['] + (['0', '0'] + p);
  }

  // ---- Strings ----

  lemma HexDigitValue(d: nat)
    requires d < 16
    ensures IsHex(HexDigit(d)) && HexValue(HexDigit(d)) == d
  {
  }

  lemma EscapeCharRoundTrip(c: Char, q: Text)
    ensures StringBody(EscapeChar(c) + q) == Prepend([c], StringBody(q))
  {
    hide StringBody;
    if Plain(c) {
      PlainRoundTrip(c, q);
    } else if |EscapeChar(c)| == 2 {
      ShortRoundTrip(EscapeChar(c)[1], q);
    } else {
      ControlRoundTrip(c, q);
    }
  }

  lemma PlainRoundTrip(c: Char, q: Text)
    requires c != '\"' && c != '\\'
    ensures StringBody([c] + q) == Prepend([c], StringBody(q))
  {
    assert ([c] + q)[1..] == q;
    hide Unicode, Unescape;
  }

  lemma ShortRoundTrip(e: Char, q: Text)
    requires e != 'u'
    ensures StringBody(['\\', e] + q) == Prepend([Unescape(e)], StringBody(q))
  {
    assert (['\\', e] + q)[2..] == q;
    hide Unicode, Unescape;
  }

  lemma ControlRoundTrip(c: Char, q: Text)
    requires c as int < 32
    ensures StringBody(['\\', 'u', '0', '0', HexDigit(c as int / 16), HexDigit(c as int % 16)] + q) == Prepend([c], StringBody(q))
  {
    var hi, lo := HexDigit(c as int / 16), HexDigit(c as int % 16);
    var p := ['\\', 'u', '0', '0', hi, lo] + q;
    HexDigitValue(c as int / 16);
    HexDigitValue(c as int % 16);
    var h := p[2..];
    assert h[0] == '0' && h[1] == '0' && h[2] == hi && h[3] == lo;
    assert Hex4(h) == c as int;
    assert h[4..] == q;
    assert Unicode(h) == Ok([c], q);
  }

  lemma EmptyBody(rest: Text)
    ensures StringBody(['\"'] + rest) == Ok([], rest)
  {
    assert (['\"'] + rest)[1..] == rest;
  }

  lemma {:induction false} StringRoundTrip(s: Text, rest: Text)
    ensures StringBody(Escape(s) + ['\"'] + rest) == Ok(s, rest)
    decreases |s|
  {
    hide StringBody, EscapeChar;
    var quote: Text := ['\"'];
    if s == [] {
      assert Escape(s) + quote + rest == quote + rest;
      EmptyBody(rest);
    } else {
      var q := Escape(s[1..]) + quote + rest;
      assert Escape(s) + quote + rest == EscapeChar(s[0]) + q;
      EscapeCharRoundTrip(s[0], q);
      StringRoundTrip(s[1..], rest);
      assert [s[0]] + s[1..] == s;
    }
  }

  /** An escape is counted as at least the one character it stands for. */
  lemma EscapeCharUnits(c: Char, q: Text)
    ensures Units(EscapeChar(c) + q) >= 1 + Units(q)
    ensures Escaped(EscapeChar(c) + q) <==> Escaped(q)
  {
    var e := EscapeChar(c);
    if |e| == 1 {
      assert (e + q)[1..] == q;
    } else if |e| == 2 {
      assert (e + q)[2..] == q;
    } else {
      var hi, lo := HexDigit(c as int / 16), HexDigit(c as int % 16);
      HexDigitValue(c as int / 16);
      HexDigitValue(c as int % 16);
      var digits := ['0'] + (['0'] + ([hi] + ([lo] + q)));
      assert e + q == ['\\', 'u'] + digits;
      assert (['\\', 'u'] + digits)[2..] == digits;
      PlainInFront(lo, q);
      PlainInFront(hi, [lo] + q);
      PlainInFront('0', [hi] + ([lo] + q));
      PlainInFront('0', ['0'] + ([hi] + ([lo] + q)));
    }
  }

  lemma PlainInFront(c: Char, q: Text)
    requires c != '\"' && c != '\\'
    ensures Units([c] + q) == 1 + Units(q)
    ensures Escaped([c] + q) <==> Escaped(q)
  {
    assert ([c] + q)[1..] == q;
  }

  lemma {:induction false} PrintedStringFits(s: Text, rest: Text)
    ensures Units(Escape(s) + ['\"'] + rest) >= |s| && Escaped(Escape(s) + ['\"'] + rest)
    decreases |s|
  {
    var quote: Text := ['\"'];
    if s == [] {
      assert Escape(s) + quote + rest == quote + rest;
    } else {
      var q := Escape(s[1..]) + quote + rest;
      assert Escape(s) + quote + rest == EscapeChar(s[0]) + q;
      EscapeCharUnits(s[0], q);
      PrintedStringFits(s[1..], rest);
    }
  }

  lemma PrintedStringParses(s: Text, rest: Text)
    ensures ParseString(PrintString(s) + rest) == Ok(s, rest)
  {
    hide StringBody, Units, Escaped, Escape;
    StringRoundTrip(s, rest);
    PrintedStringFits(s, rest);
    assert (PrintString(s) + rest)[1..] == Escape(s) + ['\"'] + rest;
  }

  // ---- Whitespace ----

  lemma {:induction false} SkipBlank(ws: Text, p: Text)
    requires forall k :: 0 <= k < |ws| ==> ws[k] <= ' '
    ensures Skip(ws + p) == Skip(p)
    decreases |ws|
  {
    if ws == [] {
      assert ws + p == p;
    } else {
      assert (ws + p)[1..] == ws[1..] + p;
      SkipBlank(ws[1..], p);
    }
  }

  lemma ItemsAfterSkip(p: Text, p': Text)
    requires Skip(p) == Skip(p')
    ensures ParseItems(p) == ParseItems(p')
  {
    hide Skip, ParseValue;
  }

  lemma MembersAfterSkip(p: Text, p': Text)
    requires Skip(p) == Skip(p')
    ensures ParseMembers(p) == ParseMembers(p')
  {
    assert ParseMember(p) == ParseMember(p') by {
      hide Skip, ParseString, ParseValue;
    }
    hide Skip, ParseMember;
  }

  /** Leading blanks before a list of values or members do not matter. */
  lemma BlanksBeforeItems(ws: Text, p: Text)
    requires forall k :: 0 <= k < |ws| ==> ws[k] <= ' '
    ensures ParseItems(ws + p) == ParseItems(p) && ParseMembers(ws + p) == ParseMembers(p)
  {
    hide *;
    SkipBlank(ws, p);
    ItemsAfterSkip(ws + p, p);
    MembersAfterSkip(ws + p, p);
  }

  // ---- Values ----

  /** The first character tells what a printed value is. */
  lemma FirstChar(t: Tree, depth: nat, fmt: bool)
    ensures var s := Print(t, depth, fmt);
            s != [] && s[0] > ' ' && s[0] != ']' && s[0] != '}' && s[0] != ','
  {
    match t
    case Number(i, d) => assert PrintNumber(i, d) != [];
    case _ =>
  }

  lemma NoKeyword(p: Text)
    requires p != [] && p[0] != 'n' && p[0] != 'f' && p[0] != 't'
    ensures !StartsWith(p, "null") && !StartsWith(p, "false") && !StartsWith(p, "true")
  {
  }

  lemma KeywordParses(t: Tree, rest: Text)
    requires t.Null? || t.False? || t.True?
    ensures ParseValue(Print(t, 0, false) + rest) == Ok(t, rest)
  {
    var p := Print(t, 0, false) + rest;
    match t
    case Null => assert p[..4] == "null" && p[4..] == rest;
    case False => assert p[..5] == "false" && p[5..] == rest && p[0] == 'f';
    case True => assert p[..4] == "true" && p[4..] == rest && p[0] == 't';
  }

  lemma {:induction false} ValueRoundTrip(t: Tree, depth: nat, fmt: bool, rest: Text)
    requires Printable(t) && SafeEnd(rest)
    ensures ParseValue(Print(t, depth, fmt) + rest) == Ok(Norm(t), rest)
    decreases t, 0
  {
    hide DigitsFrom, StringBody, ParseItems, ParseMembers, PrintItems, PrintMembers;
    var p := Print(t, depth, fmt) + rest;
    FirstChar(t, depth, fmt);
    match t
    case Null => KeywordParses(t, rest);
    case False => KeywordParses(t, rest);
    case True => KeywordParses(t, rest);
    case Number(i, d) =>
      NoKeyword(p);
      NumberRoundTrip(i, d, rest);
    case String(s) =>
      NoKeyword(p);
      PrintedStringParses(s, rest);
    case Array(items) =>
      NoKeyword(p);
      ArrayRoundTrip(items, depth, fmt, rest);
    case Object(members) =>
      NoKeyword(p);
      ObjectRoundTrip(members, depth, fmt, rest);
  }

  lemma {:induction false} ArrayRoundTrip(items: seq<Tree>, depth: nat, fmt: bool, rest: Text)
    requires forall k :: 0 <= k < |items| ==> Printable(items[k])
    ensures ParseArray(Print(Array(items), depth, fmt) + rest) == Ok(Array(NormItems(items)), rest)
    decreases items, 2
  {
    hide ParseItems, Print;
    var close: Text := [']'];
    var body := PrintItems(items, depth + 1, fmt);
    var p := Print(Array(items), depth, fmt) + rest;
    PrintedArray(items, depth, fmt);
    assert p[1..] == body + (close + rest);
    if items == [] {
      assert body + (close + rest) == close + rest;
      assert (close + rest)[1..] == rest;
    } else {
      FirstChar(items[0], depth + 1, fmt);
      ItemsStart(items, depth + 1, fmt);
      assert Skip(p[1..]) == p[1..];
      ItemsRoundTrip(items, depth + 1, fmt, rest);
    }
  }

  lemma PrintedArray(items: seq<Tree>, depth: nat, fmt: bool)
    ensures Print(Array(items), depth, fmt) == ['['] + PrintItems(items, depth + 1, fmt) + [']']
  {
  }

  lemma ItemsStart(items: seq<Tree>, depth: nat, fmt: bool)
    requires items != []
    ensures PrintItems(items, depth, fmt) != [] && PrintItems(items, depth, fmt)[0] == Print(items[0], depth, fmt)[0]
    ensures Print(items[0], depth, fmt) != []
  {
    FirstChar(items[0], depth, fmt);
  }

  lemma OneItem(items: seq<Tree>, depth: nat, fmt: bool)
    ensures |items| == 1 ==> PrintItems(items, depth, fmt) == Print(items[0], depth, fmt)
  {
    hide Print;
  }

  lemma ItemsCons(items: seq<Tree>, depth: nat, fmt: bool, end: Text)
    requires |items| > 1
    ensures PrintItems(items, depth, fmt) + end
         == Print(items[0], depth, fmt) + ([','] + (If(fmt, [' ']) + (PrintItems(items[1..], depth, fmt) + end)))
  {
    hide Print, If;
  }

  lemma {:induction false} ItemsRoundTrip(items: seq<Tree>, depth: nat, fmt: bool, rest: Text)
    requires items != [] && forall k :: 0 <= k < |items| ==> Printable(items[k])
    ensures ParseItems(PrintItems(items, depth, fmt) + ([']'] + rest)) == Ok(NormItems(items), rest)
    decreases items, 1
  {
    hide ParseValue, Print, PrintItems, Norm;
    OneItem(items, depth, fmt);
    var close: Text := [']'];
    var first := Print(items[0], depth, fmt);
    FirstChar(items[0], depth, fmt);
    if |items| == 1 {
      ValueRoundTrip(items[0], depth, fmt, close + rest);
      assert (close + rest)[1..] == rest;
      assert NormItems(items) == [Norm(items[0])];
    } else {
      var more := PrintItems(items[1..], depth, fmt) + (close + rest);
      var comma: Text := [','];
      var tail := comma + (If(fmt, [' ']) + more);
      ItemsCons(items, depth, fmt, close + rest);
      ValueRoundTrip(items[0], depth, fmt, tail);
      ItemsRoundTrip(items[1..], depth, fmt, rest);
      BlanksBeforeItems(If(fmt, [' ']), more);
      assert tail[1..] == If(fmt, [' ']) + more;
      assert Skip(tail) == tail;
    }
  }

  lemma {:induction false} ObjectRoundTrip(members: seq<Member>, depth: nat, fmt: bool, rest: Text)
    requires forall k :: 0 <= k < |members| ==> PrintableMember(members[k])
    ensures ParseObject(Print(Object(members), depth, fmt) + rest) == Ok(Object(NormMembers(members)), rest)
    decreases members, 3
  {
    hide ParseMembers, Print, PrintMembers, Tabs, If;
    PrintedObject(members, depth, fmt);
    var close, open := ['}'], ['{'];
    var p := Print(Object(members), depth, fmt) + rest;
    if members == [] {
      var ws := If(fmt, ['\n'] + Tabs(depth - 1));
      NewlineAndTabs(fmt, depth - 1);
      BetweenBraces(open, ws, [], [], close, rest);
      assert p[1..] == ws + (close + rest);
      SkipBlank(ws, close + rest);
      assert (close + rest)[1..] == rest;
    } else {
      var ws, ws' := If(fmt, ['\n']), If(fmt, Tabs(depth));
      var body := PrintMembers(members, depth + 1, fmt);
      BetweenBraces(open, ws, body, ws', close, rest);
      assert p[1..] == ws + (body + (ws' + (close + rest)));
      NewlineIsBlank(fmt);
      SkipBlank(ws, body + (ws' + (close + rest)));
      MembersStart(members, depth + 1, fmt, ws' + (close + rest));
      SkipTwice(body + (ws' + (close + rest)));
      TabsAreBlankIf(fmt, depth);
      MembersRoundTrip(members, depth + 1, fmt, ws', rest);
    }
  }

  lemma BetweenBraces(open: Text, a: Text, b: Text, c: Text, close: Text, rest: Text)
    ensures open + a + b + c + close + rest == open + (a + (b + (c + (close + rest))))
    ensures open + a + close + rest == open + (a + (close + rest))
  {
    Joins(open + a + b + c, close, rest);
    Joins(open + a + b, c, close + rest);
    Joins(open + a, b, c + (close + rest));
    Joins(open, a, b + (c + (close + rest)));
    Joins(open + a, close, rest);
    Joins(open, a, close + rest);
  }

  lemma NewlineAndTabs(fmt: bool, n: int)
    ensures forall k :: 0 <= k < |If(fmt, ['\n'] + Tabs(n))| ==> If(fmt, ['\n'] + Tabs(n))[k] <= ' '
  {
    TabsAreTabs(n);
  }

  lemma SkipTwice(p: Text)
    ensures Skip(Skip(p)) == Skip(p)
    ensures ParseMembers(Skip(p)) == ParseMembers(p)
  {
    hide ParseMembers;
    MembersAfterSkip(Skip(p), p);
  }

  /** After its blanks a list of members starts with a quote. */
  lemma MembersStart(members: seq<Member>, depth: nat, fmt: bool, tail: Text)
    requires members != []
    ensures Skip(PrintMembers(members, depth, fmt) + tail) != []
    ensures Skip(PrintMembers(members, depth, fmt) + tail)[0] == '\"'
  {
    hide *;
    var m := members[0];
    MembersCons(members, depth, fmt);
    var last, more := |members| == 1, PrintMembers(members[1..], depth, fmt);
    Joins(PrintMember(m, last, depth, fmt), more, tail);
    MemberParts(m, last, depth, fmt, more + tail);
    TabsAreBlankIf(fmt, depth);
    SkipBlank(If(fmt, Tabs(depth)), PrintString(m.name) + ([':'] + MemberEnd(m, last, depth, fmt, more + tail)));
    QuoteStays(m.name, [':'] + MemberEnd(m, last, depth, fmt, more + tail));
  }

  lemma MembersCons(members: seq<Member>, depth: nat, fmt: bool)
    requires members != []
    ensures PrintMembers(members, depth, fmt)
         == PrintMember(members[0], |members| == 1, depth, fmt) + PrintMembers(members[1..], depth, fmt)
    ensures |members| == 1 ==> PrintMembers(members, depth, fmt) == PrintMember(members[0], true, depth, fmt)
  {
    hide PrintMember;
    if |members| == 1 {
      assert PrintMembers(members[1..], depth, fmt) == [];
    }
  }

  lemma TabsAreBlankIf(fmt: bool, n: int)
    ensures forall k :: 0 <= k < |If(fmt, Tabs(n))| ==> If(fmt, Tabs(n))[k] <= ' '
  {
    TabsAreTabs(n);
  }

  lemma QuoteStays(s: Text, q: Text)
    ensures Skip(PrintString(s) + q) == PrintString(s) + q
    ensures (PrintString(s) + q) != [] && (PrintString(s) + q)[0] == '\"'
  {
  }

  /** What follows the colon of a member. */
  function MemberEnd(m: Member, last: bool, depth: nat, fmt: bool, tail: Text): Text {
    If(fmt, ['\t']) + (Print(m.value, depth, fmt) + (If(!last, [',']) + (If(fmt, ['\n']) + tail)))
  }

  lemma MemberParts(m: Member, last: bool, depth: nat, fmt: bool, tail: Text)
    ensures PrintMember(m, last, depth, fmt) + tail
         == If(fmt, Tabs(depth)) + (PrintString(m.name) + ([':'] + MemberEnd(m, last, depth, fmt, tail)))
  {
    var a, b, c, d := If(fmt, Tabs(depth)), PrintString(m.name), [':'], If(fmt, ['\t']);
    var e, f, g := Print(m.value, depth, fmt), If(!last, [',']), If(fmt, ['\n']);
    assert PrintMember(m, last, depth, fmt) == a + b + c + d + e + f + g;
    hide *;
    Joins(a + b + c + d + e + f, g, tail);
    Joins(a + b + c + d + e, f, g + tail);
    Joins(a + b + c + d, e, f + (g + tail));
    Joins(a + b + c, d, e + (f + (g + tail)));
    Joins(a + b, c, d + (e + (f + (g + tail))));
    Joins(a, b, c + (d + (e + (f + (g + tail)))));
    assert MemberEnd(m, last, depth, fmt, tail) == d + (e + (f + (g + tail))) by {
      MemberEndIs(m, last, depth, fmt, tail);
    }
  }

  lemma MemberEndIs(m: Member, last: bool, depth: nat, fmt: bool, tail: Text)
    ensures MemberEnd(m, last, depth, fmt, tail)
         == If(fmt, ['\t']) + (Print(m.value, depth, fmt) + (If(!last, [',']) + (If(fmt, ['\n']) + tail)))
  {
  }

  lemma {:induction false} MemberRoundTrip(m: Member, last: bool, depth: nat, fmt: bool, tail: Text)
    requires PrintableMember(m)
    requires last && !fmt ==> SafeEnd(tail)
    ensures ParseMember(PrintMember(m, last, depth, fmt) + tail) == Ok(Member(m.name, Norm(m.value)), If(!last, [',']) + (If(fmt, ['\n']) + tail))
    decreases m, 1
  {
    hide ParseValue, Print, PrintString, ParseString, PrintMember, Tabs, Norm, Printable;
    var end, gap := If(!last, [',']) + (If(fmt, ['\n']) + tail), If(fmt, ['\t']);
    var v, colon := Print(m.value, depth, fmt), [':'];
    MemberParts(m, last, depth, fmt, tail);
    var q := gap + (v + end);
    TabsAreBlankIf(fmt, depth);
    SkipBlank(If(fmt, Tabs(depth)), PrintString(m.name) + (colon + q));
    QuoteStays(m.name, colon + q);
    PrintedStringParses(m.name, colon + q);
    assert Skip(colon + q) == colon + q && (colon + q)[1..] == q;
    SkipBlank(gap, v + end);
    FirstChar(m.value, depth, fmt);
    assert Skip(v + end) == v + end;
    ValueRoundTrip(m.value, depth, fmt, end);
  }

  lemma {:induction false} MembersRoundTrip(members: seq<Member>, depth: nat, fmt: bool, ws: Text, rest: Text)
    requires members != [] && forall k :: 0 <= k < |members| ==> PrintableMember(members[k])
    requires forall k :: 0 <= k < |ws| ==> ws[k] <= ' '
    ensures ParseMembers(PrintMembers(members, depth, fmt) + (ws + (['}'] + rest))) == Ok(NormMembers(members), rest)
    decreases members, 2
  {
    hide ParseMember, PrintMember, PrintMembers, If;
    var close: Text := ['}'];
    var m, nl := members[0], If(fmt, ['\n']);
    var end := ws + (close + rest);
    MembersCons(members, depth, fmt);
    NewlineIsBlank(fmt);
    if |members| == 1 {
      assert end[0] <= ' ' || end[0] == '}';
      MemberRoundTrip(m, true, depth, fmt, end);
      NoText();
      assert [] + (nl + end) == nl + end;
      SkipBlank(nl, end);
      SkipBlank(ws, close + rest);
      assert (close + rest)[1..] == rest;
      assert NormMembers(members) == [Member(m.name, Norm(m.value))];
    } else {
      var more := PrintMembers(members[1..], depth, fmt) + end;
      var comma: Text := [','];
      Joins(PrintMember(m, false, depth, fmt), PrintMembers(members[1..], depth, fmt), end);
      MemberRoundTrip(m, false, depth, fmt, more);
      NoText();
      var tail := comma + (nl + more);
      assert Skip(tail) == tail && tail[1..] == nl + more;
      BlanksBeforeItems(nl, more);
      MembersRoundTrip(members[1..], depth, fmt, ws, rest);
    }
  }

  lemma NoText()
    ensures If(false, [',']) == [] && If(true, [',']) == [',']
  {
  }

  lemma NewlineIsBlank(fmt: bool)
    ensures forall k :: 0 <= k < |If(fmt, ['\n'])| ==> If(fmt, ['\n'])[k] <= ' '
  {
  }

  // ---- Main results ----

  /** cJSON_Parse undoes cJSON_Print and cJSON_PrintUnformatted, up to the floating values. */
  lemma PrintThenParse(t: Tree, fmt: bool, nullTerminated: bool)
    requires Printable(t)
    ensures Parse(Print(t, 0, fmt), nullTerminated) == Ok(Norm(t), [])
  {
    hide ParseValue, Print;
    var p := Print(t, 0, fmt);
    FirstChar(t, 0, fmt);
    assert p + [] == p && Skip(p) == p;
    ValueRoundTrip(t, 0, fmt, []);
  }

  /** All numbers in the tree are zero as they print. */
  predicate OnlyZeros(t: Tree)
    decreases t, 0
  {
    match t
    case Number(i, d) => d == 0 || i == 0
    case Array(items) => forall k :: 0 <= k < |items| ==> OnlyZeros(items[k])
    case Object(members) => forall k :: 0 <= k < |members| ==> OnlyZeroMember(members[k])
    case _ => true
  }

  predicate OnlyZeroMember(m: Member)
    decreases m, 1
  {
    OnlyZeros(m.value)
  }

  lemma {:induction false} NormIsPrintable(t: Tree)
    requires Printable(t)
    ensures Printable(Norm(t))
    decreases t, 0
  {
    match t
    case Array(items) => NormItemsAre(items);
    case Object(members) => NormMembersAre(members);
    case _ =>
  }

  lemma {:induction false} NormItemsAre(items: seq<Tree>)
    requires forall k :: 0 <= k < |items| ==> Printable(items[k])
    ensures forall k :: 0 <= k < |items| ==> NormItems(items)[k] == Norm(items[k]) && Printable(Norm(items[k]))
    decreases items, 1
  {
    if items != [] {
      NormIsPrintable(items[0]);
      NormItemsAre(items[1..]);
    }
  }

  lemma {:induction false} NormMembersAre(members: seq<Member>)
    requires forall k :: 0 <= k < |members| ==> PrintableMember(members[k])
    ensures forall k :: 0 <= k < |members| ==> NormMembers(members)[k] == Member(members[k].name, Norm(members[k].value))
    ensures forall k :: 0 <= k < |members| ==> PrintableMember(NormMembers(members)[k])
    decreases members, 1
  {
    if members != [] {
      assert PrintableMember(members[0]);
      NormIsPrintable(members[0].value);
      NormMembersAre(members[1..]);
    }
  }

  /** A second trip changes nothing exactly when every number was zero. */
  lemma {:induction false} NormTwice(t: Tree)
    requires Printable(t)
    ensures Norm(Norm(t)) == Norm(t) <==> OnlyZeros(t)
    decreases t
  {
    match t
    case Array(items) =>
      NormItemsAre(items);
      NormIsPrintable(t);
      NormItemsAre(NormItems(items));
      forall k | 0 <= k < |items| ensures Norm(Norm(items[k])) == Norm(items[k]) <==> OnlyZeros(items[k]) {
        NormTwice(items[k]);
      }
      var once, twice := NormItems(items), NormItems(NormItems(items));
      if forall k :: 0 <= k < |items| ==> OnlyZeros(items[k]) {
        assert forall k :: 0 <= k < |items| ==> twice[k] == once[k];
        assert twice == once;
      } else {
        var k :| 0 <= k < |items| && !OnlyZeros(items[k]);
        assert twice[k] != once[k];
      }
    case Object(members) =>
      NormMembersAre(members);
      NormMembersAre(NormMembers(members));
      forall k | 0 <= k < |members| ensures Norm(Norm(members[k].value)) == Norm(members[k].value) <==> OnlyZeroMember(members[k]) {
        assert PrintableMember(members[k]);
        NormTwice(members[k].value);
      }
      var once, twice := NormMembers(members), NormMembers(NormMembers(members));
      if forall k :: 0 <= k < |members| ==> OnlyZeroMember(members[k]) {
        assert forall k :: 0 <= k < |members| ==> twice[k] == once[k];
        assert twice == once;
      } else {
        var k :| 0 <= k < |members| && !OnlyZeroMember(members[k]);
        assert twice[k] != once[k];
      }
    case _ =>
  }

  /** Five prints as "5", is read back, and prints as "0". */
  lemma FiveReprintsAsZero(fmt: bool)
    ensures Printable(Number(5, 5)) && Print(Number(5, 5), 0, fmt) == "5"
    ensures Parse("5", false) == Ok(Number(5, 0), [])
    ensures Print(Number(5, 0), 0, fmt) == "0"
  {
    assert Digits(5) == "5" && Digits(0) == "0";
    PrintThenParse(Number(5, 5), fmt, false);
  }

  /** Printing a parsed tree again gives the text back exactly when every number in it is zero:
      the parser leaves the floating value at zero, and that is what the printer looks at. */
  lemma ReprintsExactlyWhenOnlyZeros(t: Tree, fmt: bool)
    requires Printable(t)
    ensures Print(Norm(t), 0, fmt) == Print(t, 0, fmt) <==> OnlyZeros(t)
  {
    hide Print, Parse;
    NormIsPrintable(t);
    NormTwice(t);
    PrintThenParse(t, fmt, false);
    PrintThenParse(Norm(t), fmt, false);
    if OnlyZeros(t) {
      ZerosPrintAlike(t, 0, fmt);
    }
  }

  lemma {:induction false} ZerosPrintAlike(t: Tree, depth: nat, fmt: bool)
    requires Printable(t) && OnlyZeros(t)
    ensures Print(Norm(t), depth, fmt) == Print(t, depth, fmt)
    decreases t, 0
  {
    match t
    case Number(i, d) => assert Decimal(0) == "0";
    case Array(items) => ZeroItemsPrintAlike(items, depth + 1, fmt);
    case Object(members) => ZeroMembersPrintAlike(members, depth + 1, fmt);
    case _ =>
  }

  lemma {:induction false} ZeroItemsPrintAlike(items: seq<Tree>, depth: nat, fmt: bool)
    requires forall k :: 0 <= k < |items| ==> Printable(items[k]) && OnlyZeros(items[k])
    ensures PrintItems(NormItems(items), depth, fmt) == PrintItems(items, depth, fmt)
    decreases items, 1
  {
    if items != [] {
      ZerosPrintAlike(items[0], depth, fmt);
      ZeroItemsPrintAlike(items[1..], depth, fmt);
      assert NormItems(items)[1..] == NormItems(items[1..]);
    }
  }

  lemma {:induction false} ZeroMembersPrintAlike(members: seq<Member>, depth: nat, fmt: bool)
    requires forall k :: 0 <= k < |members| ==> PrintableMember(members[k]) && OnlyZeroMember(members[k])
    ensures PrintMembers(NormMembers(members), depth, fmt) == PrintMembers(members, depth, fmt)
    decreases members, 1
  {
    if members != [] {
      var m := members[0];
      assert PrintableMember(m) && OnlyZeroMember(m);
      ZerosPrintAlike(m.value, depth, fmt);
      ZeroMembersPrintAlike(members[1..], depth, fmt);
      assert NormMembers(members)[1..] == NormMembers(members[1..]);
      assert PrintMember(Member(m.name, Norm(m.value)), |members| == 1, depth, fmt) == PrintMember(m, |members| == 1, depth, fmt);
    }
  }
}
