/** How printed text looks: the indented form as a layout of the compact one, and the spelling of
    numbers and strings. */
module JsonLayout {
  import opened Json
  import opened JsonMinify
  import opened Texts

  // ---- Layout ----

  datatype Bracket = InArray | InObject

  /** A new line and its tabs; the code asks for one tab less than none at the outermost level. */
  function Line(tabs: int): Text { ['\n'] + seq(if tabs < 0 then 0 else tabs, _ => '\t') }

  function Pop(open: seq<Bracket>): seq<Bracket> { if open == [] then [] else open[..|open| - 1] }

  predicate Inside(open: seq<Bracket>, b: Bracket) { open != [] && open[|open| - 1] == b }

  /** What is put around the characters of a compact text outside its strings: members stand on
      lines of their own, indented by the brackets that are open, with a tab behind the colon;
      entries of an array stand on one line with a space behind the comma. The two brackets of an
      empty object stand on two lines, the second one a tab short. */
  function Layout(p: Text, open: seq<Bracket>, base: nat): Text
    decreases |p|
  {
    var depth := base + |open|;
    if p == [] then []
    else
      match p[0]
      case '\"' =>
        (match LiteralLength(p[1..])
         case Nowhere => p
         case At(j) => p[..1 + j] + Layout(p[1 + j..], open, base))
      case '[' => ['['] + Layout(p[1..], open + [InArray], base)
      case ']' => [']'] + Layout(p[1..], Pop(open), base)
      case '{' =>
        if |p| > 1 && p[1] == '}' then ['{'] + Line(depth - 1) + ['}'] + Layout(p[2..], open, base)
        else ['{'] + Line(depth + 1) + Layout(p[1..], open + [InObject], base)
      case '}' => Line(depth - 1) + ['}'] + Layout(p[1..], Pop(open), base)
      case ':' => [':', '\t'] + Layout(p[1..], open, base)
      case ',' => [','] + (if Inside(open, InObject) then Line(depth) else [' ']) + Layout(p[1..], open, base)
      case c => [c] + Layout(p[1..], open, base)
  }

  predicate Bare(c: Char) { c !in ['\"', '[', ']', '{', '}', ':', ','] }

  lemma {:induction false} BareIsKept(s: Text, rest: Text, open: seq<Bracket>, base: nat)
    requires forall k :: 0 <= k < |s| ==> Bare(s[k])
    ensures Layout(s + rest, open, base) == s + Layout(rest, open, base)
    decreases |s|
  {
    if s == [] {
      assert s + rest == rest;
    } else {
      var c := s[0];
      assert Bare(c);
      assert (s + rest)[1..] == s[1..] + rest;
      BareIsKept(s[1..], rest, open, base);
      assert Layout(s + rest, open, base) == [c] + Layout(s[1..] + rest, open, base);
    }
  }

  lemma StringIsLaid(s: Text, rest: Text, open: seq<Bracket>, base: nat)
    ensures Layout(PrintString(s) + rest, open, base) == PrintString(s) + Layout(rest, open, base)
  {
    hide Escape, EscapeChar;
    var p := PrintString(s) + rest;
    LiteralOfString(s, rest);
    assert p[1..] == Escape(s) + (['\"'] + rest);
    var n := |Escape(s)| + 2;
    assert p[..n] == PrintString(s) && p[n..] == rest;
  }

  lemma {:induction false} DigitsAreBare(n: nat)
    ensures forall k :: 0 <= k < |Digits(n)| ==> Bare(Digits(n)[k])
  {
  }

  lemma NumberIsBare(i: int, d: int)
    ensures forall k :: 0 <= k < |PrintNumber(i, d)| ==> Bare(PrintNumber(i, d)[k])
  {
    DigitsAreBare(if i < 0 then -i else i);
  }

  lemma LineIsTabs(n: int)
    ensures Line(n) == ['\n'] + Tabs(n)
  {
    TabsAreTabs(n);
  }

  // ---- Members without the lines around them ----

  function Entry(m: Member, depth: nat, fmt: bool): Text {
    PrintString(m.name) + ([':'] + If(fmt, ['\t']) + Print(m.value, depth, fmt))
  }

  function Entries(members: seq<Member>, depth: nat, fmt: bool): Text
    requires members != []
  {
    if |members| == 1 then Entry(members[0], depth, fmt)
    else Entry(members[0], depth, fmt) + ([','] + If(fmt, Line(depth)) + Entries(members[1..], depth, fmt))
  }

  lemma {:induction false} MembersAreEntries(members: seq<Member>, depth: nat, fmt: bool)
    requires members != []
    ensures PrintMembers(members, depth, fmt) == If(fmt, Tabs(depth)) + Entries(members, depth, fmt) + If(fmt, ['\n'])
    decreases |members|
  {
    hide Print, PrintString, PrintMember, Entry, If, Tabs, Line;
    var tabs, entry, end := If(fmt, Tabs(depth)), Entry(members[0], depth, fmt), If(fmt, ['\n']);
    MemberIsEntry(members[0], |members| == 1, depth, fmt);
    if |members| > 1 {
      var more := Entries(members[1..], depth, fmt);
      MembersAreEntries(members[1..], depth, fmt);
      LineEnds(depth, fmt);
      assert tabs + entry + [','] + end + (tabs + more + end) == tabs + (entry + ([','] + (end + tabs) + more)) + end;
    } else {
      assert PrintMembers(members[1..], depth, fmt) == [];
    }
  }

  lemma MemberIsEntry(m: Member, last: bool, depth: nat, fmt: bool)
    ensures PrintMember(m, last, depth, fmt)
         == If(fmt, Tabs(depth)) + Entry(m, depth, fmt) + (if last then [] else [',']) + If(fmt, ['\n'])
  {
    hide Print, PrintString, Tabs;
  }

  lemma LineEnds(depth: nat, fmt: bool)
    ensures If(fmt, Line(depth)) == If(fmt, ['\n']) + If(fmt, Tabs(depth))
  {
    LineIsTabs(depth);
    hide Line, Tabs;
  }

  // ---- The compact text, laid out ----

  lemma Opens(p: Text, b: Bracket, open: seq<Bracket>, base: nat)
    requires b.InObject? ==> p == [] || p[0] != '}'
    ensures Layout([if b.InArray? then '[' else '{'] + p, open, base)
         == (if b.InArray? then ['['] else ['{'] + Line(base + |open| + 1)) + Layout(p, open + [b], base)
  {
    var w := [if b.InArray? then '[' else '{'] + p;
    assert w[1..] == p;
  }

  lemma Closes(p: Text, b: Bracket, open: seq<Bracket>, base: nat)
    ensures Layout([if b.InArray? then ']' else '}'] + p, open + [b], base)
         == (if b.InArray? then [']'] else Line(base + |open|) + ['}']) + Layout(p, open, base)
  {
    var w := [if b.InArray? then ']' else '}'] + p;
    assert w[1..] == p && Pop(open + [b]) == open;
  }

  lemma CommaIsLaid(p: Text, b: Bracket, open: seq<Bracket>, base: nat)
    ensures Layout([','] + p, open + [b], base)
         == [','] + (if b.InObject? then Line(base + |open| + 1) else [' ']) + Layout(p, open + [b], base)
  {
    assert ([','] + p)[1..] == p;
  }

  lemma ColonIsLaid(p: Text, open: seq<Bracket>, base: nat)
    ensures Layout([':'] + p, open, base) == [':'] + (['\t'] + Layout(p, open, base))
  {
    assert ([':'] + p)[1..] == p;
  }

  lemma EmptyIsLaid(p: Text, open: seq<Bracket>, base: nat)
    ensures Layout(['{', '}'] + p, open, base) == ['{'] + Line(base + |open| - 1) + ['}'] + Layout(p, open, base)
  {
    assert (['{', '}'] + p)[2..] == p;
  }

  /** The layout of a printed value, whatever is open and whatever follows. */
  lemma {:induction false} ValueIsLaid(t: Tree, rest: Text, open: seq<Bracket>, base: nat)
    ensures Layout(Print(t, base + |open|, false) + rest, open, base) == Print(t, base + |open|, true) + Layout(rest, open, base)
    decreases t, 1, 0
  {
    hide Layout, Line, PrintItems, PrintMembers, PrintString, PrintNumber, Tabs;
    match t
    case Null => BareIsKept("null", rest, open, base);
    case False => BareIsKept("false", rest, open, base);
    case True => BareIsKept("true", rest, open, base);
    case Number(i, v) =>
      NumberIsBare(i, v);
      BareIsKept(PrintNumber(i, v), rest, open, base);
    case String(s) => StringIsLaid(s, rest, open, base);
    case Array(items) =>
      ArrayIsLaid(t, items, rest, open, base);
    case Object(members) =>
      if members == [] {
        EmptyIsLaid(rest, open, base);
        LineIsTabs(base + |open| - 1);
        assert Print(t, base + |open|, false) == ['{', '}'];
      } else {
        ObjectIsLaid(t, members, rest, open, base);
      }
  }

  lemma {:induction false} ItemsAreLaid(t: Tree, items: seq<Tree>, rest: Text, open: seq<Bracket>, base: nat)
    requires forall k :: 0 <= k < |items| ==> items[k] < t
    ensures Layout(PrintItems(items, base + |open| + 1, false) + rest, open + [InArray], base)
         == PrintItems(items, base + |open| + 1, true) + Layout(rest, open + [InArray], base)
    decreases t, 0, |items|
  {
    hide Layout, Print;
    var d, inner := base + |open| + 1, open + [InArray];
    if items == [] {
      assert [] + rest == rest;
    } else if |items| == 1 {
      ValueIsLaid(items[0], rest, inner, base);
    } else {
      var more := PrintItems(items[1..], d, false) + rest;
      ValueIsLaid(items[0], [','] + more, inner, base);
      CommaIsLaid(more, InArray, open, base);
      ItemsAreLaid(t, items[1..], rest, open, base);
      assert PrintItems(items, d, false) + rest == Print(items[0], d, false) + ([','] + more);
    }
  }

  lemma {:induction false} ArrayIsLaid(t: Tree, items: seq<Tree>, rest: Text, open: seq<Bracket>, base: nat)
    requires forall k :: 0 <= k < |items| ==> items[k] < t
    ensures Layout(Print(Array(items), base + |open|, false) + rest, open, base) == Print(Array(items), base + |open|, true) + Layout(rest, open, base)
    decreases t, 0, |items| + 1
  {
    hide Layout, PrintItems, Line;
    var d := base + |open|;
    var flat := PrintItems(items, d + 1, false);
    ItemsAreLaid(t, items, [']'] + rest, open, base);
    Opens(flat + ([']'] + rest), InArray, open, base);
    Closes(rest, InArray, open, base);
    assert Print(Array(items), d, false) + rest == ['['] + (flat + ([']'] + rest));
  }

  lemma {:induction false} EntryIsLaid(t: Tree, m: Member, rest: Text, open: seq<Bracket>, base: nat)
    requires m.value < t
    ensures Layout(Entry(m, base + |open|, false) + rest, open, base) == Entry(m, base + |open|, true) + Layout(rest, open, base)
    decreases t, 0, 0
  {
    hide *;
    ValueIsLaid(m.value, rest, open, base);
    NameIsLaid(m.name, Print(m.value, base + |open|, false) + rest, open, base);
    CompactEntry(m, base + |open|, rest);
    IndentedEntry(m, base + |open|, Layout(rest, open, base));
  }

  lemma NameIsLaid(name: Text, p: Text, open: seq<Bracket>, base: nat)
    ensures Layout(PrintString(name) + ([':'] + p), open, base) == PrintString(name) + ([':'] + (['\t'] + Layout(p, open, base)))
  {
    hide Layout, PrintString;
    StringIsLaid(name, [':'] + p, open, base);
    ColonIsLaid(p, open, base);
  }

  lemma CompactEntry(m: Member, depth: nat, rest: Text)
    ensures Entry(m, depth, false) + rest == PrintString(m.name) + ([':'] + (Print(m.value, depth, false) + rest))
  {
    hide Print, PrintString;
    var value := Print(m.value, depth, false);
    assert [':'] + If(false, ['\t']) + value + rest == [':'] + (value + rest);
  }

  lemma IndentedEntry(m: Member, depth: nat, rest: Text)
    ensures Entry(m, depth, true) + rest == PrintString(m.name) + ([':'] + (['\t'] + (Print(m.value, depth, true) + rest)))
  {
    hide Print, PrintString;
    var value := Print(m.value, depth, true);
    assert [':'] + If(true, ['\t']) + value + rest == [':'] + (['\t'] + (value + rest));
  }

  lemma {:induction false} EntriesAreLaid(t: Tree, members: seq<Member>, rest: Text, open: seq<Bracket>, base: nat)
    requires members != [] && forall k :: 0 <= k < |members| ==> members[k].value < t
    ensures Layout(Entries(members, base + |open| + 1, false) + rest, open + [InObject], base)
         == Entries(members, base + |open| + 1, true) + Layout(rest, open + [InObject], base)
    decreases t, 0, |members|
  {
    hide Layout, Entry, Line, Print;
    var d, inner, m := base + |open| + 1, open + [InObject], members[0];
    if |members| == 1 {
      EntryIsLaid(t, m, rest, inner, base);
    } else {
      var more := Entries(members[1..], d, false) + rest;
      EntryIsLaid(t, m, [','] + more, inner, base);
      CommaIsLaid(more, InObject, open, base);
      EntriesAreLaid(t, members[1..], rest, open, base);
      assert Entries(members, d, false) + rest == Entry(m, d, false) + ([','] + more);
    }
  }

  lemma {:induction false} ObjectIsLaid(t: Tree, members: seq<Member>, rest: Text, open: seq<Bracket>, base: nat)
    requires members != [] && forall k :: 0 <= k < |members| ==> members[k].value < t
    ensures Layout(Print(Object(members), base + |open|, false) + rest, open, base) == Print(Object(members), base + |open|, true) + Layout(rest, open, base)
    decreases t, 0, |members| + 1
  {
    hide Layout, Entries, Line, Tabs, Print, PrintMembers;
    var flat: Text := Entries(members, base + |open| + 1, false);
    EntriesStart(members, base + |open| + 1);
    Opens(flat + (['}'] + rest), InObject, open, base);
    EntriesAreLaid(t, members, ['}'] + rest, open, base);
    Closes(rest, InObject, open, base);
    CompactObject(members, base + |open|, rest);
    IndentedObject(members, base + |open|, Layout(rest, open, base));
  }

  lemma CompactObject(members: seq<Member>, depth: nat, rest: Text)
    requires members != []
    ensures Print(Object(members), depth, false) + rest == ['{'] + (Entries(members, depth + 1, false) + (['}'] + rest))
  {
    hide Entries, PrintMembers, Tabs;
    MembersAreEntries(members, depth + 1, false);
  }

  lemma IndentedObject(members: seq<Member>, depth: nat, rest: Text)
    requires members != []
    ensures Print(Object(members), depth, true) + rest
         == ['{'] + Line(depth + 1) + (Entries(members, depth + 1, true) + (Line(depth) + ['}'] + rest))
  {
    hide Entries, PrintMembers, Tabs, Line;
    MembersAreEntries(members, depth + 1, true);
    LineIsTabs(depth + 1);
    LineIsTabs(depth);
  }

  lemma EntriesStart(members: seq<Member>, depth: nat)
    requires members != []
    ensures Entries(members, depth, false) != [] && Entries(members, depth, false)[0] == '\"'
  {
  }

  /** The indented form is the layout of the compact one. */
  lemma PrettyIsLayout(t: Tree)
    ensures Print(t, 0, true) == Layout(Print(t, 0, false), [], 0)
  {
    hide Print;
    ValueIsLaid(t, [], [], 0);
    assert Print(t, 0, false) + [] == Print(t, 0, false);
  }

  // ---- Spelling ----

  function Value(s: Text): nat
    requires forall k :: 0 <= k < |s| ==> '0' <= s[k] <= '9'
  {
    if s == [] then 0 else Value(s[..|s| - 1]) * 10 + (s[|s| - 1] as nat - '0' as nat)
  }

  /** A number whose floating value is set is spelled without zeros in front, with a minus exactly
      if it is negative; one whose floating value is zero is spelled 0. */
  lemma NumberIsSpelled(i: int, d: int)
    ensures d == 0 ==> Print(Number(i, d), 0, false) == "0"
    ensures d != 0 ==>
              var s := Print(Number(i, d), 0, false);
              var digits := if i < 0 then s[1..] else s;
              && (i < 0 ==> s[0] == '-')
              && (forall k :: 0 <= k < |digits| ==> '0' <= digits[k] <= '9')
              && digits != [] && (digits[0] != '0' || |digits| == 1) && Value(digits) == if i < 0 then -i else i
  {
    hide Digits;
    var n := if i < 0 then -i else i;
    DigitsSpell(n);
    assert (['-'] + Digits(n))[1..] == Digits(n);
  }

  lemma {:induction false} DigitsSpell(n: nat)
    ensures Value(Digits(n)) == n && (Digits(n)[0] != '0' || |Digits(n)| == 1)
  {
    if n >= 10 {
      DigitsSpell(n / 10);
      assert Digits(n)[..|Digits(n)| - 1] == Digits(n / 10);
    } else {
      assert Digits(n)[..0] == [];
    }
  }

  /** Characters of strings stand as they are but for quotes, backslashes and control characters,
      and those have the shortest escape there is. */
  lemma StringIsSpelled(c: Char, s: Text)
    ensures PrintString([]) == "\"\""
    ensures PrintString([c] + s)
         == "\"" + (if c as int >= 0x20 && c as int != 0x22 && c as int != 0x5C then [c] else EscapeFor(c)) + PrintString(s)[1..]
  {
    EscapeIsFor(c);
    hide EscapeChar, EscapeFor;
    assert ([c] + s)[1..] == s;
    assert PrintString(s)[1..] == Escape(s) + ['\"'];
  }

  lemma EscapeIsFor(c: Char)
    ensures EscapeChar(c) == if c as int >= 0x20 && c as int != 0x22 && c as int != 0x5C then [c] else EscapeFor(c)
  {
  }

  const LOWER := "0123456789abcdef"

  function EscapeFor(c: Char): string {
    match c as int
    case 0x22 => "\\\""
    case 0x5C => "\\\\"
    case 0x08 => "\\b"
    case 0x09 => "\\t"
    case 0x0A => "\\n"
    case 0x0C => "\\f"
    case 0x0D => "\\r"
    case n => "\\u00" + [LOWER[n / 16], LOWER[n % 16]]
  }
}
