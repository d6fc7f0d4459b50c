/** cJSON_Minify: what it leaves of a text, and that it turns the indented form into the compact one. */
module JsonMinify {
  import opened Json
  import opened Texts

  /** What is left of a text; the code runs past the terminator in strings and comments that never end. */
  datatype Minified = Left(text: Text) | RunsOff

  predicate IsBlank(c: char) { c == ' ' || c == '\t' || c == '\r' || c == '\n' }

  /** After a "//", the rest from the end of the line on. */
  function DropLine(p: Text): (r: Text)
    ensures |r| <= |p|
  {
    if p == [] || p[0] == '\n' then p else DropLine(p[1..])
  }

  datatype Found = At(j: nat) | Nowhere

  /** The position of the first "*" that a "/" follows. */
  function CommentEnd(p: Text): (r: Found)
    ensures r.At? ==> r.j + 2 <= |p|
  {
    if |p| < 2 then Nowhere
    else if p[0] == '*' && p[1] == '/' then At(0)
    else match CommentEnd(p[1..]) case Nowhere => Nowhere case At(j) => At(j + 1)
  }

  /** The length of a string literal behind its opening quote, with the closing one. */
  function LiteralLength(p: Text): (r: Found)
    ensures r.At? ==> 0 < r.j <= |p|
  {
    if p == [] then Nowhere
    else if p[0] == '\"' then At(1)
    else if p[0] != '\\' then (match LiteralLength(p[1..]) case Nowhere => Nowhere case At(j) => At(j + 1))
    else if |p| == 1 then Nowhere
    else match LiteralLength(p[2..]) case Nowhere => Nowhere case At(j) => At(j + 2)
  }

  function Keep(s: Text, m: Minified): Minified { match m case Left(t) => Left(s + t) case RunsOff => RunsOff }

  function Minify(p: Text): Minified
    decreases |p|
  {
    if p == [] then Left([])
    else if IsBlank(p[0]) then Minify(p[1..])
    else if p[0] == '/' && |p| > 1 && p[1] == '/' then SmallerLine(p); Minify(DropLine(p))
    else if p[0] == '/' && |p| > 1 && p[1] == '*' then
      match CommentEnd(p)
      case Nowhere => RunsOff
      case At(j) => Minify(p[j + 2..])
    else if p[0] == '\"' then
      match LiteralLength(p[1..])
      case Nowhere => RunsOff
      case At(j) => Keep(p[..1 + j], Minify(p[1 + j..]))
    else Keep([p[0]], Minify(p[1..]))
  }

  lemma SmallerLine(p: Text)
    requires p != [] && p[0] != '\n'
    ensures |DropLine(p)| < |p|
  {
  }

  // ---- Indented to compact ----

  /** Characters that are copied one by one. */
  predicate Solid(c: char) { !IsBlank(c) && c != '/' && c != '\"' }

  lemma {:induction false} SolidIsKept(s: Text, rest: Text)
    requires forall k :: 0 <= k < |s| ==> Solid(s[k])
    ensures Minify(s + rest) == Keep(s, Minify(rest))
    decreases |s|
  {
    if s == [] {
      assert s + rest == rest;
      KeepNothing(Minify(rest));
    } else {
      assert (s + rest)[1..] == s[1..] + rest;
      SolidIsKept(s[1..], rest);
      KeepTwice([s[0]], s[1..], Minify(rest));
      assert [s[0]] + s[1..] == s;
    }
  }

  lemma KeepNothing(m: Minified)
    ensures Keep([], m) == m
  {
    if m.Left? {
      assert [] + m.text == m.text;
    }
  }

  lemma KeepTwice(a: Text, b: Text, m: Minified)
    ensures Keep(a, Keep(b, m)) == Keep(a + b, m)
  {
    if m.Left? {
      assert a + (b + m.text) == a + b + m.text;
    }
  }

  lemma {:induction false} BlankIsDropped(s: Text, rest: Text)
    requires forall k :: 0 <= k < |s| ==> IsBlank(s[k])
    ensures Minify(s + rest) == Minify(rest)
    decreases |s|
  {
    if s == [] {
      assert s + rest == rest;
    } else {
      assert (s + rest)[1..] == s[1..] + rest;
      BlankIsDropped(s[1..], rest);
    }
  }

  lemma LiteralOfEscape(c: Char, q: Text)
    ensures LiteralLength(EscapeChar(c) + q)
         == match LiteralLength(q) case Nowhere => Nowhere case At(j) => At(|EscapeChar(c)| + j)
  {
    var e := EscapeChar(c);
    if |e| == 1 {
      assert (e + q)[1..] == q;
    } else if |e| == 2 {
      assert (e + q)[2..] == q;
    } else {
      LiteralOfControl(e[2], e[3], e[4], e[5], q);
      assert e == ['\\', 'u'] + [e[2], e[3], e[4], e[5]];
    }
  }

  lemma LiteralOfControl(a: Char, b: Char, c: Char, d: Char, q: Text)
    requires forall x :: x in [a, b, c, d] ==> x != '\"' && x != '\\'
    ensures LiteralLength(['\\', 'u', a, b, c, d] + q)
         == match LiteralLength(q) case Nowhere => Nowhere case At(j) => At(6 + j)
  {
    var p := ['\\', 'u', a, b, c, d] + q;
    assert a in [a, b, c, d] && b in [a, b, c, d] && c in [a, b, c, d] && d in [a, b, c, d];
    LiteralStep(d, q);
    LiteralStep(c, [d] + q);
    LiteralStep(b, [c] + ([d] + q));
    LiteralStep(a, [b] + ([c] + ([d] + q)));
    assert p[2..] == [a] + ([b] + ([c] + ([d] + q)));
    assert p[0] == '\\';
  }

  lemma LiteralStep(c: Char, q: Text)
    requires c != '\"' && c != '\\'
    ensures LiteralLength([c] + q) == match LiteralLength(q) case Nowhere => Nowhere case At(j) => At(1 + j)
  {
    assert ([c] + q)[1..] == q;
  }

  lemma {:induction false} LiteralOfString(s: Text, rest: Text)
    ensures LiteralLength(Escape(s) + (['\"'] + rest)) == At(|Escape(s)| + 1)
    decreases |s|
  {
    var tail: Text := ['\"'] + rest;
    if s == [] {
      assert Escape(s) + tail == tail;
    } else {
      var q := Escape(s[1..]) + tail;
      assert Escape(s) + tail == EscapeChar(s[0]) + q;
      LiteralOfEscape(s[0], q);
      LiteralOfString(s[1..], rest);
    }
  }

  /** String literals are kept as they are, whatever is inside. */
  lemma StringIsKept(s: Text, rest: Text)
    ensures Minify(PrintString(s) + rest) == Keep(PrintString(s), Minify(rest))
  {
    hide Escape, EscapeChar;
    var p := PrintString(s) + rest;
    LiteralOfString(s, rest);
    assert p[1..] == Escape(s) + (['\"'] + rest);
    var n := |Escape(s)| + 2;
    assert p[..n] == PrintString(s) && p[n..] == rest;
  }

  lemma {:induction false} DigitsAreSolid(n: nat)
    ensures forall k :: 0 <= k < |Digits(n)| ==> Solid(Digits(n)[k])
  {
    if n >= 10 {
      DigitsAreSolid(n / 10);
    }
  }

  lemma NumberIsSolid(i: int, d: int)
    ensures forall k :: 0 <= k < |PrintNumber(i, d)| ==> Solid(PrintNumber(i, d)[k])
  {
    if d != 0 {
      DigitsAreSolid(if i < 0 then -i else i);
    }
  }

  lemma IfBlankDropped(fmt: bool, s: Text, rest: Text)
    requires forall k :: 0 <= k < |s| ==> IsBlank(s[k])
    ensures Minify(If(fmt, s) + rest) == Minify(rest)
  {
    BlankIsDropped(If(fmt, s), rest);
  }

  lemma IfTabsDropped(fmt: bool, n: int, rest: Text)
    ensures Minify(If(fmt, Tabs(n)) + rest) == Minify(rest)
  {
    TabsAreTabs(n);
    IfBlankDropped(fmt, Tabs(n), rest);
  }

  /** Minifying a printed value, indented or not, leaves its compact form. */
  lemma {:induction false} ValueMinifies(t: Tree, depth: nat, fmt: bool, rest: Text)
    ensures Minify(Print(t, depth, fmt) + rest) == Keep(Print(t, depth, false), Minify(rest))
    decreases t, 0
  {
    hide Minify;
    match t
    case Null => SolidIsKept("null", rest);
    case False => SolidIsKept("false", rest);
    case True => SolidIsKept("true", rest);
    case Number(i, d) =>
      NumberIsSolid(i, d);
      SolidIsKept(PrintNumber(i, d), rest);
    case String(s) => StringIsKept(s, rest);
    case Array(items) => ArrayMinifies(items, depth, fmt, rest);
    case Object(members) => ObjectMinifies(members, depth, fmt, rest);
  }

  lemma ArrayText(items: seq<Tree>, depth: nat, fmt: bool)
    ensures Print(Array(items), depth, fmt) == ['['] + PrintItems(items, depth + 1, fmt) + [']']
  {
    hide PrintItems;
  }

  lemma {:induction false} ArrayMinifies(items: seq<Tree>, depth: nat, fmt: bool, rest: Text)
    ensures Minify(Print(Array(items), depth, fmt) + rest) == Keep(Print(Array(items), depth, false), Minify(rest))
    decreases items, 2
  {
    hide *;
    PunctuationIsSolid();
    var open, close: Text := ['['], [']'];
    var body, compact := PrintItems(items, depth + 1, fmt), PrintItems(items, depth + 1, false);
    ArrayText(items, depth, fmt);
    ArrayText(items, depth, false);
    Joins(open + body, close, rest);
    Joins(open, body, close + rest);
    SolidIsKept(open, body + (close + rest));
    ItemsMinify(items, depth + 1, fmt, close + rest);
    SolidIsKept(close, rest);
    KeepTwice(compact, close, Minify(rest));
    KeepTwice(open, compact + close, Minify(rest));
    Joins(open, compact, close);
  }

  lemma {:induction false} ItemsMinify(items: seq<Tree>, depth: nat, fmt: bool, rest: Text)
    ensures Minify(PrintItems(items, depth, fmt) + rest) == Keep(PrintItems(items, depth, false), Minify(rest))
    decreases items, 1
  {
    hide Minify, Print;
    if items == [] {
      assert PrintItems(items, depth, fmt) + rest == rest;
      KeepNothing(Minify(rest));
    } else if |items| == 1 {
      ValueMinifies(items[0], depth, fmt, rest);
    } else {
      var comma: Text := [','];
      var first, gap, more := Print(items[0], depth, fmt), If(fmt, [' ']), PrintItems(items[1..], depth, fmt);
      var first', more' := Print(items[0], depth, false), PrintItems(items[1..], depth, false);
      assert PrintItems(items, depth, false) == first' + comma + [] + more';
      assert first' + comma + [] == first' + comma;
      Joins(first + comma + gap, more, rest);
      Joins(first + comma, gap, more + rest);
      Joins(first, comma, gap + (more + rest));
      ValueMinifies(items[0], depth, fmt, comma + (gap + (more + rest)));
      SolidIsKept(comma, gap + (more + rest));
      IfBlankDropped(fmt, [' '], more + rest);
      ItemsMinify(items[1..], depth, fmt, rest);
      KeepTwice(comma, more', Minify(rest));
      KeepTwice(first', comma + more', Minify(rest));
      Joins(first', comma, more');
    }
  }

  lemma MemberText(m: Member, last: bool, depth: nat, fmt: bool)
    ensures PrintMember(m, last, depth, fmt)
         == If(fmt, Tabs(depth)) + PrintString(m.name) + [':'] + If(fmt, ['\t']) + Print(m.value, depth, fmt) + If(!last, [',']) + If(fmt, ['\n'])
    ensures PrintMember(m, last, depth, false) == PrintString(m.name) + [':'] + Print(m.value, depth, false) + If(!last, [','])
  {
    hide Tabs, Print, PrintString;
    var b, colon: Text, e, f := PrintString(m.name), [':'], Print(m.value, depth, false), If(!last, [',']);
    assert [] + b == b && b + colon + [] == b + colon && b + colon + e + f + [] == b + colon + e + f;
  }

  lemma PunctuationIsSolid()
    ensures Solid('[') && Solid(']') && Solid(':')
  {
  }

  lemma CommaSolid(last: bool)
    ensures var f := If(!last, [',']); forall k :: 0 <= k < |f| ==> Solid(f[k])
  {
  }

  lemma {:induction false} MemberMinifies(m: Member, last: bool, depth: nat, fmt: bool, rest: Text)
    ensures Minify(PrintMember(m, last, depth, fmt) + rest) == Keep(PrintMember(m, last, depth, false), Minify(rest))
    decreases m, 3
  {
    var colon: Text := [':'];
    var a, b, d := If(fmt, Tabs(depth)), PrintString(m.name), If(fmt, ['\t']);
    var e, e', f, g := Print(m.value, depth, fmt), Print(m.value, depth, false), If(!last, [',']), If(fmt, ['\n']);
    hide *;
    PunctuationIsSolid();
    MemberText(m, last, depth, fmt);
    CommaSolid(last);
    IfTabsDropped(fmt, depth, b + (colon + (d + (e + (f + (g + rest))))));
    IfBlankDropped(fmt, ['\t'], e + (f + (g + rest)));
    IfBlankDropped(fmt, ['\n'], rest);
    Joins(a + b + colon + d + e + f, g, rest);
    Joins(a + b + colon + d + e, f, g + rest);
    Joins(a + b + colon + d, e, f + (g + rest));
    Joins(a + b + colon, d, e + (f + (g + rest)));
    Joins(a + b, colon, d + (e + (f + (g + rest))));
    Joins(a, b, colon + (d + (e + (f + (g + rest)))));
    StringIsKept(m.name, colon + (d + (e + (f + (g + rest)))));
    SolidIsKept(colon, d + (e + (f + (g + rest))));
    ValueMinifies(m.value, depth, fmt, f + (g + rest));
    SolidIsKept(f, g + rest);
    var left := Minify(rest);
    KeepTwice(e', f, left);
    KeepTwice(colon, e' + f, left);
    KeepTwice(b, colon + (e' + f), left);
    Joins(b + colon, e', f);
    Joins(b, colon, e' + f);
  }

  lemma {:induction false} MembersMinify(members: seq<Member>, depth: nat, fmt: bool, rest: Text)
    ensures Minify(PrintMembers(members, depth, fmt) + rest) == Keep(PrintMembers(members, depth, false), Minify(rest))
    decreases members, 4
  {
    hide Minify, PrintMember;
    if members == [] {
      assert PrintMembers(members, depth, fmt) + rest == rest;
      KeepNothing(Minify(rest));
    } else {
      var last := |members| == 1;
      var first, more := PrintMember(members[0], last, depth, fmt), PrintMembers(members[1..], depth, fmt);
      Joins(first, more, rest);
      MemberMinifies(members[0], last, depth, fmt, more + rest);
      MembersMinify(members[1..], depth, fmt, rest);
      KeepTwice(PrintMember(members[0], last, depth, false), PrintMembers(members[1..], depth, false), Minify(rest));
    }
  }

  lemma {:induction false} ObjectMinifies(members: seq<Member>, depth: nat, fmt: bool, rest: Text)
    ensures Minify(Print(Object(members), depth, fmt) + rest) == Keep(Print(Object(members), depth, false), Minify(rest))
    decreases members, 5
  {
    if members == [] {
      EmptyObjectMinifies(depth, fmt, rest);
    } else {
      var open, close: Text := ['{'], ['}'];
      var nl, tabs := If(fmt, ['\n']), If(fmt, Tabs(depth));
      var body, compact := PrintMembers(members, depth + 1, fmt), PrintMembers(members, depth + 1, false);
      PrintedObject(members, depth, fmt);
      CompactObject(members, depth);
      IfBlankDropped(fmt, ['\n'], body + (tabs + (close + rest)));
      IfTabsDropped(fmt, depth, close + rest);
      MembersMinify(members, depth + 1, fmt, tabs + (close + rest));
      hide *;
      BracesAround(open, nl, body, tabs, close, compact, rest);
    }
  }

  lemma BracesAround(open: Text, nl: Text, body: Text, tabs: Text, close: Text, compact: Text, rest: Text)
    requires open == ['{'] && close == ['}']
    requires Minify(nl + (body + (tabs + (close + rest)))) == Minify(body + (tabs + (close + rest)))
    requires Minify(body + (tabs + (close + rest))) == Keep(compact, Minify(tabs + (close + rest)))
    requires Minify(tabs + (close + rest)) == Minify(close + rest)
    ensures Minify(open + nl + body + tabs + close + rest) == Keep(open + compact + close, Minify(rest))
  {
    hide *;
    Joins(open + nl + body + tabs, close, rest);
    Joins(open + nl + body, tabs, close + rest);
    Joins(open + nl, body, tabs + (close + rest));
    Joins(open, nl, body + (tabs + (close + rest)));
    BraceIsKept('{', nl + (body + (tabs + (close + rest))));
    BraceIsKept('}', rest);
    var left := Minify(rest);
    KeepTwice(compact, close, left);
    KeepTwice(open, compact + close, left);
    Joins(open, compact, close);
  }

  lemma BraceIsKept(c: Char, rest: Text)
    requires c == '{' || c == '}'
    ensures Minify([c] + rest) == Keep([c], Minify(rest))
  {
    SolidIsKept([c], rest);
  }

  lemma CompactObject(members: seq<Member>, depth: nat)
    requires members != []
    ensures Print(Object(members), depth, false) == ['{'] + PrintMembers(members, depth + 1, false) + ['}']
  {
    hide PrintMembers;
    Nothing(['{']);
    Nothing(['{'] + PrintMembers(members, depth + 1, false));
  }

  lemma EmptyObjectMinifies(depth: nat, fmt: bool, rest: Text)
    ensures Minify(Print(Object([]), depth, fmt) + rest) == Keep(Print(Object([]), depth, false), Minify(rest))
  {
    var open, close: Text := ['{'], ['}'];
    var ws := If(fmt, ['\n'] + Tabs(depth - 1));
    TabsAreTabs(depth - 1);
    assert Print(Object([]), depth, fmt) == open + ws + close;
    assert Print(Object([]), depth, false) == open + [] + close;
    assert open + [] == open;
    IfBlankDropped(fmt, ['\n'] + Tabs(depth - 1), close + rest);
    hide *;
    Joins(open + ws, close, rest);
    Joins(open, ws, close + rest);
    BraceIsKept('{', ws + (close + rest));
    BraceIsKept('}', rest);
    KeepTwice(open, close, Minify(rest));
  }

  /** The pretty form minifies to the compact form. */
  lemma MinifiedPrint(t: Tree, fmt: bool)
    ensures Minify(Print(t, 0, fmt)) == Left(Print(t, 0, false))
  {
    hide Print;
    var p := Print(t, 0, fmt);
    assert p + [] == p;
    ValueMinifies(t, 0, fmt, []);
    assert Print(t, 0, false) + [] == Print(t, 0, false);
  }

  // ---- In place ----

  /** From position `from` on, the array still holds the text and its terminator. */
  predicate Holds(json: array<char>, n: nat, text: Text, from: nat)
    reads json
  {
    && n < json.Length && |text| == n && json[n] == '\0'
    && forall k :: from <= k < n ==> json[k] == text[k]
  }

  /** cJSON_Minify: what is left replaces the front of the text, with a terminator of its own. */
  method MinifyInPlace(json: array<char>, n: nat, ghost text: Text)
    requires n < json.Length && json[..n] == text && json[n] == '\0' && Minify(text).Left?
    modifies json
    ensures var r := Minify(text).text; |r| <= n && json[..|r|] == r && json[|r|] == '\0'
  {
    ghost var whole := Minify(text).text;
    var from, into := 0, 0;
    ghost var kept: Text := [];
    assert text[0..] == text;
    assert forall k :: 0 <= k < n ==> json[..n][k] == json[k];
    KeepNothing(Minify(text));
    hide Minify, Keep;
    while json[from] != '\0'
      invariant into <= from <= n && Holds(json, n, text, from)
      invariant |kept| == into && json[..into] == kept
      invariant Minify(text[from..]).Left? && Keep(kept, Minify(text[from..])) == Left(whole)
      decreases n - from
    {
      from, into, kept := MinifyStep(json, n, text, from, into, kept);
    }
    NothingLeft(text[from..], kept);
    json[into] := '\0';
  }

  lemma NothingLeft(p: Text, kept: Text)
    requires p == []
    ensures Keep(kept, Minify(p)) == Left(kept)
  {
    assert kept + [] == kept;
  }

  /** One turn of the loop of cJSON_Minify. */
  method MinifyStep(json: array<char>, n: nat, ghost text: Text, from0: nat, into0: nat, ghost kept: Text)
    returns (from: nat, into: nat, ghost kept': Text)
    requires Holds(json, n, text, from0) && into0 <= from0 < n
    requires |kept| == into0 && json[..into0] == kept && Minify(text[from0..]).Left?
    modifies json
    ensures into <= from <= n && from0 < from && Holds(json, n, text, from)
    ensures |kept'| == into && json[..into] == kept'
    ensures Minify(text[from..]).Left? && Keep(kept, Minify(text[from0..])) == Keep(kept', Minify(text[from..]))
  {
    hide LiteralLength, CommentEnd, DropLine, Minify, Keep;
    var c := json[from0];
    ghost var p := text[from0..];
    assert c == p[0] && (from0 + 1 < n ==> json[from0 + 1] == p[1]);
    MinifyTurn(p);
    from, into, kept' := from0, into0, kept;
    if c == ' ' || c == '\t' || c == '\r' || c == '\n' {
      from := from + 1;
      assert p[1..] == text[from..];
    } else if c == '/' && json[from0 + 1] == '/' {
      from := SkipLine(json, n, text, from0);
    } else if c == '/' && json[from0 + 1] == '*' {
      from := SkipComment(json, n, text, from0);
    } else if c == '\"' {
      assert p[1..] == text[from0 + 1..];
      from, into := CopyLiteral(json, n, text, from0, into0);
      kept' := kept + text[from0..from];
      assert p[..from - from0] == text[from0..from] && p[from - from0..] == text[from..];
      KeepTwice(kept, text[from0..from], Minify(text[from..]));
    } else {
      from, into := CopyChar(json, n, text, from0, into0);
      kept' := kept + [c];
      assert p[1..] == text[from..];
      KeepTwice(kept, [c], Minify(text[from..]));
    }
  }

  /** What one turn has to do. */
  lemma MinifyTurn(p: Text)
    requires p != [] && Minify(p).Left?
    ensures if IsBlank(p[0]) then Minify(p) == Minify(p[1..])
            else if p[0] == '/' && |p| > 1 && p[1] == '/' then Minify(p) == Minify(DropLine(p)) && |DropLine(p)| < |p|
            else if p[0] == '/' && |p| > 1 && p[1] == '*' then CommentEnd(p).At? && Minify(p) == Minify(p[CommentEnd(p).j + 2..])
            else if p[0] == '\"' then
              var l := LiteralLength(p[1..]);
              l.At? && Minify(p[1 + l.j..]).Left? && Minify(p) == Keep(p[..1 + l.j], Minify(p[1 + l.j..]))
            else Minify(p[1..]).Left? && Minify(p) == Keep([p[0]], Minify(p[1..]))
  {
    hide LiteralLength, CommentEnd, DropLine;
    if p[0] == '/' && |p| > 1 && p[1] == '/' {
      SmallerLine(p);
    }
  }

  /** To the end of the line, where its newline is left for the next turn. */
  method SkipLine(json: array<char>, n: nat, ghost text: Text, start: nat) returns (from: nat)
    requires Holds(json, n, text, start) && start < n && json[start] != '\n'
    ensures start < from <= n && text[from..] == DropLine(text[start..])
  {
    from := start;
    while json[from] != '\0' && json[from] != '\n'
      invariant start <= from <= n && DropLine(text[start..]) == DropLine(text[from..])
      decreases n - from
    {
      assert text[from..][1..] == text[from + 1..];
      from := from + 1;
    }
  }

  /** Behind the end of a comment. */
  method SkipComment(json: array<char>, n: nat, ghost text: Text, start: nat) returns (from: nat)
    requires Holds(json, n, text, start) && start < n && CommentEnd(text[start..]).At?
    ensures start < from <= n && from == start + CommentEnd(text[start..]).j + 2
    ensures text[from..] == text[start..][CommentEnd(text[start..]).j + 2..]
  {
    from := start;
    ghost var j := CommentEnd(text[start..]).j;
    while json[from] != '\0' && !(json[from] == '*' && json[from + 1] == '/')
      invariant start <= from && from + 2 <= n && from <= start + j
      invariant CommentEnd(text[from..]) == At(start + j - from)
      decreases n - from
    {
      CommentGoesOn(text[from..]);
      assert text[from..][1..] == text[from + 1..];
      from := from + 1;
    }
    from := from + 2;
  }

  lemma CommentGoesOn(p: Text)
    requires CommentEnd(p).At? && !(p[0] == '*' && p[1] == '/')
    ensures CommentEnd(p[1..]) == At(CommentEnd(p).j - 1)
  {
  }

  /** A string literal, moved down with both of its quotes. */
  method CopyLiteral(json: array<char>, n: nat, ghost text: Text, start: nat, into0: nat) returns (from: nat, into: nat)
    requires Holds(json, n, text, start) && into0 <= start < n
    requires text[start] == '\"' && LiteralLength(text[start + 1..]).At?
    modifies json
    ensures from == start + 1 + LiteralLength(text[start + 1..]).j && from <= n && Holds(json, n, text, from)
    ensures into == into0 + (from - start)
    ensures json[..into] == old(json[..into0]) + text[start..from]
  {
    hide LiteralLength;
    ghost var front := json[..into0];
    from, into := CopyChar(json, n, text, start, into0);
    from, into := CopyInside(json, n, text, from, into);
    ClosingQuote(text[from..]);
    ghost var last := from;
    from, into := CopyChar(json, n, text, from, into);
    WholeLiteral(front, text, start, last);
  }

  lemma WholeLiteral(front: seq<char>, text: Text, start: nat, last: nat)
    requires start < last < |text|
    ensures front + [text[start]] + text[start + 1..last] + [text[last]] == front + text[start..last + 1]
  {
    Longer(text, start, start + 1, last);
    Longer(text, start, last, last + 1);
    Joins(front, [text[start]], text[start + 1..last]);
    Joins(front, text[start..last], [text[last]]);
  }

  /** The loop over the inside of a literal, up to its closing quote. */
  method CopyInside(json: array<char>, n: nat, ghost text: Text, from0: nat, into0: nat) returns (from: nat, into: nat)
    requires Holds(json, n, text, from0) && into0 <= from0 < n && LiteralLength(text[from0..]).At?
    modifies json
    ensures from0 <= from < n && into == into0 + (from - from0) && Holds(json, n, text, from) && text[from] == '\"'
    ensures from < from0 + LiteralLength(text[from0..]).j
    ensures LiteralLength(text[from..]) == At(from0 + LiteralLength(text[from0..]).j - from)
    ensures json[..into] == old(json[..into0]) + text[from0..from]
  {
    from, into := from0, into0;
    ghost var j := LiteralLength(text[from0..]).j;
    ghost var front := json[..into0];
    hide LiteralLength;
    while json[from] != '\0' && json[from] != '\"'
      invariant from0 <= from < n && into == into0 + (from - from0) && from < from0 + j
      invariant LiteralLength(text[from..]) == At(from0 + j - from)
      invariant json[..into] == front + text[from0..from]
      invariant Holds(json, n, text, from)
      decreases n - from
    {
      ghost var from' := from;
      from, into := CopyUnit(json, n, text, from, into);
      Longer(text, from0, from', from);
      Joins(front, text[from0..from'], text[from'..from]);
    }
  }

  lemma Longer(text: Text, a: nat, b: nat, c: nat)
    requires a <= b <= c <= |text|
    ensures text[a..b] + text[b..c] == text[a..c]
    ensures c == b + 1 ==> text[b..c] == [text[b]]
  {
  }

  lemma ClosingQuote(p: Text)
    requires LiteralLength(p).At? && p[0] == '\"'
    ensures LiteralLength(p).j == 1
  {
  }

  /** A character of a literal, with the one behind it if it is a backslash. */
  method CopyUnit(json: array<char>, n: nat, ghost text: Text, from0: nat, into0: nat) returns (from: nat, into: nat)
    requires Holds(json, n, text, from0) && into0 <= from0 < n
    requires LiteralLength(text[from0..]).At? && text[from0] != '\"'
    modifies json
    ensures from0 < from < n && into == into0 + (from - from0) && from < from0 + LiteralLength(text[from0..]).j
    ensures LiteralLength(text[from..]) == At(from0 + LiteralLength(text[from0..]).j - from)
    ensures json[..into] == old(json[..into0]) + text[from0..from] && Holds(json, n, text, from)
  {
    ghost var p := text[from0..];
    assert p[1..] == text[from0 + 1..];
    from, into := from0, into0;
    if json[from] == '\\' {
      assert p[2..] == text[from0 + 2..];
      from, into := CopyChar(json, n, text, from, into);
    }
    from, into := CopyChar(json, n, text, from, into);
  }

  /** *into++ = *json++. */
  method CopyChar(json: array<char>, n: nat, ghost text: Text, from0: nat, into0: nat) returns (from: nat, into: nat)
    requires Holds(json, n, text, from0) && into0 <= from0 < n
    modifies json
    ensures from == from0 + 1 && into == into0 + 1 && Holds(json, n, text, from) && |text| == n
    ensures json[..into] == old(json[..into0]) + [text[from0]]
  {
    json[into0] := json[from0];
    from, into := from0 + 1, into0 + 1;
  }
}
