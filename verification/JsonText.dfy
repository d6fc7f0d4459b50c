/** Pieces that both printers share: C strings in arrays, and lists printed entry by entry. */
module JsonText {
  import opened Json
  import opened Texts

  /** The array starts with this text and a terminator. */
  predicate HoldsText(a: array<char>, s: Text)
    reads a
  {
    |s| < a.Length && a[..|s|] == s && a[|s|] == '\0'
  }

  /** strlen. */
  method StrLen(a: array<char>, start: nat, ghost s: Text) returns (n: nat)
    requires start + |s| < a.Length && a[start..start + |s|] == s && a[start + |s|] == '\0'
    ensures n == |s|
  {
    n := 0;
    while a[start + n] != '\0'
      invariant n <= |s|
      decreases |s| - n
    {
      assert n < |s| ==> a[start + n] == a[start..start + |s|][n];
      n := n + 1;
    }
  }

  /** strlen of a whole array. */
  method TextLen(a: array<char>, ghost s: Text) returns (n: nat)
    requires HoldsText(a, s)
    ensures n == |s| && n < a.Length && a[..n] == s
  {
    n := StrLen(a, 0, s);
  }

  /** *ptr = 0 */
  method Terminate(a: array<char>, at: nat, ghost s: Text)
    requires at == |s| < a.Length && a[..at] == s
    modifies a
    ensures HoldsText(a, s)
  {
    a[at] := '\0';
  }

  /** Characters stored through a moving pointer, or a block copied there. */
  method Put(a: array<char>, at: nat, s: seq<char>) returns (end: nat)
    requires at + |s| <= a.Length
    modifies a
    ensures end == at + |s| && a[..end] == old(a[..at]) + s
  {
    var i := 0;
    while i < |s|
      invariant i <= |s| && a[..at + i] == old(a[..at]) + s[..i]
    {
      a[at + i] := s[i];
      assert a[..at + i + 1] == a[..at + i] + [s[i]];
      assert s[..i + 1] == s[..i] + [s[i]];
      i := i + 1;
    }
    assert s[..i] == s;
    end := at + |s|;
  }

  /** A text and its terminator. */
  method PutText(a: array<char>, at: nat, s: Text)
    requires at + |s| < a.Length
    modifies a
    ensures a[..at + |s|] == old(a[..at]) + s && a[at + |s|] == '\0'
  {
    var end := Put(a, at, s);
    a[end] := '\0';
  }

  // ---- Numbers ----

  lemma {:induction false} DigitsLength(n: nat, k: nat)
    requires n < Power10(k) && k > 0
    ensures |Digits(n)| <= k
    decreases k
  {
    if n >= 10 {
      DigitsLength(n / 10, k - 1);
    }
  }

  function Power10(k: nat): nat { if k == 0 then 1 else 10 * Power10(k - 1) }

  /** Twenty-one characters hold any printed int and its terminator. */
  lemma NumberLength(i: int, d: int)
    requires PrintableNumber(i, d)
    ensures 1 <= |PrintNumber(i, d)| <= 11
  {
    assert Power10(5) == 100000;
    assert Power10(10) == 100000 * Power10(5);
    DigitsLength(if i < 0 then -i else i, 10);
  }

  // ---- Strings ----

  predicate NeedsEscape(s: Text) { exists k :: 0 <= k < |s| && !Plain(s[k]) }

  lemma {:induction false} EscapeOfPlain(s: Text)
    requires !NeedsEscape(s)
    ensures Escape(s) == s
    decreases |s|
  {
    if s != [] {
      assert Plain(s[0]);
      EscapeOfPlain(s[1..]);
    }
  }

  lemma {:induction false} EscapeSnoc(s: Text, n: nat)
    requires n < |s|
    ensures Escape(s[..n + 1]) == Escape(s[..n]) + EscapeChar(s[n])
    decreases n
  {
    if n == 0 {
      assert s[..1] == [s[0]] && s[..1][1..] == [];
    } else {
      assert s[..n + 1][1..] == s[1..][..n] && s[..n][1..] == s[1..][..n - 1];
      EscapeSnoc(s[1..], n - 1);
      assert s[..n + 1][0] == s[0] && s[..n][0] == s[0];
    }
  }

  /** The two counting loops of print_string_ptr. */
  method StringSize(s: Text) returns (flag: bool, len: nat)
    ensures flag == NeedsEscape(s) && len == |Escape(s)|
  {
    flag := false;
    var i := 0;
    while i < |s|
      invariant i <= |s| && flag == exists k :: 0 <= k < i && !Plain(s[k])
    {
      var c := s[i];
      flag := flag || c < ' ' || c == '\"' || c == '\\';
      i := i + 1;
    }
    if !flag {
      EscapeOfPlain(s);
      return flag, |s|;
    }
    len := 0;
    i := 0;
    while i < |s|
      invariant i <= |s| && len == |Escape(s[..i])|
    {
      EscapeSnoc(s, i);
      var c := s[i];
      len := len + 1;
      if c == '\"' || c == '\\' || c == BACKSPACE || c == FORM_FEED || c == '\n' || c == '\r' || c == '\t' {
        len := len + 1;
      } else if c < ' ' {
        len := len + 5;
      }
      i := i + 1;
    }
    assert s[..i] == s;
  }

  /** The writing half of print_string_ptr. */
  method WriteString(out: array<char>, at: nat, s: Text, flag: bool)
    requires flag == NeedsEscape(s) && at + |Escape(s)| + 3 <= out.Length
    modifies out
    ensures var end := at + |PrintString(s)|; out[..end] == old(out[..at]) + PrintString(s) && out[end] == '\0'
  {
    ghost var front := out[..at];
    var ptr := Put(out, at, ['\"']);
    if !flag {
      EscapeOfPlain(s);
      ptr := Put(out, ptr, s);
    } else {
      ptr := WriteEscaped(out, ptr, s);
    }
    ptr := Put(out, ptr, ['\"']);
    Joins(front, ['\"'], Escape(s));
    Joins(front, ['\"'] + Escape(s), ['\"']);
    out[ptr] := '\0';
  }

  /** Its second loop. */
  method WriteEscaped(out: array<char>, at: nat, s: Text) returns (ptr: nat)
    requires at + |Escape(s)| <= out.Length
    modifies out
    ensures ptr == at + |Escape(s)| && out[..ptr] == old(out[..at]) + Escape(s)
  {
    ghost var front := out[..at];
    ptr := at;
    var i := 0;
    while i < |s|
      invariant i <= |s| && ptr == at + |Escape(s[..i])| <= out.Length && out[..ptr] == front + Escape(s[..i])
    {
      EscapeSnoc(s, i);
      EscapeGrows(s, i + 1);
      var c := s[i];
      Joins(front, Escape(s[..i]), EscapeChar(c));
      ptr := WriteChar(out, ptr, c);
      i := i + 1;
    }
    assert s[..i] == s;
  }

  lemma {:induction false} EscapeGrows(s: Text, n: nat)
    requires n <= |s|
    ensures |Escape(s[..n])| <= |Escape(s)|
    decreases |s| - n
  {
    if n == |s| {
      assert s[..n] == s;
    } else {
      EscapeSnoc(s, n);
      EscapeGrows(s, n + 1);
    }
  }

  /** One character, escaped if need be. */
  method WriteChar(out: array<char>, at: nat, c: Char) returns (ptr: nat)
    requires at + |EscapeChar(c)| <= out.Length
    modifies out
    ensures ptr == at + |EscapeChar(c)| && out[..ptr] == old(out[..at]) + EscapeChar(c)
  {
    if c >= ' ' && c != '\"' && c != '\\' {
      ptr := Put(out, at, [c]);
    } else if c == '\\' {
      ptr := Put(out, at, "\\\\");
    } else if c == '\"' {
      ptr := Put(out, at, "\\\"");
    } else if c == BACKSPACE {
      ptr := Put(out, at, "\\b");
    } else if c == FORM_FEED {
      ptr := Put(out, at, "\\f");
    } else if c == '\n' {
      ptr := Put(out, at, "\\n");
    } else if c == '\r' {
      ptr := Put(out, at, "\\r");
    } else if c == '\t' {
      ptr := Put(out, at, "\\t");
    } else {
      ptr := Put(out, at, ['\\', 'u', '0', '0', HexDigit(c as int / 16), HexDigit(c as int % 16)]);
    }
  }

  /** for (i=0;i<n;i++) *ptr++='\t' */
  method PutTabs(a: array<char>, at: nat, n: int) returns (end: nat)
    requires at + |Tabs(n)| <= a.Length
    modifies a
    ensures end == at + |Tabs(n)| && a[..end] == old(a[..at]) + Tabs(n)
  {
    end := at;
    var i := 0;
    assert Tabs(0) == [];
    while i < n
      invariant 0 <= i && (n >= 0 ==> i <= n) && (n < 0 ==> i == 0)
      invariant end == at + i && |Tabs(i)| == i && a[..end] == old(a[..at]) + Tabs(i)
    {
      Joins(old(a[..at]), Tabs(i), ['\t']);
      end := Put(a, end, ['\t']);
      i := i + 1;
    }
  }

  // ---- Lists ----

  function Separator(last: bool, fmt: bool): Text { if last then [] else [','] + If(fmt, [' ']) }

  /** The first n values with what separates them from the next. */
  function Joined(items: seq<Tree>, n: nat, depth: nat, fmt: bool): Text
    requires n <= |items|
  {
    if n == 0 then []
    else Joined(items, n - 1, depth, fmt) + Print(items[n - 1], depth, fmt) + Separator(n == |items|, fmt)
  }

  lemma {:induction false} JoinedFront(items: seq<Tree>, n: nat, depth: nat, fmt: bool)
    requires n <= |items|
    ensures Joined(items, n, depth, fmt) + PrintItems(items[n..], depth, fmt) == PrintItems(items, depth, fmt)
    decreases n
  {
    hide Print;
    if n == 0 {
      assert items[0..] == items;
      assert [] + PrintItems(items, depth, fmt) == PrintItems(items, depth, fmt);
    } else {
      JoinedFront(items, n - 1, depth, fmt);
      var rest := items[n - 1..];
      assert rest[0] == items[n - 1] && rest[1..] == items[n..];
      var a, p, more := Joined(items, n - 1, depth, fmt), Print(items[n - 1], depth, fmt), PrintItems(items[n..], depth, fmt);
      var s := Separator(n == |items|, fmt);
      assert PrintItems(rest, depth, fmt) == p + s + more by {
        ItemsHead(rest, depth, fmt);
      }
      Joins(a + p, s, more);
      Joins(a, p, s + more);
      Joins(p, s, more);
    }
  }

  lemma ItemsHead(items: seq<Tree>, depth: nat, fmt: bool)
    requires items != []
    ensures PrintItems(items, depth, fmt)
         == Print(items[0], depth, fmt) + Separator(|items| == 1, fmt) + PrintItems(items[1..], depth, fmt)
  {
    hide Print;
    var p := Print(items[0], depth, fmt);
    if |items| == 1 {
      assert p + [] + [] == p;
    } else {
      Joins(p, [','], If(fmt, [' ']));
    }
  }

  lemma JoinedAll(items: seq<Tree>, depth: nat, fmt: bool)
    ensures Joined(items, |items|, depth, fmt) == PrintItems(items, depth, fmt)
  {
    JoinedFront(items, |items|, depth, fmt);
    assert Joined(items, |items|, depth, fmt) + [] == Joined(items, |items|, depth, fmt);
  }

  lemma {:induction false} JoinedGrows(items: seq<Tree>, n: nat, k: nat, depth: nat, fmt: bool)
    requires n <= k <= |items|
    ensures |Joined(items, n, depth, fmt)| <= |Joined(items, k, depth, fmt)|
    decreases k
  {
    hide Print;
    if n < k {
      JoinedGrows(items, n, k - 1, depth, fmt);
    }
  }

  /** The first n members of an object. */
  function Listed(members: seq<Member>, n: nat, depth: nat, fmt: bool): Text
    requires n <= |members|
  {
    if n == 0 then []
    else Listed(members, n - 1, depth, fmt) + PrintMember(members[n - 1], n == |members|, depth, fmt)
  }

  lemma {:induction false} ListedFront(members: seq<Member>, n: nat, depth: nat, fmt: bool)
    requires n <= |members|
    ensures Listed(members, n, depth, fmt) + PrintMembers(members[n..], depth, fmt) == PrintMembers(members, depth, fmt)
    decreases n
  {
    hide PrintMember;
    if n == 0 {
      assert members[0..] == members;
      assert [] + PrintMembers(members, depth, fmt) == PrintMembers(members, depth, fmt);
    } else {
      ListedFront(members, n - 1, depth, fmt);
      var rest := members[n - 1..];
      assert rest[0] == members[n - 1] && rest[1..] == members[n..];
      Joins(Listed(members, n - 1, depth, fmt), PrintMember(members[n - 1], n == |members|, depth, fmt), PrintMembers(members[n..], depth, fmt));
    }
  }

  lemma ListedAll(members: seq<Member>, depth: nat, fmt: bool)
    ensures Listed(members, |members|, depth, fmt) == PrintMembers(members, depth, fmt)
  {
    ListedFront(members, |members|, depth, fmt);
    assert Listed(members, |members|, depth, fmt) + [] == Listed(members, |members|, depth, fmt);
  }

  lemma {:induction false} ListedGrows(members: seq<Member>, n: nat, k: nat, depth: nat, fmt: bool)
    requires n <= k <= |members|
    ensures |Listed(members, n, depth, fmt)| <= |Listed(members, k, depth, fmt)|
    decreases k
  {
    hide PrintMember;
    if n < k {
      ListedGrows(members, n, k - 1, depth, fmt);
    }
  }
}
