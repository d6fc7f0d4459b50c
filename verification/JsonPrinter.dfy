/** The printer that allocates every piece at its exact place in a precomputed size. */
module JsonPrinter {
  import opened Json
  import opened JsonText
  import opened Texts

  method Allocate(size: nat, ghost s: Text, text: Text) returns (out: array<char>)
    requires s == text && |text| < size
    ensures fresh(out) && HoldsText(out, s)
  {
    out := new char[size];
    PutText(out, 0, text);
    assert out[..0] + s == s;
  }

  /** print_number. */
  method PrintNumberAlloc(i: int, d: int) returns (out: array<char>)
    requires PrintableNumber(i, d)
    ensures fresh(out) && HoldsText(out, PrintNumber(i, d))
  {
    NumberLength(i, d);
    if d == 0 {
      out := Allocate(2, PrintNumber(i, d), "0");
    } else {
      out := Allocate(21, PrintNumber(i, d), Decimal(i));
    }
  }

  /** print_string_ptr. */
  method PrintStringAlloc(s: Text) returns (out: array<char>)
    ensures fresh(out) && HoldsText(out, PrintString(s))
  {
    var flag, len := StringSize(s);
    out := new char[len + 3];
    WriteString(out, 0, s, flag);
    assert out[..0] + PrintString(s) == PrintString(s);
  }

  // ---- Precomputed lengths ----

  /** What print_array adds to len for the first n entries. */
  function ItemsSize(items: seq<Tree>, n: nat, depth: nat, fmt: bool): nat
    requires n <= |items|
  {
    if n == 0 then 0
    else ItemsSize(items, n - 1, depth, fmt) + |Print(items[n - 1], depth, fmt)| + 2 + (if fmt then 1 else 0)
  }

  lemma {:induction false} ItemsFit(items: seq<Tree>, n: nat, depth: nat, fmt: bool)
    requires n <= |items|
    ensures |Joined(items, n, depth, fmt)| <= ItemsSize(items, n, depth, fmt)
    decreases n
  {
    hide Print;
    if n > 0 {
      ItemsFit(items, n - 1, depth, fmt);
    }
  }

  /** What print_object adds to len for the first n members. */
  function MembersSize(members: seq<Member>, n: nat, depth: nat, fmt: bool): nat
    requires n <= |members|
  {
    if n == 0 then 0
    else MembersSize(members, n - 1, depth, fmt) + |Print(members[n - 1].value, depth, fmt)| + |PrintString(members[n - 1].name)|
         + 2 + (if fmt then 2 + depth else 0)
  }

  lemma {:induction false} MembersFit(members: seq<Member>, n: nat, depth: nat, fmt: bool)
    requires n <= |members|
    ensures |Listed(members, n, depth, fmt)| <= MembersSize(members, n, depth, fmt)
    decreases n
  {
    hide Print, PrintString, Tabs;
    if n > 0 {
      MembersFit(members, n - 1, depth, fmt);
      MemberLength(members[n - 1], n == |members|, depth, fmt);
    }
  }

  lemma MemberLength(m: Member, last: bool, depth: nat, fmt: bool)
    ensures |PrintMember(m, last, depth, fmt)|
         <= |Print(m.value, depth, fmt)| + |PrintString(m.name)| + 2 + (if fmt then 2 + depth else 0)
  {
    hide Print, PrintString, Tabs;
  }

  // ---- Values ----

  /** print_value without a buffer. */
  method PrintAlloc(t: Tree, depth: nat, fmt: bool) returns (out: array<char>)
    requires Printable(t)
    ensures fresh(out) && HoldsText(out, Print(t, depth, fmt))
    decreases t, 2
  {
    match t
    case Null => out := Allocate(5, Print(t, depth, fmt), "null");
    case False => out := Allocate(6, Print(t, depth, fmt), "false");
    case True => out := Allocate(5, Print(t, depth, fmt), "true");
    case Number(i, d) => out := PrintNumberAlloc(i, d);
    case String(s) => out := PrintStringAlloc(s);
    case Array(items) => out := PrintArrayAlloc(items, depth, fmt);
    case Object(members) => out := PrintObjectAlloc(members, depth, fmt);
  }

  /** The texts of all entries, each in an array of its own. */
  ghost predicate HoldsItems(entries: seq<array<char>>, items: seq<Tree>, depth: nat, fmt: bool)
    requires |entries| <= |items|
    reads entries
  {
    forall j :: 0 <= j < |entries| ==> HoldsText(entries[j], Print(items[j], depth, fmt))
  }

  /** The first loop of print_array: print every entry and add up the lengths. */
  method PrintEach(items: seq<Tree>, depth: nat, fmt: bool) returns (entries: seq<array<char>>, len: nat)
    requires forall k :: 0 <= k < |items| ==> Printable(items[k])
    ensures |entries| == |items| && (forall j :: 0 <= j < |entries| ==> fresh(entries[j])) && HoldsItems(entries, items, depth, fmt)
    ensures len == 5 + ItemsSize(items, |items|, depth, fmt)
    decreases items, 3
  {
    hide Print, HoldsText;
    entries, len := [], 5;
    while |entries| < |items|
      invariant |entries| <= |items| && forall j :: 0 <= j < |entries| ==> fresh(entries[j])
      invariant HoldsItems(entries, items, depth, fmt)
      invariant len == 5 + ItemsSize(items, |entries|, depth, fmt)
    {
      var i := |entries|;
      var ret := PrintAlloc(items[i], depth, fmt);
      var n := TextLen(ret, Print(items[i], depth, fmt));
      len := len + n + 2 + (if fmt then 1 else 0);
      entries := entries + [ret];
    }
  }

  /** print_array. */
  method PrintArrayAlloc(items: seq<Tree>, depth: nat, fmt: bool) returns (out: array<char>)
    requires forall k :: 0 <= k < |items| ==> Printable(items[k])
    ensures fresh(out) && HoldsText(out, Print(Array(items), depth, fmt))
    decreases items, 4
  {
    ArrayText(items, depth, fmt);
    if |items| == 0 {
      out := Allocate(3, Print(Array(items), depth, fmt), "[]");
      return;
    }
    hide Print, PrintItems, HoldsText, Joined, ItemsSize;
    var entries, len := PrintEach(items, depth + 1, fmt);
    ItemsFit(items, |items|, depth + 1, fmt);
    out := new char[len];
    ComposeArray(out, entries, items, depth, fmt);
  }

  /** The composing half of print_array. */
  method ComposeArray(out: array<char>, entries: seq<array<char>>, ghost items: seq<Tree>, ghost depth: nat, fmt: bool)
    requires |entries| == |items| && HoldsItems(entries, items, depth + 1, fmt) && forall j :: 0 <= j < |entries| ==> entries[j] != out
    requires |Joined(items, |items|, depth + 1, fmt)| + 2 < out.Length
    modifies out
    ensures HoldsText(out, Print(Array(items), depth, fmt))
  {
    ArrayText(items, depth, fmt);
    hide Print, Joined, HoldsText;
    var ptr := Put(out, 0, ['[']);
    ptr := CopyItems(out, ptr, entries, items, depth + 1, fmt);
    ptr := Put(out, ptr, [']']);
    Terminate(out, ptr, Print(Array(items), depth, fmt));
  }

  lemma ArrayText(items: seq<Tree>, depth: nat, fmt: bool)
    ensures Print(Array(items), depth, fmt) == ['['] + Joined(items, |items|, depth + 1, fmt) + [']']
    ensures items == [] ==> Print(Array(items), depth, fmt) == "[]"
  {
    JoinedAll(items, depth + 1, fmt);
  }

  /** Its second loop: copy the entries behind one another. */
  method CopyItems(out: array<char>, at: nat, entries: seq<array<char>>, ghost items: seq<Tree>, ghost depth: nat, fmt: bool) returns (ptr: nat)
    requires |entries| == |items| && HoldsItems(entries, items, depth, fmt) && forall j :: 0 <= j < |entries| ==> entries[j] != out
    requires at + |Joined(items, |items|, depth, fmt)| <= out.Length
    modifies out
    ensures ptr == at + |Joined(items, |items|, depth, fmt)| && out[..ptr] == old(out[..at]) + Joined(items, |items|, depth, fmt)
  {
    hide Print, HoldsText;
    ptr := at;
    var i := 0;
    while i < |entries|
      invariant i <= |items| && HoldsItems(entries, items, depth, fmt)
      invariant ptr == at + |Joined(items, i, depth, fmt)| <= out.Length
      invariant out[..ptr] == old(out[..at]) + Joined(items, i, depth, fmt)
    {
      JoinedGrows(items, i + 1, |items|, depth, fmt);
      ptr := CopyEntry(out, ptr, entries[i], Print(items[i], depth, fmt), i == |entries| - 1, fmt);
      Joins(old(out[..at]), Joined(items, i, depth, fmt), Print(items[i], depth, fmt));
      Joins(old(out[..at]), Joined(items, i, depth, fmt) + Print(items[i], depth, fmt), Separator(i + 1 == |items|, fmt));
      i := i + 1;
    }
  }

  method CopyEntry(out: array<char>, at: nat, entry: array<char>, ghost s: Text, last: bool, fmt: bool) returns (ptr: nat)
    requires entry != out && HoldsText(entry, s) && at + |s| + |Separator(last, fmt)| <= out.Length
    modifies out
    ensures ptr == at + |s| + |Separator(last, fmt)|
    ensures out[..ptr] == old(out[..at]) + s + Separator(last, fmt)
  {
    var n := TextLen(entry, s);
    ptr := Put(out, at, entry[..n]);
    if !last {
      ptr := Put(out, ptr, [',']);
      if fmt {
        ptr := Put(out, ptr, [' ']);
      }
    }
  }

  // ---- Objects ----

  ghost predicate HoldsMembers(names: seq<array<char>>, entries: seq<array<char>>, members: seq<Member>, depth: nat, fmt: bool)
    requires |names| == |entries| <= |members|
    reads names, entries
  {
    forall j :: 0 <= j < |entries| ==> HoldsText(names[j], PrintString(members[j].name)) && HoldsText(entries[j], Print(members[j].value, depth, fmt))
  }

  /** The first loop of print_object. */
  method PrintEachMember(members: seq<Member>, depth: nat, fmt: bool, len0: nat)
    returns (names: seq<array<char>>, entries: seq<array<char>>, len: nat)
    requires forall k :: 0 <= k < |members| ==> PrintableMember(members[k])
    ensures |names| == |members| && |entries| == |members| && HoldsMembers(names, entries, members, depth, fmt)
    ensures forall j :: 0 <= j < |entries| ==> fresh(names[j]) && fresh(entries[j])
    ensures len == len0 + MembersSize(members, |members|, depth, fmt)
    decreases members, 3
  {
    hide Print, PrintString, HoldsText;
    names, entries, len := [], [], len0;
    while |entries| < |members|
      invariant |names| == |entries| <= |members| && forall j :: 0 <= j < |entries| ==> fresh(names[j]) && fresh(entries[j])
      invariant HoldsMembers(names, entries, members, depth, fmt)
      invariant len == len0 + MembersSize(members, |entries|, depth, fmt)
    {
      var str, ret, size := PrintOne(members[|entries|], depth, fmt);
      len := len + size;
      names, entries := names + [str], entries + [ret];
    }
  }

  /** Its body: a name, a value, and what they add to the length. */
  method PrintOne(m: Member, depth: nat, fmt: bool) returns (str: array<char>, ret: array<char>, size: nat)
    requires PrintableMember(m)
    ensures fresh(str) && fresh(ret) && HoldsText(str, PrintString(m.name)) && HoldsText(ret, Print(m.value, depth, fmt))
    ensures size == |Print(m.value, depth, fmt)| + |PrintString(m.name)| + 2 + (if fmt then 2 + depth else 0)
    decreases m, 3
  {
    hide Print, PrintString, HoldsText;
    str := PrintStringAlloc(m.name);
    ret := PrintAlloc(m.value, depth, fmt);
    var r := TextLen(ret, Print(m.value, depth, fmt));
    var n := TextLen(str, PrintString(m.name));
    size := r + n + 2 + (if fmt then 2 + depth else 0);
  }

  /** print_object. */
  method PrintObjectAlloc(members: seq<Member>, depth: nat, fmt: bool) returns (out: array<char>)
    requires forall k :: 0 <= k < |members| ==> PrintableMember(members[k])
    ensures fresh(out) && HoldsText(out, Print(Object(members), depth, fmt))
    decreases members, 5
  {
    if |members| == 0 {
      out := PrintEmptyObject(depth, fmt);
      return;
    }
    hide Print, PrintMembers;
    var names, entries, len := PrintEachMember(members, depth + 1, fmt, 7 + (if fmt then depth + 1 else 0));
    ObjectFits(members, depth, fmt);
    out := new char[len];
    ComposeObject(out, names, entries, members, depth, fmt);
  }

  /** The length computed for an object is enough for its text and terminator. */
  lemma ObjectFits(members: seq<Member>, depth: nat, fmt: bool)
    requires members != []
    ensures |Print(Object(members), depth, fmt)|
          < 7 + (if fmt then depth + 1 else 0) + MembersSize(members, |members|, depth + 1, fmt)
  {
    ObjectText(members, depth, fmt);
    hide Print, Tabs, Listed, MembersSize;
    MembersFit(members, |members|, depth + 1, fmt);
  }

  /** The composing half of print_object. */
  method ComposeObject(out: array<char>, names: seq<array<char>>, entries: seq<array<char>>,
                       ghost members: seq<Member>, depth: nat, fmt: bool)
    requires |names| == |members| && |entries| == |members| && HoldsMembers(names, entries, members, depth + 1, fmt)
    requires forall j :: 0 <= j < |entries| ==> entries[j] != out && names[j] != out
    requires members != [] && |Print(Object(members), depth, fmt)| < out.Length
    modifies out
    ensures HoldsText(out, Print(Object(members), depth, fmt))
  {
    ObjectText(members, depth, fmt);
    hide Print, PrintString, Tabs, Listed, HoldsText;
    var ptr := OpenObject(out, fmt);
    ptr := CopyMembers(out, ptr, names, entries, members, depth + 1, fmt);
    ptr := CloseObject(out, ptr, depth, fmt);
    Terminate(out, ptr, Print(Object(members), depth, fmt));
  }

  method OpenObject(out: array<char>, fmt: bool) returns (ptr: nat)
    requires 1 + |If(fmt, ['\n'])| <= out.Length
    modifies out
    ensures ptr == 1 + |If(fmt, ['\n'])| && out[..ptr] == ['{'] + If(fmt, ['\n'])
  {
    ptr := Put(out, 0, ['{']);
    if fmt {
      ptr := Put(out, ptr, ['\n']);
    }
  }

  lemma ObjectText(members: seq<Member>, depth: nat, fmt: bool)
    requires members != []
    ensures Print(Object(members), depth, fmt)
         == ['{'] + If(fmt, ['\n']) + Listed(members, |members|, depth + 1, fmt) + If(fmt, Tabs(depth)) + ['}']
  {
    ListedAll(members, depth + 1, fmt);
  }

  method CloseObject(out: array<char>, at: nat, depth: nat, fmt: bool) returns (ptr: nat)
    requires at + |If(fmt, Tabs(depth))| + 1 <= out.Length
    modifies out
    ensures ptr == at + |If(fmt, Tabs(depth))| + 1 && out[..ptr] == old(out[..at]) + If(fmt, Tabs(depth)) + ['}']
  {
    ptr := at;
    if fmt {
      ptr := PutTabs(out, ptr, depth);
    }
    assert out[..ptr] == old(out[..at]) + If(fmt, Tabs(depth));
    ptr := Put(out, ptr, ['}']);
  }

  /** The explicit case of an object without members: one tab less than its depth. */
  method PrintEmptyObject(depth: nat, fmt: bool) returns (out: array<char>)
    ensures fresh(out) && HoldsText(out, Print(Object([]), depth, fmt))
  {
    out := new char[if fmt then depth + 4 else 3];
    var ptr := Put(out, 0, ['{']);
    if fmt {
      ptr := Put(out, ptr, ['\n']);
      ptr := PutTabs(out, ptr, depth - 1);
    }
    assert out[..ptr] == ['{'] + If(fmt, ['\n'] + Tabs(depth - 1));
    ptr := Put(out, ptr, ['}']);
    out[ptr] := '\0';
  }

  /** The second loop of print_object. */
  method CopyMembers(out: array<char>, at: nat, names: seq<array<char>>, entries: seq<array<char>>,
                     ghost members: seq<Member>, depth: nat, fmt: bool) returns (ptr: nat)
    requires |names| == |members| && |entries| == |members| && HoldsMembers(names, entries, members, depth, fmt)
    requires forall j :: 0 <= j < |entries| ==> entries[j] != out && names[j] != out
    requires at + |Listed(members, |members|, depth, fmt)| <= out.Length
    modifies out
    ensures ptr == at + |Listed(members, |members|, depth, fmt)|
    ensures out[..ptr] == old(out[..at]) + Listed(members, |members|, depth, fmt)
  {
    hide PrintMember, Print, PrintString, HoldsText;
    ptr := at;
    var i := 0;
    while i < |entries|
      invariant i <= |members| && HoldsMembers(names, entries, members, depth, fmt)
      invariant ptr == at + |Listed(members, i, depth, fmt)| <= out.Length
      invariant out[..ptr] == old(out[..at]) + Listed(members, i, depth, fmt)
    {
      ListedGrows(members, i + 1, |members|, depth, fmt);
      ptr := CopyMember(out, ptr, names[i], entries[i], members[i], i == |entries| - 1, depth, fmt);
      Joins(old(out[..at]), Listed(members, i, depth, fmt), PrintMember(members[i], i + 1 == |members|, depth, fmt));
      i := i + 1;
    }
  }

  /** The first half of a member: its name, up to the gap behind the colon. */
  method CopyName(out: array<char>, at: nat, name: array<char>, ghost s: Text, depth: nat, fmt: bool) returns (ptr: nat)
    requires name != out && HoldsText(name, PrintString(s))
    requires at + |If(fmt, Tabs(depth))| + |PrintString(s)| + 1 + |If(fmt, ['\t'])| <= out.Length
    modifies out
    ensures ptr == at + |If(fmt, Tabs(depth))| + |PrintString(s)| + 1 + |If(fmt, ['\t'])|
    ensures out[..ptr] == old(out[..at]) + If(fmt, Tabs(depth)) + PrintString(s) + [':'] + If(fmt, ['\t'])
  {
    hide PrintString, Tabs, HoldsText;
    ptr := at;
    if fmt {
      ptr := PutTabs(out, ptr, depth);
    }
    assert out[..ptr] == old(out[..at]) + If(fmt, Tabs(depth));
    var n := TextLen(name, PrintString(s));
    ptr := Put(out, ptr, name[..n]);
    ptr := Put(out, ptr, [':']);
    if fmt {
      ptr := Put(out, ptr, ['\t']);
    }
  }

  method CopyMember(out: array<char>, at: nat, name: array<char>, entry: array<char>, ghost m: Member, last: bool, depth: nat, fmt: bool)
    returns (ptr: nat)
    requires name != out && entry != out && HoldsText(name, PrintString(m.name)) && HoldsText(entry, Print(m.value, depth, fmt))
    requires at + |PrintMember(m, last, depth, fmt)| <= out.Length
    modifies out
    ensures ptr == at + |PrintMember(m, last, depth, fmt)|
    ensures out[..ptr] == old(out[..at]) + PrintMember(m, last, depth, fmt)
  {
    ghost var front := out[..at];
    ghost var name', v := PrintString(m.name), Print(m.value, depth, fmt);
    MemberText(front, m, last, depth, fmt);
    hide Print, PrintString, PrintMember, Tabs, HoldsText;
    ptr := CopyName(out, at, name, m.name, depth, fmt);
    var n := TextLen(entry, v);
    ptr := Put(out, ptr, entry[..n]);
    if !last {
      ptr := Put(out, ptr, [',']);
    }
    if fmt {
      ptr := Put(out, ptr, ['\n']);
    }
  }

  /** A member's text behind what was written before, and its length. */
  lemma MemberText(front: seq<char>, m: Member, last: bool, depth: nat, fmt: bool)
    ensures front + If(fmt, Tabs(depth)) + PrintString(m.name) + [':'] + If(fmt, ['\t']) + Print(m.value, depth, fmt) + If(!last, [',']) + If(fmt, ['\n'])
         == front + PrintMember(m, last, depth, fmt)
    ensures |PrintMember(m, last, depth, fmt)|
         == |If(fmt, Tabs(depth))| + |PrintString(m.name)| + 1 + |If(fmt, ['\t'])| + |Print(m.value, depth, fmt)| + |If(!last, [','])| + |If(fmt, ['\n'])|
  {
    var a, b, c, d := If(fmt, Tabs(depth)), PrintString(m.name), [':'], If(fmt, ['\t']);
    var e, f, g := Print(m.value, depth, fmt), If(!last, [',']), If(fmt, ['\n']);
    assert PrintMember(m, last, depth, fmt) == a + b + c + d + e + f + g;
    hide *;
    Joins(front, a, b);
    Joins(front, a + b, c);
    Joins(front, a + b + c, d);
    Joins(front, a + b + c + d, e);
    Joins(front, a + b + c + d + e, f);
    Joins(front, a + b + c + d + e + f, g);
  }
}
