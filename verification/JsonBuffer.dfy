/** The printer that writes into one growing buffer. */
module JsonBuffer {
  import opened Json
  import opened JsonText
  import opened Texts
  import opened JsonGrowth
  import JsonPrinter

  class PrintBuffer {
    var buffer: array<char>
    var length: nat
    var offset: nat

    ghost predicate Valid()
      reads this
    {
      buffer.Length == length && offset <= length
    }

    /** What is finished: the characters before the offset. */
    ghost function Done(): seq<char>
      requires Valid()
      reads this, buffer
    {
      buffer[..offset]
    }

    /** Behind `front` the buffer holds a text and its terminator. The offset may already have
        moved into the text, never past it. */
    ghost predicate Shows(front: seq<char>, text: Text)
      requires Valid()
      reads this, buffer
    {
      && |front| <= offset <= |front| + |text| < buffer.Length
      && buffer[..|front| + |text|] == front + text && buffer[|front| + |text|] == '\0'
    }

    /** A text of which only the end is still behind the offset. */
    lemma ShowsJoined(front: seq<char>, open: Text, body: Text, close: Text)
      requires Valid() && Shows(front + open + body, close)
      ensures Shows(front, open + body + close)
    {
      ClosedText(front, open, body, close);
    }

    constructor (prebuffer: nat)
      requires prebuffer > 0
      ensures Valid() && fresh(buffer) && offset == 0
    {
      buffer := new char[prebuffer];
      length := prebuffer;
      offset := 0;
    }

    /** ensure: room for that many characters behind the offset. Nothing that was written is lost. */
    method Ensure(needed: nat)
      requires Valid() && 0 < offset + needed <= CAPACITY
      modifies this
      ensures Valid() && offset == old(offset) && offset + needed <= length
      ensures buffer == old(buffer) || fresh(buffer)
      ensures old(length) <= length && buffer[..old(length)] == old(buffer[..length])
      ensures Done() == old(Done())
    {
      var total := needed + offset;
      if total <= length {
        return;
      }
      var newsize := Pow2gt(total);
      var newbuffer := new char[newsize];
      var end := Put(newbuffer, 0, buffer[..length]);
      length := newsize;
      buffer := newbuffer;
      assert buffer[..end] == old(buffer[..length]);
      assert buffer[..offset] == buffer[..end][..offset];
    }

    /** update: the end of the text, found by its terminator. */
    method Update(ghost front: seq<char>, ghost text: Text) returns (end: nat)
      requires Valid() && Shows(front, text)
      ensures end == |front| + |text|
    {
      ghost var rest := text[offset - |front|..];
      assert buffer[offset..offset + |rest|] == (front + text)[offset..];
      var n := StrLen(buffer, offset, rest);
      end := offset + n;
    }

    /** p->offset = update(p) */
    method Advance(ghost front: seq<char>, ghost text: Text)
      requires Valid() && Shows(front, text)
      modifies this`offset
      ensures Valid() && Done() == front + text
    {
      offset := Update(front, text);
    }

    /** Characters written behind the offset, which moves past them. */
    method Push(s: seq<char>, terminated: bool)
      requires Valid() && (s != [] || terminated) && offset + |s| < CAPACITY
      modifies this, buffer
      ensures Valid() && (buffer == old(buffer) || fresh(buffer))
      ensures Done() == old(Done()) + s
    {
      Ensure(|s| + if terminated then 1 else 0);
      var end := Put(buffer, offset, s);
      if terminated {
        buffer[end] := '\0';
      }
      offset := end;
    }

    /** A text and its terminator behind the offset, which stays. */
    method Show(s: Text, needed: nat)
      requires Valid() && |s| < needed && offset + needed <= CAPACITY
      modifies this, buffer
      ensures Valid() && (buffer == old(buffer) || fresh(buffer))
      ensures Shows(old(Done()), s)
    {
      Ensure(needed);
      PutText(buffer, offset, s);
    }

    /** The same for print_string_ptr. */
    method ShowString(s: Text)
      requires Valid() && offset + |PrintString(s)| < CAPACITY
      modifies this, buffer
      ensures Valid() && (buffer == old(buffer) || fresh(buffer))
      ensures Shows(old(Done()), PrintString(s))
    {
      var flag, len := StringSize(s);
      Ensure(len + 3);
      WriteString(buffer, offset, s, flag);
    }

    /** print_value with a buffer. */
    method PrintValue(t: Tree, depth: nat, fmt: bool)
      requires Valid() && Printable(t) && offset + |Print(t, depth, fmt)| + 21 <= CAPACITY
      modifies this, buffer
      ensures Valid() && (buffer == old(buffer) || fresh(buffer))
      ensures Shows(old(Done()), Print(t, depth, fmt))
      decreases t, 2
    {
      match t
      case Null => Show("null", 5);
      case False => Show("false", 6);
      case True => Show("true", 5);
      case Number(i, d) =>
        NumberLength(i, d);
        if d == 0 {
          Show("0", 2);
        } else {
          Show(Decimal(i), 21);
        }
      case String(s) => ShowString(s);
      case Array(items) => PrintArray(items, depth, fmt);
      case Object(members) => PrintObject(members, depth, fmt);
    }

    /** print_array: the offset ends before the closing bracket. */
    method PrintArray(items: seq<Tree>, depth: nat, fmt: bool)
      requires Valid() && (forall k :: 0 <= k < |items| ==> Printable(items[k]))
      requires offset + |Print(Array(items), depth, fmt)| + 21 <= CAPACITY
      modifies this, buffer
      ensures Valid() && (buffer == old(buffer) || fresh(buffer))
      ensures Shows(old(Done()), Print(Array(items), depth, fmt))
      decreases items, 4
    {
      JsonPrinter.ArrayText(items, depth, fmt);
      if |items| == 0 {
        Show("[]", 3);
        return;
      }
      hide Print, Joined, Shows;
      ghost var front := Done();
      ghost var all := Joined(items, |items|, depth + 1, fmt);
      Push(['['], false);
      PrintItemsInto(items, depth + 1, fmt);
      Show([']'], 2);
      ShowsJoined(front, ['['], all, [']']);
    }

    /** The loop of print_array. */
    method PrintItemsInto(items: seq<Tree>, depth: nat, fmt: bool)
      requires Valid() && forall k :: 0 <= k < |items| ==> Printable(items[k])
      requires offset + |Joined(items, |items|, depth, fmt)| + 22 <= CAPACITY
      modifies this, buffer
      ensures Valid() && (buffer == old(buffer) || fresh(buffer))
      ensures Done() == old(Done()) + Joined(items, |items|, depth, fmt)
      decreases items, 3
    {
      hide Print, Shows;
      ghost var front := Done();
      var i := 0;
      while i < |items|
        invariant Valid() && i <= |items| && (buffer == old(buffer) || fresh(buffer))
        invariant Done() == front + Joined(items, i, depth, fmt)
      {
        JoinedGrows(items, i + 1, |items|, depth, fmt);
        PrintItem(items[i], i + 1 == |items|, depth, fmt);
        Joins(front, Joined(items, i, depth, fmt), Print(items[i], depth, fmt));
        Joins(front, Joined(items, i, depth, fmt) + Print(items[i], depth, fmt), Separator(i + 1 == |items|, fmt));
        i := i + 1;
      }
    }

    /** Its body. */
    method PrintItem(t: Tree, last: bool, depth: nat, fmt: bool)
      requires Valid() && Printable(t) && offset + |Print(t, depth, fmt)| + |Separator(last, fmt)| + 21 <= CAPACITY
      modifies this, buffer
      ensures Valid() && (buffer == old(buffer) || fresh(buffer))
      ensures Done() == old(Done()) + Print(t, depth, fmt) + Separator(last, fmt)
      decreases t, 3
    {
      hide Print, Shows;
      ghost var front := Done();
      PrintValue(t, depth, fmt);
      Advance(front, Print(t, depth, fmt));
      if !last {
        Push([','] + If(fmt, [' ']), true);
      }
    }

    /** print_object; an empty one has one tab less than its depth. */
    method PrintObject(members: seq<Member>, depth: nat, fmt: bool)
      requires Valid() && (forall k :: 0 <= k < |members| ==> PrintableMember(members[k]))
      requires offset + |Print(Object(members), depth, fmt)| + 21 <= CAPACITY
      modifies this, buffer
      ensures Valid() && (buffer == old(buffer) || fresh(buffer))
      ensures Shows(old(Done()), Print(Object(members), depth, fmt))
      decreases members, 5
    {
      if |members| == 0 {
        PrintEmptyObject(depth, fmt);
      } else {
        PrintFullObject(members, depth, fmt);
      }
    }

    method PrintEmptyObject(depth: nat, fmt: bool)
      requires Valid() && offset + |Print(Object([]), depth, fmt)| + 21 <= CAPACITY
      modifies this, buffer
      ensures Valid() && (buffer == old(buffer) || fresh(buffer))
      ensures Shows(old(Done()), Print(Object([]), depth, fmt))
    {
      Show(['{'] + If(fmt, ['\n'] + Tabs(depth - 1)) + ['}'], if fmt then depth + 4 else 3);
    }

    method PrintFullObject(members: seq<Member>, depth: nat, fmt: bool)
      requires Valid() && members != [] && (forall k :: 0 <= k < |members| ==> PrintableMember(members[k]))
      requires offset + |Print(Object(members), depth, fmt)| + 21 <= CAPACITY
      modifies this, buffer
      ensures Valid() && (buffer == old(buffer) || fresh(buffer))
      ensures Shows(old(Done()), Print(Object(members), depth, fmt))
      decreases members, 4, 1
    {
      ghost var front, all := Done(), Listed(members, |members|, depth + 1, fmt);
      var open, close := Opening(fmt), Closing(depth, fmt);
      ObjectText(members, depth, fmt);
      hide Print, Tabs, Listed, Opening, Closing, Shows;
      Push(open, true);
      PrintMembersInto(members, depth + 1, fmt);
      Show(close, if fmt then depth + 2 else 2);
      ShowsJoined(front, open, all, close);
    }

    /** The loop of print_object. */
    method PrintMembersInto(members: seq<Member>, depth: nat, fmt: bool)
      requires Valid() && depth > 0 && forall k :: 0 <= k < |members| ==> PrintableMember(members[k])
      requires offset + |Listed(members, |members|, depth, fmt)| + 21 <= CAPACITY
      modifies this, buffer
      ensures Valid() && (buffer == old(buffer) || fresh(buffer))
      ensures Done() == old(Done()) + Listed(members, |members|, depth, fmt)
      decreases members, 4, 0
    {
      hide PrintMember, Shows;
      ghost var front := Done();
      var i := 0;
      while i < |members|
        invariant Valid() && i <= |members| && (buffer == old(buffer) || fresh(buffer))
        invariant Done() == front + Listed(members, i, depth, fmt)
      {
        ListedGrows(members, i + 1, |members|, depth, fmt);
        assert PrintableMember(members[i]);
        PrintOneMember(members[i], i + 1 == |members|, depth, fmt);
        Joins(front, Listed(members, i, depth, fmt), PrintMember(members[i], i + 1 == |members|, depth, fmt));
        i := i + 1;
      }
    }

    /** Its body. */
    method PrintOneMember(m: Member, last: bool, depth: nat, fmt: bool)
      requires Valid() && depth > 0 && PrintableMember(m) && offset + |PrintMember(m, last, depth, fmt)| + 21 <= CAPACITY
      modifies this, buffer
      ensures Valid() && (buffer == old(buffer) || fresh(buffer))
      ensures Done() == old(Done()) + PrintMember(m, last, depth, fmt)
      decreases m, 3
    {
      ghost var front := Done();
      JsonPrinter.MemberText(front, m, last, depth, fmt);
      hide Print, PrintString, PrintMember, Tabs, Shows;
      if fmt {
        Push(Tabs(depth), false);
      }
      PrintName(m.name, front + If(fmt, Tabs(depth)), fmt);
      ghost var behind := Done();
      PrintValue(m.value, depth, fmt);
      Advance(behind, Print(m.value, depth, fmt));
      Push(If(!last, [',']) + If(fmt, ['\n']), true);
      Joins(behind + Print(m.value, depth, fmt), If(!last, [',']), If(fmt, ['\n']));
    }

    /** A name and its colon. */
    method PrintName(name: Text, ghost front: seq<char>, fmt: bool)
      requires Valid() && Done() == front && offset + |PrintString(name)| + 2 < CAPACITY
      modifies this, buffer
      ensures Valid() && (buffer == old(buffer) || fresh(buffer))
      ensures Done() == front + PrintString(name) + [':'] + If(fmt, ['\t'])
    {
      hide PrintString;
      ShowString(name);
      Advance(front, PrintString(name));
      Push([':'] + If(fmt, ['\t']), false);
      Joins(front + PrintString(name), [':'], If(fmt, ['\t']));
    }
  }

  function Opening(fmt: bool): (s: Text)
    ensures s != []
  {
    ['{'] + If(fmt, ['\n'])
  }

  function Closing(depth: nat, fmt: bool): (s: Text)
    ensures |s| == if fmt then depth + 1 else 1
  {
    If(fmt, Tabs(depth)) + ['}']
  }

  lemma ObjectText(members: seq<Member>, depth: nat, fmt: bool)
    requires members != []
    ensures Print(Object(members), depth, fmt)
         == Opening(fmt) + Listed(members, |members|, depth + 1, fmt) + Closing(depth, fmt)
  {
    JsonPrinter.ObjectText(members, depth, fmt);
    hide Print, Tabs, Listed;
    Joins(Opening(fmt) + Listed(members, |members|, depth + 1, fmt), If(fmt, Tabs(depth)), ['}']);
  }

  lemma ClosedText(front: seq<char>, open: seq<char>, body: seq<char>, close: seq<char>)
    ensures front + open + body + close == front + (open + body + close)
  {
    Joins(front, open, body);
    Joins(front, open + body, close);
  }

  /** cJSON_PrintBuffered: the same text that the allocating printer makes. */
  method PrintBuffered(t: Tree, prebuffer: nat, fmt: bool) returns (out: array<char>)
    requires Printable(t) && prebuffer > 0 && |Print(t, 0, fmt)| + 21 <= CAPACITY
    ensures HoldsText(out, Print(t, 0, fmt))
  {
    var p := new PrintBuffer(prebuffer);
    p.PrintValue(t, 0, fmt);
    out := p.buffer;
    assert [] + Print(t, 0, fmt) == Print(t, 0, fmt);
  }

  /** cJSON_Print and cJSON_PrintUnformatted. */
  method PrintWhole(t: Tree, fmt: bool) returns (out: array<char>)
    requires Printable(t)
    ensures HoldsText(out, Print(t, 0, fmt))
  {
    out := JsonPrinter.PrintAlloc(t, 0, fmt);
  }
}
