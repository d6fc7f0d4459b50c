/** What the parser returns on any text at all. */
module JsonParsed {
  import opened Json
  import opened JsonRoundTrip
  import opened Texts

  /** A tree as the parser builds it: numbers are within an int, without the least one, and no
      floating value was set. */
  predicate FromText(t: Tree)
    decreases t, 0
  {
    match t
    case Number(i, d) => -INT_MAX <= i <= INT_MAX && d == 0
    case Array(items) => forall k :: 0 <= k < |items| ==> FromText(items[k])
    case Object(members) => forall k :: 0 <= k < |members| ==> MemberFromText(members[k])
    case _ => true
  }

  predicate MemberFromText(m: Member)
    decreases m, 1
  {
    FromText(m.value)
  }

  lemma {:induction false} DigitsAreInRange(n: nat, p: Text)
    requires n <= INT_MAX && DigitsFrom(n, p).Ok?
    ensures DigitsFrom(n, p).value <= INT_MAX
    decreases |p|
  {
    if p != [] && IsDigit(p[0]) {
      DigitsAreInRange(n * 10 + (p[0] as int - '0' as int), p[1..]);
    }
  }

  lemma NumberIsParsed(p: Text)
    requires p != [] && (p[0] == '-' || IsDigit(p[0])) && ParseNumber(p).Ok?
    ensures FromText(ParseNumber(p).value)
  {
    hide DigitsFrom;
    var m := if p[0] == '-' then p[1..] else p;
    var q := if m != [] && m[0] == '0' then m[1..] else m;
    if q != [] && '1' <= q[0] <= '9' {
      DigitsAreInRange(0, q);
    }
  }

  lemma {:induction false} ValueIsParsed(p: Text)
    requires ParseValue(p).Ok?
    ensures FromText(ParseValue(p).value)
    decreases |p|, 0
  {
    hide ParseNumber, ParseString, ParseItems, ParseMembers, StartsWith;
    if p != [] && !StartsWith(p, "null") && !StartsWith(p, "false") && !StartsWith(p, "true") && p[0] != '\"' {
      if p[0] == '-' || IsDigit(p[0]) {
        NumberIsParsed(p);
      } else if p[0] == '[' {
        ArrayIsParsed(p);
      } else if p[0] == '{' {
        ObjectIsParsed(p);
      }
    }
  }

  lemma {:induction false} ArrayIsParsed(p: Text)
    requires p != [] && ParseArray(p).Ok?
    ensures FromText(ParseArray(p).value)
    decreases |p| - 1, 3
  {
    hide ParseItems;
    var q := Skip(p[1..]);
    if q == [] || q[0] != ']' {
      ItemsAreParsed(q);
    }
  }

  lemma {:induction false} ItemsAreParsed(p: Text)
    requires ParseItems(p).Ok?
    ensures forall k :: 0 <= k < |ParseItems(p).value| ==> FromText(ParseItems(p).value[k])
    decreases |p|, 2
  {
    hide ParseValue, FromText;
    ValueIsParsed(Skip(p));
    var q := Skip(ParseValue(Skip(p)).rest);
    if q != [] && q[0] == ',' {
      ItemsAreParsed(q[1..]);
    }
  }

  lemma {:induction false} ObjectIsParsed(p: Text)
    requires p != [] && ParseObject(p).Ok?
    ensures FromText(ParseObject(p).value)
    decreases |p| - 1, 3
  {
    hide ParseMembers;
    var q := Skip(p[1..]);
    if q == [] || q[0] != '}' {
      MembersAreParsed(q);
    }
  }

  lemma {:induction false} MembersAreParsed(p: Text)
    requires ParseMembers(p).Ok?
    ensures forall k :: 0 <= k < |ParseMembers(p).value| ==> MemberFromText(ParseMembers(p).value[k])
    decreases |p|, 2
  {
    hide ParseMember, MemberFromText;
    MemberIsParsed(p);
    var q := Skip(ParseMember(p).rest);
    if q != [] && q[0] == ',' {
      MembersAreParsed(q[1..]);
    }
  }

  lemma {:induction false} MemberIsParsed(p: Text)
    requires ParseMember(p).Ok?
    ensures MemberFromText(ParseMember(p).value)
    decreases |p|, 1
  {
    hide ParseValue, ParseString;
    ValueIsParsed(Skip(Skip(ParseString(Skip(p)).rest)[1..]));
  }

  lemma {:induction false} ParsedIsPrintable(t: Tree)
    requires FromText(t)
    ensures Printable(t)
    decreases t
  {
    match t
    case Array(items) =>
      forall k | 0 <= k < |items| ensures Printable(items[k]) {
        ParsedIsPrintable(items[k]);
      }
    case Object(members) =>
      forall k | 0 <= k < |members| ensures PrintableMember(members[k]) {
        assert MemberFromText(members[k]);
        ParsedIsPrintable(members[k].value);
      }
    case _ =>
  }

  // ---- Giving the numbers their floating values back ----

  function Restored(t: Tree): Tree
    decreases t, 0
  {
    match t
    case Number(i, _) => Number(i, i)
    case Array(items) => Array(RestoredItems(items))
    case Object(members) => Object(RestoredMembers(members))
    case _ => t
  }

  function RestoredItems(items: seq<Tree>): seq<Tree>
    decreases items, 1
  {
    if items == [] then [] else [Restored(items[0])] + RestoredItems(items[1..])
  }

  function RestoredMembers(members: seq<Member>): seq<Member>
    decreases members, 1
  {
    if members == [] then [] else [Member(members[0].name, Restored(members[0].value))] + RestoredMembers(members[1..])
  }

  lemma {:induction false} RestoredNorm(t: Tree)
    requires FromText(t)
    ensures Printable(Restored(t)) && Norm(Restored(t)) == t
    decreases t, 0
  {
    match t
    case Array(items) => RestoredItemsNorm(items);
    case Object(members) => RestoredMembersNorm(members);
    case _ =>
  }

  lemma {:induction false} RestoredItemsNorm(items: seq<Tree>)
    requires forall k :: 0 <= k < |items| ==> FromText(items[k])
    ensures (forall k :: 0 <= k < |RestoredItems(items)| ==> Printable(RestoredItems(items)[k])) && NormItems(RestoredItems(items)) == items
    decreases items, 1
  {
    hide Norm, Restored, FromText;
    if items != [] {
      RestoredNorm(items[0]);
      RestoredItemsNorm(items[1..]);
      assert RestoredItems(items)[1..] == RestoredItems(items[1..]);
    }
  }

  lemma {:induction false} RestoredMembersNorm(members: seq<Member>)
    requires forall k :: 0 <= k < |members| ==> MemberFromText(members[k])
    ensures (forall k :: 0 <= k < |RestoredMembers(members)| ==> PrintableMember(RestoredMembers(members)[k])) && NormMembers(RestoredMembers(members)) == members
    decreases members, 1
  {
    hide Norm, Restored, FromText;
    if members != [] {
      RestoredNorm(members[0].value);
      RestoredMembersNorm(members[1..]);
      assert RestoredMembers(members)[1..] == RestoredMembers(members[1..]);
    }
  }

  // ---- Any text ----

  /** Every tree that comes out of the parser can be printed, and its print is parsed again: to the
      tree with its numbers zeroed, as the printer looks at the floating values that were never
      set; once these are given back, to the very same tree. */
  lemma ParsedTreesGoRound(p: Text, nullTerminated: bool, fmt: bool, again: bool)
    requires Parse(p, nullTerminated).Ok?
    ensures var t := Parse(p, nullTerminated).value;
            && Printable(t)
            && Parse(Print(t, 0, fmt), again) == Ok(Norm(t), [])
            && Printable(Restored(t))
            && Parse(Print(Restored(t), 0, fmt), again) == Ok(t, [])
  {
    var t := Parse(p, nullTerminated).value;
    ValueIsParsed(Skip(p));
    hide Parse, FromText, Norm, Restored, Print;
    ParsedIsPrintable(t);
    RestoredNorm(t);
    PrintThenParse(t, fmt, again);
    PrintThenParse(Restored(t), fmt, again);
  }
}
