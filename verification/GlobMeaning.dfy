/** What written patterns mean, said on the characters of pattern and string alone. */
module GlobMeaning {
  import opened Glob

  // ---- Letter case ----

  predicate Upper(c: int) { 'A' as int <= c <= 'Z' as int }

  function Lower(c: int): int { if Upper(c) then c - 'A' as int + 'a' as int else c }

  /** The same character, or the same letter in the other case. */
  predicate SameLetter(c: int, d: int) {
    || c == d
    || (Upper(c) && d - c == 'a' as int - 'A' as int)
    || (Upper(d) && c - d == 'a' as int - 'A' as int)
  }

  predicate Same(c: int, d: int, flags: Flags) { if flags.caseFold then SameLetter(c, d) else c == d }

  lemma FoldIsCase(c: int, d: int, flags: Flags)
    ensures Fold(c, flags) == Fold(d, flags) <==> Same(c, d, flags)
    ensures Fold(c, flags) == if flags.caseFold then Lower(c) else c
  {
  }

  predicate SameText(s: seq<Char>, t: seq<Char>) { |s| == |t| && forall i :: 0 <= i < |s| ==> SameLetter(s[i], t[i]) }

  /** Under caseFold the case of the string's letters does not matter. */
  lemma {:induction false} StringCaseIsIgnored(ts: seq<Token>, s: seq<Char>, t: seq<Char>, flags: Flags, over: bool)
    requires flags.caseFold && SameText(s, t) && Leads(ts, s, flags, over)
    ensures Leads(ts, t, flags, over)
    decreases |ts|
  {
    hide Fold, Takes;
    if ts != [] && ts[0].Star? {
      var k :| 0 <= k <= |s| && (over ==> k < |s|) && (flags.pathname ==> NoSlash(s[..k])) && Leads(ts[1..], s[k..], flags, over);
      StringCaseIsIgnored(ts[1..], s[k..], t[k..], flags, over);
      assert flags.pathname ==> NoSlash(t[..k]) by {
        assert forall i :: 0 <= i < k ==> s[..k][i] == s[i] && t[..k][i] == t[i];
      }
    } else if ts != [] && s != [] {
      SameIsTaken(ts[0], s[0], t[0], flags);
      StringCaseIsIgnored(ts[1..], s[1..], t[1..], flags, over);
    }
  }

  lemma SameIsTaken(x: Token, c: Char, d: Char, flags: Flags)
    requires flags.caseFold && SameLetter(c, d)
    ensures Takes(x, c, flags) <==> Takes(x, d, flags)
  {
    FoldIsCase(c, d, flags);
    hide Fold;
  }

  /** Nor does the case of the pattern's. */
  lemma {:induction false} PatternCaseIsIgnored(p: seq<Char>, q: seq<Char>, flags: Flags)
    requires flags.caseFold && SameText(p, q)
    ensures Tokens(p, flags) == Tokens(q, flags)
    decreases |p|
  {
    if p != [] {
      hide ReadBracket, Fold, Tokens;
      TokensOf(p, flags);
      TokensOf(q, flags);
      FoldIsCase(p[0], q[0], flags);
      if p[0] == OPEN {
        BracketCaseIsIgnored(p[1..], q[1..], flags);
      } else if |p| > 1 {
        FoldIsCase(p[1], q[1], flags);
      }
      PatternCaseIsIgnored(AfterToken(p, flags), AfterToken(q, flags), flags);
    }
  }

  /** Brackets with the same items leave texts that differ in case only. */
  predicate SameBracket(a: Bracket, b: Bracket) {
    if a.Closed? && b.Closed? then a.items == b.items && SameText(a.rest, b.rest) else a == b
  }

  lemma BracketCaseIsIgnored(p: seq<Char>, q: seq<Char>, flags: Flags)
    requires flags.caseFold && SameText(p, q)
    ensures Negated(p) == Negated(q) && SameBracket(ReadBracket(p, flags), ReadBracket(q, flags))
  {
    hide ReadItems;
    ItemsCaseIsIgnored(p, q, true, flags);
    if p != [] {
      ItemsCaseIsIgnored(p[1..], q[1..], true, flags);
    }
  }

  lemma {:induction false} ItemsCaseIsIgnored(p: seq<Char>, q: seq<Char>, first: bool, flags: Flags)
    requires flags.caseFold && SameText(p, q)
    ensures SameBracket(ReadItems(p, first, flags), ReadItems(q, first, flags))
    decreases |p|
  {
    hide ReadItem;
    ItemCaseIsIgnored(p, q, flags);
    var a, b := ReadItem(p, flags), ReadItem(q, flags);
    if a.Item? {
      ItemsCaseIsIgnored(a.rest, b.rest, false, flags);
    }
  }

  lemma ItemCaseIsIgnored(p: seq<Char>, q: seq<Char>, flags: Flags)
    requires flags.caseFold && SameText(p, q)
    ensures var a, b := ReadItem(p, flags), ReadItem(q, flags);
            a.Item? == b.Item? && (a.Item? ==> a.item == b.item && SameText(a.rest, b.rest))
  {
    hide Fold;
    if p != [] {
      FoldIsCase(p[0], q[0], flags);
    }
    if |p| > 1 {
      FoldIsCase(p[1], q[1], flags);
    }
    if |p| > 2 {
      FoldIsCase(p[2], q[2], flags);
    }
    if |p| > 3 {
      FoldIsCase(p[3], q[3], flags);
    }
    if |p| > 4 {
      FoldIsCase(p[4], q[4], flags);
    }
  }

  /** Under caseFold the answer does not depend on letter case at all. */
  lemma CaseIsIgnored(p: seq<Char>, q: seq<Char>, s: seq<Char>, t: seq<Char>, flags: Flags)
    requires flags.caseFold && SameText(p, q) && SameText(s, t)
    ensures Matches(p, s, flags) <==> Matches(q, t, flags)
    ensures Overruns(p, s, flags) <==> Overruns(q, t, flags)
  {
    hide Leads, Tokens, SameLetter;
    PatternCaseIsIgnored(p, q, flags);
    assert SameText(t, s) by {
      forall i | 0 <= i < |t| ensures SameLetter(t[i], s[i]) {
        SameLetterSwaps(s[i], t[i]);
      }
    }
    var ts := Tokens(p, flags);
    forall over: bool ensures Leads(ts, s, flags, over) <==> Leads(ts, t, flags, over) {
      if Leads(ts, s, flags, over) {
        StringCaseIsIgnored(ts, s, t, flags, over);
      }
      if Leads(ts, t, flags, over) {
        StringCaseIsIgnored(ts, t, s, flags, over);
      }
    }
  }

  lemma SameLetterSwaps(c: int, d: int)
    requires SameLetter(c, d)
    ensures SameLetter(d, c)
  {
  }

  // ---- Written characters ----

  /** A character of a pattern as it stands, or with an escape before it. */
  datatype Sign = Bare(c: Char) | Escaped(c: Char)

  function Written(x: Sign): (s: seq<Char>)
    ensures s != []
  {
    match x case Bare(c) => [c] case Escaped(c) => ['\\' as int, c]
  }

  function AllWritten(xs: seq<Sign>): seq<Char> { if xs == [] then [] else Written(xs[0]) + AllWritten(xs[1..]) }

  /** Outside brackets: anything can be escaped, and whatever is not special stands for itself. */
  predicate Plain(x: Sign, flags: Flags) {
    match x
    case Bare(c) => c != '?' as int && c != '*' as int && c != '[' as int && (c != '\\' as int || flags.noEscape)
    case Escaped(_) => !flags.noEscape
  }

  lemma SignIsToken(x: Sign, p: seq<Char>, flags: Flags)
    requires Plain(x, flags)
    ensures FirstToken(Written(x) + p, flags) == Lit(Fold(x.c, flags))
    ensures AfterToken(Written(x) + p, flags) == p
  {
    hide ReadBracket, Fold;
    var w := Written(x) + p;
    assert w[|Written(x)|..] == p;
  }

  predicate Spells(xs: seq<Sign>, s: seq<Char>, flags: Flags) {
    |s| == |xs| && forall i :: 0 <= i < |s| ==> Same(xs[i].c, s[i], flags)
  }

  /** A pattern of plain characters matches what it spells, up to case if that is folded, and
      under LEADING_DIR also what goes on with a slash. */
  lemma {:induction false} PlainPattern(xs: seq<Sign>, s: seq<Char>, flags: Flags)
    requires forall x :: x in xs ==> Plain(x, flags)
    ensures Matches(AllWritten(xs), s, flags)
       <==> Spells(xs, s, flags) || (flags.leadingDir && |s| > |xs| && s[|xs|] == '/' as int && Spells(xs, s[..|xs|], flags))
    decreases |xs|
  {
    hide Fold, Same;
    if xs == [] {
      assert AllWritten(xs) == [];
    } else {
      var p := AllWritten(xs[1..]);
      SignIsToken(xs[0], p, flags);
      TokensOf(Written(xs[0]) + p, flags);
      if s != [] {
        FoldIsCase(xs[0].c, s[0], flags);
        PlainPattern(xs[1..], s[1..], flags);
        SpellsFirst(xs, s, flags);
        if |s| > |xs| {
          assert s[..|xs|][1..] == s[1..][..|xs| - 1];
          SpellsFirst(xs, s[..|xs|], flags);
        }
      }
    }
  }

  lemma SpellsFirst(xs: seq<Sign>, s: seq<Char>, flags: Flags)
    requires xs != [] && s != []
    ensures Spells(xs, s, flags) <==> Same(xs[0].c, s[0], flags) && Spells(xs[1..], s[1..], flags)
  {
    hide Same;
    if Spells(xs[1..], s[1..], flags) && Same(xs[0].c, s[0], flags) {
      forall i | 0 <= i < |s| ensures Same(xs[i].c, s[i], flags) {
        if i > 0 {
          assert xs[1..][i - 1] == xs[i] && s[1..][i - 1] == s[i];
        }
      }
    }
  }

  // ---- Wildcards ----

  /** A question mark takes one character, but no slash under PATHNAME. */
  lemma QuestionTakes(p: seq<Char>, s: seq<Char>, flags: Flags)
    ensures Matches(['?' as int] + p, s, flags)
       <==> s != [] && !(flags.pathname && s[0] == '/' as int) && Matches(p, s[1..], flags)
  {
    hide Tokens;
    var w := [QUESTION] + p;
    assert w[1..] == p;
    TokensOf(w, flags);
  }

  /** A star takes any characters, but no slash under PATHNAME. */
  lemma StarTakes(p: seq<Char>, s: seq<Char>, flags: Flags)
    ensures Matches(['*' as int] + p, s, flags)
       <==> exists k :: 0 <= k <= |s| && (flags.pathname ==> '/' as int !in s[..k]) && Matches(p, s[k..], flags)
  {
    hide Tokens;
    var w := [STAR] + p;
    assert w[1..] == p;
    TokensOf(w, flags);
  }

  // ---- Written brackets ----

  datatype Element = Single(x: Sign) | Span(lo: Sign, hi: Sign)

  /** Inside brackets: anything can be escaped, and whatever is not special stands for itself. */
  predicate Ordinary(x: Sign, flags: Flags) {
    match x
    case Bare(c) => c != ']' as int && c != '-' as int && c != '/' as int && (c != '\\' as int || flags.noEscape)
    case Escaped(_) => !flags.noEscape
  }

  predicate Proper(e: Element, flags: Flags) {
    match e case Single(x) => Ordinary(x, flags) case Span(lo, hi) => Ordinary(lo, flags) && Ordinary(hi, flags)
  }

  function ElementText(e: Element): (s: seq<Char>)
    ensures s != []
  {
    match e case Single(x) => Written(x) case Span(lo, hi) => Written(lo) + (['-' as int] + Written(hi))
  }

  function SetText(es: seq<Element>): seq<Char> { if es == [] then [] else ElementText(es[0]) + SetText(es[1..]) }

  /** The characters of a set: those that are listed, and those between the ends of a range. */
  predicate Has(e: Element, c: Char, flags: Flags) {
    match e
    case Single(x) => Same(x.c, c, flags)
    case Span(lo, hi) =>
      if flags.caseFold then Lower(lo.c) <= Lower(c) <= Lower(hi.c) else lo.c <= c <= hi.c
  }

  predicate InSet(es: seq<Element>, c: Char, flags: Flags) { exists i :: 0 <= i < |es| && Has(es[i], c, flags) }

  function ItemOf(e: Element, flags: Flags): Item {
    match e case Single(x) => One(Fold(x.c, flags)) case Span(lo, hi) => Range(Fold(lo.c, flags), Fold(hi.c, flags))
  }

  function ItemsOf(es: seq<Element>, flags: Flags): (r: seq<Item>)
    ensures |r| == |es| && forall i :: 0 <= i < |es| ==> r[i] == ItemOf(es[i], flags)
  {
    if es == [] then [] else [ItemOf(es[0], flags)] + ItemsOf(es[1..], flags)
  }

  lemma ItemHas(e: Element, c: Char, flags: Flags)
    ensures InItem(ItemOf(e, flags), Fold(c, flags)) <==> Has(e, c, flags)
  {
    match e
    case Single(x) => FoldIsCase(x.c, c, flags);
    case Span(lo, hi) =>
      FoldIsCase(lo.c, c, flags);
      FoldIsCase(hi.c, c, flags);
  }

  lemma ItemsHave(es: seq<Element>, c: Char, flags: Flags)
    ensures InItems(ItemsOf(es, flags), Fold(c, flags)) <==> InSet(es, c, flags)
  {
    hide InItem, Has, Fold;
    var items := ItemsOf(es, flags);
    forall i | 0 <= i < |es| ensures InItem(items[i], Fold(c, flags)) <==> Has(es[i], c, flags) {
      ItemHas(es[i], c, flags);
    }
    if i :| 0 <= i < |es| && Has(es[i], c, flags) {
      assert InItem(items[i], Fold(c, flags));
    }
  }

  lemma ElementIsItem(e: Element, p: seq<Char>, flags: Flags)
    requires Proper(e, flags) && p != [] && p[0] != DASH
    ensures ReadItem(ElementText(e) + p, flags) == ItemRead.Item(ItemOf(e, flags), p)
  {
    hide Fold;
    var w := ElementText(e) + p;
    match e
    case Single(x) => assert w[|Written(x)|..] == p;
    case Span(lo, hi) =>
      assert w == Written(lo) + ([DASH] + (Written(hi) + p));
      var upper := [DASH] + (Written(hi) + p);
      assert w[|Written(lo)|..] == upper;
      UpperIsRead(Fold(lo.c, flags), hi, p, flags);
  }

  lemma UpperIsRead(lo: int, hi: Sign, p: seq<Char>, flags: Flags)
    requires Ordinary(hi, flags)
    ensures ReadUpper(lo, [DASH] + (Written(hi) + p), flags) == ItemRead.Item(Range(lo, Fold(hi.c, flags)), p)
  {
    hide Fold;
    var upper := [DASH] + (Written(hi) + p);
    assert upper[1 + |Written(hi)|..] == p;
  }

  lemma SetTextStart(es: seq<Element>, p: seq<Char>, flags: Flags)
    requires forall e :: e in es ==> Proper(e, flags)
    ensures var w := SetText(es) + ([CLOSE] + p);
            w != [] && w[0] != DASH && w[0] != SLASH && (es != [] ==> w[0] != CLOSE)
  {
    if es != [] {
      assert es[0] in es;
    }
  }

  lemma {:induction false} SetIsRead(es: seq<Element>, first: bool, p: seq<Char>, flags: Flags)
    requires (forall e :: e in es ==> Proper(e, flags)) && (first ==> es != [])
    ensures ReadItems(SetText(es) + ([CLOSE] + p), first, flags) == Closed(ItemsOf(es, flags), p)
    decreases |es|
  {
    hide ReadItem, ItemOf, ElementText, Proper;
    var close: seq<Char> := [CLOSE];
    var w := SetText(es) + (close + p);
    SetTextStart(es, p, flags);
    if es == [] {
      assert w == close + p && w[1..] == p;
    } else {
      var more := SetText(es[1..]) + (close + p);
      assert es[0] in es && forall e :: e in es[1..] ==> e in es;
      assert w == ElementText(es[0]) + more;
      SetTextStart(es[1..], p, flags);
      ElementIsItem(es[0], more, flags);
      SetIsRead(es[1..], false, p, flags);
    }
  }

  /** A set in brackets takes one character: one that it has, or, negated by '!' or '^', one that
      it has not; never a slash under PATHNAME. */
  lemma BracketTakes(negation: seq<Char>, es: seq<Element>, p: seq<Char>, s: seq<Char>, flags: Flags)
    requires negation in {[], ['!' as int], ['^' as int]} && es != [] && forall e :: e in es ==> Proper(e, flags)
    requires negation == [] ==> !Negated(SetText(es))
    ensures var taken := s != [] && !(flags.pathname && s[0] == '/' as int) && InSet(es, s[0], flags) != (negation != []);
            Matches(['[' as int] + (negation + (SetText(es) + ([']' as int] + p))), s, flags) <==> taken && Matches(p, s[1..], flags)
  {
    hide ReadItems, InSet, SetText, InItems, Fold, Tokens;
    var set0 := SetText(es) + ([CLOSE] + p);
    var body := negation + set0;
    var w := [OPEN] + body;
    SetTextStart(es, p, flags);
    SetTextNotEmpty(es);
    assert w[1..] == body;
    assert negation != [] ==> body[1..] == set0;
    assert negation == [] ==> body == set0;
    SetIsRead(es, true, p, flags);
    TokensOf(w, flags);
    if s != [] {
      ItemsHave(es, s[0], flags);
    }
  }

  lemma SetTextNotEmpty(es: seq<Element>)
    requires es != []
    ensures SetText(es) != []
  {
  }

  /** For instance: [a-c] takes a, b and c, and [!a-c] everything else. */
  lemma RangeTakes(a: Char, b: Char, c: Char)
    requires Ordinary(Bare(a), EXACT) && Ordinary(Bare(b), EXACT) && a != '!' as int && a != '^' as int
    ensures Matches(['[' as int, a, '-' as int, b, ']' as int], [c], EXACT) <==> a <= c <= b
    ensures Matches(['[' as int, '!' as int, a, '-' as int, b, ']' as int], [c], EXACT) <==> !(a <= c <= b)
  {
    var es := [Span(Bare(a), Bare(b))];
    OneSpan(a, b);
    OneElement(es[0], c);
    NothingLeft();
    hide *;
    BracketTakes([], es, [], [c], EXACT);
    BracketTakes([BANG], es, [], [c], EXACT);
    assert [OPEN] + ([] + ([a, DASH, b] + ([CLOSE] + []))) == [OPEN, a, DASH, b, CLOSE];
    assert [OPEN] + ([BANG] + ([a, DASH, b] + ([CLOSE] + []))) == [OPEN, BANG, a, DASH, b, CLOSE];
  }

  const EXACT := Flags(false, false, false, false)

  lemma NothingLeft()
    ensures Matches([], [], EXACT)
  {
  }

  lemma OneSpan(a: Char, b: Char)
    requires Ordinary(Bare(a), EXACT) && Ordinary(Bare(b), EXACT) && a != BANG && a != CARET
    ensures var es := [Span(Bare(a), Bare(b))];
            SetText(es) == [a, DASH, b] && !Negated(SetText(es)) && forall e :: e in es ==> Proper(e, EXACT)
  {
    var es := [Span(Bare(a), Bare(b))];
    assert SetText(es[1..]) == [];
  }

  lemma OneElement(e: Element, c: Char)
    ensures InSet([e], c, EXACT) <==> Has(e, c, EXACT)
  {
    if Has(e, c, EXACT) {
      assert Has([e][0], c, EXACT);
    }
  }
}
