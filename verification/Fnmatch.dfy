/** fnmatch.c: the backtracking matcher, proved against the meaning of patterns. Pointers into the
    pattern and the string are indices. */
module Fnmatch {
  import opened Glob
  import opened Options

  /** Overrun: the code compares past the end of the string, which is undefined. */
  datatype Verdict = Matched | NoMatch | NoResources | Overrun

  /** What rangematch returns: a pointer past the bracket, NULL, or (void *)-1. */
  datatype RangeResult = Past(next: nat) | Null | MinusOne

  predicate Chosen(p: seq<Char>, test: int, flags: Flags) {
    var b := ReadBracket(p, flags);
    b.Closed? && InItems(b.items, test) != Negated(p)
  }

  /** rangematch. */
  method RangeMatch(p: seq<Char>, start: nat, test: int, flags: Flags) returns (r: RangeResult)
    requires start <= |p|
    ensures var b := ReadBracket(p[start..], flags);
            match r
            case MinusOne => b.BrokenBySlash?
            case Null => b.Unfinished? || (b.Closed? && !Chosen(p[start..], test, flags))
            case Past(next) => Chosen(p[start..], test, flags) && next <= |p| && b.rest == p[next..]
  {
    var pattern := start;
    var negate := At(p, pattern) == BANG || At(p, pattern) == CARET;
    assert negate == Negated(p[start..]);
    if negate {
      pattern := pattern + 1;
      assert p[start..][1..] == p[start + 1..];
    }
    var ok;
    r, ok := ScanItems(p, pattern, test, flags);
    if r.Past? && ok == negate {
      r := Null;
    }
  }

  /** The loop of rangematch: the items up to the closing bracket, and whether one has `test`. */
  method ScanItems(p: seq<Char>, start: nat, test: int, flags: Flags) returns (r: RangeResult, ok: bool)
    requires start <= |p|
    ensures var b := ReadItems(p[start..], true, flags);
            match r
            case MinusOne => b.BrokenBySlash?
            case Null => b.Unfinished?
            case Past(next) => b.Closed? && ok == InItems(b.items, test) && next <= |p| && b.rest == p[next..]
  {
    var pattern := start;
    ghost var whole := ReadItems(p[start..], true, flags);
    var need := true;
    ok := false;
    ghost var done: seq<Item> := [];
    AheadOfNothing(whole);
    while need || At(p, pattern) != CLOSE
      invariant pattern <= |p| && ok == InItems(done, test)
      invariant whole == Ahead(done, ReadItems(p[pattern..], need, flags))
      decreases |p| - pattern
    {
      ghost var from := p[pattern..];
      var c := Fold(At(p, pattern), flags);
      if c == SLASH {
        return MinusOne, ok;
      }
      var item, next := ReadOne(p, pattern, flags);
      if next == 0 {
        return Null, ok;
      }
      match item {
        case One(x) =>
          if x == test {
            ok := true;
          }
        case Range(lo, hi) =>
          if lo <= test && test <= hi {
            ok := true;
          }
      }
      InMore(done, item, test);
      AheadStep(done, item, p[next..], from, need, flags);
      done := done + [item];
      need := false;
      pattern := next;
    }
    assert p[pattern..][1..] == p[pattern + 1..];
    assert done + [] == done;
    r := Past(pattern + 1);
  }

  lemma AheadOfNothing(b: Bracket)
    ensures Ahead([], b) == b
  {
    if b.Closed? {
      assert [] + b.items == b.items;
    }
  }

  /** One turn of the loop of rangematch: an item and where it ends, or 0 if the pattern ends first. */
  method ReadOne(p: seq<Char>, start: nat, flags: Flags) returns (item: Item, next: nat)
    requires start <= |p|
    ensures match ReadItem(p[start..], flags)
            case NoItem => next == 0
            case Item(i, rest) => item == i && start < next <= |p| && rest == p[next..]
  {
    item, next := One(0), 0;
    var pattern := start;
    var c := Fold(At(p, pattern), flags);
    if c == EOS {
      return;
    }
    pattern := pattern + 1;
    if c == BACKSLASH && !flags.noEscape {
      c := Fold(At(p, pattern), flags);
      if c == EOS {
        return;
      }
      pattern := pattern + 1;
    }
    assert p[start..][pattern - start..] == p[pattern..];
    item, next := One(c), pattern;
    if pattern < |p| && p[pattern] == DASH {
      var c2 := Fold(At(p, pattern + 1), flags);
      if c2 != EOS && c2 != CLOSE {
        ghost var upper := p[pattern..];
        pattern := pattern + 2;
        if c2 == BACKSLASH && !flags.noEscape {
          c2 := Fold(At(p, pattern), flags);
          if c2 == EOS {
            next := 0;
            return;
          }
          pattern := pattern + 1;
        }
        assert upper[2..] == p[next + 2..];
        assert |upper| > 2 ==> upper[3..] == p[next + 3..];
        item, next := Range(c, c2), pattern;
      }
    }
  }

  /** A bracket whose first items have been read already. */
  function Ahead(done: seq<Item>, b: Bracket): Bracket {
    match b case Closed(items, rest) => Closed(done + items, rest) case other => other
  }

  lemma AheadStep(done: seq<Item>, item: Item, rest: seq<Char>, from: seq<Char>, need: bool, flags: Flags)
    requires ReadItem(from, flags) == ItemRead.Item(item, rest)
    requires from != [] && (need || from[0] != CLOSE) && from[0] != SLASH
    ensures Ahead(done, ReadItems(from, need, flags)) == Ahead(done + [item], ReadItems(rest, false, flags))
  {
    var b := ReadItems(rest, false, flags);
    if b.Closed? {
      assert done + ([item] + b.items) == done + [item] + b.items;
    }
  }

  lemma InMore(done: seq<Item>, item: Item, c: int)
    ensures InItems(done + [item], c) <==> InItems(done, c) || InItem(item, c)
  {
    var more := done + [item];
    if InItem(item, c) {
      assert InItem(more[|done|], c);
    }
    if InItems(done, c) {
      var i :| 0 <= i < |done| && InItem(done[i], c);
      assert InItem(more[i], c);
    }
  }

  /** strchr(string, '/'): an index, or the length of the string where C has NULL. */
  function SlashAt(s: seq<Char>): (j: nat)
    ensures j <= |s| && NoSlash(s[..j]) && (j < |s| ==> s[j] == SLASH)
  {
    if s == [] || s[0] == SLASH then 0
    else
      var j := SlashAt(s[1..]);
      assert s[..j + 1] == [s[0]] + s[1..][..j];
      j + 1
  }

  method FindSlash(s: seq<Char>, start: nat) returns (j: nat)
    requires start <= |s|
    ensures start <= j <= |s| && j - start == SlashAt(s[start..])
  {
    j := start;
    while j < |s| && s[j] != SLASH
      invariant start <= j <= |s| && SlashAt(s[start..]) == j - start + SlashAt(s[j..])
    {
      assert s[j..][1..] == s[j + 1..];
      j := j + 1;
    }
  }

  // ---- The matcher as a function ----

  /** fnmatchx on what is left of pattern and string. */
  function Answer(p: seq<Char>, s: seq<Char>, flags: Flags, budget: nat): Verdict
    decreases budget, 1, |p|
  {
    if budget == 0 then NoResources else Walk(p, s, flags, budget)
  }

  /** Its loop. */
  function Walk(p: seq<Char>, s: seq<Char>, flags: Flags, budget: nat): Verdict
    requires budget > 0
    decreases budget, 0, |p|
  {
    if p == [] then if s == [] || (flags.leadingDir && s[0] == SLASH) then Matched else NoMatch
    else if p[0] == STAR then
      var q := AfterStars(p);
      if q == [] then if !flags.pathname || flags.leadingDir || NoSlash(s) then Matched else NoMatch
      else if q[0] == SLASH && flags.pathname then
        if SlashAt(s) == |s| then NoMatch else Walk(q, s[SlashAt(s)..], flags, budget)
      else Each(q, s, flags, budget - 1)
    else if s == [] then if FirstToken(p, flags) == Dangling then Overrun else NoMatch
    else if Takes(FirstToken(p, flags), s[0], flags) then Walk(AfterToken(p, flags), s[1..], flags, budget)
    else NoMatch
  }

  /** The retry loop of a star: the first verdict that is not a mismatch counts. */
  function Each(q: seq<Char>, s: seq<Char>, flags: Flags, budget: nat): Verdict
    decreases budget, 2, |s|
  {
    if s == [] then NoMatch
    else
      match Answer(q, s, flags, budget)
      case NoMatch => if s[0] == SLASH && flags.pathname then NoMatch else Each(q, s[1..], flags, budget)
      case other => other
  }

  function AfterStars(p: seq<Char>): (q: seq<Char>)
    ensures |q| <= |p| && (p != [] && p[0] == STAR ==> |q| < |p|)
    ensures q != [] ==> q[0] != STAR
  {
    if p != [] && p[0] == STAR then AfterStars(p[1..]) else p
  }

  /** What a verdict says; running out of the budget needs at least that many groups of stars. */
  predicate Right(r: Verdict, p: seq<Char>, s: seq<Char>, flags: Flags, budget: nat) {
    match r
    case Matched => Matches(p, s, flags)
    case NoMatch => !Matches(p, s, flags) && !Overruns(p, s, flags)
    case Overrun => Overruns(p, s, flags)
    case NoResources => StarGroups(Tokens(p, flags)) >= budget
  }

  /** The function decides the relation. */
  lemma {:induction false} AnswerIsRight(p: seq<Char>, s: seq<Char>, flags: Flags, budget: nat)
    ensures Right(Answer(p, s, flags, budget), p, s, flags, budget)
    decreases budget, 1, |p|
  {
    hide Walk, Leads, Tokens;
    if budget > 0 {
      WalkIsRight(p, s, flags, budget);
    }
  }

  lemma {:induction false} WalkIsRight(p: seq<Char>, s: seq<Char>, flags: Flags, budget: nat)
    requires budget > 0
    ensures Right(Walk(p, s, flags, budget), p, s, flags, budget)
    decreases budget, 0, |p|
  {
    hide Each, Leads, Tokens, Takes, SlashAt, AfterStars, NoSlash, FirstToken, AfterToken;
    if p == [] {
      AtEnd(s, flags);
    } else if p[0] == STAR {
      var q := AfterStars(p);
      StarsAre(p, s, flags);
      if q == [] {
        NoTokens(flags);
        StarAtEnd(s, flags);
        assert [Star] + [] == [Star];
      } else if q[0] == SLASH && flags.pathname {
        NotAStar(q, flags);
        SlashDecides(Tokens(q, flags), s, flags, false);
        SlashDecides(Tokens(q, flags), s, flags, true);
        if SlashAt(s) < |s| {
          WalkIsRight(q, s[SlashAt(s)..], flags, budget);
        }
      } else {
        NotAStar(q, flags);
        EachIsRight(q, s, flags, budget - 1);
      }
    } else {
      OneToken(p, s, flags);
      if s != [] && Takes(FirstToken(p, flags), s[0], flags) {
        WalkIsRight(AfterToken(p, flags), s[1..], flags, budget);
      }
    }
  }

  /** What the retry loop says about the star and what follows it. */
  lemma {:induction false} EachIsRight(q: seq<Char>, s: seq<Char>, flags: Flags, budget: nat)
    requires q != [] && q[0] != STAR
    ensures var ts := Tokens(q, flags);
            match Each(q, s, flags, budget)
            case Matched => Match([Star] + ts, s, flags)
            case NoMatch => !Match([Star] + ts, s, flags) && !Leads([Star] + ts, s, flags, true)
            case Overrun => Leads([Star] + ts, s, flags, true)
            case NoResources => StarGroups(ts) >= budget
    decreases budget, 2, |s|
  {
    hide Answer, Leads, Tokens;
    var ts := Tokens(q, flags);
    if s == [] {
      NotAStar(q, flags);
      StarOnEmpty(ts, flags, false);
      StarOnEmpty(ts, flags, true);
      NeedsCharacter(ts, flags);
    } else {
      AnswerIsRight(q, s, flags, budget);
      StarTakesOne(ts, s, flags, false);
      StarTakesOne(ts, s, flags, true);
      if Answer(q, s, flags, budget) == NoMatch && !(s[0] == SLASH && flags.pathname) {
        EachIsRight(q, s[1..], flags, budget);
      }
    }
  }

  lemma AtEnd(s: seq<Char>, flags: Flags)
    ensures Matches([], s, flags) <==> s == [] || (flags.leadingDir && s[0] == SLASH)
    ensures !Overruns([], s, flags)
  {
  }

  lemma NoTokens(flags: Flags)
    ensures Tokens([], flags) == []
  {
  }

  /** Of a star and a slash that must be matched by a slash, the first slash is the one. */
  lemma SlashDecides(ts: seq<Token>, s: seq<Char>, flags: Flags, over: bool)
    requires ts != [] && ts[0] == Lit(SLASH) && flags.pathname
    ensures var j := SlashAt(s); Leads([Star] + ts, s, flags, over) <==> j < |s| && Leads(ts, s[j..], flags, over)
  {
    hide Leads;
    StarBeforeSlash(ts, s, flags, over);
    var j := SlashAt(s);
    if j == |s| {
      assert s[..j] == s;
    } else {
      assert FirstSlash(s, j);
    }
  }

  predicate SameRuns(p: seq<Char>, s: seq<Char>, q: seq<Char>, t: seq<Char>, flags: Flags) {
    (Matches(p, s, flags) <==> Matches(q, t, flags)) && (Overruns(p, s, flags) <==> Overruns(q, t, flags))
  }

  /** A token other than a star decides on one character, or on the end of the string. */
  lemma OneToken(p: seq<Char>, s: seq<Char>, flags: Flags)
    requires p != [] && p[0] != STAR
    ensures s != [] && Takes(FirstToken(p, flags), s[0], flags) ==> SameRuns(p, s, AfterToken(p, flags), s[1..], flags)
    ensures s == [] || !Takes(FirstToken(p, flags), s[0], flags) ==> !Matches(p, s, flags)
    ensures s == [] && FirstToken(p, flags) == Dangling ==> Overruns(p, s, flags)
    ensures !(s == [] && FirstToken(p, flags) == Dangling) && (s == [] || !Takes(FirstToken(p, flags), s[0], flags)) ==> !Overruns(p, s, flags)
    ensures StarGroups(Tokens(AfterToken(p, flags), flags)) <= StarGroups(Tokens(p, flags))
  {
    hide Takes, Tokens;
    TokensOf(p, flags);
    NotAStar(p, flags);
    GroupsShrink(Tokens(p, flags));
  }

  lemma NotAStar(p: seq<Char>, flags: Flags)
    requires p != [] && p[0] != STAR
    ensures Tokens(p, flags) != [] && !Tokens(p, flags)[0].Star?
    ensures p[0] == SLASH ==> Tokens(p, flags)[0] == Lit(SLASH)
  {
    TokensOf(p, flags);
  }

  /** A group of stars is one star, and counts once. */
  lemma {:induction false} StarsAre(p: seq<Char>, s: seq<Char>, flags: Flags)
    requires p != [] && p[0] == STAR
    ensures var ts := Tokens(AfterStars(p), flags);
            && (Matches(p, s, flags) <==> Match([Star] + ts, s, flags))
            && (Overruns(p, s, flags) <==> Leads([Star] + ts, s, flags, true))
            && StarGroups(Tokens(p, flags)) == StarGroups([Star] + ts) == StarGroups(ts) + 1
    decreases |p|
  {
    hide Leads, Tokens;
    TokensOf(p, flags);
    var ts := Tokens(AfterStars(p), flags);
    assert ([Star] + ts)[1..] == ts;
    if p[1..] != [] && p[1] == STAR {
      StarsAre(p[1..], s, flags);
      TokensOf(p[1..], flags);
      var more := Tokens(p[1..][1..], flags);
      assert Tokens(p[1..], flags) == [Star] + more;
      assert ([Star] + ([Star] + more))[1..] == [Star] + more;
      StarsCollapse(more, s, flags, false);
      StarsCollapse(more, s, flags, true);
    } else {
      if p[1..] != [] {
        NotAStar(p[1..], flags);
      }
      NoTokens(flags);
    }
  }

  lemma AnswerWalks(p: seq<Char>, s: seq<Char>, flags: Flags, budget: nat)
    ensures Answer(p, s, flags, budget) == if budget == 0 then NoResources else Walk(p, s, flags, budget)
  {
    hide Walk;
  }

  lemma WalkEnds(p: seq<Char>, s: seq<Char>, flags: Flags, budget: nat)
    requires budget > 0 && p == []
    ensures Walk(p, s, flags, budget) == if s == [] || (flags.leadingDir && s[0] == SLASH) then Matched else NoMatch
  {
  }

  lemma WalkOne(p: seq<Char>, s: seq<Char>, flags: Flags, budget: nat)
    requires budget > 0 && p != [] && p[0] != STAR
    ensures Walk(p, s, flags, budget)
         == if s == [] then if FirstToken(p, flags) == Dangling then Overrun else NoMatch
            else if Takes(FirstToken(p, flags), s[0], flags) then Walk(AfterToken(p, flags), s[1..], flags, budget)
            else NoMatch
  {
    hide Takes, FirstToken, AfterToken;
  }

  lemma OneFurther(s: seq<Char>, i: nat)
    requires i <= |s|
    ensures i < |s| ==> s[i..][1..] == s[i + 1..] && s[i..][0] == s[i]
    ensures s[i..] == [] <==> i == |s|
  {
  }

  // ---- The code ----

  /** fnmatchx. */
  method FnmatchX(p: seq<Char>, s: seq<Char>, start: nat, str0: nat, flags: Flags, recursion: nat) returns (r: Verdict)
    requires start <= |p| && str0 <= |s|
    ensures r == Answer(p[start..], s[str0..], flags, recursion)
    decreases recursion, 1
  {
    hide Answer, Walk;
    AnswerWalks(p[start..], s[str0..], flags, recursion);
    if recursion == 0 {
      return NoResources;
    }
    var pattern: nat, str: nat := start, str0;
    while pattern < |p|
      invariant pattern <= |p| && str <= |s|
      invariant Walk(p[start..], s[str0..], flags, recursion) == Walk(p[pattern..], s[str..], flags, recursion)
    {
      var stop;
      if p[pattern] == STAR {
        stop, pattern, str := AtStar(p, s, pattern, str, flags, recursion - 1);
      } else {
        stop, pattern, str := AtOther(p, s, pattern, str, flags, recursion);
      }
      if stop.Some? {
        return stop.value;
      }
    }
    WalkEnds(p[pattern..], s[str..], flags, recursion);
    OneFurther(s, str);
    if flags.leadingDir && At(s, str) == SLASH {
      return Matched;
    }
    r := if At(s, str) == EOS then Matched else NoMatch;
  }

  /** The other cases: a verdict, or where to go on. */
  method AtOther(p: seq<Char>, s: seq<Char>, pattern: nat, str: nat, flags: Flags, ghost budget: nat)
    returns (stop: Option<Verdict>, next: nat, str': nat)
    requires budget > 0 && pattern < |p| && str <= |s| && p[pattern] != STAR
    ensures stop.Some? ==> stop.value == Walk(p[pattern..], s[str..], flags, budget)
    ensures stop == None ==> pattern < next <= |p| && str' <= |s|
    ensures stop == None ==> Walk(p[pattern..], s[str..], flags, budget) == Walk(p[next..], s[str'..], flags, budget)
  {
    hide Walk, Takes, FirstToken, AfterToken;
    var took, over;
    took, over, next := TakeOne(p, s, pattern, str, flags);
    WalkOne(p[pattern..], s[str..], flags, budget);
    OneFurther(s, str);
    str' := str;
    if over {
      return Some(Overrun), next, str';
    }
    if !took {
      return Some(NoMatch), next, str';
    }
    stop, str' := None, str + 1;
  }

  /** The cases '?', '[', '\\' and default: whether the string's next character fits, and where the
      pattern goes on; `over` if the terminators of both are compared. */
  method TakeOne(p: seq<Char>, s: seq<Char>, pattern: nat, str: nat, flags: Flags) returns (took: bool, over: bool, next: nat)
    requires pattern < |p| && str <= |s| && p[pattern] != STAR
    ensures took == (str < |s| && Takes(FirstToken(p[pattern..], flags), s[str], flags))
    ensures over == (str == |s| && FirstToken(p[pattern..], flags) == Dangling)
    ensures took ==> pattern < next <= |p| && p[next..] == AfterToken(p[pattern..], flags)
  {
    assert p[pattern..][1..] == p[pattern + 1..];
    took, over, next := false, false, pattern + 1;
    var c := Fold(p[pattern], flags);
    if c == QUESTION {
      took := str < |s| && !(s[str] == SLASH && flags.pathname);
    } else if c == OPEN {
      if str == |s| || (s[str] == SLASH && flags.pathname) {
        return;
      }
      var r := RangeMatch(p, next, Fold(s[str], flags), flags);
      match r
      case Null =>
      case MinusOne => took := s[str] == OPEN;
      case Past(n) =>
        took := true;
        next := n;
    } else {
      if c == BACKSLASH && !flags.noEscape {
        c := Fold(At(p, next), flags);
        next := next + 1;
        if c == EOS {
          next := next - 1;
        } else {
          assert p[pattern..][2..] == p[next..];
        }
      }
      var same := c == Fold(At(s, str), flags);
      took, over := same && str < |s|, same && str == |s|;
    }
  }

  /** The case '*': a verdict, or where to go on. */
  method AtStar(p: seq<Char>, s: seq<Char>, start: nat, str: nat, flags: Flags, recursion: nat)
    returns (stop: Option<Verdict>, next: nat, str': nat)
    requires start < |p| && str <= |s| && p[start] == STAR
    ensures stop.Some? ==> stop.value == Walk(p[start..], s[str..], flags, recursion + 1)
    ensures stop == None ==> start < next <= |p| && str' <= |s|
    ensures stop == None ==> Walk(p[start..], s[str..], flags, recursion + 1) == Walk(p[next..], s[str'..], flags, recursion + 1)
    decreases recursion, 3
  {
    hide Each, AfterStars;
    str' := str;
    next := start + 1;
    OneMoreStar(p, start);
    while next < |p| && p[next] == STAR
      invariant start < next <= |p| && AfterStars(p[start..]) == AfterStars(p[next..])
    {
      OneMoreStar(p, next);
      next := next + 1;
    }
    StarsEnd(p[next..]);
    if next == |p| {
      var r := StarLast(s, str, flags);
      stop := Some(r);
      return;
    }
    if p[next] == SLASH && flags.pathname {
      var j := FindSlash(s, str);
      if j == |s| {
        return Some(NoMatch), next, str';
      }
      assert s[str..][j - str..] == s[j..];
      return None, next, j;
    }
    var r := TryEach(p, s, next, str, flags, recursion);
    stop := Some(r);
  }

  lemma OneMoreStar(p: seq<Char>, i: nat)
    requires i < |p| && p[i] == STAR
    ensures AfterStars(p[i..]) == AfterStars(p[i + 1..])
  {
    assert p[i..][1..] == p[i + 1..];
  }

  lemma StarsEnd(q: seq<Char>)
    requires q == [] || q[0] != STAR
    ensures AfterStars(q) == q
  {
  }

  /** A star at the end of the pattern. */
  method StarLast(s: seq<Char>, str: nat, flags: Flags) returns (r: Verdict)
    requires str <= |s|
    ensures r == if !flags.pathname || flags.leadingDir || NoSlash(s[str..]) then Matched else NoMatch
  {
    r := Matched;
    if flags.pathname {
      var j := FindSlash(s, str);
      assert j < |s| ==> s[str..][j - str] == SLASH;
      assert s[str..j] == s[str..][..j - str];
      if !flags.leadingDir && j < |s| {
        r := NoMatch;
      }
    }
  }

  /** The general case of '*': try the rest of the pattern at every place the star may reach. */
  method TryEach(p: seq<Char>, s: seq<Char>, pattern: nat, str0: nat, flags: Flags, recursion: nat) returns (r: Verdict)
    requires pattern <= |p| && str0 <= |s|
    ensures r == Each(p[pattern..], s[str0..], flags, recursion)
    decreases recursion, 2
  {
    hide Answer;
    var str: nat := str0;
    while str < |s|
      invariant str <= |s| && Each(p[pattern..], s[str0..], flags, recursion) == Each(p[pattern..], s[str..], flags, recursion)
    {
      var test := Fold(s[str], flags);
      var e := FnmatchX(p, s, pattern, str, flags, recursion);
      assert s[str..][1..] == s[str + 1..];
      if e != NoMatch {
        return e;
      }
      if test == SLASH && flags.pathname {
        return NoMatch;
      }
      str := str + 1;
    }
    r := NoMatch;
  }

  const BUDGET := 64

  /** fnmatch: with at most 63 groups of stars the answer is always the relation's, unless the
      pattern ends in a lone escape and what stands before it takes the string up. */
  method FnMatch(p: seq<Char>, s: seq<Char>, flags: Flags) returns (r: Verdict)
    ensures r == Answer(p, s, flags, 64) && Right(r, p, s, flags, 64)
    ensures StarGroups(Tokens(p, flags)) < 64 ==>
              r == if Matches(p, s, flags) then Matched else if Overruns(p, s, flags) then Overrun else NoMatch
  {
    assert p[0..] == p && s[0..] == s;
    r := FnmatchX(p, s, 0, 0, flags, BUDGET);
    AnswerIsRight(p, s, flags, BUDGET);
    OverNeedsDangling(Tokens(p, flags), s, flags);
  }

  // ---- The budget ----

  /** "*a", n times over. */
  function StarLetters(n: nat): seq<Char> { if n == 0 then [] else [STAR, LETTER] + StarLetters(n - 1) }

  function Letters(n: nat): seq<Char> { if n == 0 then [] else [LETTER] + Letters(n - 1) }

  const LETTER: Char := 97

  /** As many groups of stars as the budget are too many, although the string matches. */
  lemma {:induction false} BudgetRunsOut(n: nat, k: nat, flags: Flags)
    requires n <= k
    ensures Answer(StarLetters(n), Letters(k), flags, n) == NoResources
    decreases n
  {
    hide Walk, Each, FirstToken, AfterToken, Takes;
    if n > 0 {
      var p, s, q := StarLetters(n), Letters(k), [LETTER] + StarLetters(n - 1);
      assert p[1..] == q && s[1..] == Letters(k - 1) && q[1..] == StarLetters(n - 1);
      BudgetRunsOut(n - 1, k - 1, flags);
      LetterIsTaken(StarLetters(n - 1), flags);
      if n > 1 {
        WalkOne(q, s, flags, n - 1);
      }
      StarAnswers(q, s, flags, n);
      assert p == [STAR] + q;
    }
  }

  lemma LetterIsTaken(p: seq<Char>, flags: Flags)
    ensures Takes(FirstToken([LETTER] + p, flags), LETTER, flags) && AfterToken([LETTER] + p, flags) == p
  {
    assert ([LETTER] + p)[1..] == p;
  }

  /** What follows a star is asked first at the place of the star. */
  lemma StarAnswers(q: seq<Char>, s: seq<Char>, flags: Flags, budget: nat)
    requires budget > 0 && q != [] && q[0] != STAR && q[0] != SLASH && s != []
    requires Answer(q, s, flags, budget - 1) != NoMatch
    ensures Walk([STAR] + q, s, flags, budget) == Answer(q, s, flags, budget - 1)
  {
    hide Answer;
    assert ([STAR] + q)[1..] == q && AfterStars(q) == q;
    assert AfterStars([STAR] + q) == q;
    assert Each(q, s, flags, budget - 1) == Answer(q, s, flags, budget - 1);
  }
}
