/** What a glob pattern means: its tokens, and when they match a string. */
module Glob {

  /** A character of a C string: never the terminator. */
  type Char = x: int | 0 < x < 256 witness 1

  /** FNM_NOESCAPE, FNM_PATHNAME, FNM_CASEFOLD and FNM_LEADING_DIR. */
  datatype Flags = Flags(noEscape: bool, pathname: bool, caseFold: bool, leadingDir: bool)

  const EOS := 0
  const SLASH := '/' as int
  const BACKSLASH := '\\' as int
  const OPEN := '[' as int
  const CLOSE := ']' as int
  const STAR := '*' as int
  const QUESTION := '?' as int
  const DASH := '-' as int
  const BANG := '!' as int
  const CARET := '^' as int

  /** What a pointer into the string reads: the terminator at its end. */
  function At(s: seq<Char>, i: nat): int
    requires i <= |s|
  {
    if i < |s| then s[i] else EOS
  }

  function Fold(c: int, flags: Flags): int {
    if flags.caseFold && 'A' as int <= c <= 'Z' as int then c + 32 else c
  }

  // ---- Bracket expressions ----

  datatype Item = One(c: int) | Range(lo: int, hi: int)

  /** The text after a '[': a set, or one that an unescaped '/' or the end of the pattern breaks off. */
  datatype Bracket = Closed(items: seq<Item>, rest: seq<Char>) | BrokenBySlash | Unfinished

  predicate IsEscape(c: int, flags: Flags) { c == BACKSLASH && !flags.noEscape }

  /** One item, from its first character on; it is neither ']' in closing position nor '/'. */
  datatype ItemRead = Item(item: Item, rest: seq<Char>) | NoItem

  function ReadItem(p: seq<Char>, flags: Flags): (r: ItemRead)
    ensures r.Item? ==> |r.rest| < |p|
  {
    if p == [] then NoItem
    else if IsEscape(p[0], flags) then
      if |p| == 1 then NoItem else ReadUpper(Fold(p[1], flags), p[2..], flags)
    else ReadUpper(Fold(p[0], flags), p[1..], flags)
  }

  /** The upper end of a range, if a '-' and more than the closing bracket follow. */
  function ReadUpper(lo: int, p: seq<Char>, flags: Flags): (r: ItemRead)
    ensures r.Item? ==> |r.rest| <= |p|
  {
    if |p| < 2 || p[0] != DASH || p[1] == CLOSE then Item(One(lo), p)
    else if !IsEscape(p[1], flags) then Item(Range(lo, Fold(p[1], flags)), p[2..])
    else if |p| == 2 then NoItem
    else Item(Range(lo, Fold(p[2], flags)), p[3..])
  }

  /** Items up to the closing bracket; a ']' in first position is an item. */
  function ReadItems(p: seq<Char>, first: bool, flags: Flags): (r: Bracket)
    ensures r.Closed? ==> |r.rest| < |p|
    decreases |p|
  {
    if p != [] && p[0] == CLOSE && !first then Closed([], p[1..])
    else if p != [] && p[0] == SLASH then BrokenBySlash
    else
      match ReadItem(p, flags)
      case NoItem => Unfinished
      case Item(item, rest) =>
        match ReadItems(rest, false, flags)
        case Closed(items, rest') => Closed([item] + items, rest')
        case other => other
  }

  predicate Negated(p: seq<Char>) { p != [] && (p[0] == BANG || p[0] == CARET) }

  function ReadBracket(p: seq<Char>, flags: Flags): (r: Bracket)
    ensures r.Closed? ==> |r.rest| < |p|
  {
    ReadItems(if Negated(p) then p[1..] else p, true, flags)
  }

  predicate InItem(item: Item, c: int) {
    match item case One(x) => c == x case Range(lo, hi) => lo <= c <= hi
  }

  predicate InItems(items: seq<Item>, c: int) { exists i :: 0 <= i < |items| && InItem(items[i], c) }

  // ---- Patterns ----

  /** A set that is never finished takes the rest of the pattern and matches nothing; Dangling is an escape with nothing behind it. */
  datatype Token = Lit(c: int) | Any | Star | Set(negate: bool, items: seq<Item>) | Never | Dangling

  function FirstToken(p: seq<Char>, flags: Flags): Token
    requires p != []
  {
    if p[0] == QUESTION then Any
    else if p[0] == STAR then Star
    else if p[0] == OPEN then
      match ReadBracket(p[1..], flags)
      case Closed(items, _) => Set(Negated(p[1..]), items)
      case BrokenBySlash => Lit(OPEN)
      case Unfinished => Never
    else if IsEscape(p[0], flags) then if |p| == 1 then Dangling else Lit(Fold(p[1], flags))
    else Lit(Fold(p[0], flags))
  }

  function AfterToken(p: seq<Char>, flags: Flags): (rest: seq<Char>)
    requires p != []
    ensures |rest| < |p|
  {
    if p[0] == OPEN then
      match ReadBracket(p[1..], flags)
      case Closed(_, rest) => rest
      case Unfinished => []
      case BrokenBySlash => p[1..]
    else if IsEscape(p[0], flags) && |p| > 1 then p[2..]
    else p[1..]
  }

  function Tokens(p: seq<Char>, flags: Flags): seq<Token>
    decreases |p|
  {
    if p == [] then [] else [FirstToken(p, flags)] + Tokens(AfterToken(p, flags), flags)
  }

  /** Runs of stars that something else follows or that end the pattern. */
  function StarGroups(ts: seq<Token>): nat {
    if ts == [] then 0
    else (if ts[0].Star? && !(|ts| > 1 && ts[1].Star?) then 1 else 0) + StarGroups(ts[1..])
  }

  // ---- Matching ----

  /** Whether a token takes character c. */
  predicate Takes(t: Token, c: Char, flags: Flags) {
    match t
    case Lit(x) => Fold(c, flags) == x
    case Any => !(flags.pathname && c == SLASH)
    case Set(negate, items) => !(flags.pathname && c == SLASH) && InItems(items, Fold(c, flags)) != negate
    case _ => false
  }

  predicate NoSlash(s: seq<Char>) { forall i :: 0 <= i < |s| ==> s[i] != SLASH }

  /** How tokens and a string can be used up together. A star stands for any run of characters
      (within a path component if slashes are special), every other token for one character. The
      run ends behind the last token, or, when it is to run over, at an escape with nothing
      behind it just as the string ends; a star is not tried there. */
  predicate Leads(ts: seq<Token>, s: seq<Char>, flags: Flags, over: bool)
    decreases |ts|
  {
    if ts == [] then !over && (s == [] || (flags.leadingDir && s[0] == SLASH))
    else if ts[0].Star? then
      exists k :: 0 <= k <= |s| && (over ==> k < |s|) && (flags.pathname ==> NoSlash(s[..k])) && Leads(ts[1..], s[k..], flags, over)
    else if s == [] then over && ts[0].Dangling?
    else Takes(ts[0], s[0], flags) && Leads(ts[1..], s[1..], flags, over)
  }

  predicate Match(ts: seq<Token>, s: seq<Char>, flags: Flags) { Leads(ts, s, flags, false) }

  /** The POSIX relation between a pattern and a string. */
  predicate Matches(p: seq<Char>, s: seq<Char>, flags: Flags) { Match(Tokens(p, flags), s, flags) }

  /** The terminators of both are compared, and the matcher goes on behind the string's. */
  predicate Overruns(p: seq<Char>, s: seq<Char>, flags: Flags) { Leads(Tokens(p, flags), s, flags, true) }

  // ---- Running over ----

  /** A token with a character to take is left when the string is used up. */
  lemma {:induction false} EmptyNeedsStars(ts: seq<Token>, flags: Flags)
    requires ts != [] && !ts[|ts| - 1].Star?
    ensures !Match(ts, [], flags)
    decreases |ts|
  {
    if ts[0].Star? {
      EmptyNeedsStars(ts[1..], flags);
      var e: seq<Char> := [];
      assert e[0..] == e;
    }
  }

  /** A lone escape at the end makes the matcher run over exactly when what stands before it
      matches the whole string and does not end in a star. */
  lemma {:induction false} RunsOverExactly(ts: seq<Token>, s: seq<Char>, flags: Flags)
    requires Dangling !in ts
    ensures Leads(ts + [Dangling], s, flags, true)
        <==> (ts == [] || !ts[|ts| - 1].Star?) && Match(ts, s, flags.(leadingDir := false))
    decreases |ts|
  {
    var all, whole := ts + [Dangling], flags.(leadingDir := false);
    if ts == [] {
      assert all == [Dangling];
    } else {
      assert all[1..] == ts[1..] + [Dangling];
      forall k | 0 <= k <= |s|
        ensures Leads(all[1..], s[k..], flags, true)
           <==> (ts[1..] == [] || !ts[|ts| - 1].Star?) && Match(ts[1..], s[k..], whole)
      {
        RunsOverExactly(ts[1..], s[k..], flags);
      }
      if ts[0].Star? {
        RunsOverBehindStar(ts, s, flags);
      } else if s != [] {
        assert Takes(ts[0], s[0], flags) <==> Takes(ts[0], s[0], whole);
      }
    }
  }

  lemma RunsOverBehindStar(ts: seq<Token>, s: seq<Char>, flags: Flags)
    requires ts != [] && ts[0].Star?
    requires forall k :: 0 <= k <= |s| ==>
      (Leads(ts[1..] + [Dangling], s[k..], flags, true) <==> (ts[1..] == [] || !ts[|ts| - 1].Star?) && Match(ts[1..], s[k..], flags.(leadingDir := false)))
    ensures Leads(ts + [Dangling], s, flags, true) <==> !ts[|ts| - 1].Star? && Match(ts, s, flags.(leadingDir := false))
  {
    var all, whole := ts + [Dangling], flags.(leadingDir := false);
    assert all[1..] == ts[1..] + [Dangling];
    if ts[1..] == [] {
      forall k | 0 <= k < |s| ensures !Leads(all[1..], s[k..], flags, true) {
        assert all[1..] == [Dangling];
      }
    } else if !ts[|ts| - 1].Star? {
      EmptyNeedsStars(ts[1..], whole);
      assert s[|s|..] == [];
    } else {
      forall k | 0 <= k <= |s| ensures !Leads(all[1..], s[k..], flags, true) {
      }
    }
  }

  lemma {:induction false} OverNeedsDangling(ts: seq<Token>, s: seq<Char>, flags: Flags)
    ensures Leads(ts, s, flags, true) ==> Dangling in ts
    ensures Match(ts, s, flags) ==> Dangling !in ts
    decreases |ts|
  {
    if ts != [] {
      forall k | 0 <= k <= |s|
        ensures Leads(ts[1..], s[k..], flags, true) ==> Dangling in ts[1..]
        ensures Match(ts[1..], s[k..], flags) ==> Dangling !in ts[1..]
      {
        OverNeedsDangling(ts[1..], s[k..], flags);
      }
      assert ts == [ts[0]] + ts[1..];
    }
  }

  // ---- Stars ----

  /** Where a leading star may end. */
  lemma StarSplits(ts: seq<Token>, s: seq<Char>, flags: Flags, over: bool, k: nat)
    requires k <= |s| && (over ==> k < |s|) && (flags.pathname ==> NoSlash(s[..k])) && Leads(ts, s[k..], flags, over)
    ensures Leads([Star] + ts, s, flags, over)
  {
    assert ([Star] + ts)[1..] == ts;
  }

  /** A star may take one more character first. */
  lemma StarTakesOne(ts: seq<Token>, s: seq<Char>, flags: Flags, over: bool)
    requires s != []
    ensures Leads([Star] + ts, s, flags, over)
        <==> Leads(ts, s, flags, over) || (!(flags.pathname && s[0] == SLASH) && Leads([Star] + ts, s[1..], flags, over))
  {
    hide Leads;
    if Leads([Star] + ts, s, flags, over) {
      StarUsed(ts, s, flags, over);
    }
    if Leads(ts, s, flags, over) {
      assert s[0..] == s;
      StarSplits(ts, s, flags, over, 0);
    }
    if !(flags.pathname && s[0] == SLASH) && Leads([Star] + ts, s[1..], flags, over) {
      StarLonger(ts, s, flags, over);
    }
  }

  lemma StarLonger(ts: seq<Token>, s: seq<Char>, flags: Flags, over: bool)
    requires s != [] && !(flags.pathname && s[0] == SLASH) && Leads([Star] + ts, s[1..], flags, over)
    ensures Leads([Star] + ts, s, flags, over)
  {
    assert ([Star] + ts)[1..] == ts;
    var t := s[1..];
    var k :| 0 <= k <= |t| && (over ==> k < |t|) && (flags.pathname ==> NoSlash(t[..k])) && Leads(ts, t[k..], flags, over);
    hide Leads;
    assert t[k..] == s[k + 1..];
    assert s[..k + 1] == [s[0]] + t[..k];
    StarSplits(ts, s, flags, over, k + 1);
  }

  lemma StarUsed(ts: seq<Token>, s: seq<Char>, flags: Flags, over: bool)
    requires s != [] && Leads([Star] + ts, s, flags, over)
    ensures Leads(ts, s, flags, over) || (!(flags.pathname && s[0] == SLASH) && Leads([Star] + ts, s[1..], flags, over))
  {
    assert ([Star] + ts)[1..] == ts;
    assert s[0..] == s;
    var k :| 0 <= k <= |s| && (over ==> k < |s|) && (flags.pathname ==> NoSlash(s[..k])) && Leads(ts, s[k..], flags, over);
    if k > 0 {
      assert s[..k][0] == s[0];
      assert s[1..][k - 1..] == s[k..];
      assert s[1..][..k - 1] == s[..k][1..];
      StarSplits(ts, s[1..], flags, over, k - 1);
    }
  }

  lemma StarOnEmpty(ts: seq<Token>, flags: Flags, over: bool)
    ensures Leads([Star] + ts, [], flags, over) <==> !over && Leads(ts, [], flags, over)
  {
    assert ([Star] + ts)[1..] == ts;
    var e: seq<Char> := [];
    assert e[0..] == e && e[..0] == e;
    if !over && Leads(ts, [], flags, over) {
      StarSplits(ts, e, flags, over, 0);
    }
  }

  /** Several stars in a row mean one. */
  lemma {:induction false} StarsCollapse(ts: seq<Token>, s: seq<Char>, flags: Flags, over: bool)
    ensures Leads([Star] + ([Star] + ts), s, flags, over) <==> Leads([Star] + ts, s, flags, over)
    decreases |s|
  {
    hide Leads;
    if s == [] {
      StarOnEmpty([Star] + ts, flags, over);
      StarOnEmpty(ts, flags, over);
    } else {
      StarTakesOne([Star] + ts, s, flags, over);
      StarTakesOne(ts, s, flags, over);
      StarsCollapse(ts, s[1..], flags, over);
    }
  }

  /** A star at the end takes whatever it may. */
  lemma {:induction false} StarAtEnd(s: seq<Char>, flags: Flags)
    ensures Match([Star], s, flags) <==> !flags.pathname || flags.leadingDir || NoSlash(s)
    ensures !Leads([Star], s, flags, true)
    decreases |s|
  {
    assert [Star] + [] == [Star];
    if s == [] {
      StarOnEmpty([], flags, false);
    } else {
      StarTakesOne([], s, flags, false);
      StarTakesOne([], s, flags, true);
      StarAtEnd(s[1..], flags);
      assert s == [s[0]] + s[1..];
    }
  }

  predicate FirstSlash(s: seq<Char>, j: nat) { j < |s| && s[j] == SLASH && NoSlash(s[..j]) }

  /** A star before a slash that must be matched by a slash stops at the first one. */
  lemma {:induction false} StarBeforeSlash(ts: seq<Token>, s: seq<Char>, flags: Flags, over: bool)
    requires ts != [] && ts[0] == Lit(SLASH) && flags.pathname
    ensures NoSlash(s) ==> !Leads([Star] + ts, s, flags, over)
    ensures forall j: nat :: FirstSlash(s, j) ==> (Leads([Star] + ts, s, flags, over) <==> Leads(ts, s[j..], flags, over))
    decreases |s|
  {
    if s == [] {
      StarOnEmpty(ts, flags, over);
    } else {
      StarTakesOne(ts, s, flags, over);
      StarBeforeSlash(ts, s[1..], flags, over);
      forall j: nat | FirstSlash(s, j) ensures Leads([Star] + ts, s, flags, over) <==> Leads(ts, s[j..], flags, over) {
        assert s[0..] == s;
        if j > 0 {
          assert s[..j][0] == s[0];
          assert s[1..][..j - 1] == s[..j][1..];
          assert FirstSlash(s[1..], j - 1);
          assert s[1..][j - 1..] == s[j..];
        }
      }
    }
  }

  /** Without stars in front the empty string can only be matched by the empty pattern. */
  lemma NeedsCharacter(ts: seq<Token>, flags: Flags)
    requires ts != [] && !ts[0].Star?
    ensures !Match(ts, [], flags)
  {
  }

  lemma TokensOf(p: seq<Char>, flags: Flags)
    requires p != []
    ensures Tokens(p, flags) == [FirstToken(p, flags)] + Tokens(AfterToken(p, flags), flags)
    ensures Tokens(p, flags)[1..] == Tokens(AfterToken(p, flags), flags)
  {
  }

  lemma GroupsShrink(ts: seq<Token>)
    requires ts != []
    ensures StarGroups(ts[1..]) <= StarGroups(ts)
    ensures ts[0].Star? && !(|ts| > 1 && ts[1].Star?) ==> StarGroups(ts) == StarGroups(ts[1..]) + 1
  {
  }
}
