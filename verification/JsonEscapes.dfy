/** When the buffer that parse_string counts before it decodes is large enough. */
module JsonEscapes {
  import opened Json

  // ---- The count goes along with the decoding ----

  /** The count passes exactly these characters: it meets no quote, and no backslash takes along
      what stands behind them. */
  predicate StepsOver(q: Text)
    decreases |q|
  {
    q == [] || (q[0] != '\"' && if q[0] == '\\' then |q| > 1 && StepsOver(q[2..]) else StepsOver(q[1..]))
  }

  /** Behind every "\u" of a string four characters are skipped, hex digits or not; the count steps
      over them as well. */
  predicate InStep(p: Text)
    decreases |p|
  {
    p != [] && p[0] != '\"' ==>
      if p[0] != '\\' then InStep(p[1..])
      else if |p| == 1 then false
      else if p[1] != 'u' then InStep(p[2..])
      else |p| >= 6 && StepsOver(p[2..6]) && InStep(p[6..])
  }

  lemma {:induction false} StepUnits(q: Text, r: Text)
    requires StepsOver(q)
    ensures Units(r) + (|q| + 1) / 2 <= Units(q + r) <= Units(r) + |q|
    ensures Escaped(q + r) <==> Escaped(r)
    decreases |q|
  {
    if q == [] {
      assert q + r == r;
    } else if q[0] == '\\' {
      assert (q + r)[2..] == q[2..] + r;
      StepUnits(q[2..], r);
    } else {
      assert (q + r)[1..] == q[1..] + r;
      StepUnits(q[1..], r);
    }
  }

  lemma {:induction false} HexSteps(q: Text)
    requires forall k :: 0 <= k < |q| ==> IsHex(q[k])
    ensures StepsOver(q)
    ensures forall r :: Units(q + r) == |q| + Units(r)
    decreases |q|
  {
    if q != [] {
      HexSteps(q[1..]);
      forall r ensures Units(q + r) == |q| + Units(r) {
        assert (q + r)[1..] == q[1..] + r;
      }
    } else {
      forall r ensures Units(q + r) == Units(r) {
        assert q + r == r;
      }
    }
  }

  /** What an escape contributes is never more than was counted for it. */
  lemma EscapeFits(p: Text)
    requires |p| >= 4 && StepsOver(p[..4])
    ensures Escaped(p[4..]) <==> Escaped(p)
    ensures Units(p[4..]) + 2 <= Units(p)
    ensures HasHex4(p) ==> Units(p[4..]) + 4 == Units(p)
  {
    hide StepsOver, Units, Escaped, IsHex;
    assert p == p[..4] + p[4..];
    StepUnits(p[..4], p[4..]);
    if HasHex4(p) {
      HexSteps(p[..4]);
    }
  }

  /** The bytes of a code point never need more room than was counted for its escape, or for the
      two of a pair. */
  lemma UnicodeUnits(p: Text)
    requires |p| >= 4 && StepsOver(p[..4]) && InStep(p[4..])
    ensures Unicode(p).Ok? && InStep(Unicode(p).rest)
    ensures |Unicode(p).value| + Units(Unicode(p).rest) <= 1 + Units(p)
    ensures Escaped(Unicode(p).rest) ==> Escaped(p)
  {
    hide InStep, StepsOver, Units, Escaped, Utf8;
    EscapeFits(p);
    var uc, q := Hex4(p), p[4..];
    if HighSurrogate(uc) && StartsWith(q, "\\u") {
      assert q[0] == '\\' && q[1] == 'u' by { assert q[..2] == "\\u"; }
      PairStep(q);
      assert q[2..] == p[6..] && q[6..] == p[10..] && q[2..6] == p[6..][..4] && p[6..][4..] == p[10..];
      EscapeFits(p[6..]);
    }
    Utf8Sizes(p);
  }

  lemma PairStep(q: Text)
    requires |q| > 1 && q[0] == '\\' && q[1] == 'u' && InStep(q)
    ensures |q| >= 6 && StepsOver(q[2..6]) && InStep(q[6..])
    ensures Units(q) == 1 + Units(q[2..]) && (Escaped(q) <==> Escaped(q[2..]))
  {
  }

  lemma Utf8Sizes(p: Text)
    requires Unicode(p).Ok?
    ensures !HasHex4(p) ==> Unicode(p).value == []
    ensures |Unicode(p).value| <= 4
  {
    hide Utf8;
  }

  /** A string that the count goes along with is always parsed: nothing is read behind the
      terminator, and the buffer suffices. */
  lemma {:induction false} InStepFits(p: Text)
    requires InStep(p)
    ensures StringBody(p).Ok? && |StringBody(p).value| <= Units(p) && Escaped(p)
    decreases |p|
  {
    hide Unicode, StepsOver;
    if p != [] && p[0] != '\"' {
      if p[0] != '\\' {
        InStepFits(p[1..]);
      } else if p[1] != 'u' {
        InStepFits(p[2..]);
      } else {
        assert p[2..][..4] == p[2..6] && p[2..][4..] == p[6..];
        UnicodeUnits(p[2..]);
        InStepFits(Unicode(p[2..]).rest);
      }
    }
  }

  /** Which is to say that such a string has a defined result. */
  lemma InStepParses(p: Text)
    requires InStep(p)
    ensures ParseString(['\"'] + p).Ok?
  {
    hide InStep, StringBody, Units, Escaped;
    assert (['\"'] + p)[1..] == p;
    InStepFits(p);
  }

  // ---- Where the two part ----

  /** The count stops at a quote among these characters. */
  predicate Stops(q: Text)
    decreases |q|
  {
    q != [] && (q[0] == '\"' || if q[0] == '\\' then |q| > 1 && Stops(q[2..]) else Stops(q[1..]))
  }

  lemma {:induction false} StepsOrNot(q: Text)
    ensures StepsOver(q) || Stops(q) || !Escaped(q)
    decreases |q|
  {
    if q != [] && q[0] != '\"' {
      if q[0] != '\\' {
        StepsOrNot(q[1..]);
      } else if |q| > 1 {
        StepsOrNot(q[2..]);
      }
    }
  }

  lemma {:induction false} StopUnits(q: Text, r: Text)
    requires Stops(q)
    ensures Units(q + r) <= |q| && exists k :: 0 <= k < |q| && q[k] == '\"'
    decreases |q|
  {
    if q[0] != '\"' {
      var n := if q[0] == '\\' then 2 else 1;
      assert (q + r)[n..] == q[n..] + r;
      StopUnits(q[n..], r);
      var k :| 0 <= k < |q[n..]| && q[n..][k] == '\"';
      assert q[k + n] == '\"';
    } else {
      assert q[0] == '\"';
    }
  }

  /** Characters and escapes that the count goes along with, without a closing quote. */
  predicate Whole(p: Text)
    decreases |p|
  {
    p == [] || (p[0] != '\"' &&
      if p[0] != '\\' then Whole(p[1..])
      else |p| > 1 && if p[1] != 'u' then Whole(p[2..]) else |p| >= 6 && StepsOver(p[2..6]) && Whole(p[6..]))
  }

  lemma {:induction false} WholeInFront(front: Text, p: Text)
    requires Whole(front) && InStep(p)
    ensures InStep(front + p)
    decreases |front|
  {
    hide StepsOver;
    if front == [] {
      assert front + p == p;
    } else {
      var n := if front[0] != '\\' then 1 else if front[1] != 'u' then 2 else 6;
      assert (front + p)[n..] == front[n..] + p;
      assert n == 6 ==> (front + p)[2..6] == front[2..6];
      WholeInFront(front[n..], p);
    }
  }

  lemma {:induction false} WholeSteps(p: Text)
    requires Whole(p)
    ensures StepsOver(p)
    decreases |p|
  {
    if p != [] {
      if p[0] != '\\' {
        WholeSteps(p[1..]);
      } else if p[1] != 'u' {
        WholeSteps(p[2..]);
      } else {
        WholeSteps(p[6..]);
        StepsJoin(p[2..6], p[6..]);
        assert p[2..6] + p[6..] == p[2..];
      }
    }
  }

  lemma {:induction false} StepsJoin(q: Text, r: Text)
    requires StepsOver(q) && StepsOver(r)
    ensures StepsOver(q + r)
    decreases |q|
  {
    if q == [] {
      assert q + r == r;
    } else {
      var n := if q[0] == '\\' then 2 else 1;
      assert (q + r)[n..] == q[n..] + r;
      StepsJoin(q[n..], r);
    }
  }

  /** An escape whose four characters are q. */
  function EscapeOf(q: Text): Text { ['\\', 'u'] + q }

  function Exes(n: nat): (s: Text)
    ensures |s| == n
  {
    if n == 0 then [] else ['x'] + Exes(n - 1)
  }

  lemma {:induction false} ExesDecode(n: nat)
    ensures StringBody(Exes(n)) == Ok(Exes(n), []) && InStep(Exes(n))
  {
    if n > 0 {
      assert Exes(n)[1..] == Exes(n - 1);
      ExesDecode(n - 1);
    }
  }

  /** Behind a skipped quote everything is still decoded. */
  lemma {:induction false} DecodesOn(front: Text, q: Text, n: nat)
    requires Whole(front) && |q| == 4 && Stops(q)
    ensures var r := StringBody(front + (EscapeOf(q) + Exes(n))); r.Ok? && |r.value| >= n
    decreases |front|
  {
    hide StepsOver, Stops, Utf8, Exes;
    var t := EscapeOf(q) + Exes(n);
    var p := front + t;
    if front == [] {
      assert p == t && p[2..] == q + Exes(n) && p[2..][4..] == Exes(n);
      QuoteIsNoHex(q, Exes(n));
      ExesDecode(n);
    } else if front[0] != '\\' {
      assert p[1..] == front[1..] + t;
      DecodesOn(front[1..], q, n);
    } else if front[1] != 'u' {
      assert p[2..] == front[2..] + t;
      DecodesOn(front[2..], q, n);
    } else {
      SkipsWhole(front, q, n);
      ExesDecode(n);
      var rest := Unicode(p[2..]).rest;
      if rest != Exes(n) {
        var k: nat :| 6 <= k <= |front| && Whole(front[k..]) && rest == front[k..] + t;
        DecodesOn(front[k..], q, n);
      }
    }
  }

  lemma QuoteIsNoHex(q: Text, r: Text)
    requires |q| == 4 && Stops(q)
    ensures Hex4(q + r) == 0
  {
    StopUnits(q, r);
    var k :| 0 <= k < |q| && q[k] == '\"';
    assert (q + r)[k] == '\"';
  }

  lemma UnicodeRest(p: Text)
    requires |p| >= 4 && (StartsWith(p[4..], "\\u") ==> |p| >= 10)
    ensures Unicode(p).Ok? && (Unicode(p).rest == p[4..] || (StartsWith(p[4..], "\\u") && Unicode(p).rest == p[10..]))
  {
    hide Utf8;
  }

  lemma StartsEscape(p: Text)
    requires StartsWith(p, "\\u")
    ensures |p| > 1 && p[0] == '\\' && p[1] == 'u'
  {
    assert p[..2] == "\\u";
  }

  lemma DropPast(a: Text, b: Text, n: nat)
    requires n <= |a|
    ensures (a + b)[n..] == a[n..] + b
  {
  }

  lemma SecondEscape(back: Text, t: Text)
    requires Whole(back) && back != [] && StartsWith(back + t, "\\u")
    ensures |back| >= 6 && Whole(back[6..]) && (back + t)[6..] == back[6..] + t
  {
    StartsEscape(back + t);
    assert back[0] == (back + t)[0];
    assert |back| > 1;
    assert back[1] == (back + t)[1];
    FirstEscape(back);
    hide *;
    DropPast(back, t, 6);
  }

  lemma FirstEscape(front: Text)
    requires Whole(front) && |front| > 1 && front[0] == '\\' && front[1] == 'u'
    ensures |front| >= 6 && Whole(front[6..])
  {
  }

  /** An escape in front, alone or as the first of a pair, leaves a whole part in front, or takes
      the broken one along as its second. */
  lemma SkipsWhole(front: Text, q: Text, n: nat)
    requires Whole(front) && |front| > 1 && front[0] == '\\' && front[1] == 'u' && |q| == 4
    ensures var t := EscapeOf(q) + Exes(n);
            var u := Unicode((front + t)[2..]);
            u.Ok? && (u.rest == Exes(n) || exists k: nat :: 6 <= k <= |front| && Whole(front[k..]) && u.rest == front[k..] + t)
  {
    hide Whole, Exes, Unicode, StartsWith;
    FirstEscape(front);
    var t, back := EscapeOf(q) + Exes(n), front[6..];
    var p := (front + t)[2..];
    DropPast(front, t, 6);
    assert p[4..] == back + t && p[10..] == (back + t)[6..];
    UnicodeRest(p);
    hide EscapeOf;
    if back == [] {
      assert (back + t)[6..] == t[6..] == Exes(n) by { EscapeIsSix(q, Exes(n)); assert back + t == t; }
      assert front[6..] == [];
    } else if StartsWith(back + t, "\\u") {
      SecondEscape(back, t);
      assert back[6..] == front[12..];
    }
  }

  lemma EscapeIsSix(q: Text, r: Text)
    requires |q| == 4
    ensures |EscapeOf(q)| == 6 && (EscapeOf(q) + r)[6..] == r
  {
  }

  /** A quote that the count stops at, but the decoding does not, overruns the buffer if enough
      follows; a backslash that takes along the terminator is undefined by itself. */
  lemma OutOfStep(front: Text, q: Text) returns (rest: Text)
    requires Whole(front) && |q| == 4 && !StepsOver(q)
    ensures InStep(rest) && ParseString(['\"'] + (front + (EscapeOf(q) + rest))) == Undefined
  {
    hide InStep, StringBody, Exes, Whole;
    StepsOrNot(q);
    WholeSteps(front);
    if Stops(q) {
      var n := |front| + 6;
      rest := Exes(n);
      ExesDecode(n);
      DecodesOn(front, q, n);
      StepUnits(front, EscapeOf(q) + rest);
      StopUnits(q, rest);
      assert (EscapeOf(q) + rest)[2..] == q + rest;
    } else {
      rest := [];
      ExesDecode(0);
      assert Exes(0) == [];
      assert EscapeOf(q) + rest == EscapeOf(q) && EscapeOf(q)[2..] == q;
      StepUnits(front, EscapeOf(q));
    }
    hide StepsOver, Stops, Units, Escaped, EscapeOf;
    var body := front + (EscapeOf(q) + rest);
    assert (['\"'] + body)[1..] == body;
  }

  /** Behind whatever went well, an escape is safe whatever follows it exactly when the count
      steps over the four characters that are skipped: no quote among them that it stops at, and
      no backslash at their end that it pairs with what comes next. */
  lemma CountSufficesExactly(front: Text, q: Text)
    requires Whole(front) && |q| == 4
    ensures StepsOver(q)
       <==> forall rest: Text :: InStep(rest) ==> ParseString(['\"'] + (front + (EscapeOf(q) + rest))) != Undefined
  {
    hide Whole, ParseString;
    if StepsOver(q) {
      forall rest: Text | InStep(rest) ensures ParseString(['\"'] + (front + (EscapeOf(q) + rest))) != Undefined {
        EscapeInFront(q, rest);
        WholeInFront(front, EscapeOf(q) + rest);
        InStepParses(front + (EscapeOf(q) + rest));
      }
    } else {
      var rest := OutOfStep(front, q);
      assert InStep(rest) && ParseString(['\"'] + (front + (EscapeOf(q) + rest))) == Undefined;
    }
  }

  lemma EscapeInFront(q: Text, rest: Text)
    requires |q| == 4 && StepsOver(q) && InStep(rest)
    ensures InStep(EscapeOf(q) + rest)
  {
    hide StepsOver;
    var p := EscapeOf(q) + rest;
    assert p[2..6] == q && p[6..] == rest;
  }

  // ---- Two inputs ----

  /** Behind a broken escape four characters are lost, whatever they are. */
  lemma BrokenEscapeIsSkipped(a: Char, b: Char, c: Char, d: Char, p: Text)
    requires !HasHex4([a, b, c, d])
    ensures StringBody(['\\', 'u', a, b, c, d] + p) == StringBody(p)
  {
    var q := ['\\', 'u', a, b, c, d] + p;
    assert q[2..][4..] == p;
    assert Unicode(q[2..]) == Ok([], p);
    PrependNothing(StringBody(p));
  }

  /** A quote among them ends the count, but not the decoding: the buffer is too small for two
      more characters. */
  lemma SkippedQuoteOverruns(b: Char, c: Char, d: Char, e: Char, f: Char, p: Text)
    requires e != '\"' && e != '\\' && f != '\"' && f != '\\'
    ensures ParseString(['\"', '\\', 'u', '\"', b, c, d, e, f] + p) == Undefined
  {
    var q: Text := [e, f] + p;
    var body := ['\\', 'u', '\"', b, c, d] + q;
    assert (['\"', '\\', 'u', '\"', b, c, d, e, f] + p)[1..] == body;
    BrokenEscapeIsSkipped('\"', b, c, d, q);
    assert q[1..] == [f] + p && q[1..][1..] == p;
    assert StringBody(q) == Prepend([e], Prepend([f], StringBody(p)));
    assert body[2..][0] == '\"';
    hide StringBody;
    assert Units(body) == 1;
  }
}
