/** What the conversions print, said on the printed characters: where blanks stand, which sign
    there is, and which number the digits read as. */
module FprintfMeaning {
  import opened Texts
  import opened Fprintf
  import opened FprintfFormat

  predicate Blank(s: string) { forall k :: 0 <= k < |s| ==> s[k] == ' ' }

  predicate IsBaseDigit(c: char, base: nat) {
    ('0' <= c <= '9' && c as nat - '0' as nat < base) || ('A' <= c <= 'F' && c as nat - 'A' as nat + 10 < base)
  }

  /** At least n digits, no zero too many in front, and the number they read as. */
  predicate Spells(digits: string, base: nat, n: nat, v: nat) {
    && n <= |digits| && digits != []
    && (forall k :: 0 <= k < |digits| ==> IsBaseDigit(digits[k], base))
    && Reads(digits, base) == v
    && (|digits| > n ==> |digits| == 1 || digits[0] != '0')
  }

  /** The argument word that an int is passed as. */
  function WordOf(i: int): (w: nat)
    requires -0x8000_0000 <= i < 0x8000_0000
    ensures w < WORD && Signed(w) == i
  {
    if i < 0 then i + 0x1_0000_0000 else i
  }

  lemma DigitIsOne(d: nat, base: nat)
    requires d < base <= 16
    ensures IsBaseDigit(DigitChar(d), base) && (d > 0 ==> DigitChar(d) != '0')
  {
  }

  lemma {:induction false} NumeralHasDigits(v: nat, base: nat, k: nat)
    requires 2 <= base <= 16
    ensures forall i :: 0 <= i < k ==> IsBaseDigit(Numeral(v, base, k)[i], base)
    decreases k
  {
    hide IsBaseDigit, DigitChar, Quotient, Remainder;
    if k > 0 {
      NumeralHasDigits(Quotient(v, base), base, k - 1);
      DigitIsOne(Remainder(v, base), base);
    }
  }

  /** A number that needs all its digits starts with one that is not zero. */
  lemma NumeralStart(v: nat, base: nat)
    requires 2 <= base <= 16 && DigitCount(v, base) > 1
    ensures Numeral(v, base, DigitCount(v, base))[0] != '0'
  {
    hide DigitChar, Quotient, Remainder, Power, DigitCount, Numeral, Times;
    var k := DigitCount(v, base);
    DigitCountFits(v, base);
    NumeralTop(v, base, k);
    var p := Power(base, k - 1);
    QuotientBelow(v, p, 1);
    TimesOne(p);
    DigitIsOne(Quotient(v, p), base);
  }

  lemma NumeralSpells(v: nat, base: nat, n: nat)
    requires 2 <= base <= 16
    ensures Spells(Numeral(v, base, Width(v, base, n)), base, n, v)
  {
    hide IsBaseDigit, Power, Numeral, DigitCount, Reads;
    var w := Width(v, base, n);
    NumeralHasDigits(v, base, w);
    WideEnough(v, base, n);
    NumeralReads(v, base, w);
    if w > n && w > 1 {
      NumeralStart(v, base);
    }
  }

  lemma {:induction false} RepeatIs(c: char, n: int)
    ensures forall k :: 0 <= k < |Repeat(c, n)| ==> Repeat(c, n)[k] == c
    decreases n
  {
    if n > 0 {
      RepeatIs(c, n - 1);
    }
  }

  lemma {:induction false} ZerosRead(n: int, s: string, base: nat)
    ensures Reads(Repeat('0', n) + s, base) == Reads(s, base)
    decreases |s|, n
  {
    hide Times;
    if s != [] {
      var t := Repeat('0', n) + s;
      assert t[..|t| - 1] == Repeat('0', n) + s[..|s| - 1];
      ZerosRead(n, s[..|s| - 1], base);
    } else if n > 0 {
      assert Repeat('0', n) + s == Repeat('0', n) && Repeat('0', n)[..n - 1] == Repeat('0', n - 1);
      assert Repeat('0', n - 1) + s == Repeat('0', n - 1);
      ZerosRead(n - 1, s, base);
      assert Times(base, 0) == 0 by { TimesOne(base); }
    } else {
      assert Repeat('0', n) + s == s;
    }
  }

  // ---- Numbers ----

  /** A number in its field: blanks, a sign, digits, blanks. */
  datatype Shape = Shape(before: string, sign: string, digits: string, after: string)

  function TextIn(x: Shape): string { x.before + x.sign + x.digits + x.after }

  /** The shape a number must have. Zeros fill a field that is neither justified to the left nor
      given a precision. */
  ghost predicate Proper(x: Shape, v: nat, base: nat, n: nat, width: nat, f: Flags) {
    var total := |x.before| + |x.sign| + |x.digits| + |x.after|;
    && Blank(x.before) && Blank(x.after)
    && (if f.leftJustify then x.before == "" else x.after == "")
    && total >= width && (total > width ==> x.before == "" && x.after == "")
    && (if f.padZero && !f.leftJustify && n == 0
        then x.before == "" && exists zeros: nat :: zeros <= |x.digits| && Filled(x.digits, zeros, base, v) && (zeros > 0 ==> total == width)
        else Spells(x.digits, base, n, v))
  }

  /** Zeros in front of a numeral that has none too many. */
  predicate Filled(digits: string, zeros: nat, base: nat, v: nat) {
    zeros <= |digits| && digits[..zeros] == Repeat('0', zeros) && Spells(digits[zeros..], base, 0, v) && Reads(digits, base) == v
  }

  lemma FilledUp(numeral: string, pad: int, base: nat, v: nat)
    requires Spells(numeral, base, 0, v)
    ensures Filled(Repeat('0', pad) + numeral, |Repeat('0', pad)|, base, v)
  {
    hide Spells;
    var digits := Repeat('0', pad) + numeral;
    ZerosRead(pad, numeral, base);
    assert digits[|Repeat('0', pad)|..] == numeral;
    assert Reads(numeral, base) == v by { SpellsReads(numeral, base, 0, v); }
    if pad < 0 {
      assert Repeat('0', pad) == Repeat('0', 0);
    }
  }

  lemma SpellsReads(digits: string, base: nat, n: nat, v: nat)
    requires Spells(digits, base, n, v)
    ensures Reads(digits, base) == v && n <= |digits|
  {
  }

  lemma IntShape(v: int, base: nat, n: nat, width: nat, f: Flags) returns (x: Shape)
    requires 2 <= base <= 16
    ensures Proper(x, Magnitude(v), base, n, width, f) && x.sign == Sign(v, f)
    ensures IntText(v, base, n, width, f) == TextIn(x)
  {
    hide Spells, Filled, Numeral, Repeat, Width, Sign;
    var w := Width(Magnitude(v), base, n);
    var numeral, pad := Numeral(Magnitude(v), base, w), width - w - |Sign(v, f)|;
    NumeralSpells(Magnitude(v), base, n);
    RepeatIs(' ', pad);
    Nothing(Sign(v, f));
    Nothing(Sign(v, f) + numeral);
    if f.leftJustify {
      x := Shape("", Sign(v, f), numeral, Repeat(' ', pad));
    } else if f.padZero && n == 0 {
      FilledUp(numeral, pad, base, Magnitude(v));
      x := Shape("", Sign(v, f), Repeat('0', pad) + numeral, "");
      Joins(Sign(v, f), Repeat('0', pad), numeral);
      Nothing(Sign(v, f) + x.digits);
    } else {
      x := Shape(Repeat(' ', pad), Sign(v, f), numeral, "");
      Nothing(Repeat(' ', pad) + Sign(v, f) + numeral);
    }
  }

  lemma UnsignedIsInt(v: nat, base: nat, n: nat, width: nat, f: Flags)
    requires 2 <= base <= 16
    ensures UnsignedText(v, base, n, width, f) == IntText(v, base, n, width, f.(printSign := false))
  {
    hide Numeral, Repeat, Width;
    var w := Width(v, base, n);
    Nothing(Numeral(v, base, w));
    Nothing(Repeat('0', width - w));
    Nothing(Repeat(' ', width - w));
  }

  // ---- Formats of one directive ----

  function One(f: Flags, width: nat, precision: Precision, kind: Char): Format { WriteAll([Conversion(f, width, precision, kind)]) }

  lemma OneMeans(f: Flags, width: nat, precision: Precision, kind: Char, args: seq<Arg>)
    requires WellFormed(Conversion(f, width, precision, kind))
    ensures Formatted(One(f, width, precision, kind), args) == Convert(kind, NumDigits(precision), width, f, args)
  {
    hide Convert, Write, Formatted;
    var ps := [Conversion(f, width, precision, kind)];
    assert ps[1..] == [];
    WrittenFormat(ps, args);
    var r := Convert(kind, NumDigits(precision), width, f, args);
    if r.Shown? {
      assert r.text + "" == r.text;
    }
  }

  /** %d and %i: the int is read back from the digits, with a minus exactly if it is negative, and
      a plus exactly if it is not and one is asked for. */
  lemma IntConversion(i: int, f: Flags, width: nat, precision: Precision, kind: Char) returns (x: Shape)
    requires -0x8000_0000 < i < 0x8000_0000 && kind in ['d', 'i'] && WellFormed(Conversion(f, width, precision, kind)) && Fits(10, NumDigits(precision))
    ensures Formatted(One(f, width, precision, kind), [Word(WordOf(i))]) == Shown(TextIn(x), [])
    ensures Proper(x, if i < 0 then -i else i, 10, NumDigits(precision), width, f)
    ensures x.sign == if i < 0 then "-" else if f.printSign then "+" else ""
  {
    hide IntText, Proper, Formatted, One, Fits, Spells, TextIn, UnsignedText;
    var args := [Word(WordOf(i))];
    assert args[1..] == [];
    OneMeans(f, width, precision, kind, args);
    x := IntShape(i, 10, NumDigits(precision), width, f);
  }

  /** In particular "%d". */
  lemma PlainInt(i: int) returns (digits: string)
    requires -0x8000_0000 < i < 0x8000_0000
    ensures Formatted("%d", [Word(WordOf(i))]) == Shown((if i < 0 then "-" else "") + digits, [])
    ensures Spells(digits, 10, 0, if i < 0 then -i else i)
  {
    assert One(NO_FLAGS, 0, Default, 'd') == "%d" by { JustKind(); }
    hide Formatted, One, Spells;
    var x := IntConversion(i, NO_FLAGS, 0, Default, 'd');
    digits := x.digits;
    Nothing(x.sign);
    Nothing(x.sign + digits);
  }

  lemma JustKind()
    ensures One(NO_FLAGS, 0, Default, 'd') == "%d"
  {
    var ps := [Conversion(NO_FLAGS, 0, Default, 'd')];
    assert ps[1..] == [] && WriteAll(ps[1..]) == "";
    assert ['%'] + ("" + ("" + ("" + (['d'] + "")))) == "%d";
  }

  /** %u, %x and %X: the word is read back from the digits; there is never a sign. */
  lemma WordConversion(w: nat, f: Flags, width: nat, precision: Precision, kind: Char) returns (x: Shape)
    requires w < 0x1_0000_0000 && kind in ['u', 'x', 'X'] && WellFormed(Conversion(f, width, precision, kind))
    requires Fits(if kind == 'u' then 10 else 16, NumDigits(precision))
    ensures Formatted(One(f, width, precision, kind), [Word(w)]) == Shown(TextIn(x), [])
    ensures Proper(x, w, if kind == 'u' then 10 else 16, NumDigits(precision), width, f) && x.sign == ""
  {
    hide IntText, Formatted, One, Fits, Spells, Filled, TextIn, UnsignedText, Blank;
    var args, base := [Word(w)], if kind == 'u' then 10 else 16;
    assert args[1..] == [];
    OneMeans(f, width, precision, kind, args);
    UnsignedIsInt(w, base, NumDigits(precision), width, f);
    x := IntShape(w, base, NumDigits(precision), width, f.(printSign := false));
  }

  /** %p: eight digits in base 16 behind 0x, whatever the flags. */
  lemma PointerConversion(w: nat, f: Flags, width: nat, precision: Precision) returns (digits: string)
    requires w < 0x1_0000_0000 && WellFormed(Conversion(f, width, precision, 'p'))
    ensures Formatted(One(f, width, precision, 'p'), [Word(w)]) == Shown("0x" + digits, [])
    ensures |digits| == 8 && Spells(digits, 16, 8, w)
  {
    hide Formatted, One, Spells, Numeral, Power, DigitCount;
    var args := [Word(w)];
    assert args[1..] == [];
    OneMeans(f, width, precision, 'p', args);
    NumeralSpells(w, 16, 8);
    EightAreEnough(w);
    digits := Numeral(w, 16, 8);
    RepeatNone(0);
    Nothing(digits);
  }

  lemma EightAreEnough(w: nat)
    requires w < WORD
    ensures DigitCount(w, 16) <= 8
  {
    hide DigitCount, Times;
    DigitCountFits(w, 16);
    if DigitCount(w, 16) > 8 {
      PowerGrows(16, 8, DigitCount(w, 16) - 1);
      SixteenToTheEighth();
    }
  }

  lemma SixteenToTheEighth()
    ensures Power(16, 8) == WORD
  {
    assert Power(16, 0) == 1 && Power(16, 1) == 16 && Power(16, 2) == 0x100 && Power(16, 3) == 0x1000;
    assert Power(16, 4) == 0x1_0000 && Power(16, 5) == 0x10_0000 && Power(16, 6) == 0x100_0000 && Power(16, 7) == 0x1000_0000;
  }

  /** %c: the character that the word's low byte is. */
  lemma CharConversion(c: Char, high: nat, f: Flags, width: nat, precision: Precision)
    requires c as nat < 256 && high < 0x100_0000 && WellFormed(Conversion(f, width, precision, 'c'))
    ensures Formatted(One(f, width, precision, 'c'), [Word(high * 256 + c as nat)]) == Shown([c], [])
  {
    hide Formatted, One;
    var args := [Word(high * 256 + c as nat)];
    assert args[1..] == [];
    OneMeans(f, width, precision, 'c', args);
  }

  /** %s: the string, with the blanks it takes to fill the field on one side. */
  lemma StringConversion(s: Format, f: Flags, width: nat, precision: Precision) returns (before: string, after: string)
    requires WellFormed(Conversion(f, width, precision, 's'))
    ensures Formatted(One(f, width, precision, 's'), [Chars(s)]) == Shown(before + s + after, [])
    ensures Blank(before) && Blank(after) && (if f.leftJustify then before == "" else after == "")
    ensures |before| + |s| + |after| == if width > |s| then width else |s|
  {
    hide Formatted, One, Repeat;
    var args := [Chars(s)];
    assert args[1..] == [];
    OneMeans(f, width, precision, 's', args);
    var pad := Repeat(' ', width - |s|);
    RepeatIs(' ', width - |s|);
    before, after := if f.leftJustify then "" else pad, if f.leftJustify then pad else "";
    Nothing(s);
    Nothing(pad + s);
  }

  /** %%: a percent sign, and no argument is taken. */
  lemma PercentConversion(f: Flags, width: nat, precision: Precision, args: seq<Arg>)
    requires WellFormed(Conversion(f, width, precision, '%'))
    ensures Formatted(One(f, width, precision, '%'), args) == Shown("%", args)
  {
    hide Formatted, One;
    OneMeans(f, width, precision, '%', args);
  }
}
