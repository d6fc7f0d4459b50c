/** Integer and string formatting of nrf_fprintf over a small buffer that is flushed when full. */
module Fprintf {
  import opened Texts

  datatype Flags = Flags(leftJustify: bool, padZero: bool, printSign: bool)

  // ---- Numerals ----

  function DigitChar(d: nat): char
    requires d < 16
  {
    if d < 10 then ('0' as int + d) as char else ('A' as int + d - 10) as char
  }

  function DigitValue(c: char): nat { if '0' <= c <= '9' then c as nat - '0' as nat else if 'A' <= c <= 'F' then c as nat - 'A' as nat + 10 else 0 }

  /** Products and quotients under a name, so that proofs meet them only where they are needed. */
  function Times(a: nat, b: nat): nat { a * b }

  function Quotient(a: nat, b: nat): nat
    requires b > 0
  {
    a / b
  }

  function Remainder(a: nat, b: nat): (r: nat)
    requires b > 0
    ensures r < b
  {
    a % b
  }

  function Power(base: nat, k: nat): nat { if k == 0 then 1 else Times(base, Power(base, k - 1)) }

  /** The lowest k digits. */
  function Numeral(v: nat, base: nat, k: nat): (s: string)
    requires 2 <= base <= 16
    ensures |s| == k
  {
    if k == 0 then [] else Numeral(Quotient(v, base), base, k - 1) + [DigitChar(Remainder(v, base))]
  }

  function Reads(s: string, base: nat): nat {
    if s == [] then 0 else Times(base, Reads(s[..|s| - 1], base)) + DigitValue(s[|s| - 1])
  }

  /** How many digits a number has; zero has one. */
  function DigitCount(v: nat, base: nat): (n: nat)
    requires base >= 2
    ensures n >= 1
    decreases v
  {
    if v < base then 1 else
      Smaller(v, base);
      DigitCount(Quotient(v, base), base) + 1
  }

  lemma Smaller(v: nat, base: nat)
    requires v >= base >= 2
    ensures Quotient(v, base) < v
  {
    var q := v / base;
    assert q * base <= v;
    assert q > 0 ==> 2 * q <= q * base;
  }

  lemma Divided(v: nat, base: nat)
    requires base > 0
    ensures v == Times(base, Quotient(v, base)) + Remainder(v, base)
  {
  }

  lemma TimesOrder(base: nat, p: nat, q: nat)
    requires p <= q
    ensures Times(base, p) <= Times(base, q)
  {
  }

  lemma TimesNext(base: nat, p: nat)
    ensures Times(base, p + 1) == Times(base, p) + base
  {
  }

  lemma TimesOne(base: nat)
    ensures Times(base, 1) == base && Times(1, base) == base && Times(0, base) == 0 && Times(base, 0) == 0
  {
  }

  lemma TimesSwaps(a: nat, b: nat)
    ensures Times(a, b) == Times(b, a)
  {
  }

  lemma TimesShuffles(a: nat, b: nat, c: nat, d: nat)
    ensures Times(a, Times(b, c) + d) == Times(Times(a, b), c) + Times(a, d)
  {
    assert a * (b * c + d) == a * (b * c) + a * d;
    assert a * (b * c) == a * b * c;
  }

  /** Quotient and remainder are the only ones there are. */
  lemma Unique(x: nat, d: nat, q: nat, r: nat)
    requires d > 0 && r < d && x == Times(d, q) + r
    ensures Quotient(x, d) == q && Remainder(x, d) == r
  {
    var q1 := Quotient(x, d);
    Divided(x, d);
    hide Times, Quotient, Remainder;
    if q1 < q {
      TimesOrder(d, q1 + 1, q);
      TimesNext(d, q1);
    } else if q < q1 {
      TimesOrder(d, q + 1, q1);
      TimesNext(d, q);
    }
  }

  /** A quotient is small exactly when the number is. */
  lemma QuotientBelow(v: nat, base: nat, p: nat)
    requires base > 0
    ensures Quotient(v, base) < p <==> v < Times(base, p)
  {
    Divided(v, base);
    hide Times, Quotient, Remainder;
    var q := Quotient(v, base);
    if q < p {
      TimesOrder(base, q + 1, p);
      TimesNext(base, q);
    } else {
      TimesOrder(base, p, q);
    }
  }

  /** A numeral that is wide enough reads as the number. */
  lemma {:induction false} NumeralReads(v: nat, base: nat, k: nat)
    requires 2 <= base <= 16 && v < Power(base, k)
    ensures Reads(Numeral(v, base, k), base) == v
    decreases k
  {
    hide Times, Quotient, Remainder, DigitChar, DigitValue;
    if k > 0 {
      QuotientBelow(v, base, Power(base, k - 1));
      NumeralReads(Quotient(v, base), base, k - 1);
      var s := Numeral(v, base, k);
      assert s[..|s| - 1] == Numeral(Quotient(v, base), base, k - 1);
      DigitReads(Remainder(v, base));
      Divided(v, base);
    }
  }

  lemma DigitReads(d: nat)
    requires d < 16
    ensures DigitValue(DigitChar(d)) == d
  {
  }

  /** DigitCount is the least width that holds the number. */
  lemma {:induction false} DigitCountFits(v: nat, base: nat)
    requires base >= 2
    ensures v < Power(base, DigitCount(v, base))
    ensures DigitCount(v, base) > 1 ==> v >= Power(base, DigitCount(v, base) - 1)
    decreases v
  {
    hide Times, Quotient, Remainder, Power;
    PowerStep(base, 1);
    TimesOne(base);
    if v >= base {
      Smaller(v, base);
      var q := Quotient(v, base);
      var n := DigitCount(q, base);
      DigitCountFits(q, base);
      QuotientBelow(v, base, Power(base, n));
      PowerStep(base, n + 1);
      if n > 1 {
        QuotientBelow(v, base, Power(base, n - 1));
        PowerStep(base, n);
      }
    }
  }

  lemma PowerStep(base: nat, k: nat)
    requires k > 0
    ensures Power(base, k) == Times(base, Power(base, k - 1)) && Power(base, 0) == 1
  {
  }

  function Repeat(c: char, n: int): (s: string)
    ensures |s| == if n < 0 then 0 else n
  {
    if n <= 0 then [] else Repeat(c, n - 1) + [c]
  }

  function Max(a: int, b: int): int { if a >= b then a else b }

  /** The digits that are printed: at least the precision. */
  function Width(v: nat, base: nat, numDigits: nat): (w: nat)
    requires base >= 2
    ensures w >= 1
  {
    Max(numDigits, DigitCount(v, base))
  }

  function UnsignedText(v: nat, base: nat, numDigits: nat, fieldWidth: nat, f: Flags): string
    requires 2 <= base <= 16
  {
    var w := Width(v, base, numDigits);
    var digits := Numeral(v, base, w);
    if f.leftJustify then digits + Repeat(' ', fieldWidth - w)
    else Repeat(if f.padZero && numDigits == 0 then '0' else ' ', fieldWidth - w) + digits
  }

  function Sign(v: int, f: Flags): string { if v < 0 then "-" else if f.printSign then "+" else "" }

  function Magnitude(v: int): nat { if v < 0 then -v else v }

  function IntText(v: int, base: nat, numDigits: nat, fieldWidth: nat, f: Flags): string
    requires 2 <= base <= 16
  {
    var w := Width(Magnitude(v), base, numDigits);
    var digits, pad := Numeral(Magnitude(v), base, w), fieldWidth - w - |Sign(v, f)|;
    if f.leftJustify then Sign(v, f) + digits + Repeat(' ', pad)
    else if f.padZero && numDigits == 0 then Sign(v, f) + Repeat('0', pad) + digits
    else Repeat(' ', pad) + Sign(v, f) + digits
  }

  /** The digits of a printed number read as its magnitude. */
  lemma PrintedDigitsRead(v: int, base: nat, numDigits: nat)
    requires 2 <= base <= 16
    ensures Reads(Numeral(Magnitude(v), base, Width(Magnitude(v), base, numDigits)), base) == Magnitude(v)
  {
    var m, w := Magnitude(v), Width(Magnitude(v), base, numDigits);
    DigitCountFits(m, base);
    PowerGrows(base, DigitCount(m, base), w);
    NumeralReads(m, base, w);
  }

  /** A field is as wide as asked for, or as its content needs. */
  lemma IntTextWidth(v: int, base: nat, numDigits: nat, fieldWidth: nat, f: Flags)
    requires 2 <= base <= 16
    ensures |IntText(v, base, numDigits, fieldWidth, f)| == Max(fieldWidth, |Sign(v, f)| + Width(Magnitude(v), base, numDigits))
  {
  }

  lemma {:induction false} PowerGrows(base: nat, j: nat, k: nat)
    requires base >= 1 && j <= k
    ensures 1 <= Power(base, j) <= Power(base, k)
    decreases k
  {
    hide Times;
    if k > 0 {
      PowerGrows(base, if j < k then j else k - 1, k - 1);
      var p := Power(base, k - 1);
      TimesSwaps(base, p);
      TimesOne(p);
      TimesOrder(p, 1, base);
    }
  }

  function TextOf(s: string, fieldWidth: nat, f: Flags): string {
    if f.leftJustify then s + Repeat(' ', fieldWidth - |s|) else Repeat(' ', fieldWidth - |s|) + s
  }

  // ---- Digits from the top ----

  /** The most significant of k digits first, the way the output loop finds them. */
  lemma {:induction false} NumeralTop(v: nat, base: nat, k: nat)
    requires 2 <= base <= 16 && k > 0 && v < Power(base, k)
    ensures Power(base, k - 1) > 0 && Quotient(v, Power(base, k - 1)) < base
    ensures Numeral(v, base, k)
         == [DigitChar(Quotient(v, Power(base, k - 1)))] + Numeral(Remainder(v, Power(base, k - 1)), base, k - 1)
    decreases k
  {
    hide Times, Quotient, Remainder, DigitChar, Power;
    var p := Power(base, k - 1);
    PowerGrows(base, k - 1, k - 1);
    PowerStep(base, k);
    TimesSwaps(base, p);
    QuotientBelow(v, p, base);
    if k == 1 {
      TimesOne(base);
      TimesOne(v);
      Unique(v, 1, v, 0);
      Unique(v, base, 0, v);
      assert Numeral(v, base, 1) == Numeral(Quotient(v, base), base, 0) + [DigitChar(Remainder(v, base))];
    } else {
      var q := Power(base, k - 2);
      PowerGrows(base, k - 2, k - 2);
      PowerStep(base, k - 1);
      QuotientBelow(v, base, p);
      NumeralTop(Quotient(v, base), base, k - 1);
      NestedDivision(v, base, q);
      NumeralStep(v, base, k);
      NumeralStep(Remainder(v, p), base, k - 1);
    }
  }

  lemma NumeralStep(v: nat, base: nat, k: nat)
    requires 2 <= base <= 16 && k > 0
    ensures Numeral(v, base, k) == Numeral(Quotient(v, base), base, k - 1) + [DigitChar(Remainder(v, base))]
  {
  }

  /** Splitting off the low digit and the high digit commute. */
  lemma NestedDivision(v: nat, base: nat, q: nat)
    requires base > 0 && q > 0
    ensures Times(base, q) > 0 && Quotient(Quotient(v, base), q) == Quotient(v, Times(base, q))
    ensures Quotient(Remainder(v, Times(base, q)), base) == Remainder(Quotient(v, base), q)
    ensures Remainder(Remainder(v, Times(base, q)), base) == Remainder(v, base)
  {
    hide Times, Quotient, Remainder;
    var a, r := Quotient(v, base), Remainder(v, base);
    var h, m := Quotient(a, q), Remainder(a, q);
    Divided(v, base);
    Divided(a, q);
    TimesShuffles(base, q, h, m);
    TimesOrder(base, m + 1, q);
    TimesNext(base, m);
    TimesOrder(base, 1, q);
    TimesOne(base);
    Unique(v, Times(base, q), h, Times(base, m) + r);
    Unique(Times(base, m) + r, base, m, r);
  }

  // ---- The buffer ----

  /** A line feed may be sent with a carriage return before it. */
  function Cooked(s: string, crOnLf: bool): string {
    if s == [] then [] else Cooked(s[..|s| - 1], crOnLf) + (if crOnLf && s[|s| - 1] == '\n' then "\r\n" else [s[|s| - 1]])
  }

  lemma {:induction false} CookedJoin(a: string, b: string, crOnLf: bool)
    ensures Cooked(a + b, crOnLf) == Cooked(a, crOnLf) + Cooked(b, crOnLf)
    decreases |b|
  {
    if b == [] {
      assert a + b == a;
    } else {
      assert (a + b)[..|a + b| - 1] == a + b[..|b| - 1];
      CookedJoin(a, b[..|b| - 1], crOnLf);
    }
  }

  /** nrf_fprintf_ctx_t; `sent` is what fwrite was given so far. */
  class Context {
    const buffer: array<char>
    const crOnLf: bool
    const autoFlush: bool
    var count: nat
    var sent: string

    ghost predicate Valid()
      reads this
    {
      count < buffer.Length
    }

    /** Everything printed, sent or still in the buffer: the buffer's size does not show. */
    ghost function Printed(): string
      requires Valid()
      reads this, buffer
    {
      sent + buffer[..count]
    }

    constructor (size: nat, cr: bool, flush: bool)
      requires size > 0
      ensures Valid() && fresh(buffer) && Printed() == [] && crOnLf == cr && autoFlush == flush
    {
      buffer := new char[size];
      crOnLf, autoFlush, count, sent := cr, flush, 0, [];
    }

    /** nrf_fprintf_buffer_flush. */
    method Flush()
      requires count <= buffer.Length && buffer.Length > 0
      modifies this
      ensures Valid() && count == 0
      ensures Printed() == old(sent + buffer[..count])
    {
      if count == 0 {
        return;
      }
      sent := sent + buffer[..count];
      count := 0;
    }

    method Append(c: char)
      requires Valid()
      modifies this, buffer
      ensures Valid() && Printed() == old(Printed()) + [c]
      ensures count == if old(count) + 1 == buffer.Length then 0 else old(count) + 1
    {
      buffer[count] := c;
      count := count + 1;
      assert sent + buffer[..count] == old(sent + buffer[..count]) + [c];
      if count >= buffer.Length {
        Flush();
      }
    }

    /** buffer_add. */
    method BufferAdd(c: char)
      requires Valid()
      modifies this, buffer
      ensures Valid() && Printed() == old(Printed()) + Cooked([c], crOnLf)
    {
      assert [c][..0] == [] && Cooked([], crOnLf) == [];
      if crOnLf && c == '\n' {
        Append('\r');
      }
      Append(c);
    }

    /** Characters one after the other. */
    method AddAll(s: string)
      requires Valid()
      modifies this, buffer
      ensures Valid() && Printed() == old(Printed()) + Cooked(s, crOnLf)
    {
      var i := 0;
      while i < |s|
        invariant Valid() && i <= |s| && Printed() == old(Printed()) + Cooked(s[..i], crOnLf)
      {
        Longer(old(Printed()), s[..i], [s[i]], crOnLf);
        assert s[..i + 1] == s[..i] + [s[i]];
        BufferAdd(s[i]);
        i := i + 1;
      }
      assert s[..i] == s;
    }

    /** A padding loop: while the field is wider than its content. */
    method Pad(c: char, fieldWidth: nat, width: nat) returns (left: nat)
      requires Valid()
      modifies this, buffer
      ensures Valid() && Printed() == old(Printed()) + Cooked(Repeat(c, fieldWidth - width), crOnLf)
      ensures left == if fieldWidth > width then width else fieldWidth
    {
      left := fieldWidth;
      ghost var done := 0;
      while left != 0 && width < left
        invariant Valid() && left + done == fieldWidth && (done > 0 ==> left >= width)
        invariant Printed() == old(Printed()) + Cooked(Repeat(c, done), crOnLf)
        decreases left
      {
        left := left - 1;
        Longer(old(Printed()), Repeat(c, done), [c], crOnLf);
        BufferAdd(c);
        done := done + 1;
      }
    }

    /** string_print. */
    method StringPrint(s: string, fieldWidth: nat, f: Flags)
      requires Valid()
      modifies this, buffer
      ensures Valid() && Printed() == old(Printed()) + Cooked(TextOf(s, fieldWidth, f), crOnLf)
    {
      ghost var front := Printed();
      if f.leftJustify {
        AddAll(s);
        var _ := Pad(' ', fieldWidth, |s|);
        Longer(front, s, Repeat(' ', fieldWidth - |s|), crOnLf);
      } else {
        var _ := Pad(' ', fieldWidth, |s|);
        AddAll(s);
        Longer(front, Repeat(' ', fieldWidth - |s|), s, crOnLf);
      }
    }

    /** The output loop of unsigned_print: the highest of k digits first. */
    method OutputDigits(v0: nat, base: nat, ghost k: nat, value0: nat)
      requires Valid() && 2 <= base <= 16 && k > 0 && value0 == Power(base, k - 1) && v0 < Power(base, k)
      modifies this, buffer
      ensures Valid() && Printed() == old(Printed()) + Cooked(Numeral(v0, base, k), crOnLf)
    {
      hide *;
      var v: nat, value: nat := v0, value0;
      ghost var j: nat, done := k, "";
      ghost var front := Printed();
      CookedNothing(front, crOnLf);
      PowerGrows(base, k - 1, k - 1);
      Nothing(Numeral(v, base, j));
      TopIs(base, k);
      while value != 0
        invariant Valid() && v < Power(base, j) && value == Top(base, j)
        invariant Printed() == front + Cooked(done, crOnLf) && Numeral(v0, base, k) == done + Numeral(v, base, j)
        decreases j
      {
        TopIs(base, j);
        NumeralTop(v, base, j);
        var d := Quotient(v, value);
        Longer(front, done, [DigitChar(d)], crOnLf);
        Joins(done, [DigitChar(d)], Numeral(Remainder(v, value), base, j - 1));
        done := done + [DigitChar(d)];
        Divided(v, value);
        TimesSwaps(d, value);
        v := v - Times(d, value);
        BufferAdd(DigitChar(d));
        LowerPower(base, j);
        value := Quotient(value, base);
        j := j - 1;
      }
      TopIs(base, j);
      assert Numeral(v, base, j) == "";
      Nothing(done);
    }

    /** unsigned_print, for a precision whose power of the base fits a word. */
    method UnsignedPrint(v: nat, base: nat, numDigits: nat, fieldWidth0: nat, f: Flags)
      requires Valid() && 2 <= base <= 16 && v < WORD && Fits(base, numDigits)
      modifies this, buffer
      ensures Valid() && Printed() == old(Printed()) + Cooked(UnsignedText(v, base, numDigits, fieldWidth0, f), crOnLf)
    {
      hide Power, Times, Quotient, Remainder, Cooked, Numeral, Repeat, DigitCount;
      ghost var front := Printed();
      var width := CountDigits(v, base);
      if numDigits > width {
        width := numDigits;
      }
      var fieldWidth, c := fieldWidth0, if f.padZero && numDigits == 0 then '0' else ' ';
      ghost var before := "";
      CookedNothing(front, crOnLf);
      if !f.leftJustify {
        fieldWidth := Pad(c, fieldWidth, width);
        before := Repeat(c, fieldWidth0 - width);
      }
      var value := FindDivisor(v, base, numDigits);
      WideEnough(v, base, numDigits);
      OutputDigits(v, base, width, value);
      ghost var digits := Numeral(v, base, width);
      Longer(front, before, digits, crOnLf);
      if f.leftJustify {
        var _ := Pad(' ', fieldWidth, width);
        Longer(front, digits, Repeat(' ', fieldWidth as int - width as int), crOnLf);
      }
    }

    /** int_print; the sign counts towards the field. */
    method IntPrint(v: int, base: nat, numDigits: nat, fieldWidth0: nat, f: Flags)
      requires Valid() && 2 <= base <= 16 && -HALF < v < HALF && Fits(base, numDigits)
      modifies this, buffer
      ensures Valid() && Printed() == old(Printed()) + Cooked(IntText(v, base, numDigits, fieldWidth0, f), crOnLf)
    {
      hide Power, Times, Quotient, Remainder, Cooked, Numeral, Repeat, DigitCount, UnsignedText, IntText, Valid, LeadingSpaces, LeadingZeros, Sign, Fits, Printed;
      ghost var front := Printed();
      var width := CountDigits(Magnitude(v), base);
      if numDigits > width {
        width := numDigits;
      }
      var fieldWidth := fieldWidth0;
      if fieldWidth > 0 && (v < 0 || f.printSign) {
        fieldWidth := fieldWidth - 1;
      }
      fieldWidth := SpacesBefore(fieldWidth, width, numDigits, f);
      ghost var spaces := LeadingSpaces(fieldWidth0 - width - |Sign(v, f)|, numDigits, f);
      SpacesAgree(v, numDigits, fieldWidth0, width, f);
      LeftIs(Inner(v, fieldWidth0, f), width, numDigits, f);
      SignPrint(v, f);
      Longer(front, spaces, Sign(v, f), crOnLf);
      fieldWidth := ZerosBefore(fieldWidth, width, numDigits, f);
      ghost var zeros := LeadingZeros(fieldWidth0 - width - |Sign(v, f)|, numDigits, f);
      Longer(front, spaces + Sign(v, f), zeros, crOnLf);
      UnsignedPrint(Magnitude(v), base, numDigits, fieldWidth, f);
      Longer(front, spaces + Sign(v, f) + zeros, UnsignedText(Magnitude(v), base, numDigits, fieldWidth, f), crOnLf);
      IntParts(v, base, numDigits, fieldWidth0, fieldWidth, f);
    }

    method SpacesBefore(fieldWidth: nat, width: nat, numDigits: nat, f: Flags) returns (left: nat)
      requires Valid()
      modifies this, buffer
      ensures Valid() && Printed() == old(Printed()) + Cooked(LeadingSpaces(fieldWidth - width, numDigits, f), crOnLf)
      ensures left == if LeadingSpaces(fieldWidth - width, numDigits, f) == "" then fieldWidth else width
    {
      CookedNothing(Printed(), crOnLf);
      left := fieldWidth;
      if (!f.padZero || numDigits != 0) && !f.leftJustify {
        left := Pad(' ', fieldWidth, width);
      }
    }

    method ZerosBefore(fieldWidth: nat, width: nat, numDigits: nat, f: Flags) returns (left: nat)
      requires Valid()
      modifies this, buffer
      ensures Valid() && Printed() == old(Printed()) + Cooked(LeadingZeros(fieldWidth - width, numDigits, f), crOnLf)
      ensures left == if LeadingZeros(fieldWidth - width, numDigits, f) == "" then fieldWidth else width
    {
      CookedNothing(Printed(), crOnLf);
      left := fieldWidth;
      if f.padZero && !f.leftJustify && numDigits == 0 {
        left := Pad('0', fieldWidth, width);
      }
    }

    method SignPrint(v: int, f: Flags)
      requires Valid()
      modifies this, buffer
      ensures Valid() && Printed() == old(Printed()) + Cooked(Sign(v, f), crOnLf)
    {
      CookedNothing(Printed(), crOnLf);
      if v < 0 {
        BufferAdd('-');
      } else if f.printSign {
        BufferAdd('+');
      }
    }
  }

  const WORD: nat := 0x1_0000_0000
  const HALF: int := 0x8000_0000

  /** The precision asks for no divisor beyond a word. */
  predicate Fits(base: nat, numDigits: nat) { numDigits > 0 ==> Power(base, numDigits - 1) < WORD }

  /** The divisor of the highest of j digits, and zero below the last. */
  function Top(base: nat, j: nat): nat { if j == 0 then 0 else Power(base, j - 1) }

  lemma TopIs(base: nat, j: nat)
    requires base >= 2
    ensures Top(base, j) == 0 <==> j == 0
    ensures j > 0 ==> Top(base, j) == Power(base, j - 1)
  {
    hide Power;
    if j > 0 {
      PowerGrows(base, j - 1, j - 1);
    }
  }

  lemma Longer(front: string, a: string, b: string, crOnLf: bool)
    ensures front + Cooked(a, crOnLf) + Cooked(b, crOnLf) == front + Cooked(a + b, crOnLf)
  {
    CookedJoin(a, b, crOnLf);
    assert front + Cooked(a, crOnLf) + Cooked(b, crOnLf) == front + (Cooked(a, crOnLf) + Cooked(b, crOnLf));
  }

  lemma CookedNothing(front: string, crOnLf: bool)
    ensures Cooked("", crOnLf) == "" && front + Cooked("", crOnLf) == front
  {
  }

  lemma LowerPower(base: nat, j: nat)
    requires base >= 2 && j > 0
    ensures Quotient(Power(base, j - 1), base) == Top(base, j - 1)
  {
    hide Times, Quotient, Remainder;
    TimesOne(base);
    if j > 1 {
      Unique(Power(base, j - 1), base, Power(base, j - 2), 0);
    } else {
      Unique(1, base, 0, 1);
    }
  }

  lemma WideEnough(v: nat, base: nat, numDigits: nat)
    requires base >= 2
    ensures v < Power(base, Width(v, base, numDigits))
  {
    DigitCountFits(v, base);
    PowerGrows(base, DigitCount(v, base), Width(v, base, numDigits));
  }

  function LeadingSpaces(pad: int, numDigits: nat, f: Flags): string {
    if (!f.padZero || numDigits != 0) && !f.leftJustify then Repeat(' ', pad) else ""
  }

  function LeadingZeros(pad: int, numDigits: nat, f: Flags): string {
    if f.padZero && !f.leftJustify && numDigits == 0 then Repeat('0', pad) else ""
  }

  function Inner(v: int, fieldWidth: nat, f: Flags): nat {
    if fieldWidth > 0 && (v < 0 || f.printSign) then fieldWidth - 1 else fieldWidth
  }

  /** Taking the sign off the field first pads alike, a field too narrow for the sign included. */
  lemma SpacesAgree(v: int, numDigits: nat, fieldWidth: nat, width: nat, f: Flags)
    requires width >= 1
    ensures var pad, given := fieldWidth - width - |Sign(v, f)|, Inner(v, fieldWidth, f) - width;
            && LeadingSpaces(pad, numDigits, f) == LeadingSpaces(given, numDigits, f)
            && LeadingZeros(pad, numDigits, f) == LeadingZeros(given, numDigits, f)
            && Repeat(' ', pad) == Repeat(' ', given)
  {
  }

  /** What is left for unsigned_print to pad once int_print has padded on the left. */
  lemma IntParts(v: int, base: nat, numDigits: nat, fieldWidth0: nat, left: nat, f: Flags)
    requires 2 <= base <= 16
    requires var w, inner := Width(Magnitude(v), base, numDigits), Inner(v, fieldWidth0, f);
             left == if !f.leftJustify && inner > w then w else inner
    ensures var pad := fieldWidth0 - Width(Magnitude(v), base, numDigits) - |Sign(v, f)|;
            (LeadingSpaces(pad, numDigits, f) + Sign(v, f) + LeadingZeros(pad, numDigits, f)
              + UnsignedText(Magnitude(v), base, numDigits, left, f)
         == IntText(v, base, numDigits, fieldWidth0, f))
  {
    var w := Width(Magnitude(v), base, numDigits);
    var digits, sign, pad := Numeral(Magnitude(v), base, w), Sign(v, f), fieldWidth0 - w - |Sign(v, f)|;
    SpacesAgree(v, numDigits, fieldWidth0, w, f);
    RepeatNone(left - w);
    hide Numeral, Width, Repeat;
    Nothing(sign);
    Nothing(digits);
    if f.leftJustify {
      Joins(sign, digits, Repeat(' ', pad));
    } else {
      Nothing(Repeat(' ', pad) + sign);
    }
  }

  /** Spaces or zeros, whichever are asked for, bring the field down to its content. */
  lemma LeftIs(inner: nat, width: nat, numDigits: nat, f: Flags)
    ensures var once := if LeadingSpaces(inner - width, numDigits, f) == "" then inner else width;
            && LeadingZeros(once - width, numDigits, f) == LeadingZeros(inner - width, numDigits, f)
            && (if LeadingZeros(once - width, numDigits, f) == "" then once else width)
            == if !f.leftJustify && inner > width then width else inner
  {
    RepeatNone(inner - width);
  }

  lemma RepeatNone(n: int)
    ensures n <= 0 ==> Repeat(' ', n) == "" && Repeat('0', n) == ""
  {
  }

  /** The width loop of both printers. */
  method CountDigits(v: nat, base: nat) returns (width: nat)
    requires base >= 2
    ensures width == DigitCount(v, base)
  {
    hide Quotient;
    var value: nat := v;
    width := 1;
    while value >= base
      invariant DigitCount(v, base) == width - 1 + DigitCount(value, base)
      decreases value
    {
      Smaller(value, base);
      value := Quotient(value, base);
      width := width + 1;
    }
  }

  /** The loop that finds the divisor of the highest digit: the precision first, then the value. No product leaves a word. */
  method FindDivisor(v: nat, base: nat, numDigits0: nat) returns (value: nat)
    requires base >= 2 && v < WORD && Fits(base, numDigits0)
    ensures value == Power(base, Width(v, base, numDigits0) - 1) && value < WORD
  {
    hide Power, Times, Quotient, DigitCount;
    value := 1;
    var numDigits := numDigits0;
    ghost var k: nat := 1;
    PowerStep(base, 1);
    while true
      invariant k >= 1 && value == Power(base, k - 1) && 0 < value < WORD
      invariant numDigits > 1 ==> k + numDigits - 1 == numDigits0
      invariant numDigits <= 1 ==> numDigits0 <= k <= Width(v, base, numDigits0)
      decreases numDigits, Width(v, base, numDigits0) - k
    {
      HighestDigit(v, base, k);
      PowerGrows(base, k, k);
      if numDigits > 1 {
        numDigits := numDigits - 1;
        PowerGrows(base, k, numDigits0 - 1);
      } else {
        var div := Quotient(v, value);
        if div < base {
          break;
        }
      }
      PowerStep(base, k);
      TimesSwaps(value, base);
      value := Times(value, base);
      k := k + 1;
    }
  }

  /** One digit is left above the divisor exactly when it has reached the top; below the top the next divisor is within the value. */
  lemma HighestDigit(v: nat, base: nat, k: nat)
    requires base >= 2 && k >= 1 && Power(base, k - 1) > 0
    ensures Quotient(v, Power(base, k - 1)) < base <==> k >= DigitCount(v, base)
    ensures k < DigitCount(v, base) ==> Power(base, k) <= v
  {
    hide Power, Times, Quotient, DigitCount;
    var p := Power(base, k - 1);
    DigitCountFits(v, base);
    QuotientBelow(v, p, base);
    TimesSwaps(p, base);
    PowerStep(base, k);
    if k >= DigitCount(v, base) {
      PowerGrows(base, DigitCount(v, base), k);
    } else {
      PowerGrows(base, k, DigitCount(v, base) - 1);
    }
  }
}
