/** The format string of nrf_fprintf: what it means, and the scan that prints it. */
module FprintfFormat {
  import opened Fprintf
  import opened Texts

  /** A character of a C string: never the terminator. */
  type Char = c: char | c != '\0' witness 'a'
  type Format = seq<Char>

  /** A variable argument: a 32-bit word, or a string. */
  type Word32 = w: nat | w < 0x1_0000_0000

  datatype Arg = Word(w: Word32) | Chars(s: Format)

  const NO_FLAGS := Flags(false, false, false)

  // ---- What a format means ----

  function Head(p: Format): char { if p == [] then '\0' else p[0] }

  function ReadFlags(p: Format, f: Flags): (r: (Flags, Format))
    ensures |r.1| <= |p|
  {
    match Head(p)
    case '-' => ReadFlags(p[1..], f.(leftJustify := true))
    case '0' => ReadFlags(p[1..], f.(padZero := true))
    case '+' => ReadFlags(p[1..], f.(printSign := true))
    case _ => (f, p)
  }

  /** Digits behind n, in 32 bits. */
  function ReadNumber(n: nat, p: Format): (r: (nat, Format))
    requires n < WORD
    ensures r.0 < WORD && |r.1| <= |p|
    decreases |p|
  {
    if IsDigit(Head(p)) then ReadNumber((n * 10 + (p[0] as nat - '0' as nat)) % WORD, p[1..]) else (n, p)
  }

  datatype Field = NoField | Field(width: nat, rest: Format, args: seq<Arg>)

  /** The field width, or an argument in its place. */
  function ReadWidth(p: Format, args: seq<Arg>): (r: Field)
    ensures r.Field? ==> |r.rest| <= |p|
  {
    if Head(p) == '*' then
      if args != [] && args[0].Word? then Field(args[0].w, p[1..], args[1..]) else NoField
    else
      var (n, rest) := ReadNumber(0, p);
      Field(n, rest, args)
  }

  function ReadPrecision(p: Format): (r: (nat, Format))
    ensures |r.1| <= |p|
  {
    if Head(p) == '.' then ReadNumber(0, p[1..]) else (0, p)
  }

  function SkipLength(p: Format): (r: Format)
    ensures |r| <= |p|
  {
    if Head(p) == 'l' || Head(p) == 'h' then SkipLength(p[1..]) else p
  }

  /** A text and the arguments that are left; undefined where the C code is, and where a precision
      is out of range. */
  datatype Shown = Undefined | Shown(text: string, args: seq<Arg>)

  function Signed(w: nat): int { if w < HALF then w else w - WORD }

  function Letter(w: nat): char { (w % 256) as char }

  function Convert(kind: char, numDigits: nat, width: nat, f: Flags, args: seq<Arg>): Shown {
    if kind == '%' then Shown("%", args)
    else if kind == 's' then
      if args != [] && args[0].Chars? then Shown(TextOf(args[0].s, width, f), args[1..]) else Undefined
    else if kind in ['c', 'd', 'i', 'u', 'x', 'X', 'p'] then
      if args == [] || args[0].Chars? then Undefined else ConvertWord(kind, numDigits, width, f, args[0].w, args[1..])
    else Shown("", args)
  }

  function ConvertWord(kind: char, numDigits: nat, width: nat, f: Flags, w: nat, rest: seq<Arg>): Shown {
    match kind
    case 'c' => Shown([Letter(w)], rest)
    case 'u' => if Fits(10, numDigits) then Shown(UnsignedText(w, 10, numDigits, width, f), rest) else Undefined
    case 'x' => if Fits(16, numDigits) then Shown(UnsignedText(w, 16, numDigits, width, f), rest) else Undefined
    case 'X' => if Fits(16, numDigits) then Shown(UnsignedText(w, 16, numDigits, width, f), rest) else Undefined
    case 'p' => Shown("0x" + UnsignedText(w, 16, 8, 8, NO_FLAGS), rest)
    case _ =>
      if Signed(w) != -HALF && Fits(10, numDigits) then Shown(IntText(Signed(w), 10, numDigits, width, f), rest) else Undefined
  }

  /** What follows a percent sign: its text, and the rest of the format and of the arguments. */
  datatype Step = Bad | Next(text: string, rest: Format, args: seq<Arg>)

  function Directive(p: Format, args: seq<Arg>): (r: Step)
    ensures r.Next? ==> |r.rest| < |p|
  {
    var (f, afterFlags) := ReadFlags(p, NO_FLAGS);
    match ReadWidth(afterFlags, args)
    case NoField => Bad
    case Field(width, afterWidth, args') =>
      var (numDigits, afterPrecision) := ReadPrecision(afterWidth);
      var q := SkipLength(afterPrecision);
      if q == [] then Bad
      else match Convert(q[0], numDigits, width, f, args')
        case Undefined => Bad
        case Shown(text, args'') => Next(text, q[1..], args'')
  }

  function Ahead(text: string, r: Shown): Shown {
    match r
    case Undefined => Undefined
    case Shown(more, args) => Shown(text + more, args)
  }

  function Formatted(p: Format, args: seq<Arg>): Shown
    decreases |p|
  {
    if p == [] then Shown("", args)
    else if p[0] != '%' then Ahead([p[0]], Formatted(p[1..], args))
    else match Directive(p[1..], args)
      case Bad => Undefined
      case Next(text, rest, args') => Ahead(text, Formatted(rest, args'))
  }

  // ---- Formats that are written from directives ----

  datatype Piece =
    | Plain(c: Char)
    | Conversion(f: Flags, width: nat, precision: Precision, kind: Char)

  datatype Precision = Default | Exactly(n: nat)

  /** The characters of a width or a precision. */
  function Decimal(n: nat): (s: Format)
    ensures s != [] && forall k :: 0 <= k < |s| ==> IsDigit(s[k])
    ensures n > 0 ==> s[0] != '0'
  {
    var d := DigitChar(n % 10);
    if n < 10 then [d] else Decimal(n / 10) + [d]
  }

  /** A flag's character, if it is set. */
  function FlagChar(on: bool, c: Char): Format { if on then [c] else [] }

  function FlagText(f: Flags): Format { FlagChar(f.leftJustify, '-') + (FlagChar(f.padZero, '0') + FlagChar(f.printSign, '+')) }

  function WidthText(width: nat): Format { if width == 0 then [] else Decimal(width) }

  function PrecisionText(p: Precision): Format { match p case Default => [] case Exactly(n) => ['.'] + Decimal(n) }

  function NumDigits(p: Precision): nat { match p case Default => 0 case Exactly(n) => n }

  predicate WellFormed(p: Piece) {
    match p
    case Plain(c) => c != '%'
    case Conversion(_, width, precision, kind) =>
      && width < WORD && NumDigits(precision) < WORD
      && kind in ['%', 's', 'c', 'd', 'i', 'u', 'x', 'X', 'p']
  }

  /** A piece, written in front of the rest of a format. */
  function Write(p: Piece, rest: Format): Format {
    match p
    case Plain(c) => [c] + rest
    case Conversion(f, width, precision, kind) =>
      ['%'] + (FlagText(f) + (WidthText(width) + (PrecisionText(precision) + ([kind] + rest))))
  }

  function WriteAll(ps: seq<Piece>): Format { if ps == [] then [] else Write(ps[0], WriteAll(ps[1..])) }

  /** What the pieces say, read off directly. */
  function Meaning(ps: seq<Piece>, args: seq<Arg>): Shown {
    if ps == [] then Shown("", args)
    else match ps[0]
      case Plain(c) => Ahead([c], Meaning(ps[1..], args))
      case Conversion(f, width, precision, kind) =>
        match Convert(kind, NumDigits(precision), width, f, args)
        case Undefined => Undefined
        case Shown(text, args') => Ahead(text, Meaning(ps[1..], args'))
  }

  /** A format written from directives prints what they say, each with its own arguments. */
  lemma {:induction false} WrittenFormat(ps: seq<Piece>, args: seq<Arg>)
    requires forall k :: 0 <= k < |ps| ==> WellFormed(ps[k])
    ensures Formatted(WriteAll(ps), args) == Meaning(ps, args)
  {
    hide Convert, FlagText, WidthText, PrecisionText, Directive;
    if ps != [] {
      var rest := WriteAll(ps[1..]);
      match ps[0]
      case Plain(c) =>
        assert ([c] + rest)[1..] == rest;
        WrittenFormat(ps[1..], args);
      case Conversion(f, width, precision, kind) =>
        var tail := FlagText(f) + (WidthText(width) + (PrecisionText(precision) + ([kind] + rest)));
        assert (['%'] + tail)[1..] == tail;
        WrittenDirective(f, width, precision, kind, rest, args);
        match Convert(kind, NumDigits(precision), width, f, args)
        case Undefined =>
        case Shown(_, args') => WrittenFormat(ps[1..], args');
    }
  }

  lemma WrittenDirective(f: Flags, width: nat, precision: Precision, kind: Char, rest: Format, args: seq<Arg>)
    requires WellFormed(Conversion(f, width, precision, kind))
    ensures Directive(FlagText(f) + (WidthText(width) + (PrecisionText(precision) + ([kind] + rest))), args)
         == match Convert(kind, NumDigits(precision), width, f, args)
            case Undefined => Bad
            case Shown(text, args') => Next(text, rest, args')
  {
    hide Convert, FlagText, ReadFlags, ReadNumber, WidthText, PrecisionText, ReadWidth, ReadPrecision;
    var end := [kind] + rest;
    FlagsRead(f, WidthText(width) + (PrecisionText(precision) + end), width, precision, end);
    WidthRead(width, precision, end, args);
    PrecisionRead(precision, end);
    assert end[0] == kind && end[1..] == rest;
  }

  /** Behind the flags stands a digit other than zero, a point, or the kind. */
  lemma AfterFlags(width: nat, precision: Precision, end: Format)
    requires end != [] && end[0] in ['%', 's', 'c', 'd', 'i', 'u', 'x', 'X', 'p']
    ensures var c := Head(WidthText(width) + (PrecisionText(precision) + end)); c != '-' && c != '0' && c != '+' && c != '*'
    ensures !IsDigit(Head(PrecisionText(precision) + end))
  {
  }

  lemma FlagsRead(f: Flags, q: Format, width: nat, precision: Precision, end: Format)
    requires end != [] && end[0] in ['%', 's', 'c', 'd', 'i', 'u', 'x', 'X', 'p']
    requires q == WidthText(width) + (PrecisionText(precision) + end)
    ensures ReadFlags(FlagText(f) + q, NO_FLAGS) == (f, q)
  {
    AfterFlags(width, precision, end);
    NoFlag(q, f);
    hide WidthText, PrecisionText, ReadFlags, FlagChar;
    var minus, zero, plus := FlagChar(f.leftJustify, '-'), FlagChar(f.padZero, '0'), FlagChar(f.printSign, '+');
    assert FlagText(f) + q == minus + (zero + (plus + q)) by { ThreeInFront(minus, zero, plus, q); }
    OneFlag(f.leftJustify, '-', zero + (plus + q), NO_FLAGS);
    OneFlag(f.padZero, '0', plus + q, NO_FLAGS.(leftJustify := f.leftJustify));
    OneFlag(f.printSign, '+', q, f.(printSign := false));
  }

  lemma ThreeInFront(a: Format, b: Format, c: Format, q: Format)
    ensures a + (b + c) + q == a + (b + (c + q))
  {
  }

  lemma NoFlag(q: Format, f: Flags)
    requires Head(q) != '-' && Head(q) != '0' && Head(q) != '+'
    ensures ReadFlags(q, f) == (f, q)
  {
  }

  lemma OneFlag(on: bool, c: Char, q: Format, f: Flags)
    requires c == '-' || c == '0' || c == '+'
    ensures ReadFlags(FlagChar(on, c) + q, f)
         == ReadFlags(q, if !on then f else if c == '-' then f.(leftJustify := true)
                         else if c == '0' then f.(padZero := true) else f.(printSign := true))
  {
    if on {
      assert ([c] + q)[1..] == q;
    } else {
      assert [] + q == q;
    }
  }

  lemma WidthRead(width: nat, precision: Precision, end: Format, args: seq<Arg>)
    requires width < WORD && end != [] && end[0] in ['%', 's', 'c', 'd', 'i', 'u', 'x', 'X', 'p']
    ensures ReadWidth(WidthText(width) + (PrecisionText(precision) + end), args) == Field(width, PrecisionText(precision) + end, args)
  {
    AfterFlags(width, precision, end);
    hide PrecisionText;
    var q := PrecisionText(precision) + end;
    if width == 0 {
      assert [] + q == q;
    } else {
      NumberRead(width, q);
    }
  }

  lemma PrecisionRead(precision: Precision, end: Format)
    requires NumDigits(precision) < WORD && end != [] && end[0] in ['%', 's', 'c', 'd', 'i', 'u', 'x', 'X', 'p']
    ensures ReadPrecision(PrecisionText(precision) + end) == (NumDigits(precision), end)
  {
    match precision
    case Default => assert [] + end == end;
    case Exactly(n) =>
      NumberRead(n, end);
      assert (['.'] + Decimal(n) + end)[1..] == Decimal(n) + end;
  }

  /** A number is read up to the first character that is no digit. */
  lemma NumberRead(n: nat, q: Format)
    requires n < WORD && !IsDigit(Head(q))
    ensures ReadNumber(0, Decimal(n) + q) == (n, q)
  {
    DigitsRead(n, q);
  }

  lemma {:induction false} DigitsRead(n: nat, q: Format)
    requires n < WORD
    ensures ReadNumber(0, Decimal(n) + q) == ReadNumber(n, q)
    decreases n
  {
    hide ReadNumber, DigitChar;
    OneDigit(n / 10, n % 10, q);
    var d: Char := DigitChar(n % 10);
    if n >= 10 {
      DigitsRead(n / 10, [d] + q);
      assert Decimal(n) + q == Decimal(n / 10) + ([d] + q);
    }
  }

  lemma OneDigit(n: nat, d: nat, q: Format)
    requires n * 10 + d < WORD && d < 10
    ensures DigitChar(d) != '\0' && ReadNumber(n, [DigitChar(d)] + q) == ReadNumber(n * 10 + d, q)
  {
    assert ([DigitChar(d)] + q)[1..] == q;
  }

  // ---- The scan ----

  /** The flag loop of nrf_fprintf_fmt. */
  method FlagsAt(p: Format, at: nat) returns (f: Flags, end: nat)
    requires at <= |p|
    ensures at <= end <= |p| && ReadFlags(p[at..], NO_FLAGS) == (f, p[end..])
  {
    f, end := NO_FLAGS, at;
    var more := true;
    while more
      invariant at <= end <= |p| && ReadFlags(p[at..], NO_FLAGS) == ReadFlags(p[end..], f)
      invariant !more ==> ReadFlags(p[end..], f) == (f, p[end..])
      decreases more, |p| - end
    {
      var c := CharAt(p, end);
      if end < |p| {
        Drop(p, end, 1);
      }
      match c {
        case '-' => f, end := f.(leftJustify := true), end + 1;
        case '0' => f, end := f.(padZero := true), end + 1;
        case '+' => f, end := f.(printSign := true), end + 1;
        case _ => more := false;
      }
    }
  }

  /** The digit loops. */
  method NumberAt(p: Format, at: nat) returns (n: nat, end: nat)
    requires at <= |p|
    ensures at <= end <= |p| && n < WORD && ReadNumber(0, p[at..]) == (n, p[end..])
  {
    n, end := 0, at;
    while IsDigit(CharAt(p, end))
      invariant at <= end <= |p| && n < WORD && ReadNumber(0, p[at..]) == ReadNumber(n, p[end..])
      decreases |p| - end
    {
      Drop(p, end, 1);
      n := (n * 10 + (p[end] as nat - '0' as nat)) % WORD;
      end := end + 1;
    }
  }

  method WidthAt(p: Format, at: nat, args: seq<Arg>) returns (width: nat, end: nat, rest: seq<Arg>)
    requires at <= |p| && ReadWidth(p[at..], args).Field?
    ensures at <= end <= |p| && ReadWidth(p[at..], args) == Field(width, p[end..], rest)
    ensures rest == args || (args != [] && rest == args[1..])
  {
    if CharAt(p, at) == '*' {
      Drop(p, at, 1);
      width, end, rest := args[0].w, at + 1, args[1..];
    } else {
      rest := args;
      width, end := NumberAt(p, at);
    }
  }

  method PrecisionAt(p: Format, at: nat) returns (numDigits: nat, end: nat)
    requires at <= |p|
    ensures at <= end <= |p| && ReadPrecision(p[at..]) == (numDigits, p[end..])
  {
    numDigits, end := 0, at;
    if CharAt(p, at) == '.' {
      Drop(p, at, 1);
      numDigits, end := NumberAt(p, at + 1);
    }
  }

  method LengthAt(p: Format, at: nat) returns (end: nat)
    requires at <= |p|
    ensures at <= end <= |p| && SkipLength(p[at..]) == p[end..]
  {
    end := at;
    while CharAt(p, end) == 'l' || CharAt(p, end) == 'h'
      invariant at <= end <= |p| && SkipLength(p[at..]) == SkipLength(p[end..])
      decreases |p| - end
    {
      Drop(p, end, 1);
      end := end + 1;
    }
  }

  lemma EightHexDigits()
    ensures Fits(16, 8)
  {
    assert Power(16, 0) == 1 && Power(16, 1) == 16 && Power(16, 2) == 0x100 && Power(16, 3) == 0x1000;
    assert Power(16, 4) == 0x1_0000 && Power(16, 5) == 0x10_0000 && Power(16, 6) == 0x100_0000 && Power(16, 7) == 0x1000_0000;
  }

  /** The cases that take a word. */
  method PrintWord(ctx: Context, kind: char, numDigits: nat, width: nat, f: Flags, w: nat, ghost rest: seq<Arg>)
    requires ctx.Valid() && w < WORD && kind in ['c', 'd', 'i', 'u', 'x', 'X', 'p']
    requires ConvertWord(kind, numDigits, width, f, w, rest).Shown?
    modifies ctx, ctx.buffer
    ensures ctx.Valid()
    ensures ctx.Printed() == old(ctx.Printed()) + Cooked(ConvertWord(kind, numDigits, width, f, w, rest).text, ctx.crOnLf)
  {
    hide Cooked, UnsignedText, IntText;
    match kind {
      case 'c' => ctx.BufferAdd(Letter(w));
      case 'u' => ctx.UnsignedPrint(w, 10, numDigits, width, f);
      case 'x' => ctx.UnsignedPrint(w, 16, numDigits, width, f);
      case 'X' => ctx.UnsignedPrint(w, 16, numDigits, width, f);
      case 'p' => PrintPointer(ctx, w);
      case _ => ctx.IntPrint(Signed(w), 10, numDigits, width, f);
    }
  }

  method PrintPointer(ctx: Context, w: nat)
    requires ctx.Valid() && w < WORD
    modifies ctx, ctx.buffer
    ensures ctx.Valid()
    ensures ctx.Printed() == old(ctx.Printed()) + Cooked("0x" + UnsignedText(w, 16, 8, 8, NO_FLAGS), ctx.crOnLf)
  {
    EightHexDigits();
    hide Cooked, UnsignedText, Fits;
    ghost var front := ctx.Printed();
    ctx.BufferAdd('0');
    ctx.BufferAdd('x');
    Longer(front, "0", "x", ctx.crOnLf);
    assert "0" + "x" == "0x";
    ctx.UnsignedPrint(w, 16, 8, 8, NO_FLAGS);
    Longer(front, "0x", UnsignedText(w, 16, 8, 8, NO_FLAGS), ctx.crOnLf);
  }

  /** The switch over the conversion specifier. */
  method PrintConversion(ctx: Context, kind: char, numDigits: nat, width: nat, f: Flags, args: seq<Arg>) returns (rest: seq<Arg>)
    requires ctx.Valid() && Convert(kind, numDigits, width, f, args).Shown?
    modifies ctx, ctx.buffer
    ensures ctx.Valid() && rest == Convert(kind, numDigits, width, f, args).args
    ensures ctx.Printed() == old(ctx.Printed()) + Cooked(Convert(kind, numDigits, width, f, args).text, ctx.crOnLf)
  {
    hide ConvertWord, TextOf;
    CookedNothing(ctx.Printed(), ctx.crOnLf);
    hide Cooked;
    rest := args;
    if kind == '%' {
      ctx.BufferAdd('%');
    } else if kind == 's' {
      ctx.StringPrint(args[0].s, width, f);
      rest := args[1..];
    } else if kind in ['c', 'd', 'i', 'u', 'x', 'X', 'p'] {
      rest := args[1..];
      PrintWord(ctx, kind, numDigits, width, f, args[0].w, rest);
      WordKeepsRest(kind, numDigits, width, f, args[0].w, rest);
    }
  }

  lemma WordKeepsRest(kind: char, numDigits: nat, width: nat, f: Flags, w: nat, rest: seq<Arg>)
    requires ConvertWord(kind, numDigits, width, f, w, rest).Shown?
    ensures ConvertWord(kind, numDigits, width, f, w, rest).args == rest
  {
    hide UnsignedText, IntText, Fits;
  }

  /** What follows a percent sign. */
  method PrintDirective(ctx: Context, p: Format, at: nat, args: seq<Arg>) returns (end: nat, rest: seq<Arg>)
    requires ctx.Valid() && at <= |p| && Directive(p[at..], args).Next?
    modifies ctx, ctx.buffer
    ensures ctx.Valid() && at < end <= |p|
    ensures var d := Directive(p[at..], args);
            d.rest == p[end..] && d.args == rest && ctx.Printed() == old(ctx.Printed()) + Cooked(d.text, ctx.crOnLf)
  {
    hide ReadFlags, ReadWidth, ReadPrecision, SkipLength, Convert, Cooked;
    var f, width, numDigits;
    f, end := FlagsAt(p, at);
    width, end, rest := WidthAt(p, end, args);
    numDigits, end := PrecisionAt(p, end);
    end := LengthAt(p, end);
    rest := PrintConversion(ctx, p[end], numDigits, width, f, rest);
    Drop(p, end, 1);
    end := end + 1;
  }

  lemma AheadTwice(a: string, b: string, r: Shown)
    ensures Ahead(a, Ahead(b, r)) == Ahead(a + b, r)
  {
    if r.Shown? {
      assert a + (b + r.text) == a + b + r.text;
    }
  }

  /** nrf_fprintf_fmt. */
  method Fmt(ctx: Context, p: Format, args0: seq<Arg>)
    requires ctx.Valid() && Formatted(p, args0).Shown?
    modifies ctx, ctx.buffer
    ensures ctx.Valid() && ctx.Printed() == old(ctx.Printed()) + Cooked(Formatted(p, args0).text, ctx.crOnLf)
    ensures ctx.autoFlush ==> ctx.count == 0
  {
    hide Directive, Cooked;
    ghost var front, done := ctx.Printed(), "";
    var at, args := 0, args0;
    CookedNothing(front, ctx.crOnLf);
    Nothing(Formatted(p, args0).text);
    assert p[0..] == p;
    while at < |p|
      invariant ctx.Valid() && at <= |p|
      invariant Formatted(p, args0) == Ahead(done, Formatted(p[at..], args))
      invariant ctx.Printed() == front + Cooked(done, ctx.crOnLf)
    {
      ghost var text := [p[at]];
      var next, rest := at + 1, args;
      Drop(p, at, 1);
      if p[at] == '%' {
        text := Directive(p[at + 1..], args).text;
        next, rest := PrintDirective(ctx, p, at + 1, args);
      } else {
        ctx.BufferAdd(p[at]);
      }
      AheadTwice(done, text, Formatted(p[next..], rest));
      Longer(front, done, text, ctx.crOnLf);
      done := done + text;
      at, args := next, rest;
    }
    Nothing(done);
    if ctx.autoFlush {
      ctx.Flush();
    }
  }
}
