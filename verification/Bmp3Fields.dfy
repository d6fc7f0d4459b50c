/** The settings registers of a BMP3 sensor: which bits hold which setting. */
module Bmp3Fields {

  /** struct bmp3_settings, flattened. */
  datatype Settings = Settings(
    opMode: bv8, pressEn: bv8, tempEn: bv8,
    pressOs: bv8, tempOs: bv8, iirFilter: bv8, odr: bv8,
    outputMode: bv8, level: bv8, latch: bv8, drdyEn: bv8,
    wdtEn: bv8, wdtSel: bv8)

  datatype Field =
    | PressEn | TempEn | PressOs | TempOs | Odr | IirFilter
    | OutputMode | Level | Latch | DrdyEn | WdtEn | WdtSel

  const INT_CTRL: bv8 := 0x19
  const IF_CONF: bv8 := 0x1A
  const PWR_CTRL: bv8 := 0x1B
  const OSR: bv8 := 0x1C
  const ODR: bv8 := 0x1D
  const CONFIG: bv8 := 0x1F

  function Register(f: Field): bv8 {
    match f
    case PressEn => PWR_CTRL
    case TempEn => PWR_CTRL
    case PressOs => OSR
    case TempOs => OSR
    case Odr => ODR
    case IirFilter => CONFIG
    case OutputMode => INT_CTRL
    case Level => INT_CTRL
    case Latch => INT_CTRL
    case DrdyEn => INT_CTRL
    case WdtEn => IF_CONF
    case WdtSel => IF_CONF
  }

  function Mask(f: Field): bv8 {
    match f
    case PressEn => 0x01
    case TempEn => 0x02
    case PressOs => 0x07
    case TempOs => 0x38
    case Odr => 0x1F
    case IirFilter => 0x0E
    case OutputMode => 0x01
    case Level => 0x02
    case Latch => 0x04
    case DrdyEn => 0x40
    case WdtEn => 0x02
    case WdtSel => 0x04
  }

  /** The bit of the selection mask that asks for the field (BMP3_SEL_*). */
  function Selector(f: Field): bv32 {
    match f
    case PressEn => 0x0002
    case TempEn => 0x0004
    case DrdyEn => 0x0008
    case PressOs => 0x0010
    case TempOs => 0x0020
    case IirFilter => 0x0040
    case Odr => 0x0080
    case OutputMode => 0x0100
    case Level => 0x0200
    case Latch => 0x0400
    case WdtEn => 0x0800
    case WdtSel => 0x1000
  }

  const POWER_CNTL: bv32 := 0x0006
  const ODR_FILTER: bv32 := 0x00F0
  const INT_SETT: bv32 := 0x0708
  const ADV_SETT: bv32 := 0x1800

  predicate Selected(d: bv32, f: Field) { HasBit(d, Selector(f)) }

  predicate HasBit(d: bv32, bits: bv32) { d & bits != 0 }

  function Value(s: Settings, f: Field): bv8 {
    match f
    case PressEn => s.pressEn
    case TempEn => s.tempEn
    case PressOs => s.pressOs
    case TempOs => s.tempOs
    case Odr => s.odr
    case IirFilter => s.iirFilter
    case OutputMode => s.outputMode
    case Level => s.level
    case Latch => s.latch
    case DrdyEn => s.drdyEn
    case WdtEn => s.wdtEn
    case WdtSel => s.wdtSel
  }

  /** A value moved to the field's position. */
  function Place(f: Field, v: bv8): bv8 {
    match f
    case PressEn => v
    case TempEn => v << 1
    case PressOs => v
    case TempOs => v << 3
    case Odr => v
    case IirFilter => v << 1
    case OutputMode => v
    case Level => v << 1
    case Latch => v << 2
    case DrdyEn => v << 6
    case WdtEn => v << 1
    case WdtSel => v << 2
  }

  /** BMP3_GET_BITS. */
  function Get(f: Field, r: bv8): bv8 {
    match f
    case PressEn => r & 0x01
    case TempEn => (r & 0x02) >> 1
    case PressOs => r & 0x07
    case TempOs => (r & 0x38) >> 3
    case Odr => r & 0x1F
    case IirFilter => (r & 0x0E) >> 1
    case OutputMode => r & 0x01
    case Level => (r & 0x02) >> 1
    case Latch => (r & 0x04) >> 2
    case DrdyEn => (r & 0x40) >> 6
    case WdtEn => (r & 0x02) >> 1
    case WdtSel => (r & 0x04) >> 2
  }

  /** What of a value the field can hold. */
  function Width(f: Field): bv8 {
    match f
    case PressOs => 0x07
    case TempOs => 0x07
    case Odr => 0x1F
    case IirFilter => 0x07
    case _ => 0x01
  }

  /** BMP3_SET_BITS. */
  function Set(f: Field, r: bv8, v: bv8): bv8 { (r & !Mask(f)) | (Place(f, v) & Mask(f)) }

  function SetIf(d: bv32, f: Field, r: bv8, s: Settings): bv8 { if Selected(d, f) then Set(f, r, Value(s, f)) else r }

  /** Writing a field and reading it gives the value back, cut to the field's width. */
  lemma SetThenGet(f: Field, r: bv8, v: bv8)
    ensures Get(f, Set(f, r, v)) == v & Width(f)
  {
  }

  /** No other bit of the register changes. */
  lemma SetKeepsOthers(f: Field, r: bv8, v: bv8)
    ensures Set(f, r, v) & !Mask(f) == r & !Mask(f)
  {
  }

  /** Fields of one register do not overlap. */
  lemma FieldsAreDisjoint(f: Field, g: Field)
    requires f != g && Register(f) == Register(g)
    ensures Mask(f) & Mask(g) == 0
  {
  }

  lemma GetOfOther(f: Field, g: Field, r: bv8, v: bv8)
    requires f != g && Register(f) == Register(g)
    ensures Get(g, Set(f, r, v)) == Get(g, r)
  {
    FieldsAreDisjoint(f, g);
    hide Get, Mask, Place;
    SetOutside(r, Mask(f), Place(f, v), Mask(g));
    GetLooksAt(g, r);
    GetLooksAt(g, Set(f, r, v));
  }

  /** Reading a field looks at its bits only. */
  lemma GetLooksAt(g: Field, r: bv8)
    ensures Get(g, r) == Get(g, r & Mask(g))
  {
  }

  lemma SetOutside(r: bv8, mask: bv8, v: bv8, other: bv8)
    requires mask & other == 0
    ensures ((r & !mask) | (v & mask)) & other == r & other
  {
  }

  // ---- A register after the selected fields were set ----

  function Expected(a: bv8, r: bv8, s: Settings, d: bv32): bv8 {
    if a == PWR_CTRL then SetIf(d, TempEn, SetIf(d, PressEn, r, s), s)
    else if a == OSR then SetIf(d, TempOs, SetIf(d, PressOs, r, s), s)
    else if a == ODR then SetIf(d, Odr, r, s)
    else if a == CONFIG then SetIf(d, IirFilter, r, s)
    else if a == INT_CTRL then SetIf(d, DrdyEn, SetIf(d, Latch, SetIf(d, Level, SetIf(d, OutputMode, r, s), s), s), s)
    else if a == IF_CONF then SetIf(d, WdtSel, SetIf(d, WdtEn, r, s), s)
    else r
  }

  /** The bits of register a that the selection covers. */
  function Covered(a: bv8, d: bv32): bv8 {
    Cover(PressEn, a, d) | Cover(TempEn, a, d) | Cover(PressOs, a, d) | Cover(TempOs, a, d) | Cover(Odr, a, d) | Cover(IirFilter, a, d)
    | Cover(OutputMode, a, d) | Cover(Level, a, d) | Cover(Latch, a, d) | Cover(DrdyEn, a, d) | Cover(WdtEn, a, d) | Cover(WdtSel, a, d)
  }

  function Cover(f: Field, a: bv8, d: bv32): bv8 { if Register(f) == a && Selected(d, f) then Mask(f) else 0 }

  /** Every selected field holds its value, every other field what it held. */
  lemma ExpectedFields(f: Field, r: bv8, s: Settings, d: bv32)
    ensures Get(f, Expected(Register(f), r, s, d)) == if Selected(d, f) then Value(s, f) & Width(f) else Get(f, r)
  {
    var reg := Register(f);
    hide Selected, Get, Set, Width, Mask;
    if reg == PWR_CTRL {
      SetIfFields(f, PressEn, r, s, d);
      SetIfFields(f, TempEn, SetIf(d, PressEn, r, s), s, d);
    } else if reg == OSR {
      SetIfFields(f, PressOs, r, s, d);
      SetIfFields(f, TempOs, SetIf(d, PressOs, r, s), s, d);
    } else if reg == ODR {
      SetIfFields(f, Odr, r, s, d);
    } else if reg == CONFIG {
      SetIfFields(f, IirFilter, r, s, d);
    } else if reg == INT_CTRL {
      IntFields(f, r, s, d);
    } else {
      SetIfFields(f, WdtEn, r, s, d);
      SetIfFields(f, WdtSel, SetIf(d, WdtEn, r, s), s, d);
    }
  }

  lemma IntFields(f: Field, r: bv8, s: Settings, d: bv32)
    requires Register(f) == INT_CTRL
    ensures Get(f, Expected(INT_CTRL, r, s, d)) == if Selected(d, f) then Value(s, f) & Width(f) else Get(f, r)
  {
    hide Selected, Get, Set, Width, Mask;
    var r1 := SetIf(d, OutputMode, r, s);
    var r2 := SetIf(d, Level, r1, s);
    var r3 := SetIf(d, Latch, r2, s);
    SetIfFields(f, OutputMode, r, s, d);
    SetIfFields(f, Level, r1, s, d);
    SetIfFields(f, Latch, r2, s, d);
    SetIfFields(f, DrdyEn, r3, s, d);
  }

  /** Setting g if it is selected, seen from any field f of the same register. */
  lemma SetIfFields(f: Field, g: Field, r: bv8, s: Settings, d: bv32)
    requires Register(f) == Register(g)
    ensures Get(f, SetIf(d, g, r, s)) == if Selected(d, g) && f == g then Value(s, f) & Width(f) else Get(f, r)
  {
    if Selected(d, g) {
      if f == g {
        SetThenGet(f, r, Value(s, f));
      } else {
        GetOfOther(g, f, r, Value(s, g));
      }
    }
    hide Get, Set, Width;
  }

  /** And every bit that no selected field covers is as before. */
  lemma ExpectedFrame(a: bv8, r: bv8, s: Settings, d: bv32)
    ensures Expected(a, r, s, d) & !Covered(a, d) == r & !Covered(a, d)
  {
    hide Covered, Set, Mask, Selected, Within, Place, SetIf;
    var m := Covered(a, d);
    CoveredHas(a, d);
    if a == PWR_CTRL {
      SetIfFrame(PressEn, r, s, d, m);
      SetIfFrame(TempEn, SetIf(d, PressEn, r, s), s, d, m);
    } else if a == OSR {
      SetIfFrame(PressOs, r, s, d, m);
      SetIfFrame(TempOs, SetIf(d, PressOs, r, s), s, d, m);
    } else if a == ODR {
      SetIfFrame(Odr, r, s, d, m);
    } else if a == CONFIG {
      SetIfFrame(IirFilter, r, s, d, m);
    } else if a == INT_CTRL {
      var r1 := SetIf(d, OutputMode, r, s);
      var r2 := SetIf(d, Level, r1, s);
      SetIfFrame(OutputMode, r, s, d, m);
      SetIfFrame(Level, r1, s, d, m);
      SetIfFrame(Latch, r2, s, d, m);
      SetIfFrame(DrdyEn, SetIf(d, Latch, r2, s), s, d, m);
    } else if a == IF_CONF {
      SetIfFrame(WdtEn, r, s, d, m);
      SetIfFrame(WdtSel, SetIf(d, WdtEn, r, s), s, d, m);
    }
  }

  predicate Within(f: Field, m: bv8) { Mask(f) & !m == 0 }

  lemma CoveredHas(a: bv8, d: bv32)
    ensures forall f: Field :: Register(f) == a && Selected(d, f) ==> Within(f, Covered(a, d))
  {
    hide Selected;
    forall f: Field | Register(f) == a && Selected(d, f) ensures Within(f, Covered(a, d)) {
      CoversField(f, d);
    }
  }

  lemma CoversField(f: Field, d: bv32)
    requires Selected(d, f)
    ensures Within(f, Covered(Register(f), d))
  {
    hide Selected;
  }

  lemma SetIfFrame(f: Field, r: bv8, s: Settings, d: bv32, m: bv8)
    requires Selected(d, f) ==> Within(f, m)
    ensures SetIf(d, f, r, s) & !m == r & !m
  {
    if Selected(d, f) {
      SetWithin(r, Mask(f), Place(f, Value(s, f)), m);
    }
    hide Mask, Place, Value, Selected;
  }

  lemma SetWithin(r: bv8, mask: bv8, v: bv8, m: bv8)
    requires mask & !m == 0
    ensures ((r & !mask) | (v & mask)) & !m == r & !m
  {
  }

  // ---- The table, in numbers ----

  /** The bits of `mask` taken from v, if any of the selection's bits `sel` is set. */
  function Put(d: bv32, sel: bv32, mask: bv8, v: bv8, r: bv8): bv8 { if d & sel != 0 then (r & !mask) | (v & mask) else r }

  /** Which bit of a selection writes which bits of which register, and from which setting. */
  lemma SelectionTable(r: bv8, s: Settings, d: bv32)
    ensures Expected(0x1B, r, s, d) == Put(d, 1 << 2, 0x02, s.tempEn << 1, Put(d, 1 << 1, 0x01, s.pressEn, r))
    ensures Expected(0x1C, r, s, d) == Put(d, 1 << 5, 0x38, s.tempOs << 3, Put(d, 1 << 4, 0x07, s.pressOs, r))
    ensures Expected(0x1D, r, s, d) == Put(d, 1 << 7, 0x1F, s.odr, r)
    ensures Expected(0x1F, r, s, d) == Put(d, 1 << 6, 0x0E, s.iirFilter << 1, r)
    ensures Expected(0x1A, r, s, d) == Put(d, 1 << 12, 0x04, s.wdtSel << 2, Put(d, 1 << 11, 0x02, s.wdtEn << 1, r))
    ensures Expected(0x19, r, s, d)
         == Put(d, 1 << 3, 0x40, s.drdyEn << 6,
              Put(d, 1 << 10, 0x04, s.latch << 2, Put(d, 1 << 9, 0x02, s.level << 1, Put(d, 1 << 8, 0x01, s.outputMode, r))))
  {
    hide SetIf, Put;
    forall f: Field, x: bv8 ensures SetIf(d, f, x, s) == Put(d, Bit(f), Mask(f), Place(f, Value(s, f)), x) {
      FieldTable(f, x, s, d);
    }
  }

  function Bit(f: Field): bv32 {
    match f
    case PressEn => 1 << 1
    case TempEn => 1 << 2
    case DrdyEn => 1 << 3
    case PressOs => 1 << 4
    case TempOs => 1 << 5
    case IirFilter => 1 << 6
    case Odr => 1 << 7
    case OutputMode => 1 << 8
    case Level => 1 << 9
    case Latch => 1 << 10
    case WdtEn => 1 << 11
    case WdtSel => 1 << 12
  }

  lemma FieldTable(f: Field, x: bv8, s: Settings, d: bv32)
    ensures SetIf(d, f, x, s) == Put(d, Bit(f), Mask(f), Place(f, Value(s, f)), x)
  {
    BitIsSelector(f);
    hide Bit, Selector, Mask, Place, Value;
  }

  lemma BitIsSelector(f: Field)
    ensures Selector(f) == Bit(f)
  {
  }

  /** The four groups of settings that are written together. */
  lemma GroupTable(d: bv32)
    ensures HasBit(d, POWER_CNTL) <==> d & (1 << 1) != 0 || d & (1 << 2) != 0
    ensures HasBit(d, ODR_FILTER) <==> d & (1 << 4) != 0 || d & (1 << 5) != 0 || d & (1 << 6) != 0 || d & (1 << 7) != 0
    ensures HasBit(d, INT_SETT) <==> d & (1 << 3) != 0 || d & (1 << 8) != 0 || d & (1 << 9) != 0 || d & (1 << 10) != 0
    ensures HasBit(d, ADV_SETT) <==> d & (1 << 11) != 0 || d & (1 << 12) != 0
  {
  }

  function IfBit(d: bv32, sel: bv32, mask: bv8): bv8 { if d & sel != 0 then mask else 0 }

  /** Which bits of which register a selection covers. */
  lemma CoverTable(d: bv32)
    ensures Covered(0x1B, d) == IfBit(d, 1 << 1, 0x01) | IfBit(d, 1 << 2, 0x02)
    ensures Covered(0x1C, d) == IfBit(d, 1 << 4, 0x07) | IfBit(d, 1 << 5, 0x38)
    ensures Covered(0x1D, d) == IfBit(d, 1 << 7, 0x1F)
    ensures Covered(0x1F, d) == IfBit(d, 1 << 6, 0x0E)
    ensures Covered(0x1A, d) == IfBit(d, 1 << 11, 0x02) | IfBit(d, 1 << 12, 0x04)
    ensures Covered(0x19, d) == IfBit(d, 1 << 3, 0x40) | IfBit(d, 1 << 8, 0x01) | IfBit(d, 1 << 9, 0x02) | IfBit(d, 1 << 10, 0x04)
    ensures forall a: bv8 :: a !in {0x19, 0x1A, 0x1B, 0x1C, 0x1D, 0x1F} ==> Covered(a, d) == 0
  {
    hide IfBit, Cover;
    forall f: Field, a: bv8 ensures Cover(f, a, d) == if Register(f) == a then IfBit(d, Bit(f), Mask(f)) else 0 {
      CoverIs(f, a, d);
    }
  }

  lemma CoverIs(f: Field, a: bv8, d: bv32)
    ensures Cover(f, a, d) == if Register(f) == a then IfBit(d, Bit(f), Mask(f)) else 0
  {
    BitIsSelector(f);
    hide Bit, Selector, Mask, Register;
  }
}
