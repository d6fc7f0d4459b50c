/** The settings layer of the BMP3 driver over a register file. */
module Bmp3 {
  import opened Bmp3Fields
  import opened Powers

  datatype Address = Reg(a: bv8)

  type Registers = map<Address, bv8>

  ghost predicate Complete(regs: Registers) { forall a: bv8 :: a <= 0x7F ==> Reg(a) in regs }

  /** Where the sensor's address counter stands i registers after a. */
  function Next(a: bv8, i: nat): (r: bv8)
    ensures r <= 0x7F
  {
    if i == 0 then a & 0x7F else (Next(a, i - 1) + 1) & 0x7F
  }

  function WriteOne(regs: Registers, a: bv8, v: bv8): Registers { regs[Reg(a & 0x7F) := v] }

  /** Single writes one after the other. */
  function WriteAll(regs: Registers, addrs: seq<bv8>, data: seq<bv8>): Registers
    requires |addrs| == |data|
  {
    if addrs == [] then regs
    else WriteOne(WriteAll(regs, addrs[..|addrs| - 1], data[..|data| - 1]), addrs[|addrs| - 1], data[|data| - 1])
  }

  /** A burst: a byte for the first address, then n pairs of address and byte. */
  function BurstPairs(regs: Registers, addr: bv8, buf: seq<bv8>, n: nat): Registers
    requires 2 * n < |buf|
  {
    if n == 0 then WriteOne(regs, addr, buf[0])
    else WriteOne(BurstPairs(regs, addr, buf, n - 1), buf[2 * n - 1], buf[2 * n])
  }

  /** interleave_reg_addr's result; what stands behind the last byte of data is anything. */
  predicate Interleaved(buf: seq<bv8>, addrs: seq<bv8>, data: seq<bv8>) {
    && 0 < |addrs| == |data| && |buf| >= 2 * |data| - 1 && buf[0] == data[0]
    && forall k :: 1 <= k < |data| ==> buf[2 * k - 1] == addrs[k] && buf[2 * k] == data[k]
  }

  /** A burst of interleaved addresses writes what single writes would. */
  lemma {:induction false} BurstIsWrites(regs: Registers, buf: seq<bv8>, addrs: seq<bv8>, data: seq<bv8>, n: nat)
    requires Interleaved(buf, addrs, data) && n < |data|
    ensures BurstPairs(regs, addrs[0], buf, n) == WriteAll(regs, addrs[..n + 1], data[..n + 1])
    decreases n
  {
    hide WriteOne;
    assert addrs[..n + 1][..n] == addrs[..n] && data[..n + 1][..n] == data[..n];
    if n == 0 {
      assert WriteAll(regs, [], []) == regs;
      assert addrs[..1] == [addrs[0]] && data[..1] == [data[0]];
    } else {
      BurstIsWrites(regs, buf, addrs, data, n - 1);
    }
  }

  lemma MaskTwice(a: bv8)
    ensures a & 0x7F & 0x7F == a & 0x7F
    ensures (a | 0x80) & 0x7F == a & 0x7F
    ensures a <= 0x7F ==> a & 0x7F == a
    ensures a & 0x7F <= 0x7F
  {
  }

  lemma {:induction false} NextIgnoresReadBit(a: bv8, i: nat)
    ensures Next(a | 0x80, i) == Next(a, i)
  {
    if i == 0 {
      MaskTwice(a);
    } else {
      NextIgnoresReadBit(a, i - 1);
    }
  }

  lemma {:induction false} MaskedWrites(regs: Registers, addrs: seq<bv8>, masked: seq<bv8>, data: seq<bv8>)
    requires |addrs| == |masked| == |data| && forall k :: 0 <= k < |addrs| ==> masked[k] == addrs[k] & 0x7F
    ensures WriteAll(regs, masked, data) == WriteAll(regs, addrs, data)
    decreases |addrs|
  {
    if addrs != [] {
      var n := |addrs| - 1;
      MaskedWrites(regs, addrs[..n], masked[..n], data[..n]);
      MaskTwice(addrs[n]);
    }
  }

  lemma SentIsWritten(regs: Registers, buf: seq<bv8>, addrs: seq<bv8>, sent: seq<bv8>, data: seq<bv8>, masked: bool)
    requires Interleaved(buf, sent, data) && |addrs| == |sent|
    requires forall k :: 0 <= k < |addrs| ==> sent[k] == if masked then addrs[k] & 0x7F else addrs[k]
    ensures BurstPairs(regs, sent[0], buf, |data| - 1) == WriteAll(regs, addrs, data)
  {
    BurstIsWrites(regs, buf, sent, data, |data| - 1);
    assert sent[..|data|] == sent && data[..|data|] == data;
    if masked {
      MaskedWrites(regs, addrs, sent, data);
    } else {
      assert sent == addrs;
    }
  }

  /** The sensor on a bus without faults. */
  class Chip {
    var regs: Registers

    constructor (r: Registers)
      ensures regs == r
    {
      regs := r;
    }

    /** A read; on SPI bytes without meaning come first. */
    method Read(addr: bv8, buf: array<bv8>, len: nat, dummy: nat)
      requires Complete(regs) && len <= buf.Length
      modifies buf
      ensures forall i :: dummy <= i < len ==> buf[i] == regs[Reg(Next(addr, i - dummy))]
      ensures forall i :: len <= i < buf.Length ==> buf[i] == old(buf[i])
    {
      var i := dummy;
      while i < len
        invariant dummy <= i
        invariant forall k :: dummy <= k < i && k < len ==> buf[k] == regs[Reg(Next(addr, k - dummy))]
        invariant forall k :: len <= k < buf.Length ==> buf[k] == old(buf[k])
      {
        buf[i] := regs[Reg(Next(addr, i - dummy))];
        i := i + 1;
      }
    }

    /** A write: the first byte for the given address, then pairs; an address at the very end that
        no byte follows is ignored. */
    method Write(addr: bv8, buf: array<bv8>, len: nat)
      requires 0 < len <= buf.Length
      modifies this
      ensures regs == BurstPairs(old(regs), addr, buf[..len], (len - 1) / 2)
    {
      regs := WriteOne(regs, addr, buf[0]);
      var n := 0;
      while n < (len - 1) / 2
        invariant n <= (len - 1) / 2 && regs == BurstPairs(old(regs), addr, buf[..len], n)
      {
        n := n + 1;
        regs := WriteOne(regs, buf[2 * n - 1], buf[2 * n]);
      }
    }
  }

  datatype Status = OK | InvalidLength | InvalidOdrOsr

  // ---- Measurement time ----

  const TWO_32 := 0x1_0000_0000

  /** pow_bmp3 with base 2, in 32 bits. */
  method PowBmp3(power0: nat) returns (r: nat)
    ensures r == Pow2(power0) % TWO_32
    ensures r == if power0 < 32 then Pow2(power0) else 0
  {
    PowerInWord(power0);
    r := 1;
    var power := power0;
    var done := 0;
    while power != 0
      invariant done + power == power0 && r == Pow2(done) % TWO_32
      decreases power
    {
      DoubleInWord(Pow2(done));
      r := 2 * r % TWO_32;
      power := power - 1;
      done := done + 1;
    }
  }

  /** In 32 bits nothing is left of the larger powers. */
  lemma PowerInWord(n: nat)
    ensures Pow2(n) % 0x1_0000_0000 == if n < 32 then Pow2(n) else 0
  {
    hide Pow2;
    if n < 32 {
      PowerGrows(n, 31);
      PowerFromTop(31);
    } else {
      PowerFromTop(n);
      assert Pow2(n - 32) * 0x1_0000_0000 % 0x1_0000_0000 == 0;
    }
  }

  lemma {:induction false} PowerGrows(n: nat, m: nat)
    requires n <= m
    ensures Pow2(n) <= Pow2(m)
    decreases m
  {
    if n < m {
      PowerGrows(n, m - 1);
    }
  }

  lemma {:induction false} PowerFromTop(n: nat)
    requires n >= 31
    ensures Pow2(n) == if n == 31 then 0x8000_0000 else Pow2(n - 32) * 0x1_0000_0000
  {
    if n == 31 {
      assert Pow2(0) == 1 && Pow2(8) == 0x100 && Pow2(16) == 0x1_0000 && Pow2(24) == 0x100_0000;
    } else {
      PowerFromTop(n - 1);
    }
  }

  lemma DoubleInWord(x: nat)
    ensures 2 * (x % TWO_32) % TWO_32 == 2 * x % TWO_32
  {
    var q, r := x / TWO_32, x % TWO_32;
    assert 2 * x == 2 * r + 2 * q * TWO_32;
  }

  function MeasureTime(settle: nat, oversampling: nat): nat { (settle + Pow2(oversampling) % TWO_32 * 2000) % TWO_32 }

  lemma MeasureInWord(settle: nat, oversampling: nat)
    ensures MeasureTime(settle, oversampling) < TWO_32
  {
  }

  /** What one measurement takes in microseconds, by what is enabled. */
  function TotalTime(s: Settings): nat {
    (234 + (((if s.pressEn != 0 then MeasureTime(392, s.pressOs as nat) else 0)
             + (if s.tempEn != 0 then MeasureTime(313, s.tempOs as nat) else 0)) % TWO_32)) % TWO_32
  }

  function Period(odr: nat): nat { 5000 * Pow2(odr) }

  /** The output data rate is slow enough for the measurement. */
  predicate RateFits(s: Settings) { TotalTime(s) < Period(s.odr as nat) }

  // ---- The driver ----

  /** The selection has something of this group (are_settings_changed). */
  predicate Changed(group: bv32, d: bv32) { HasBit(d, group) }

  /** A settings struct whose output data rate is within the range of the period table. */
  function Clamp(s: Settings, d: bv32): Settings { if Selected(d, Odr) && s.odr > 0x11 then s.(odr := 0x11) else s }

  /** struct bmp3_dev. */
  class Dev {
    const chip: Chip
    const spi: bool
    const dummyByte: nat
    var settings: Settings

    ghost predicate Valid()
      reads this, chip
    {
      Complete(chip.regs)
    }

    constructor (c: Chip, overSpi: bool, dummy: nat, s: Settings)
      ensures chip == c && spi == overSpi && dummyByte == dummy && settings == s
    {
      chip, spi, dummyByte, settings := c, overSpi, dummy, s;
    }

    /** bmp3_get_regs. */
    method GetRegs(regAddr: bv8, regData: array<bv8>, len: nat)
      requires Valid() && len <= regData.Length
      modifies regData
      ensures forall i :: 0 <= i < len ==> regData[i] == chip.regs[Reg(Next(regAddr, i))]
    {
      if spi {
        var tempBuff := new bv8[len + dummyByte];
        chip.Read(regAddr | 0x80, tempBuff, len + dummyByte, dummyByte);
        var idx := 0;
        while idx < len
          invariant idx <= len
          invariant forall i :: dummyByte <= i < len + dummyByte ==> tempBuff[i] == chip.regs[Reg(Next(regAddr | 0x80, i - dummyByte))]
          invariant forall i :: 0 <= i < idx ==> regData[i] == chip.regs[Reg(Next(regAddr, i))]
        {
          NextIgnoresReadBit(regAddr, idx);
          regData[idx] := tempBuff[idx + dummyByte];
          idx := idx + 1;
        }
      } else {
        chip.Read(regAddr, regData, len, 0);
      }
    }

    /** bmp3_set_regs. */
    method SetRegs(regAddr: array<bv8>, regData: array<bv8>, len: nat) returns (rslt: Status)
      requires regAddr != regData && len <= regAddr.Length && len <= regData.Length
      modifies chip, regAddr
      ensures rslt == if len == 0 then InvalidLength else OK
      ensures chip.regs == WriteAll(old(chip.regs), old(regAddr[..len]), old(regData[..len]))
    {
      if len == 0 {
        return InvalidLength;
      }
      ghost var addrs, data := regAddr[..len], regData[..len];
      var tempBuff := new bv8[len * 2];
      tempBuff[0] := regData[0];
      if spi {
        MaskAddresses(regAddr, len);
      }
      var tempLen := len;
      if len > 1 {
        InterleaveRegAddr(regAddr, tempBuff, regData, len);
        tempLen := len * 2;
      }
      ghost var sent := regAddr[..len];
      chip.Write(regAddr[0], tempBuff, tempLen);
      SentIsWritten(old(chip.regs), tempBuff[..tempLen], addrs, sent, data, spi);
      rslt := OK;
    }

    method MaskAddresses(regAddr: array<bv8>, len: nat)
      requires len <= regAddr.Length
      modifies regAddr
      ensures forall i :: 0 <= i < len ==> regAddr[i] == old(regAddr[i]) & 0x7F
    {
      var i := 0;
      while i < len
        invariant i <= len
        invariant forall k :: 0 <= k < i ==> regAddr[k] == old(regAddr[k]) & 0x7F
        invariant forall k :: i <= k < len ==> regAddr[k] == old(regAddr[k])
      {
        regAddr[i] := regAddr[i] & 0x7F;
        i := i + 1;
      }
    }

    /** interleave_reg_addr. */
    method InterleaveRegAddr(regAddr: array<bv8>, tempBuff: array<bv8>, regData: array<bv8>, len: nat)
      requires 0 < len <= regAddr.Length && len <= regData.Length && 2 * len <= tempBuff.Length
      requires tempBuff != regAddr && tempBuff != regData && tempBuff[0] == regData[0]
      modifies tempBuff
      ensures Interleaved(tempBuff[..2 * len], regAddr[..len], regData[..len])
    {
      var index := 1;
      while index < len
        invariant 1 <= index <= len && tempBuff[0] == regData[0]
        invariant forall k :: 1 <= k < index ==> tempBuff[2 * k - 1] == regAddr[k] && tempBuff[2 * k] == regData[k]
      {
        tempBuff[index * 2 - 1] := regAddr[index];
        tempBuff[index * 2] := regData[index];
        index := index + 1;
      }
    }

    // ---- Groups of settings ----

    /** Reading one register, changing it and writing it back. */
    method ReadOne(regAddr: bv8) returns (regData: bv8)
      requires Valid() && regAddr <= 0x7F
      ensures regData == chip.regs[Reg(regAddr)]
    {
      var data := new bv8[1];
      GetRegs(regAddr, data, 1);
      MaskTwice(regAddr);
      assert Next(regAddr, 0) == regAddr;
      regData := data[0];
    }

    method WriteBack(regAddr: bv8, regData: bv8)
      requires Valid() && regAddr <= 0x7F
      modifies chip
      ensures chip.regs == old(chip.regs)[Reg(regAddr) := regData]
    {
      var addr, data := new bv8[1], new bv8[1];
      addr[0], data[0] := regAddr, regData;
      MaskTwice(regAddr);
      ghost var a, v := addr[..1], data[..1];
      assert a == [regAddr] && v == [regData];
      assert WriteAll(chip.regs, [], []) == chip.regs;
      assert a[..0] == [] && v[..0] == [];
      var _ := SetRegs(addr, data, 1);
    }

    /** set_pwr_ctrl_settings. */
    method SetPwrCtrl(d: bv32)
      requires Valid()
      modifies chip
      ensures Updated(old(chip.regs), chip.regs, settings, d, {PWR_CTRL})
    {
      hide Set, Selected, Place, Mask;
      var r := ReadOne(PWR_CTRL);
      if Selected(d, PressEn) {
        r := Set(PressEn, r, settings.pressEn);
      }
      if Selected(d, TempEn) {
        r := Set(TempEn, r, settings.tempEn);
      }
      UpdatedOne(chip.regs, settings, d, PWR_CTRL);
      WriteBack(PWR_CTRL, r);
    }

    /** set_int_ctrl_settings. */
    method SetIntCtrl(d: bv32)
      requires Valid()
      modifies chip
      ensures Updated(old(chip.regs), chip.regs, settings, d, {INT_CTRL})
    {
      hide Set, Selected, Updated, Expected;
      var r := ReadOne(INT_CTRL);
      ExpectedInt(r, settings, d);
      if Selected(d, OutputMode) {
        r := Set(OutputMode, r, settings.outputMode);
      }
      if Selected(d, Level) {
        r := Set(Level, r, settings.level);
      }
      if Selected(d, Latch) {
        r := Set(Latch, r, settings.latch);
      }
      if Selected(d, DrdyEn) {
        r := Set(DrdyEn, r, settings.drdyEn);
      }
      UpdatedOne(chip.regs, settings, d, INT_CTRL);
      WriteBack(INT_CTRL, r);
    }

    /** set_advance_settings. */
    method SetAdvance(d: bv32)
      requires Valid()
      modifies chip
      ensures Updated(old(chip.regs), chip.regs, settings, d, {IF_CONF})
    {
      hide Set, Selected, Place, Mask;
      var r := ReadOne(IF_CONF);
      if Selected(d, WdtEn) {
        r := Set(WdtEn, r, settings.wdtEn);
      }
      if Selected(d, WdtSel) {
        r := Set(WdtSel, r, settings.wdtSel);
      }
      UpdatedOne(chip.regs, settings, d, IF_CONF);
      WriteBack(IF_CONF, r);
    }

    // ---- Over sampling, output data rate and filter ----

    /** fill_osr_data, called with nothing filled yet. */
    method FillOsr(d: bv32, addr: array<bv8>, data: array<bv8>) returns (len: nat)
      requires addr.Length == 3 && data.Length == 4 && addr != data
      modifies addr, data
      ensures len == if Selected(d, PressOs) || Selected(d, TempOs) then 1 else 0
      ensures addr[..len] == Piece(len == 1, OSR)
      ensures data[..len] == Piece(len == 1, Expected(OSR, old(data[0]), settings, d))
      ensures forall i :: len <= i < 4 ==> data[i] == old(data[i])
    {
      hide Set, Selected, Place, Mask;
      len := 0;
      if Selected(d, PressOs) || Selected(d, TempOs) {
        if Selected(d, PressOs) {
          data[len] := Set(PressOs, data[0], settings.pressOs);
        }
        if Selected(d, TempOs) {
          data[len] := Set(TempOs, data[0], settings.tempOs);
        }
        addr[len] := OSR;
        len := len + 1;
      }
    }

    /** fill_odr_data: the rate is limited to the slowest one there is. */
    method FillOdr(d: bv32, addr: array<bv8>, data: array<bv8>, len0: nat) returns (len: nat)
      requires addr.Length == 3 && data.Length == 4 && addr != data && len0 < 2 && Selected(d, Odr)
      modifies addr, data, this
      ensures settings == Clamp(old(settings), d) && len == len0 + 1
      ensures addr[..len] == old(addr[..len0]) + [ODR]
      ensures data[..len] == old(data[..len0]) + [Expected(ODR, old(data[1]), settings, d)]
      ensures forall i :: len <= i < 4 ==> data[i] == old(data[i])
    {
      hide Set, Selected, Place, Mask;
      if settings.odr > 0x11 {
        settings := settings.(odr := 0x11);
      }
      data[len0] := Set(Odr, data[1], settings.odr);
      addr[len0] := ODR;
      len := len0 + 1;
    }

    /** fill_filter_data. */
    method FillFilter(d: bv32, addr: array<bv8>, data: array<bv8>, len0: nat) returns (len: nat)
      requires addr.Length == 3 && data.Length == 4 && addr != data && len0 < 3 && Selected(d, IirFilter)
      modifies addr, data
      ensures len == len0 + 1
      ensures addr[..len] == old(addr[..len0]) + [CONFIG]
      ensures data[..len] == old(data[..len0]) + [Expected(CONFIG, old(data[3]), settings, d)]
      ensures forall i :: len <= i < 4 ==> data[i] == old(data[i])
    {
      hide Set, Selected, Place, Mask;
      data[len0] := Set(IirFilter, data[3], settings.iirFilter);
      addr[len0] := CONFIG;
      len := len0 + 1;
    }

    /** The three fill functions one after the other: what is selected, compacted to the front. */
    method FillAll(d: bv32, addr: array<bv8>, data: array<bv8>) returns (len: nat)
      requires addr.Length == 3 && data.Length == 4 && addr != data
      modifies addr, data, this
      ensures settings == Clamp(old(settings), d) && len <= 3
      ensures addr[..len] == FilledAddrs(d)
      ensures data[..len] == FilledData(d, settings, old(data[0]), old(data[1]), old(data[3]))
    {
      hide Expected, Selected, Clamp;
      len := FillTwo(d, addr, data);
      ClampIsForOdrOnly(CONFIG, data[3], old(settings), d);
      if Selected(d, IirFilter) {
        len := FillFilter(d, addr, data, len);
      }
    }

    method FillTwo(d: bv32, addr: array<bv8>, data: array<bv8>) returns (len: nat)
      requires addr.Length == 3 && data.Length == 4 && addr != data
      modifies addr, data, this
      ensures settings == Clamp(old(settings), d) && len <= 2
      ensures addr[..len] == Piece(Selected(d, PressOs) || Selected(d, TempOs), OSR) + Piece(Selected(d, Odr), ODR)
      ensures data[..len] == Piece(Selected(d, PressOs) || Selected(d, TempOs), Expected(OSR, old(data[0]), settings, d))
                           + Piece(Selected(d, Odr), Expected(ODR, old(data[1]), settings, d))
      ensures data[3] == old(data[3])
    {
      ClampIsForOdrOnly(OSR, data[0], settings, d);
      ClampWithoutOdr(settings, d);
      hide Expected, Selected, Clamp;
      len := FillOsr(d, addr, data);
      if Selected(d, Odr) {
        len := FillOdr(d, addr, data, len);
      }
    }

    /** calculate_press_meas_time and calculate_temp_meas_time, which differ in the settling time. */
    method CalculateMeasTime(settle: nat, oversampling: bv8) returns (t: nat)
      ensures t == MeasureTime(settle, oversampling as nat)
    {
      hide Pow2;
      var partial := PowBmp3(oversampling as nat);
      t := (settle + partial * 2000) % TWO_32;
    }

    /** validate_osr_and_odr_settings. */
    method ValidateOsrAndOdr() returns (ok: bool)
      requires settings.odr <= 0x11
      ensures ok == RateFits(settings)
    {
      hide Pow2, MeasureTime;
      var measT := 0;
      if settings.pressEn != 0 {
        measT := CalculateMeasTime(392, settings.pressOs);
        MeasureInWord(392, settings.pressOs as nat);
      }
      if settings.tempEn != 0 {
        var tempT := CalculateMeasTime(313, settings.tempOs);
        measT := (measT + tempT) % TWO_32;
        MeasureInWord(313, settings.tempOs as nat);
      }
      measT := (234 + measT) % TWO_32;
      IndexInTable(settings.odr);
      PeriodsAreDoubled(settings.odr as nat);
      ok := measT < PERIODS[settings.odr as nat];
    }

    /** set_odr_filter_settings. In normal mode the rate must fit, or nothing is written. */
    method SetOdrFilter(d: bv32) returns (rslt: Status)
      requires Valid() && Changed(ODR_FILTER, d) && RateInTable(settings, d)
      modifies chip, this
      ensures settings == Clamp(old(settings), d)
      ensures rslt == if NeedsRate(settings) && !RateFits(settings) then InvalidOdrOsr else OK
      ensures Updated(old(chip.regs), chip.regs, settings, d, if rslt == OK then {OSR, ODR, CONFIG} else {})
    {
      var addr, data := new bv8[3], new bv8[4];
      GetRegs(OSR, data, 4);
      FourFromOsr();
      OdrGroupChanged(d);
      ClampInTable(settings, d);
      hide Selected, Clamp, RateFits, FilledAddrs, FilledData, Expected, Updated;
      var len := FillAll(d, addr, data);
      rslt := OK;
      if settings.opMode == 0x03 {
        var ok := ValidateOsrAndOdr();
        if !ok {
          rslt := InvalidOdrOsr;
        }
      }
      if rslt == OK {
        FilledIsUpdated(chip.regs, settings, d);
        rslt := SetRegs(addr, data, len);
      }
    }

    /** bmp3_set_sensor_settings. When it succeeds every register holds what the selection asks
        for; when the rate does not fit, at most the power control register was written. */
    method SetSensorSettings(d: bv32) returns (rslt: Status)
      requires Valid() && RateInTable(settings, d)
      modifies chip, this
      ensures settings == if Changed(ODR_FILTER, d) then Clamp(old(settings), d) else old(settings)
      ensures rslt == if Changed(ODR_FILTER, d) && NeedsRate(settings) && !RateFits(settings) then InvalidOdrOsr else OK
      ensures Updated(old(chip.regs), chip.regs, settings, d, if rslt == OK then SETTINGS else {PWR_CTRL})
    {
      ghost var r0 := chip.regs;
      ghost var s1 := if Changed(ODR_FILTER, d) then Clamp(settings, d) else settings;
      rslt := OK;
      hide Changed, Clamp, Updated, RateFits, NeedsRate;
      if Changed(POWER_CNTL, d) {
        SetPwrCtrl(d);
        ClampKeeps(r0, chip.regs, settings, d, {PWR_CTRL});
      } else {
        GroupUnchanged(r0, s1, d, {PWR_CTRL});
      }
      ghost var r1 := chip.regs;
      assert Updated(r0, r1, s1, d, {PWR_CTRL});
      if Changed(ODR_FILTER, d) {
        StillComplete(r0, r1, s1, d, {PWR_CTRL});
        rslt := SetOdrFilter(d);
        if rslt != OK {
          UpdatedThen(r0, r1, chip.regs, s1, d, {PWR_CTRL}, {});
          return;
        }
      } else {
        GroupUnchanged(r1, s1, d, {OSR, ODR, CONFIG});
      }
      ghost var r2 := chip.regs;
      UpdatedThen(r0, r1, r2, s1, d, {PWR_CTRL}, {OSR, ODR, CONFIG});
      StillComplete(r0, r2, s1, d, {PWR_CTRL} + {OSR, ODR, CONFIG});
      SetRest(d);
      UpdatedThen(r0, r2, chip.regs, s1, d, {PWR_CTRL} + {OSR, ODR, CONFIG}, {INT_CTRL, IF_CONF});
      assert {PWR_CTRL} + {OSR, ODR, CONFIG} + {INT_CTRL, IF_CONF} == SETTINGS;
    }

    /** The last two groups of bmp3_set_sensor_settings. */
    method SetRest(d: bv32)
      requires Valid()
      modifies chip
      ensures Updated(old(chip.regs), chip.regs, settings, d, {INT_CTRL, IF_CONF})
    {
      ghost var r0 := chip.regs;
      hide Changed, Updated;
      if Changed(INT_SETT, d) {
        SetIntCtrl(d);
      } else {
        GroupUnchanged(r0, settings, d, {INT_CTRL});
      }
      ghost var r1 := chip.regs;
      StillComplete(r0, r1, settings, d, {INT_CTRL});
      if Changed(ADV_SETT, d) {
        SetAdvance(d);
      } else {
        GroupUnchanged(r1, settings, d, {IF_CONF});
      }
      UpdatedThen(r0, r1, chip.regs, settings, d, {INT_CTRL}, {IF_CONF});
      assert {INT_CTRL} + {IF_CONF} == {INT_CTRL, IF_CONF};
    }

    /** bmp3_get_sensor_settings. */
    method GetSensorSettings()
      requires Valid()
      modifies this
      ensures forall f: Field :: Value(settings, f) == Get(f, chip.regs[Reg(Register(f))])
      ensures settings.opMode == (chip.regs[Reg(PWR_CTRL)] & 0x30) >> 4
    {
      var data := new bv8[7];
      GetRegs(INT_CTRL, data, 7);
      SevenFromIntCtrl();
      settings := ParseSettData(data[0], data[1], data[2], data[3], data[4], data[6]);
      hide Get, ParseSettData;
      forall f: Field ensures Value(settings, f) == Get(f, chip.regs[Reg(Register(f))]) {
        ParsedFields(f, data[0], data[1], data[2], data[3], data[4], data[6]);
      }
    }

    /** Setting and then getting: every selected field comes back as what was asked for, cut to
        its width (a rate beyond the slowest one as the slowest one), every other field as the
        device had it. */
    method SetThenGetBack(d: bv32) returns (rslt: Status)
      requires Valid() && RateInTable(settings, d)
      modifies chip, this
      ensures forall f: Field :: rslt == OK ==>
        Value(settings, f) == if Selected(d, f) then Value(Clamp(old(settings), d), f) & Width(f)
                              else old(Get(f, chip.regs[Reg(Register(f))]))
    {
      hide Changed, Clamp, Updated, RateFits, NeedsRate, Selected, Get, Value, Width, Register, RateInTable;
      RegistersInRange();
      ghost var before, asked := chip.regs, Clamp(settings, d);
      ClampIfChanged(settings, d);
      rslt := SetSensorSettings(d);
      if rslt != OK {
        return;
      }
      ghost var used := settings;
      StillComplete(before, chip.regs, used, d, SETTINGS);
      GetSensorSettings();
      ghost var got := settings;
      forall f: Field ensures Value(got, f) == if Selected(d, f) then Value(asked, f) & Width(f) else Get(f, before[Reg(Register(f))]) {
        SettingsReadBack(before, chip.regs, used, got, d, f);
      }
    }
  }

  /** parse_sett_data, from the registers that hold settings. */
  function ParseSettData(intCtrl: bv8, ifConf: bv8, pwrCtrl: bv8, osr: bv8, odr: bv8, config: bv8): (s: Settings)
    ensures s.opMode == (pwrCtrl & 0x30) >> 4
  {
    Settings(
      opMode := (pwrCtrl & 0x30) >> 4, pressEn := Get(PressEn, pwrCtrl), tempEn := Get(TempEn, pwrCtrl),
      pressOs := Get(PressOs, osr), tempOs := Get(TempOs, osr), odr := Get(Odr, odr), iirFilter := Get(IirFilter, config),
      outputMode := Get(OutputMode, intCtrl), level := Get(Level, intCtrl), latch := Get(Latch, intCtrl), drdyEn := Get(DrdyEn, intCtrl),
      wdtEn := Get(WdtEn, ifConf), wdtSel := Get(WdtSel, ifConf))
  }

  lemma ParsedFields(f: Field, intCtrl: bv8, ifConf: bv8, pwrCtrl: bv8, osr: bv8, odr: bv8, config: bv8)
    ensures var r := Register(f);
            Value(ParseSettData(intCtrl, ifConf, pwrCtrl, osr, odr, config), f)
              == Get(f, if r == INT_CTRL then intCtrl else if r == IF_CONF then ifConf else if r == PWR_CTRL then pwrCtrl
                        else if r == OSR then osr else if r == ODR then odr else config)
  {
    hide Get;
  }

  const SETTINGS: set<bv8> := {INT_CTRL, IF_CONF, PWR_CTRL, OSR, ODR, CONFIG}

  /** The registers `which` have their selected fields set, the others are as they were. */
  ghost predicate Updated(before: Registers, after: Registers, s: Settings, d: bv32, which: set<bv8>) {
    && (forall a: bv8 :: Reg(a) in after <==> Reg(a) in before)
    && forall a: bv8 :: Reg(a) in before ==> after[Reg(a)] == if a in which then Expected(a, before[Reg(a)], s, d) else before[Reg(a)]
  }

  predicate NeedsRate(s: Settings) { s.opMode == 0x03 }

  /** The rate that normal mode is checked against is one of the table's, unless it is limited anyway. */
  lemma RateTable(s: Settings, d: bv32)
    ensures RateInTable(s, d) <==> (d & 0xF0 != 0 && s.opMode == 0x03 && d & 0x80 == 0 ==> s.odr <= 0x11)
  {
  }

  predicate RateInTable(s: Settings, d: bv32) { Changed(ODR_FILTER, d) && NeedsRate(s) && !Selected(d, Odr) ==> s.odr <= 0x11 }

  lemma ClampInTable(s: Settings, d: bv32)
    requires Changed(ODR_FILTER, d) && RateInTable(s, d)
    ensures NeedsRate(s) ==> Clamp(s, d).odr <= 0x11
    ensures Clamp(s, d).opMode == s.opMode
  {
    hide Selected;
  }

  lemma OdrGroupChanged(d: bv32)
    ensures Changed(ODR_FILTER, d) <==> Selected(d, PressOs) || Selected(d, TempOs) || Selected(d, Odr) || Selected(d, IirFilter)
    ensures Changed(ODR_FILTER, d) ==> FilledAddrs(d) != []
  {
    FourBits(d);
    hide Selected;
  }

  lemma FourBits(d: bv32)
    ensures Changed(ODR_FILTER, d) <==> Selected(d, PressOs) || Selected(d, TempOs) || Selected(d, Odr) || Selected(d, IirFilter)
  {
    FourBitsOf(d);
    hide HasBit;
  }

  lemma FourBitsOf(d: bv32)
    ensures HasBit(d, 0x00F0) <==> HasBit(d, 0x0010) || HasBit(d, 0x0020) || HasBit(d, 0x0080) || HasBit(d, 0x0040)
  {
  }

  lemma BitInGroup(group: bv32, bit: bv32, d: bv32)
    requires group & bit == bit && HasBit(d, bit)
    ensures HasBit(d, group)
  {
  }

  lemma FourFromOsr()
    ensures Next(OSR, 0) == OSR && Next(OSR, 1) == ODR && Next(OSR, 3) == CONFIG
  {
    assert Next(OSR, 1) == 0x1D;
    assert Next(OSR, 2) == 0x1E;
  }

  lemma SevenFromIntCtrl()
    ensures Next(INT_CTRL, 0) == INT_CTRL && Next(INT_CTRL, 1) == IF_CONF && Next(INT_CTRL, 2) == PWR_CTRL
    ensures Next(INT_CTRL, 3) == OSR && Next(INT_CTRL, 4) == ODR && Next(INT_CTRL, 6) == CONFIG
  {
    assert Next(INT_CTRL, 1) == 0x1A;
    assert Next(INT_CTRL, 2) == 0x1B;
    assert Next(INT_CTRL, 3) == 0x1C;
    assert Next(INT_CTRL, 4) == 0x1D;
    assert Next(INT_CTRL, 5) == 0x1E;
  }

  // ---- Updated registers ----

  lemma UpdatedMore(before: Registers, after: Registers, s: Settings, d: bv32, which: set<bv8>, a: bv8)
    requires Updated(before, after, s, d, which) && Reg(a) in before && a !in which
    ensures Updated(before, after[Reg(a) := Expected(a, before[Reg(a)], s, d)], s, d, which + {a})
  {
    hide Expected;
    var v := Expected(a, before[Reg(a)], s, d);
    var more := after[Reg(a) := v];
    forall b: bv8 ensures Reg(b) in more <==> Reg(b) in before {
      assert Reg(b) in more <==> b == a || Reg(b) in after;
    }
    forall b: bv8 | Reg(b) in before
      ensures more[Reg(b)] == if b in which + {a} then Expected(b, before[Reg(b)], s, d) else before[Reg(b)]
    {
      if b == a {
        assert more[Reg(a)] == v;
      } else {
        assert b in which + {a} <==> b in which;
        assert more[Reg(b)] == after[Reg(b)];
      }
    }
  }

  lemma ExpectedInt(r: bv8, s: Settings, d: bv32)
    ensures Expected(INT_CTRL, r, s, d)
         == (var r1 := if Selected(d, OutputMode) then Set(OutputMode, r, s.outputMode) else r;
             var r2 := if Selected(d, Level) then Set(Level, r1, s.level) else r1;
             var r3 := if Selected(d, Latch) then Set(Latch, r2, s.latch) else r2;
             if Selected(d, DrdyEn) then Set(DrdyEn, r3, s.drdyEn) else r3)
  {
    hide Set, Selected;
  }

  lemma UpdatedOne(regs: Registers, s: Settings, d: bv32, a: bv8)
    requires Reg(a) in regs
    ensures Updated(regs, regs[Reg(a) := Expected(a, regs[Reg(a)], s, d)], s, d, {a})
  {
    assert Updated(regs, regs, s, d, {});
    UpdatedMore(regs, regs, s, d, {}, a);
    assert {} + {a} == {a};
    hide Expected;
  }

  lemma UpdatedSame(before: Registers, after: Registers, s: Settings, d: bv32, which: set<bv8>, a: bv8)
    requires Updated(before, after, s, d, which) && Reg(a) in before && Expected(a, before[Reg(a)], s, d) == before[Reg(a)]
    ensures Updated(before, after, s, d, which + {a})
  {
    hide Expected;
  }

  /** One group after another. */
  lemma UpdatedThen(before: Registers, between: Registers, after: Registers, s: Settings, d: bv32, which: set<bv8>, more: set<bv8>)
    requires which !! more && Updated(before, between, s, d, which) && Updated(between, after, s, d, more)
    ensures Updated(before, after, s, d, which + more)
    ensures more == {} ==> Updated(before, after, s, d, which)
  {
    hide Expected;
  }

  lemma StillComplete(before: Registers, after: Registers, s: Settings, d: bv32, which: set<bv8>)
    requires Complete(before) && Updated(before, after, s, d, which)
    ensures Complete(after)
  {
    hide Expected;
  }

  /** Limiting the rate changes only what the rate's register gets. */
  lemma ClampKeeps(before: Registers, after: Registers, s: Settings, d: bv32, which: set<bv8>)
    requires ODR !in which && Updated(before, after, s, d, which)
    ensures Updated(before, after, Clamp(s, d), d, which)
  {
    forall a: bv8 | Reg(a) in before && a in which ensures Expected(a, before[Reg(a)], Clamp(s, d), d) == Expected(a, before[Reg(a)], s, d) {
      ClampIsForOdrOnly(a, before[Reg(a)], s, d);
    }
    hide Expected, Clamp;
  }

  /** A group without a selected field has nothing to set. */
  lemma GroupUnchanged(regs: Registers, s: Settings, d: bv32, which: set<bv8>)
    requires || (which == {PWR_CTRL} && !Changed(POWER_CNTL, d))
             || (which == {OSR, ODR, CONFIG} && !Changed(ODR_FILTER, d))
             || (which == {INT_CTRL} && !Changed(INT_SETT, d))
             || (which == {IF_CONF} && !Changed(ADV_SETT, d))
    ensures Updated(regs, regs, s, d, which)
  {
    forall a: bv8 | Reg(a) in regs && a in which ensures Expected(a, regs[Reg(a)], s, d) == regs[Reg(a)] {
      GroupUnselected(a, regs[Reg(a)], s, d);
    }
    hide Expected, Changed;
  }

  lemma GroupUnselected(a: bv8, r: bv8, s: Settings, d: bv32)
    ensures a == PWR_CTRL && !Changed(POWER_CNTL, d) ==> Expected(a, r, s, d) == r
    ensures a in {OSR, ODR, CONFIG} && !Changed(ODR_FILTER, d) ==> Expected(a, r, s, d) == r
    ensures a == INT_CTRL && !Changed(INT_SETT, d) ==> Expected(a, r, s, d) == r
    ensures a == IF_CONF && !Changed(ADV_SETT, d) ==> Expected(a, r, s, d) == r
  {
    GroupBits(d);
    hide Selected, Changed, Set;
  }

  lemma GroupBits(d: bv32)
    ensures !Changed(POWER_CNTL, d) ==> !Selected(d, PressEn) && !Selected(d, TempEn)
    ensures !Changed(ODR_FILTER, d) ==> !Selected(d, PressOs) && !Selected(d, TempOs) && !Selected(d, Odr) && !Selected(d, IirFilter)
    ensures !Changed(INT_SETT, d) ==> !Selected(d, OutputMode) && !Selected(d, Level) && !Selected(d, Latch) && !Selected(d, DrdyEn)
    ensures !Changed(ADV_SETT, d) ==> !Selected(d, WdtEn) && !Selected(d, WdtSel)
  {
    hide Selected, Changed;
    forall f: Field ensures !Changed(Group(f), d) ==> !Selected(d, f) {
      InItsGroup(f, d);
    }
    assert Group(PressEn) == POWER_CNTL && Group(TempEn) == POWER_CNTL && Group(WdtEn) == ADV_SETT && Group(WdtSel) == ADV_SETT;
    assert Group(PressOs) == ODR_FILTER && Group(TempOs) == ODR_FILTER && Group(Odr) == ODR_FILTER && Group(IirFilter) == ODR_FILTER;
    assert Group(OutputMode) == INT_SETT && Group(Level) == INT_SETT && Group(Latch) == INT_SETT && Group(DrdyEn) == INT_SETT;
  }

  lemma InItsGroup(f: Field, d: bv32)
    ensures !Changed(Group(f), d) ==> !Selected(d, f)
  {
    hide HasBit;
    if Selected(d, f) {
      GroupHasBit(f);
      BitInGroup(Group(f), Selector(f), d);
    }
  }

  function Group(f: Field): bv32 {
    if Register(f) == PWR_CTRL then POWER_CNTL
    else if Register(f) == INT_CTRL then INT_SETT
    else if Register(f) == IF_CONF then ADV_SETT
    else ODR_FILTER
  }

  lemma GroupHasBit(f: Field)
    ensures Group(f) & Selector(f) == Selector(f)
  {
  }

  lemma WriteLast(regs: Registers, addrs: seq<bv8>, data: seq<bv8>, a: bv8, v: bv8)
    requires |addrs| == |data|
    ensures WriteAll(regs, addrs + [a], data + [v]) == WriteOne(WriteAll(regs, addrs, data), a, v)
  {
    assert (addrs + [a])[..|addrs|] == addrs && (data + [v])[..|data|] == data;
  }

  /** One of the three registers: written if selected, the same either way. */
  lemma Stage(regs: Registers, s: Settings, d: bv32, addrs: seq<bv8>, data: seq<bv8>, which: set<bv8>, a: bv8, on: bool)
    requires |addrs| == |data| && a <= 0x7F && Reg(a) in regs && a !in which
    requires Updated(regs, WriteAll(regs, addrs, data), s, d, which)
    requires !on ==> Expected(a, regs[Reg(a)], s, d) == regs[Reg(a)]
    ensures Updated(regs, WriteAll(regs, addrs + (if on then [a] else []), data + (if on then [Expected(a, regs[Reg(a)], s, d)] else [])), s, d, which + {a})
  {
    MaskTwice(a);
    var written := WriteAll(regs, addrs, data);
    if on {
      WriteLast(regs, addrs, data, a, Expected(a, regs[Reg(a)], s, d));
      UpdatedMore(regs, written, s, d, which, a);
      assert WriteOne(written, a, Expected(a, regs[Reg(a)], s, d)) == written[Reg(a) := Expected(a, regs[Reg(a)], s, d)];
      hide *;
    } else {
      hide *;
      assert addrs + [] == addrs && data + [] == data;
      UpdatedSame(regs, written, s, d, which, a);
    }
  }

  /** The compacted burst sets the three registers of its group. */
  lemma FilledIsUpdated(regs: Registers, s: Settings, d: bv32)
    requires Complete(regs)
    ensures Updated(regs, WriteAll(regs, FilledAddrs(d), FilledData(d, s, regs[Reg(OSR)], regs[Reg(ODR)], regs[Reg(CONFIG)])), s, d, {OSR, ODR, CONFIG})
  {
    var os, rate, filter := Selected(d, PressOs) || Selected(d, TempOs), Selected(d, Odr), Selected(d, IirFilter);
    assert WriteAll(regs, [], []) == regs && Updated(regs, regs, s, d, {});
    Unselected(regs, s, d);
    hide Expected, Updated, WriteAll, Selected;
    var a1: seq<bv8>, d1: seq<bv8> := [] + (if os then [OSR] else []), [] + (if os then [Expected(OSR, regs[Reg(OSR)], s, d)] else []);
    Stage(regs, s, d, [], [], {}, OSR, os);
    var a2, d2 := a1 + (if rate then [ODR] else []), d1 + (if rate then [Expected(ODR, regs[Reg(ODR)], s, d)] else []);
    Stage(regs, s, d, a1, d1, {} + {OSR}, ODR, rate);
    Stage(regs, s, d, a2, d2, {} + {OSR} + {ODR}, CONFIG, filter);
    assert {} + {OSR} + {ODR} + {CONFIG} == {OSR, ODR, CONFIG};
    assert FilledAddrs(d) == a2 + (if filter then [CONFIG] else []);
    assert FilledData(d, s, regs[Reg(OSR)], regs[Reg(ODR)], regs[Reg(CONFIG)]) == d2 + (if filter then [Expected(CONFIG, regs[Reg(CONFIG)], s, d)] else []);
  }

  lemma Unselected(regs: Registers, s: Settings, d: bv32)
    requires Complete(regs)
    ensures !Selected(d, PressOs) && !Selected(d, TempOs) ==> Expected(OSR, regs[Reg(OSR)], s, d) == regs[Reg(OSR)]
    ensures !Selected(d, Odr) ==> Expected(ODR, regs[Reg(ODR)], s, d) == regs[Reg(ODR)]
    ensures !Selected(d, IirFilter) ==> Expected(CONFIG, regs[Reg(CONFIG)], s, d) == regs[Reg(CONFIG)]
  {
    hide Selected, Set;
  }

  const PERIODS: seq<nat> := [
    5000, 10000, 20000, 40000, 80000, 160000, 320000, 640000, 1280000, 2560000, 5120000, 10240000, 20480000,
    40960000, 81920000, 163840000, 327680000, 655360000]

  lemma IndexInTable(o: bv8)
    requires o <= 0x11
    ensures o as nat < |PERIODS|
  {
  }

  /** Every entry of the table is twice the one before it. */
  lemma {:induction false} PeriodsAreDoubled(k: nat)
    requires k < |PERIODS|
    ensures PERIODS[k] == Period(k)
  {
    if k > 0 {
      PeriodsAreDoubled(k - 1);
    }
  }

  lemma ClampWithoutOdr(s: Settings, d: bv32)
    ensures !Selected(d, Odr) ==> Clamp(s, d) == s
  {
  }

  lemma ClampIsForOdrOnly(a: bv8, r: bv8, s: Settings, d: bv32)
    requires a != ODR
    ensures Expected(a, r, Clamp(s, d), d) == Expected(a, r, s, d)
  {
    hide Set, Selected;
  }

  function Piece(wanted: bool, x: bv8): seq<bv8> { if wanted then [x] else [] }

  function Pieces(p: bool, q: bool, r: bool, x: bv8, y: bv8, z: bv8): (s: seq<bv8>)
    ensures |s| == (if p then 1 else 0) + (if q then 1 else 0) + (if r then 1 else 0)
  {
    Piece(p, x) + Piece(q, y) + Piece(r, z)
  }

  function FilledAddrs(d: bv32): seq<bv8> {
    Pieces(Selected(d, PressOs) || Selected(d, TempOs), Selected(d, Odr), Selected(d, IirFilter), OSR, ODR, CONFIG)
  }

  function FilledData(d: bv32, s: Settings, osr: bv8, odr: bv8, config: bv8): (r: seq<bv8>)
    ensures |r| == |FilledAddrs(d)|
  {
    Pieces(Selected(d, PressOs) || Selected(d, TempOs), Selected(d, Odr), Selected(d, IirFilter),
           Expected(OSR, osr, s, d), Expected(ODR, odr, s, d), Expected(CONFIG, config, s, d))
  }

  // ---- What a call achieves ----

  /** After a successful call every selected field holds its value, cut to its width, every other
      field what it held before. */
  lemma SettingsTakeEffect(before: Registers, after: Registers, s: Settings, d: bv32, f: Field)
    requires Complete(before) && Updated(before, after, s, d, SETTINGS)
    ensures Reg(Register(f)) in before && Reg(Register(f)) in after
    ensures Get(f, after[Reg(Register(f))]) == if Selected(d, f) then Value(s, f) & Width(f) else Get(f, before[Reg(Register(f))])
  {
    RegisterIsSetting(f);
    hide Get, Expected, Value, Width, Register, Selected;
    ExpectedFields(f, before[Reg(Register(f))], s, d);
  }

  lemma RegisterIsSetting(f: Field)
    ensures Register(f) in SETTINGS && Register(f) <= 0x7F
  {
  }

  /** No bit outside the selected fields changes, in any register. */
  lemma OtherBitsStay(before: Registers, after: Registers, s: Settings, d: bv32, a: bv8)
    requires Updated(before, after, s, d, SETTINGS) && Reg(a) in before
    ensures Reg(a) in after && after[Reg(a)] & !Covered(a, d) == before[Reg(a)] & !Covered(a, d)
  {
    hide Expected, Covered;
    ExpectedFrame(a, before[Reg(a)], s, d);
  }

  /** Settings that are parsed from the registers have the selected values, cut to their width. */
  lemma RegistersInRange()
    ensures forall f: Field :: Register(f) <= 0x7F
  {
  }

  lemma ClampIfChanged(s: Settings, d: bv32)
    ensures !Changed(ODR_FILTER, d) ==> Clamp(s, d) == s
  {
    hide Changed, Selected, Clamp;
    OdrGroupChanged(d);
    ClampWithoutOdr(s, d);
  }

  lemma SettingsReadBack(before: Registers, after: Registers, s: Settings, parsed: Settings, d: bv32, f: Field)
    requires Complete(before) && Updated(before, after, s, d, SETTINGS) && Complete(after)
    requires Register(f) <= 0x7F && Value(parsed, f) == Get(f, after[Reg(Register(f))])
    ensures Value(parsed, f) == if Selected(d, f) then Value(s, f) & Width(f) else Get(f, before[Reg(Register(f))])
  {
    SettingsTakeEffect(before, after, s, d, f);
    hide *;
  }
}
