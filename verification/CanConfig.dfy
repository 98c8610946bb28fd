/** Configuring the CAN device: the `Init` block of the HAL handle, the baud table, and the mode,
    baud and private-mode controls, over the HAL's own initialisation code. */
module CanConfig {
  import opened CanProtocol
  import opened WordBits

  /** `struct can_configure`, the fields the driver uses. */
  datatype Config = Config(baud: nat, mode: nat, priv: nat)

  /** `CAN_InitTypeDef`. */
  datatype Init = Init(
    mode: bv32, sjw: bv32, bs1: bv32, bs2: bv32, prescaler: bv32,
    timeTriggered: bool, autoBusOff: bool, autoWakeUp: bool,
    autoRetransmission: bool, fifoLocked: bool, fifoPriority: bool)

  datatype BaudRow = BaudRow(baud: nat, data: bv32)

  /** SJW 2TQ, BS2 5TQ and BS1 9TQ or 8TQ, with the prescaler in the low bits. */
  const BAUD_TABLE: seq<BaudRow> := [
    BaudRow(1000000, 0x0148_0003),
    BaudRow(800000, 0x0147_0004),
    BaudRow(500000, 0x0148_0006),
    BaudRow(250000, 0x0148_000C),
    BaudRow(125000, 0x0148_0018),
    BaudRow(100000, 0x0148_001E),
    BaudRow(50000, 0x0148_003C),
    BaudRow(20000, 0x0148_0096),
    BaudRow(10000, 0x0148_012C)]

  predicate IsBaud(baud: nat) {
    baud in {1000000, 800000, 500000, 250000, 125000, 100000, 50000, 20000, 10000}
  }

  predicate IsMode(mode: nat) { mode <= 3 }

  predicate IsPriv(priv: nat) { priv <= 1 }

  /** The row that the search must find: the only one with that rate. */
  function RowOf(baud: nat): nat {
    match baud
    case 800000 => 1
    case 500000 => 2
    case 250000 => 3
    case 125000 => 4
    case 100000 => 5
    case 50000 => 6
    case 20000 => 7
    case 10000 => 8
    case _ => 0
  }

  lemma RateHasRow(baud: nat)
    ensures RowOf(baud) < |BAUD_TABLE|
    ensures IsBaud(baud) <==> BAUD_TABLE[RowOf(baud)].baud == baud
    ensures !IsBaud(baud) ==> RowOf(baud) == 0
  {
  }

  lemma RowIsUnique(i: nat)
    requires i < |BAUD_TABLE|
    ensures RowOf(BAUD_TABLE[i].baud) == i && IsBaud(BAUD_TABLE[i].baud)
  {
  }

  /** `get_can_baud_index`: the row of the baud rate, row 0 when there is none. */
  method GetBaudIndex(baud: nat) returns (index: nat)
    ensures index < |BAUD_TABLE|
    ensures IsBaud(baud) ==> BAUD_TABLE[index].baud == baud
    ensures !IsBaud(baud) ==> index == 0
    ensures index == RowOf(baud)
  {
    index := 0;
    while index < |BAUD_TABLE|
      invariant index <= |BAUD_TABLE|
      invariant forall i | 0 <= i < index :: BAUD_TABLE[i].baud != baud
    {
      if BAUD_TABLE[index].baud == baud {
        RowIsUnique(index);
        return;
      }
      index := index + 1;
    }
    RateHasRow(baud);
    index := 0;
  }

  // ---------- the device: handle, stored configuration, bit timing register ----------

  /** How the hardware answers: leaving sleep, entering and leaving initialisation mode, in time. */
  datatype Bus = Bus(wakes: bool, entersInit: bool, leavesInit: bool)

  /** The part of the driver that configuration touches. */
  datatype Device = Device(hal: HalState, errorCode: bv32, init: Init, config: Config, btr: bv32)

  function ModeBits(mode: nat): bv32
    requires IsMode(mode)
  {
    match mode
    case 0 => 0x0000_0000
    case 1 => 0x8000_0000
    case 2 => 0x4000_0000
    case _ => 0xC000_0000
  }

  function Sjw(row: bv32): bv32 { row & 0x0300_0000 }

  function Bs1(row: bv32): bv32 { row & 0x000F_0000 }

  function Bs2(row: bv32): bv32 { row & 0x0070_0000 }

  function Prescaler(row: bv32): bv32 { row & 0x0000_03FF }

  function RowData(baud: nat): bv32 {
    RateHasRow(baud);
    BAUD_TABLE[RowOf(baud)].data
  }

  /** The value HAL_CAN_Init writes to BTR. */
  function BtrWord(init: Init): bv32 {
    init.mode | init.sjw | init.bs1 | init.bs2 | (init.prescaler - 1)
  }

  /** The `Init` block that stands for `cfg`; a mode outside the switch keeps the old mode bits. */
  function InitFor(previous: Init, cfg: Config): Init {
    var row := RowData(cfg.baud);
    Init(if IsMode(cfg.mode) then ModeBits(cfg.mode) else previous.mode,
         Sjw(row), Bs1(row), Bs2(row), Prescaler(row),
         false, true, false, false, false, true)
  }

  // ---------- HAL_CAN_Init, HAL_CAN_Start and the three controls, on values ----------

  /** HAL_CAN_Init: on a time-out the handle is left in ERROR, with BTR untouched. */
  function HalInit(d: Device, bus: Bus): Device {
    if bus.wakes && bus.entersInit then d.(btr := BtrWord(d.init), errorCode := 0, hal := Ready)
    else d.(errorCode := SetBits(d.errorCode, 0x0002_0000), hal := Error)
  }

  /** HAL_CAN_Start: only a READY handle is started, any other one records an error code. */
  function HalStart(d: Device, bus: Bus): Device {
    if !d.hal.Ready? then d.(errorCode := SetBits(d.errorCode, 0x0008_0000))
    else if bus.leavesInit then d.(errorCode := 0, hal := Listening)
    else d.(errorCode := SetBits(d.errorCode, 0x0002_0000), hal := Error)
  }

  /** `_can_config`, whose result ignores what HAL_CAN_Start says. */
  function Configured(d: Device, cfg: Config, bus: Bus): (Device, bool) {
    var e := HalInit(d.(init := InitFor(d.init, cfg)), bus);
    if e.hal.Ready? then (HalStart(e, bus), true) else (e, false)
  }

  datatype Control = SetMode(value: nat) | SetBaud(value: nat) | SetPriv(value: nat)

  predicate Accepted(c: Control) {
    match c
    case SetMode(v) => IsMode(v)
    case SetBaud(v) => IsBaud(v)
    case SetPriv(v) => IsPriv(v)
  }

  function Stored(cfg: Config, c: Control): nat {
    match c
    case SetMode(_) => cfg.mode
    case SetBaud(_) => cfg.baud
    case SetPriv(_) => cfg.priv
  }

  function Updated(cfg: Config, c: Control): Config {
    match c
    case SetMode(v) => cfg.(mode := v)
    case SetBaud(v) => cfg.(baud := v)
    case SetPriv(v) => cfg.(priv := v)
  }

  /** One control call: refused, already in force, or stored and applied. */
  function Controlled(d: Device, c: Control, bus: Bus): (Device, bool) {
    if !Accepted(c) then (d, false)
    else if c.value == Stored(d.config, c) then (d, true)
    else
      var e := d.(config := Updated(d.config, c));
      Configured(e, e.config, bus)
  }

  function Controls(d: Device, cs: seq<(Control, Bus)>): Device
    decreases |cs|
  {
    if cs == [] then d else Controls(Controlled(d, cs[0].0, cs[0].1).0, cs[1..])
  }

  // ---------- the Init block stays in step with the stored configuration ----------

  ghost predicate InSync(d: Device) {
    && IsMode(d.config.mode) && IsBaud(d.config.baud)
    && d.init == InitFor(d.init, d.config)
  }

  /** A usable handle means the bit timing register was programmed from the `Init` block. */
  ghost predicate Programmed(d: Device) {
    d.hal.Usable() ==> d.btr == BtrWord(d.init)
  }

  lemma FirstConfigureSyncs(d: Device, bus: Bus)
    requires IsMode(d.config.mode) && IsBaud(d.config.baud)
    ensures InSync(Configured(d, d.config, bus).0) && Programmed(Configured(d, d.config, bus).0)
  {
  }

  lemma ControlKeepsSync(d: Device, c: Control, bus: Bus)
    requires InSync(d) && Programmed(d)
    ensures InSync(Controlled(d, c, bus).0) && Programmed(Controlled(d, c, bus).0)
  {
    hide ModeBits, BtrWord, Sjw, Bs1, Bs2, Prescaler, RowData;
    var e := d.(config := Updated(d.config, c));
    if Accepted(c) && c.value != Stored(d.config, c) {
      FirstConfigureSyncs(e, bus);
    }
  }

  /** After the first configuration, whatever controls are sent, accepted or refused, and however
      the hardware answers: the `Init` block encodes the stored configuration, and a handle that
      takes sends has that encoding in its bit timing register. */
  lemma {:induction false} ControlsKeepSync(d: Device, bus: Bus, cs: seq<(Control, Bus)>)
    requires IsMode(d.config.mode) && IsBaud(d.config.baud)
    ensures InSync(Controls(Configured(d, d.config, bus).0, cs))
    ensures Programmed(Controls(Configured(d, d.config, bus).0, cs))
  {
    FirstConfigureSyncs(d, bus);
    ControlsFromSync(Configured(d, d.config, bus).0, cs);
  }

  lemma {:induction false} ControlsFromSync(d: Device, cs: seq<(Control, Bus)>)
    requires InSync(d) && Programmed(d)
    ensures InSync(Controls(d, cs)) && Programmed(Controls(d, cs))
    decreases |cs|
  {
    hide ModeBits, BtrWord, Sjw, Bs1, Bs2, Prescaler, RowData;
    if cs != [] {
      ControlKeepsSync(d, cs[0].0, cs[0].1);
      ControlsFromSync(Controlled(d, cs[0].0, cs[0].1).0, cs[1..]);
    }
  }

  /** The control path reaches `_can_config` only with a value that is legal and not the stored one;
      every other call leaves the device exactly as it was. */
  lemma ReconfiguresOnlyOnChange(d: Device, c: Control, bus: Bus)
    ensures !(Accepted(c) && c.value != Stored(d.config, c)) ==> Controlled(d, c, bus).0 == d
    ensures Accepted(c) && c.value != Stored(d.config, c) ==>
              && Controlled(d, c, bus).0.config == Updated(d.config, c)
              && (Controlled(d, c, bus).0.hal.Listening? <==> bus.wakes && bus.entersInit && bus.leavesInit)
              && (Controlled(d, c, bus).0.hal.Error? <==> !(bus.wakes && bus.entersInit && bus.leavesInit))
    ensures Controlled(d, c, bus).1 <==>
              Accepted(c) && (c.value == Stored(d.config, c) || (bus.wakes && bus.entersInit))
  {
  }

  /** A change that failed cannot be made good by asking again: the value is already stored, so the
      same call reports success and leaves the handle in ERROR. */
  lemma FailedChangeCannotBeRepeated(d: Device, c: Control, bus: Bus, again: Bus)
    requires Accepted(c) && c.value != Stored(d.config, c)
    requires !(bus.wakes && bus.entersInit && bus.leavesInit)
    ensures var e := Controlled(d, c, bus).0;
            e.hal.Error? && Controlled(e, c, again) == (e, true)
  {
  }

  // ---------- what a sequence of controls leaves stored ----------

  predicate ChangesMode(c: Control) { c.SetMode? && c.value in {0, 1, 2, 3} }

  predicate ChangesBaud(c: Control) {
    c.SetBaud? && c.value in {1000000, 800000, 500000, 250000, 125000, 100000, 50000, 20000, 10000}
  }

  predicate ChangesPriv(c: Control) { c.SetPriv? && c.value in {0, 1} }

  /** The last control of a kind, or -1. */
  function LastOf(cs: seq<(Control, Bus)>, kind: Control -> bool): (r: int)
    ensures -1 <= r < |cs|
    ensures r >= 0 ==> kind(cs[r].0)
    ensures forall i | r < i < |cs| :: !kind(cs[i].0)
    decreases |cs|
  {
    if cs == [] then -1
    else
      var r := LastOf(cs[1..], kind);
      if r >= 0 then r + 1 else if kind(cs[0].0) then 0 else -1
  }

  /** The value of the last control of a kind, and without one `initial`. */
  function LastValue(cs: seq<(Control, Bus)>, kind: Control -> bool, initial: nat): nat {
    var r := LastOf(cs, kind);
    if r >= 0 then cs[r].0.value else initial
  }

  lemma LastValueSteps(cs: seq<(Control, Bus)>, kind: Control -> bool, initial: nat)
    requires cs != []
    ensures LastValue(cs, kind, initial)
            == LastValue(cs[1..], kind, if kind(cs[0].0) then cs[0].0.value else initial)
  {
  }

  lemma ControlStores(d: Device, c: Control, bus: Bus)
    ensures var e := Controlled(d, c, bus).0;
            && e.config.mode == (if ChangesMode(c) then c.value else d.config.mode)
            && e.config.baud == (if ChangesBaud(c) then c.value else d.config.baud)
            && e.config.priv == (if ChangesPriv(c) then c.value else d.config.priv)
  {
    hide InitFor, BtrWord;
  }

  /** After any controls, whatever the hardware answered, each of the three stored values is that of the last
      legal control of its kind; a control of one kind leaves the other two alone. */
  lemma {:induction false} LastControlDecides(d: Device, cs: seq<(Control, Bus)>)
    ensures var cfg := Controls(d, cs).config;
            && cfg.mode == LastValue(cs, ChangesMode, d.config.mode)
            && cfg.baud == LastValue(cs, ChangesBaud, d.config.baud)
            && cfg.priv == LastValue(cs, ChangesPriv, d.config.priv)
    decreases |cs|
  {
    hide Controlled, ChangesMode, ChangesBaud, ChangesPriv, LastValue;
    if cs == [] {
      NothingLast(d.config);
    } else {
      var e := Controlled(d, cs[0].0, cs[0].1).0;
      ControlStores(d, cs[0].0, cs[0].1);
      LastControlDecides(e, cs[1..]);
      LastValueSteps(cs, ChangesMode, d.config.mode);
      LastValueSteps(cs, ChangesBaud, d.config.baud);
      LastValueSteps(cs, ChangesPriv, d.config.priv);
    }
  }

  lemma NothingLast(cfg: Config)
    ensures LastValue([], ChangesMode, cfg.mode) == cfg.mode
    ensures LastValue([], ChangesBaud, cfg.baud) == cfg.baud
    ensures LastValue([], ChangesPriv, cfg.priv) == cfg.priv
  {
  }

  // ---------- the table's fields ----------

  /** Every row splits without loss into the four timing fields, and its prescaler is legal. */
  lemma RowSplits(i: nat)
    requires i < |BAUD_TABLE|
    ensures var row := BAUD_TABLE[i].data;
            Sjw(row) | Bs1(row) | Bs2(row) | Prescaler(row) == row && Prescaler(row) != 0
  {
  }

  /** What `mode` means on the bus: bit 31 of BTR is silent mode, bit 30 loop back. */
  lemma ModeBitsMeaning(mode: nat)
    requires IsMode(mode)
    ensures ModeBits(mode) & 0x8000_0000 != 0 <==> mode == 1 || mode == 3
    ensures ModeBits(mode) & 0x4000_0000 != 0 <==> mode == 2 || mode == 3
    ensures ModeBits(mode) & 0x3FFF_FFFF == 0
  {
  }

  /** A rate row has the layout of BTR, where the prescaler counts from 0: the word programmed for a
      legal configuration is its row less one, under the mode bits. */
  lemma BtrIsRowAndMode(previous: Init, cfg: Config)
    requires IsMode(cfg.mode) && IsBaud(cfg.baud)
    ensures exists i | 0 <= i < |BAUD_TABLE| ::
              && BAUD_TABLE[i].baud == cfg.baud
              && BtrWord(InitFor(previous, cfg)) & 0x3FFF_FFFF == BAUD_TABLE[i].data - 1
              && BtrWord(InitFor(previous, cfg)) & 0xC000_0000 == ModeBits(cfg.mode)
  {
    RateHasRow(cfg.baud);
    RowFields(RowOf(cfg.baud), cfg.mode);
  }

  lemma RowFields(i: nat, mode: nat)
    requires i < |BAUD_TABLE| && IsMode(mode)
    ensures var row := BAUD_TABLE[i].data;
            var word := ModeBits(mode) | Sjw(row) | Bs1(row) | Bs2(row) | (Prescaler(row) - 1);
            word & 0x3FFF_FFFF == row - 1 && word & 0xC000_0000 == ModeBits(mode)
  {
    assert |BAUD_TABLE| == 9;
    match i
    case 0 => case 1 => case 2 => case 3 => case 4 => case 5 => case 6 => case 7 => case _ =>
  }

  lemma PrescalersDiffer(i: nat, j: nat)
    requires i < j < |BAUD_TABLE|
    ensures Prescaler(BAUD_TABLE[i].data) != Prescaler(BAUD_TABLE[j].data)
  {
    assert |BAUD_TABLE| == 9;
  }

  lemma ModeBitsDiffer(m: nat, m': nat)
    requires m < m' <= 3
    ensures ModeBits(m) != ModeBits(m')
  {
  }

  /** Two rates have the same prescaler only when the search finds the same row for both. */
  lemma SamePrescalerIff(baud: nat, baud': nat)
    ensures Prescaler(RowData(baud)) == Prescaler(RowData(baud')) <==> RowOf(baud) == RowOf(baud')
  {
    hide Prescaler, RowOf;
    var i, j := RowOf(baud), RowOf(baud');
    RateHasRow(baud);
    RateHasRow(baud');
    if i < j {
      PrescalersDiffer(i, j);
    } else if j < i {
      PrescalersDiffer(j, i);
    }
  }

  lemma SameModeIff(m: nat, m': nat)
    requires IsMode(m) && IsMode(m')
    ensures ModeBits(m) == ModeBits(m') <==> m == m'
  {
    hide ModeBits;
    if m < m' {
      ModeBitsDiffer(m, m');
    } else if m' < m {
      ModeBitsDiffer(m', m);
    }
  }

  lemma SameRowSameData(baud: nat, baud': nat)
    requires RowOf(baud) == RowOf(baud')
    ensures RowData(baud) == RowData(baud')
  {
    hide RowOf;
  }

  /** RT_DEVICE_CTRL_CONFIG applies a configuration without storing it.  It keeps the `Init` block in
      step exactly when its mode is the stored one (or no mode at all) and its rate finds the same
      row. */
  lemma ForeignConfigureKeepsSyncIff(d: Device, cfg: Config, bus: Bus)
    requires InSync(d)
    ensures InSync(Configured(d, cfg, bus).0) <==>
              (IsMode(cfg.mode) ==> cfg.mode == d.config.mode) && RowOf(cfg.baud) == RowOf(d.config.baud)
  {
    hide ModeBits, BtrWord, Sjw, Bs1, Bs2, Prescaler, RowData, RowOf;
    SamePrescalerIff(cfg.baud, d.config.baud);
    if RowOf(cfg.baud) == RowOf(d.config.baud) {
      SameRowSameData(cfg.baud, d.config.baud);
    }
    if IsMode(cfg.mode) {
      SameModeIff(cfg.mode, d.config.mode);
    }
  }

  // ---------- the rates of the table (section 32.7.7 of RM0090) ----------

  /** A bit field of a register. */
  function Field(word: bv32, position: bv32, mask: bv32): nat
    requires position < 32
  {
    ((word >> position) & mask) as nat
  }

  /** The bus clocks of one bit: 1 + BS1 + BS2 quanta of BRP + 1 clocks each, where the fields TS1 (19:16),
      TS2 (22:20) and BRP (9:0) of BTR count from 0. */
  function BitClocks(btr: bv32): (clocks: nat)
    ensures clocks > 0
  {
    (Field(btr, 0, 0x3FF) + 1) * (1 + (Field(btr, 16, 0xF) + 1) + (Field(btr, 20, 0x7) + 1))
  }

  /** The bits per second on a bus clock. */
  function BitRate(busClock: nat, btr: bv32): real { busClock as real / BitClocks(btr) as real }

  /** The timing part of BTR, below SILM and LBKM. */
  function Timing(btr: bv32): bv32 { btr & 0x3FFF_FFFF }

  lemma FieldOfTiming(btr: bv32)
    ensures Field(btr, 0, 0x3FF) == Field(Timing(btr), 0, 0x3FF)
    ensures Field(btr, 16, 0xF) == Field(Timing(btr), 16, 0xF)
    ensures Field(btr, 20, 0x7) == Field(Timing(btr), 20, 0x7)
    ensures Field(btr, 24, 0x3) == Field(Timing(btr), 24, 0x3)
  {
  }

  /** The bus clock a row is made for: 45 MHz, only the one of 800000 wants 44.8 MHz. */
  function TableClock(baud: nat): nat { if baud == 800000 then 44_800_000 else 45_000_000 }

  lemma RowClock(i: nat)
    requires i < |BAUD_TABLE|
    ensures BAUD_TABLE[i].baud * BitClocks(BAUD_TABLE[i].data - 1) == TableClock(BAUD_TABLE[i].baud)
    ensures Field(BAUD_TABLE[i].data - 1, 24, 0x3) == 1
  {
    assert |BAUD_TABLE| == 9;
    match i
    case 0 => case 1 => case 2 => case 3 => case 4 => case 5 => case 6 => case 7 => case _ =>
  }

  /** LBKM and SILM, bits 30 and 31 of BTR. */
  lemma ModeOfBtr(btr: bv32, mode: nat)
    requires IsMode(mode) && ModePart(btr) == ModeBits(mode)
    ensures Field(btr, 30, 1) == 1 <==> mode == 2 || mode == 3
    ensures Field(btr, 31, 1) == 1 <==> mode == 1 || mode == 3
  {
  }

  function ModePart(btr: bv32): bv32 { btr & 0xC000_0000 }

  lemma ProgrammedWord(d: Device) returns (i: nat)
    requires InSync(d) && Programmed(d) && d.hal.Usable()
    ensures i < |BAUD_TABLE| && BAUD_TABLE[i].baud == d.config.baud && Timing(d.btr) == BAUD_TABLE[i].data - 1
    ensures ModePart(d.btr) == ModeBits(d.config.mode)
  {
    hide ModeBits, BtrWord, InitFor;
    BtrIsRowAndMode(d.init, d.config);
    i :| 0 <= i < |BAUD_TABLE| && BAUD_TABLE[i].baud == d.config.baud
         && BtrWord(InitFor(d.init, d.config)) & 0x3FFF_FFFF == BAUD_TABLE[i].data - 1;
  }

  /** BTR has the rate `baud` on the table's bus clock, the silent and loop-back bits of `mode`, and a jump
      width of two quanta. */
  ghost predicate HasTiming(btr: bv32, baud: nat, mode: nat) {
    && baud * BitClocks(btr) == TableClock(baud)
    && (Field(btr, 31, 1) == 1 <==> mode == 1 || mode == 3)
    && (Field(btr, 30, 1) == 1 <==> mode == 2 || mode == 3)
    && Field(btr, 24, 3) == 1
  }

  lemma TimingOfConfig(d: Device)
    requires InSync(d) && Programmed(d) && d.hal.Usable()
    ensures HasTiming(d.btr, d.config.baud, d.config.mode)
  {
    hide Field, ModePart, Timing, ModeBits, InitFor, BtrWord, TableClock;
    var i := ProgrammedWord(d);
    FieldOfTiming(d.btr);
    RowClock(i);
    ModeOfBtr(d.btr, d.config.mode);
  }

  lemma ConfiguredKeepsConfig(d: Device, cfg: Config, bus: Bus)
    ensures Configured(d, cfg, bus).0.config == d.config
  {
    hide InitFor, BtrWord;
  }

  /** After the first configuration and any controls, a handle that takes sends has in BTR the rate of the last
      legal baud control and the mode of the last legal mode control. */
  lemma UsableHandleTiming(d: Device, bus: Bus, cs: seq<(Control, Bus)>)
    requires IsMode(d.config.mode) && IsBaud(d.config.baud)
    requires Controls(Configured(d, d.config, bus).0, cs).hal.Usable()
    ensures HasTiming(Controls(Configured(d, d.config, bus).0, cs).btr,
                      LastValue(cs, ChangesBaud, d.config.baud), LastValue(cs, ChangesMode, d.config.mode))
  {
    hide *;
    var e := Configured(d, d.config, bus).0;
    ConfiguredKeepsConfig(d, d.config, bus);
    LastControlDecides(e, cs);
    ControlsKeepSync(d, bus, cs);
    TimingOfConfig(Controls(e, cs));
  }
}
