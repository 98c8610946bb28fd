/** The CAN driver as written: one object with the HAL handle, the stored configuration, the status
    counters and the registers, updated in place by each operation. */
module CanDriver {
  import opened CanFrame
  import opened CanProtocol
  import opened CanRegisters
  import opened CanTransmit
  import opened CanConfig
  import opened CanFilter
  import opened CanFilterBanks
  import opened Options
  import opened WordBits

  // HAL_CAN_ERROR codes; each is one bit of the handle's error code
  const ERROR_TIMEOUT: bv32 := 0x0002_0000
  const ERROR_NOT_INITIALIZED: bv32 := 0x0004_0000
  const ERROR_NOT_READY: bv32 := 0x0008_0000
  const ERROR_PARAM: bv32 := 0x0020_0000

  /** A transmit report to the framework: TX_DONE or TX_FAIL for a mailbox. */
  datatype TxReport = TxReport(box: nat, done: bool)

  /** The counters and error fields of `struct rt_can_status` that the SCE handler writes. */
  datatype Status = Status(
    bitPad: bv32, format: bv32, ack: bv32, bit: bv32, crc: bv32,
    lastErrorType: bv32, receiveErrors: bv32, sendErrors: bv32, errorCode: bv32)

  lemma ResetFlags(b: nat)
    requires b < 3
    ensures FlagsOf(0x1C00_0000, b) == Flags(true, false, false, false, false)
  {
  }

  /** HAL_IS_BIT_SET, and the flag test of __HAL_CAN_GET_FLAG. */
  predicate BitSet(reg: bv32, bit: bv32) { reg & bit == bit }

  lemma TmeBit(tsr: bv32, b: nat)
    requires b < 3
    ensures BitSet(tsr, Tme(b)) == FlagsOf(tsr, b).tme
  {
  }

  lemma RqcpBit0(tsr: bv32)
    ensures BitSet(tsr, Rqcp(0)) == FlagsOf(tsr, 0).rqcp
  {}
  lemma RqcpBit1(tsr: bv32)
    ensures BitSet(tsr, Rqcp(1)) == FlagsOf(tsr, 1).rqcp
  {}
  lemma RqcpBit2(tsr: bv32)
    ensures BitSet(tsr, Rqcp(2)) == FlagsOf(tsr, 2).rqcp
  {}
  lemma TxokBit0(tsr: bv32)
    ensures BitSet(tsr, Txok(0)) == FlagsOf(tsr, 0).txok
  {}
  lemma TxokBit1(tsr: bv32)
    ensures BitSet(tsr, Txok(1)) == FlagsOf(tsr, 1).txok
  {}
  lemma TxokBit2(tsr: bv32)
    ensures BitSet(tsr, Txok(2)) == FlagsOf(tsr, 2).txok
  {}

  lemma RqcpAlone(b: nat, c: nat)
    requires b < 3 && c < 3
    ensures FlagsOf(Rqcp(b), c) == Flags(false, b == c, false, false, false)
  {
  }

  // ---------- ESR ----------

  /** What the SCE handler reads from ESR: LEC, and the four fields it copies. */
  function LastError(esr: bv32): bv32 { (esr & 0x70) >> 4 }

  function ErrorField(esr: bv32): bv32 { esr & 0x70 }

  function ReceiveErrors(esr: bv32): bv32 { esr >> 24 }

  function SendErrors(esr: bv32): bv32 { (esr >> 16) & 0xFF }

  function ErrorCode(esr: bv32): bv32 { esr & 0x07 }

  /** A 32-bit counter steps. */
  function Counted(counter: bv32): bv32 { counter + 1 }

  /** The fields of ESR: the receive and transmit error counters, the last error code, and the error state. */
  datatype ErrorFields = ErrorFields(rec: bv8, tec: bv8, lec: bv3, state: bv3)

  /** REC is bits 31:24, TEC 23:16, LEC 6:4 and the state 2:0; the other bits may be anything. */
  function EsrOf(f: ErrorFields, others: bv32): bv32 {
    ((f.rec as bv32) << 24) | ((f.tec as bv32) << 16) | ((f.lec as bv32) << 4) | (f.state as bv32)
    | (others & 0x0000_FF88)
  }

  lemma LecOfEsr(f: ErrorFields, others: bv32)
    ensures LastError(EsrOf(f, others)) == f.lec as bv32
  {
  }

  lemma ErrorTypeOfEsr(f: ErrorFields, others: bv32)
    ensures ErrorField(EsrOf(f, others)) == (f.lec as bv32) << 4
  {
  }

  lemma RecOfEsr(f: ErrorFields, others: bv32)
    ensures ReceiveErrors(EsrOf(f, others)) == f.rec as bv32
  {
  }

  lemma TecOfEsr(f: ErrorFields, others: bv32)
    ensures SendErrors(EsrOf(f, others)) == f.tec as bv32
  {
  }

  lemma StateOfEsr(f: ErrorFields, others: bv32)
    ensures ErrorCode(EsrOf(f, others)) == f.state as bv32
  {
  }

  lemma AckErrorOfEsr(esr: bv32)
    ensures AckErrorIn(esr) <==> LastError(esr) == 3
  {
  }

  /** Every value of ESR is made of its fields. */
  lemma EsrHasFields(esr: bv32) returns (f: ErrorFields)
    ensures EsrOf(f, esr) == esr
  {
    f := ErrorFields((esr >> 24) as bv8, ((esr >> 16) & 0xFF) as bv8, ((esr >> 4) & 7) as bv3, (esr & 7) as bv3);
  }

  /** The status after one error interrupt, by the fields of ESR: the counter of the last error code steps, bit
      errors of either polarity sharing one, codes 0 and 7 none; and the error fields are ESR's. */
  function StatusAfter(s: Status, f: ErrorFields): Status {
    Status(if f.lec == 1 then Counted(s.bitPad) else s.bitPad,
           if f.lec == 2 then Counted(s.format) else s.format,
           if f.lec == 3 then Counted(s.ack) else s.ack,
           if f.lec == 4 || f.lec == 5 then Counted(s.bit) else s.bit,
           if f.lec == 6 then Counted(s.crc) else s.crc,
           (f.lec as bv32) << 4, f.rec as bv32, f.tec as bv32, f.state as bv32)
  }

  /** In every error interrupt at most one counter moves, and it moves by one. */
  lemma CountersMoveByOne(s: Status, f: ErrorFields)
    ensures var t := StatusAfter(s, f);
            && t.bitPad - s.bitPad == (if f.lec == 1 then 1 else 0)
            && t.format - s.format == (if f.lec == 2 then 1 else 0)
            && t.ack - s.ack == (if f.lec == 3 then 1 else 0)
            && t.bit - s.bit == (if f.lec == 4 || f.lec == 5 then 1 else 0)
            && t.crc - s.crc == (if f.lec == 6 then 1 else 0)
  {
  }

  class CanPort {
    // the HAL handle
    var hal: HalState
    var errorCode: bv32
    var init: Init
    // the driver's own state
    var config: Config
    var filter: FilterConfig
    var status: Status
    // the registers
    var tsr: bv32
    var btr: bv32
    var fmr: bv32
    var fr: map<int, Pair>
    var fm1r: bv32
    var ffa1r: bv32
    var fs1r: bv32
    var fa1r: bv32
    var fifo0: seq<Received>
    var fifo1: seq<Received>
    const box: array<Words>

    /** The port after reset, with the configuration of CANDEFAULTCONFIG and the default filter. */
    constructor ()
      ensures Valid() && fresh(box)
      ensures hal == Reset && filter == DEFAULT_FILTER && config == Config(1000000, 0, 0)
      ensures errorCode == 0 && status == Status(0, 0, 0, 0, 0, 0, 0, 0, 0) && fifo0 == fifo1 == []
      ensures init == Init(0, 0, 0, 0, 0, false, false, false, false, false, false)
      ensures Regs() == FilterRegs(0x2A1C_0E01, map[], 0, 0, 0, 0) && btr == 0x0123_0000 && tsr == 0x1C00_0000
      ensures forall b | 0 <= b < 3 ::
                FlagsOf(tsr, b) == Flags(true, false, false, false, false) && box[b] == Words(0, 0, 0, 0)
    {
      hide FlagsOf, HasRequest;
      ResetFlags(0);
      ResetFlags(1);
      ResetFlags(2);
      ZeroHasNoRequest();
      hal, errorCode, btr, tsr := Reset, 0, 0x0123_0000, 0x1C00_0000;
      fmr, fr, fm1r, ffa1r, fs1r, fa1r := 0x2A1C_0E01, map[], 0, 0, 0, 0;
      fifo0, fifo1 := [], [];
      init := Init(0, 0, 0, 0, 0, false, false, false, false, false, false);
      config := Config(1000000, 0, 0);
      filter := DEFAULT_FILTER;
      status := Status(0, 0, 0, 0, 0, 0, 0, 0, 0);
      box := new Words[3](_ => Words(0, 0, 0, 0));
    }

    /** A mailbox is empty exactly when no transmission is requested in it. */
    ghost predicate Valid()
      reads this, box
    {
      box.Length == 3 && forall b | 0 <= b < 3 :: FlagsOf(tsr, b).tme <==> !HasRequest(box[b].tir)
    }

    ghost function Tx(): TxView
      reads this, box
    {
      TxView(hal, tsr, box[..])
    }

    ghost function Control(): Device
      reads this
    {
      Device(hal, errorCode, init, config, btr)
    }

    ghost function Regs(): FilterRegs
      reads this
    {
      FilterRegs(fmr, fr, fm1r, ffa1r, fs1r, fa1r)
    }

    ghost function Filters(): FilterState
      reads this
    {
      FilterState(filter, Regs())
    }

    // ---------- transmit registers as the hardware treats writes to them ----------

    method WriteTir(b: nat, w: bv32)
      requires box.Length == 3 && b < 3
      modifies this`tsr, box
      ensures forall c | 0 <= c < 3 && c != b :: box[c] == old(box[c])
      ensures !FlagsOf(old(tsr), b).tme ==> box[b] == old(box[b]) && tsr == old(tsr)
      ensures FlagsOf(old(tsr), b).tme ==>
                && box[b] == old(box[b]).(tir := w)
                && tsr == if HasRequest(w) then RequestTsr(old(tsr), b) else old(tsr)
    {
      hide RequestTsr;
      if FlagsOf(tsr, b).tme {
        box[b] := box[b].(tir := w);
        if HasRequest(w) {
          tsr := RequestTsr(tsr, b);
        }
      }
    }

    /** The data registers of an empty mailbox; a pending one ignores the write. */
    method WriteData(b: nat, dlc: Option<bv32>, high: Option<bv32>, low: Option<bv32>)
      requires box.Length == 3 && b < 3
      modifies box
      ensures forall c | 0 <= c < 3 && c != b :: box[c] == old(box[c])
      ensures box[b].tir == old(box[b].tir)
      ensures !FlagsOf(tsr, b).tme ==> box[b] == old(box[b])
      ensures FlagsOf(tsr, b).tme ==>
                && box[b].tdtr == (if dlc.Some? then dlc.value else old(box[b].tdtr))
                && box[b].tdhr == (if high.Some? then high.value else old(box[b].tdhr))
                && box[b].tdlr == (if low.Some? then low.value else old(box[b].tdlr))
    {
      if FlagsOf(tsr, b).tme {
        var w := box[b];
        box[b] := Words(w.tir,
                        if dlc.Some? then dlc.value else w.tdtr,
                        if high.Some? then high.value else w.tdhr,
                        if low.Some? then low.value else w.tdlr);
      }
    }

    // ---------- _can_sendmsg ----------

    /** The six register writes of a send, into a mailbox found empty. */
    method WriteMailbox(b: nat, image: Image)
      requires Valid() && b < 3
      requires FlagsOf(tsr, b).tme && !HasRequest(image.id)
      modifies this`tsr, box
      ensures box[..] == old(box[..])[b := WordsOf(image, true)]
      ensures tsr == RequestTsr(old(tsr), b)
    {
      hide FlagsOf, RequestTsr, HasRequest, KeepRequest, AddBits;
      KeepNoRequest(box[b].tir);
      ZeroHasNoRequest();
      AddToZero(image.id);
      RequestAdded(image.id);
      WriteTir(b, KeepRequest(box[b].tir));
      WriteTir(b, AddBits(box[b].tir, image.id));
      WriteData(b, Some(image.dlc), None, None);
      WriteData(b, None, Some(image.high), None);
      WriteData(b, None, None, Some(image.low));
      WriteTir(b, AddBits(box[b].tir, TXRQ));
      assert box[b] == WordsOf(image, true);
    }

    /** Accepted exactly when the handle is usable and the mailbox empty; then the mailbox holds the
        message and its request, and nothing else changed.  An occupied mailbox turns the handle to
        ERROR, an unusable handle records an error code; neither writes a register. */
    method SendMsg(frame: Frame, b: nat) returns (ok: bool)
      requires Valid() && frame.Valid() && b < 3
      modifies this`hal, this`errorCode, this`tsr, box
      ensures Valid()
      ensures ok == SendAccepted(old(Tx()), b)
      ensures Tx() == Sent(old(Tx()), ImageOf(frame), b)
      ensures ok ==> RequestsFrame(box[b], frame) && tsr == SparedByRequest(old(tsr), b)
      ensures errorCode == if old(hal).Usable() then old(errorCode) else SetBits(old(errorCode), 0x0004_0000)
    {
      hide FlagsOf, RequestTsr, HasRequest, AddBits, BitSet, Tme;
      hide IdWord, IdFits, LengthWord, HighWord, LowWord, FitsDlc, RequestsFrame, SparedByRequest, SetBits;
      if hal.Usable() {
        TmeBit(tsr, b);
        if !BitSet(tsr, Tme(b)) {
          hal := Error;
          return false;
        }
        IdHasNoRequest(frame.extended, frame.id, frame.remote);
        RequestAdded(IdWord(frame.extended, frame.id, frame.remote));
        WriteMailbox(b, ImageOf(frame));
        assert forall c | 0 <= c < 3 :: box[c] == box[..][c] && old(box[c]) == old(box[..])[c];
        RequestByMailbox(old(tsr), b, 0);
        RequestByMailbox(old(tsr), b, 1);
        RequestByMailbox(old(tsr), b, 2);
        RequestSpares(old(tsr), b);
        WordsRequestFrame(frame);
        return true;
      } else {
        errorCode := SetBits(errorCode, ERROR_NOT_INITIALIZED);
        return false;
      }
    }

    // ---------- the TX interrupt handler ----------

    method WriteTsrRegister(w: bv32)
      requires Valid()
      modifies this`tsr
      ensures Valid()
      ensures tsr == WriteTsr(old(tsr), w)
      ensures forall c | 0 <= c < 3 ::
                FlagsOf(tsr, c) == WriteOneToClear(FlagsOf(old(tsr), c), FlagsOf(w, c))
    {
      hide FlagsOf, WriteTsr, HasRequest;
      WriteTsrByMailbox(tsr, w, 0);
      WriteTsrByMailbox(tsr, w, 1);
      WriteTsrByMailbox(tsr, w, 2);
      tsr := WriteTsr(tsr, w);
    }

    /** `CAN1_TX_IRQHandler`: reports the lowest mailbox done and writes TSR back with its RQCP. */
    method TxIrq() returns (report: Option<TxReport>)
      requires Valid()
      modifies this`tsr
      ensures Valid()
      ensures tsr == AfterTxIrq(old(tsr))
      ensures var b := LowestDone(old(tsr));
              report == if b < 3 then Some(TxReport(b, FlagsOf(old(tsr), b).txok)) else None
      ensures report == if IsSet(old(tsr), 0) then Some(TxReport(0, IsSet(old(tsr), 1)))
                        else if IsSet(old(tsr), 8) then Some(TxReport(1, IsSet(old(tsr), 9)))
                        else if IsSet(old(tsr), 16) then Some(TxReport(2, IsSet(old(tsr), 17)))
                        else None
      ensures tsr == if report.Some? then StatusCleared(old(tsr)) else old(tsr)
    {
      hide FlagsOf, WriteTsr, HasRequest, BitSet, Rqcp, Txok, SetRqcp, IsSet, StatusCleared;
      FlagsAreBits(tsr);
      WriteBackClearsAll(tsr, 0);
      WriteBackClearsAll(tsr, 1);
      WriteBackClearsAll(tsr, 2);
      RqcpBit0(tsr);
      RqcpBit1(tsr);
      RqcpBit2(tsr);
      TxokBit0(tsr);
      TxokBit1(tsr);
      TxokBit2(tsr);
      if BitSet(tsr, Rqcp(0)) {
        report := Some(TxReport(0, BitSet(tsr, Txok(0))));
        WriteTsrRegister(SetRqcp(tsr, 0));
      } else if BitSet(tsr, Rqcp(1)) {
        report := Some(TxReport(1, BitSet(tsr, Txok(1))));
        WriteTsrRegister(SetRqcp(tsr, 1));
      } else if BitSet(tsr, Rqcp(2)) {
        report := Some(TxReport(2, BitSet(tsr, Txok(2))));
        WriteTsrRegister(SetRqcp(tsr, 2));
      } else {
        report := None;
      }
    }

    // ---------- the SCE interrupt handler ----------

    /** The mailbox part of HAL_CAN_IRQHandler. */
    method HalClearMailboxes(mailboxIrqOn: bool)
      requires Valid()
      modifies this`tsr
      ensures Valid()
      ensures forall c | 0 <= c < 3 :: FlagsOf(tsr, c) == HalCleared(FlagsOf(old(tsr), c), mailboxIrqOn)
    {
      hide FlagsOf, WriteTsr, HasRequest, Rqcp;
      if mailboxIrqOn {
        ghost var before := tsr;
        ClearDone(0, before);
        ClearDone(1, before);
        ClearDone(2, before);
      }
    }

    /** The counters and error fields of the SCE handler. */
    method RecordError(esr: bv32)
      modifies this`status
      ensures forall f, others | esr == EsrOf(f, others) :: status == StatusAfter(old(status), f)
    {
      hide LastError, Counted, ErrorField, ReceiveErrors, SendErrors, ErrorCode, EsrOf;
      var lec := LastError(esr);
      if lec == 1 {
        status := status.(bitPad := Counted(status.bitPad));
      } else if lec == 2 {
        status := status.(format := Counted(status.format));
      } else if lec == 3 {
        status := status.(ack := Counted(status.ack));
      } else if lec == 4 || lec == 5 {
        status := status.(bit := Counted(status.bit));
      } else if lec == 6 {
        status := status.(crc := Counted(status.crc));
      }
      status := status.(lastErrorType := ErrorField(esr), receiveErrors := ReceiveErrors(esr),
                        sendErrors := SendErrors(esr), errorCode := ErrorCode(esr));
      forall f, others | esr == EsrOf(f, others)
        ensures status == StatusAfter(old(status), f)
      {
        LecOfEsr(f, others);
        ErrorTypeOfEsr(f, others);
        RecOfEsr(f, others);
        TecOfEsr(f, others);
        StateOfEsr(f, others);
      }
    }

    /** `CAN1_SCE_IRQHandler` with the mailbox part of HAL_CAN_IRQHandler: pending completions are
        cleared without a report when the mailbox interrupt is on, one error counter steps, and an
        acknowledge error may be reported as a failure of mailbox 0. */
    method SceIrq(esr: bv32, mailboxIrqOn: bool) returns (report: Option<TxReport>)
      requires Valid()
      modifies this`tsr, this`status
      ensures Valid()
      ensures forall c | 0 <= c < 3 :: FlagsOf(tsr, c) == HalCleared(FlagsOf(old(tsr), c), mailboxIrqOn)
      ensures forall f, others | esr == EsrOf(f, others) :: status == StatusAfter(old(status), f)
      ensures forall f, others | esr == EsrOf(f, others) ::
                report == if f.lec == 3 && AckMaskClear(tsr) then Some(TxReport(0, false)) else None
      ensures report == if AckErrorIn(esr) && AckMaskClear(tsr) then Some(TxReport(0, false)) else None
    {
      hide FlagsOf, HasRequest, AckErrorReport, LastError, StatusAfter, EsrOf, AckErrorIn, AckMaskClear;
      HalClearMailboxes(mailboxIrqOn);
      RecordError(esr);
      report := None;
      AckErrorOnlyReportsMailbox0(tsr);
      AckErrorMask(tsr);
      AckErrorOfEsr(esr);
      if LastError(esr) == 3 && AckErrorReport(tsr) >= 0 {
        report := Some(TxReport(AckErrorReport(tsr), false));
      }
      forall f, others | esr == EsrOf(f, others)
        ensures f.lec == 3 <==> LastError(esr) == 3
      {
        LecOfEsr(f, others);
      }
    }

    /** HAL_CAN_IRQHandler on one mailbox: tests the TSR it read on entry, clears with a plain write. */
    method ClearDone(b: nat, ghost before: bv32)
      requires Valid() && b < 3
      requires FlagsOf(tsr, b) == FlagsOf(before, b)
      modifies this`tsr
      ensures Valid()
      ensures FlagsOf(tsr, b) == HalCleared(FlagsOf(before, b), true)
      ensures forall c | 0 <= c < 3 && c != b :: FlagsOf(tsr, c) == FlagsOf(old(tsr), c)
    {
      hide FlagsOf, WriteTsr, HasRequest, Rqcp;
      RqcpAlone(b, 0);
      RqcpAlone(b, 1);
      RqcpAlone(b, 2);
      if FlagsOf(tsr, b).rqcp {
        WriteTsrRegister(Rqcp(b));
      }
    }

    // ---------- configuration ----------

    method FillMode(mode: nat)
      modifies this`init
      ensures init == old(init).(mode := if IsMode(mode) then ModeBits(mode) else old(init).mode)
    {
      match mode {
        case 0 => init := init.(mode := 0x0000_0000);
        case 1 => init := init.(mode := 0x8000_0000);
        case 2 => init := init.(mode := 0x4000_0000);
        case 3 => init := init.(mode := 0xC000_0000);
        case _ =>
      }
    }

    method FillInit(cfg: Config)
      modifies this`init
      ensures init == InitFor(old(init), cfg)
      ensures init.autoBusOff && init.fifoPriority && !init.autoRetransmission
      ensures !init.timeTriggered && !init.autoWakeUp && !init.fifoLocked
    {
      hide Sjw, Bs1, Bs2, Prescaler, ModeBits;
      init := init.(timeTriggered := false, autoBusOff := true, autoWakeUp := false,
                    autoRetransmission := false, fifoLocked := false, fifoPriority := true);
      FillMode(cfg.mode);
      var index := GetBaudIndex(cfg.baud);
      var row := BAUD_TABLE[index].data;
      init := init.(sjw := Sjw(row), bs1 := Bs1(row), bs2 := Bs2(row), prescaler := Prescaler(row));
    }

    /** HAL_CAN_Init, with the waiting loops replaced by the hardware's answer. */
    method HalCanInit(bus: Bus) returns (ok: bool)
      modifies this`hal, this`errorCode, this`btr
      ensures Control() == HalInit(old(Control()), bus)
      ensures ok == hal.Ready? == (bus.wakes && bus.entersInit)
      ensures if ok then errorCode == 0 else hal == Error && btr == old(btr)
    {
      hide BtrWord, SetBits;
      if !bus.wakes {
        errorCode := SetBits(errorCode, ERROR_TIMEOUT);
        hal := Error;
        return false;
      }
      if !bus.entersInit {
        errorCode := SetBits(errorCode, ERROR_TIMEOUT);
        hal := Error;
        return false;
      }
      btr := BtrWord(init);
      errorCode := 0;
      hal := Ready;
      return true;
    }

    /** HAL_CAN_Start: starts a READY handle, and only records an error code for any other. */
    method HalCanStart(bus: Bus)
      modifies this`hal, this`errorCode
      ensures Control() == HalStart(old(Control()), bus)
    {
      hide SetBits;
      if !hal.Ready? {
        errorCode := SetBits(errorCode, ERROR_NOT_READY);
        return;
      }
      hal := Listening;
      if !bus.leavesInit {
        errorCode := SetBits(errorCode, ERROR_TIMEOUT);
        hal := Error;
        return;
      }
      errorCode := 0;
    }

    /** `_can_config`: fills the `Init` block, initialises, applies the stored filter, starts. */
    method Configure(cfg: Config, bus: Bus) returns (ok: bool)
      modifies this`hal, this`errorCode, this`init, this`btr
      modifies this`fmr, this`fr, this`fm1r, this`ffa1r, this`fs1r, this`fa1r
      ensures (Control(), ok) == Configured(old(Control()), cfg, bus)
      ensures Filters() == if ok then ConfigFilter(old(Filters())) else old(Filters())
      ensures ok && old(filter) == DEFAULT_FILTER ==> Started(Filters())
    {
      hide InitFor, BtrWord, ConfigBank, SetBits, Started;
      DefaultFilterStarts(Regs());
      FillInit(cfg);
      ok := HalCanInit(bus);
      if !ok {
        return false;
      }
      ApplyFilter();
      HalCanStart(bus);
      return true;
    }

    /** `_can_control` for the mode, baud and private-mode commands. */
    method Set(c: Control, bus: Bus) returns (ok: bool)
      modifies this`hal, this`errorCode, this`init, this`config, this`btr
      modifies this`fmr, this`fr, this`fm1r, this`ffa1r, this`fs1r, this`fa1r
      ensures (Control(), ok) == Controlled(old(Control()), c, bus)
      ensures var changed := Accepted(c) && c.value != Stored(old(config), c);
              Filters() == if changed && ok then ConfigFilter(old(Filters())) else old(Filters())
    {
      hide Configured, ConfigBank;
      match c
      case SetMode(v) =>
        if v != 0 && v != 1 && v != 2 && v != 3 {
          return false;
        }
        if v != config.mode {
          config := config.(mode := v);
          ok := Configure(config, bus);
          return ok;
        }
        return true;
      case SetBaud(v) =>
        if !IsBaud(v) {
          return false;
        }
        if v != config.baud {
          config := config.(baud := v);
          ok := Configure(config, bus);
          return ok;
        }
        return true;
      case SetPriv(v) =>
        if v != 1 && v != 0 {
          return false;
        }
        if v != config.priv {
          config := config.(priv := v);
          ok := Configure(config, bus);
          return ok;
        }
        return true;
    }

    // ---------- filters ----------

    /** HAL_CAN_ConfigFilter up to the identifiers: initialisation mode and the first bank of CAN2, the bank
        switched off, its scale. */
    method PrepareFilter()
      modifies this`fmr, this`fs1r, this`fa1r
      ensures Regs() == Prepared(old(Regs()), filter)
    {
      hide SetBits, ClearBits, Mask, Opened;
      var p := Position(filter.bank);
      fmr := Opened(fmr);
      fa1r := ClearBits(fa1r, Mask(p));
      if !filter.scale32 {
        fs1r := ClearBits(fs1r, Mask(p));
      } else {
        fs1r := SetBits(fs1r, Mask(p));
      }
    }

    /** The two stores of identifiers through `sFilterRegister[FilterBank]`, whatever lies there. */
    method StoreIdentifiers()
      modifies this`fmr, this`fr, this`fm1r, this`ffa1r, this`fs1r, this`fa1r
      ensures Regs() == StorePair(old(Regs()), Place(filter.bank), PairFor(filter))
    {
      hide PairFor, Finit, Place;
      var place, pair := Place(filter.bank), PairFor(filter);
      if place == -8 {
        fmr := pair.fr1;
        fm1r := if Finit(fmr) then pair.fr2 else fm1r;
      } else if place == -7 {
        fs1r := if Finit(fmr) then pair.fr2 else fs1r;
      } else if place == -6 {
        ffa1r := if Finit(fmr) then pair.fr2 else ffa1r;
      } else if place == -5 {
        fa1r := pair.fr2;
      } else if IsBank(place) {
        fr := fr[place := pair];
      }
    }

    /** The rest: mode and FIFO, which initialisation mode alone admits, activation, and its end. */
    method CompleteFilter()
      modifies this`fmr, this`fm1r, this`ffa1r, this`fa1r
      ensures Regs() == Completed(old(Regs()), filter)
    {
      hide SetBits, ClearBits, Mask, Finit, PutBit, Closed;
      var p := Position(filter.bank);
      if Finit(fmr) {
        fm1r := PutBit(fm1r, p, filter.list);
        ffa1r := PutBit(ffa1r, p, filter.fifo1);
      }
      if filter.active {
        fa1r := SetBits(fa1r, Mask(p));
      }
      fmr := Closed(fmr);
    }

    /** HAL_CAN_ConfigFilter with the stored filter configuration. */
    method ApplyFilter()
      modifies this`fmr, this`fr, this`fm1r, this`ffa1r, this`fs1r, this`fa1r, this`errorCode
      ensures hal.Usable() ==> Filters() == ConfigFilter(old(Filters())) && errorCode == old(errorCode)
      ensures !hal.Usable() ==> Regs() == old(Regs())
      ensures !hal.Usable() ==> errorCode == SetBits(old(errorCode), 0x0004_0000)
    {
      hide Prepared, StorePair, Completed, PairFor, Place, SetBits;
      if hal.Usable() {
        PrepareFilter();
        StoreIdentifiers();
        CompleteFilter();
      } else {
        errorCode := SetBits(errorCode, ERROR_NOT_INITIALIZED);
      }
    }

    /** RT_CAN_CMD_SET_FILTER with a list of items: a usable handle takes them all, in order; an
        unusable one keeps its banks but still remembers the last item. */
    method SetFilters(items: seq<Item>)
      modifies this`filter, this`fmr, this`fr, this`fm1r, this`ffa1r, this`fs1r, this`fa1r, this`errorCode
      ensures hal.Usable() ==> Filters() == SetItems(old(Filters()), items) && errorCode == old(errorCode)
      ensures !hal.Usable() ==> Regs() == old(Regs()) && filter == SetItems(old(Filters()), items).cfg
      ensures !hal.Usable() ==>
                errorCode == if items == [] then old(errorCode) else SetBits(old(errorCode), 0x0004_0000)
    {
      hide ConfigBank, IdHigh, IdLow, High, Low, SetBits;
      var i := 0;
      while i < |items|
        invariant i <= |items| && hal == old(hal)
        invariant filter == SetItems(old(Filters()), items[..i]).cfg
        invariant hal.Usable() ==> Regs() == SetItems(old(Filters()), items[..i]).regs
        invariant hal.Usable() ==> errorCode == old(errorCode)
        invariant !hal.Usable() ==> Regs() == old(Regs())
        invariant !hal.Usable() ==> errorCode == if i == 0 then old(errorCode) else SetBits(old(errorCode), 0x0004_0000)
      {
        filter := filter.(bank := items[i].bank, idHigh := IdHigh(items[i].id),
                          idLow := IdLow(items[i].id, items[i].ide, items[i].rtr),
                          maskHigh := High(items[i].mask), maskLow := Low(items[i].mask), list := items[i].list);
        ApplyFilter();
        SetTwice(old(errorCode), ERROR_NOT_INITIALIZED);
        assert items[..i + 1][..i] == items[..i];
        i := i + 1;
      }
      assert items[..i] == items;
    }

    // ---------- receiving ----------

    /** `_can_recvmsg` over HAL_CAN_GetRxMessage: the oldest message of the FIFO, which is released, with the
        number of the filter it matched; an empty FIFO or an unusable handle gives an error code. */
    method RecvMsg(fifo: nat) returns (msg: Option<Message>)
      requires fifo < 2
      modifies this`errorCode, this`fifo0, this`fifo1
      ensures var queue := if fifo == 0 then old(fifo0) else old(fifo1);
              if old(hal).Usable() && queue != []
              then msg == Some(MessageOf(queue[0])) && (if fifo == 0 then fifo0 else fifo1) == queue[1..]
              else msg == None && (if fifo == 0 then fifo0 else fifo1) == queue
      ensures if fifo == 0 then fifo1 == old(fifo1) else fifo0 == old(fifo0)
      ensures errorCode == if !hal.Usable() then SetBits(old(errorCode), 0x0004_0000)
                           else if (if fifo == 0 then old(fifo0) else old(fifo1)) == []
                           then SetBits(old(errorCode), 0x0020_0000)
                           else old(errorCode)
      ensures msg.Some? ==> Reads(msg.value, (if fifo == 0 then old(fifo0) else old(fifo1))[0])
    {
      hide Unpack, HdrOf, Reads, SetBits;
      if fifo0 != [] {
        MessageReads(fifo0[0]);
      }
      if fifo1 != [] {
        MessageReads(fifo1[0]);
      }
      if !hal.Usable() {
        errorCode := SetBits(errorCode, ERROR_NOT_INITIALIZED);
        return None;
      }
      if fifo == 0 {
        if fifo0 == [] {
          errorCode := SetBits(errorCode, ERROR_PARAM);
          return None;
        }
        msg := Some(Message(Unpack(fifo0[0]), HdrOf(fifo0[0].rdtr)));
        fifo0 := fifo0[1..];
      } else {
        if fifo1 == [] {
          errorCode := SetBits(errorCode, ERROR_PARAM);
          return None;
        }
        msg := Some(Message(Unpack(fifo1[0]), HdrOf(fifo1[0].rdtr)));
        fifo1 := fifo1[1..];
      }
    }
  }

  // ---------- received messages ----------

  /** A received message with the number `hdr` derived from the filter match index. */
  datatype Message = Message(frame: Frame, hdr: bv8)

  function MatchIndex(rdtr: bv32): bv32 { (rdtr >> 8) & 0xFF }

  /** CAN1 numbers its filters in pairs; the field has eight bits. */
  function HdrOf(rdtr: bv32): bv8 { (((MatchIndex(rdtr) + 1) >> 1) & 0xFF) as bv8 }

  function MessageOf(r: Received): Message { Message(Unpack(r), HdrOf(r.rdtr)) }

  /** RDTxR: the time stamp in bits 31:16, the filter match index in 15:8, the length in 3:0; bits 7:4 are
      reserved. */
  function RdtrOf(time: bv16, index: bv8, len: bv4, others: bv4): bv32 {
    ((time as bv32) << 16) | ((index as bv32) << 8) | ((others as bv32) << 4) | (len as bv32)
  }

  lemma HdrOfFields(time: bv16, index: bv8, len: bv4, others: bv4)
    ensures HdrOf(RdtrOf(time, index, len, others)) as nat == (index as nat + 1) / 2
  {
  }

  lemma LengthOfFields(time: bv16, index: bv8, len: bv4, others: bv4)
    ensures LengthIn(RdtrOf(time, index, len, others)) == len as bv32
  {
  }

  /** The message is what the layout of the FIFO registers says of `r` (section 32.9.3 of RM0090). */
  ghost predicate Reads(m: Message, r: Received) {
    && |m.frame.data| == 8 && HoldsData(r.rdlr, r.rdhr, m.frame.data)
    && HoldsHeader(r.rir, m.frame.extended, m.frame.id, m.frame.remote)
    && forall time, index, len, others | r.rdtr == RdtrOf(time, index, len, others) ::
         m.frame.len == len as bv32 && m.hdr as nat == (index as nat + 1) / 2
  }

  lemma UnpackLength(r: Received)
    ensures Unpack(r).len == LengthIn(r.rdtr)
  {
    hide IsExtended, IsRemote, IdIn, BytesIn;
  }

  lemma MessageReads(r: Received)
    ensures Reads(MessageOf(r), r)
  {
    hide Unpack, HdrOf, HoldsData, HoldsHeader, RdtrOf, LengthIn;
    UnpackedLayout(r);
    UnpackLength(r);
    forall time, index, len, others | r.rdtr == RdtrOf(time, index, len, others)
      ensures LengthIn(r.rdtr) == len as bv32 && HdrOf(r.rdtr) as nat == (index as nat + 1) / 2
    {
      HdrOfFields(time, index, len, others);
      LengthOfFields(time, index, len, others);
    }
  }

  /** Every value of RDTxR is made of its fields. */
  lemma RdtrHasFields(rdtr: bv32) returns (time: bv16, index: bv8, len: bv4, others: bv4)
    ensures RdtrOf(time, index, len, others) == rdtr
  {
    time, index := (rdtr >> 16) as bv16, ((rdtr >> 8) & 0xFF) as bv8;
    len, others := (rdtr & 0xF) as bv4, ((rdtr >> 4) & 0xF) as bv4;
  }

  /** The number stands for two match indices, as the two identifiers of a 32-bit list-mode bank have them. */
  lemma HdrPairs(rdtr: bv32, n: bv8)
    requires n != 0 && n & 0x7F == n
    ensures HdrOf(rdtr) == n
            <==> MatchIndex(rdtr) == ((n as bv32) << 1) - 1 || MatchIndex(rdtr) == (n as bv32) << 1
  {
  }
}
