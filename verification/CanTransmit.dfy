/** The transmit operations at word level, uninterrupted: a whole `_can_sendmsg`, a whole TX
    interrupt and a whole SCE interrupt.  Each is shown to be a run of the protocol machine. */
module CanTransmit {
  import opened CanFrame
  import opened CanProtocol
  import opened CanRegisters
  import opened CanRuns

  /** What the transmit path reads and writes: the handle state, TSR and the mailbox words. */
  datatype TxView = TxView(hal: HalState, tsr: bv32, boxes: seq<Words>)

  // ---------- bits of the identifier register ----------

  predicate HasRequest(tir: bv32) { tir & TXRQ != 0 }

  /** `TIR &= TXRQ` */
  function KeepRequest(tir: bv32): bv32 { tir & TXRQ }

  /** `TIR |= bits` */
  function AddBits(tir: bv32, bits: bv32): bv32 { tir | bits }

  function TirOf(id: bv32, txrq: bool): bv32 {
    if txrq then AddBits(id, TXRQ) else id
  }

  lemma KeepNoRequest(tir: bv32)
    requires !HasRequest(tir)
    ensures KeepRequest(tir) == 0
  {
  }

  lemma AddToZero(bits: bv32)
    ensures AddBits(0, bits) == bits
  {
  }

  lemma ZeroHasNoRequest()
    ensures !HasRequest(0)
  {
  }

  lemma IdHasNoRequest(extended: bool, id: bv32, remote: bool)
    ensures !HasRequest(IdWord(extended, id, remote))
  {
  }

  lemma RequestAdded(id: bv32)
    ensures HasRequest(AddBits(id, TXRQ))
  {
  }

  // ---------- the operations ----------

  function WordsOf(image: Image, txrq: bool): Words {
    Words(TirOf(image.id, txrq), image.dlc, image.high, image.low)
  }

  /** The registers of a mailbox ask for the transmission of a frame, by the layout of section 32.9.3 of RM0090:
      TXRQ is bit 0, and no reserved bit is set. */
  ghost predicate RequestsFrame(w: Words, f: Frame)
    requires |f.data| == 8
  {
    && w.tir & 1 == 1
    && HoldsHeader(w.tir, f.extended, f.id, f.remote)
    && (!f.extended ==> w.tir & 0x001F_FFF8 == 0)
    && w.tdtr == f.len
    && HoldsData(w.tdlr, w.tdhr, f.data)
  }

  lemma RequestIsBit0(word: bv32)
    ensures AddBits(word, TXRQ) & 1 == 1
  {
  }

  lemma RequestKeepsRtr(word: bv32)
    ensures IsSet(AddBits(word, TXRQ), 1) <==> IsSet(word, 1)
  {
  }

  lemma RequestKeepsIde(word: bv32)
    ensures IsSet(AddBits(word, TXRQ), 2) <==> IsSet(word, 2)
  {
  }

  lemma RequestKeepsExtendedId(word: bv32)
    ensures From(AddBits(word, TXRQ), 3) == From(word, 3)
  {
  }

  lemma RequestKeepsStandardId(word: bv32)
    ensures From(AddBits(word, TXRQ), 21) == From(word, 21)
  {
  }

  lemma RequestKeepsHeader(word: bv32, extended: bool, id: bv32, remote: bool)
    requires HoldsHeader(word, extended, id, remote)
    ensures HoldsHeader(AddBits(word, TXRQ), extended, id, remote)
  {
    hide AddBits, IsSet, From;
    RequestKeepsRtr(word);
    RequestKeepsIde(word);
    RequestKeepsExtendedId(word);
    RequestKeepsStandardId(word);
  }

  lemma RequestKeepsReserved(word: bv32)
    ensures AddBits(word, TXRQ) & 0x001F_FFF8 == word & 0x001F_FFF8
  {
  }

  lemma LengthIsWhole(len: bv32)
    requires FitsDlc(len)
    ensures LengthWord(len) == len
  {
  }

  /** The words written for a valid frame hold its fields where the hardware reads them. */
  lemma WordsRequestFrame(f: Frame)
    requires f.Valid()
    ensures RequestsFrame(WordsOf(ImageOf(f), true), f)
  {
    hide IdWord, IdFits, FitsDlc, LengthWord, HoldsHeader, HoldsData, AddBits, LowWord, HighWord;
    var word := IdWord(f.extended, f.id, f.remote);
    PackedHeaderLayout(f.extended, f.id, f.remote);
    RequestIsBit0(word);
    RequestKeepsHeader(word, f.extended, f.id, f.remote);
    RequestKeepsReserved(word);
    LengthIsWhole(f.len);
    PackedDataLayout(f);
  }

  predicate SendAccepted(v: TxView, b: nat)
    requires b < 3
  {
    v.hal.Usable() && FlagsOf(v.tsr, b).tme
  }

  /** What a whole `_can_sendmsg` makes of the transmit state. */
  function Sent(v: TxView, image: Image, b: nat): TxView
    requires b < 3 && |v.boxes| == 3
  {
    if !v.hal.Usable() then v
    else if !FlagsOf(v.tsr, b).tme then v.(hal := Error)
    else v.(tsr := RequestTsr(v.tsr, b), boxes := v.boxes[b := WordsOf(image, true)])
  }

  /** The mailbox a TX interrupt answers: the lowest with RQCP set; 3 when there is none. */
  function LowestDone(tsr: bv32): nat {
    if FlagsOf(tsr, 0).rqcp then 0 else if FlagsOf(tsr, 1).rqcp then 1 else if FlagsOf(tsr, 2).rqcp then 2 else 3
  }

  /** TSR after a whole TX interrupt. */
  function AfterTxIrq(tsr: bv32): bv32 {
    var b := LowestDone(tsr);
    if b < 3 then WriteTsr(tsr, SetRqcp(tsr, b)) else tsr
  }

  // ---------- words against the machine ----------

  ghost predicate BoxMatches(w: Words, s: Slot) {
    !HasRequest(s.regs.id) && w == WordsOf(s.regs, s.txrq)
  }

  ghost predicate Matches(v: TxView, m: Machine) {
    && Shape(m) && |v.boxes| == 3 && v.hal == m.hal
    && forall b | 0 <= b < 3 :: FlagsOf(v.tsr, b) == m.slots[b].flags && BoxMatches(v.boxes[b], m.slots[b])
  }

  /** The machine steps of one uninterrupted send. */
  function SendSteps(accepted: bool, image: Image, b: nat): seq<Step> {
    if accepted then [Enter(b, image), Check(b), Store(b), Store(b), Store(b), Store(b), Store(b), Store(b)]
    else [Enter(b, image), Check(b)]
  }

  /** The machine with one mailbox replaced. */
  function With(m: Machine, b: nat, s: Slot): Machine
    requires Shape(m) && b < 3
  {
    m.(slots := m.slots[b := s])
  }

  function StoresOf(s: Slot, n: nat): Slot
    requires s.sender.Writing? && s.sender.next + n <= 6
    decreases n
  {
    if n == 0 then s
    else if s.sender.next == 5 then StoreSlot(s)
    else StoresOf(StoreSlot(s), n - 1)
  }

  lemma {:induction false} StoresRun(m: Machine, b: nat, s: Slot, n: nat)
    requires Shape(m) && b < 3 && m.isr.NoIsr? && s.sender.Writing? && s.sender.next + n == 6 && n > 0
    ensures IsRun(With(m, b, s), seq(n, i => Store(b)))
    ensures Exec(With(m, b, s), seq(n, i => Store(b))) == With(m, b, StoresOf(s, n))
    decreases n
  {
    var es := seq(n, i => Store(b));
    var t := StoreSlot(s);
    assert Apply(With(m, b, s), es[0]) == With(m, b, t);
    assert es[1..] == seq(n - 1, i => Store(b));
    if n > 1 {
      StoresRun(m, b, t, n - 1);
    }
  }

  /** A mailbox just accepted for `image`. */
  function AcceptedSlot(s: Slot, image: Image): Slot {
    s.(txrq := true, regs := image, flags := Flags(false, false, false, false, false), sender := Waiting,
       accepted := s.accepted + [image], wiped := if s.flags.rqcp then WithLast(s) else s.wiped)
  }

  lemma StoreOne(s: Slot, image: Image, r: Image, k: nat)
    requires s.flags.tme && k < 5
    ensures StoreSlot(s.(regs := r, sender := Writing(image, k)))
            == s.(regs := WriteWord(r, image, k), sender := Writing(image, k + 1))
  {
  }

  lemma FiveWrites(r: Image, image: Image)
    ensures WriteWord(WriteWord(WriteWord(WriteWord(WriteWord(r, image, 0), image, 1), image, 2), image, 3), image, 4)
            == image
  {
  }

  lemma {:induction false} StoresFrom(s: Slot, image: Image, r: Image, k: nat)
    requires s.flags.tme && k <= 5
    ensures StoresOf(s.(regs := r, sender := Writing(image, k)), 6 - k)
            == AcceptedSlot(s, image).(regs := WritesFrom(r, image, k))
    decreases 5 - k
  {
    hide WriteWord;
    if k < 5 {
      StoreOne(s, image, r, k);
      StoresFrom(s, image, WriteWord(r, image, k), k + 1);
    }
  }

  function WritesFrom(r: Image, image: Image, k: nat): Image
    requires k <= 5
    decreases 5 - k
  {
    if k == 5 then r else WritesFrom(WriteWord(r, image, k), image, k + 1)
  }

  /** The six register writes, taken together, put the whole image in place and request it. */
  lemma StoresWriteImage(s: Slot, image: Image)
    requires s.flags.tme && s.sender == Writing(image, 0)
    ensures StoresOf(s, 6) == AcceptedSlot(s, image)
  {
    hide WriteWord, StoreSlot;
    StoresFrom(s, image, s.regs, 0);
    FiveWrites(s.regs, image);
    var r1 := WriteWord(s.regs, image, 0);
    var r2 := WriteWord(r1, image, 1);
    var r3 := WriteWord(r2, image, 2);
    var r4 := WriteWord(r3, image, 3);
    assert WritesFrom(s.regs, image, 0) == WritesFrom(r1, image, 1) == WritesFrom(r2, image, 2)
        == WritesFrom(r3, image, 3) == WritesFrom(r4, image, 4) == WritesFrom(image, image, 5);
    assert s.(regs := s.regs, sender := Writing(image, 0)) == s;
  }

  lemma AcceptedSendRun(m: Machine, image: Image, b: nat)
    requires Shape(m) && m.isr.NoIsr? && b < 3 && m.slots[b].sender.Idle?
    requires m.hal.Usable() && m.slots[b].flags.tme
    ensures IsRun(m, SendSteps(true, image, b))
    ensures Exec(m, SendSteps(true, image, b))
            == With(m, b, AcceptedSlot(m.slots[b].(result := ResultWait), image))
  {
    hide StoreSlot, TxHandlerStep, SceHandlerStep, Finish;
    var s := m.slots[b].(result := ResultWait);
    var es := SendSteps(true, image, b);
    var m1 := With(m, b, s.(sender := Entered(image, m.hal)));
    var w := s.(sender := Writing(image, 0));
    assert Apply(m, es[0]) == m1;
    assert Apply(m1, es[1]) == With(m, b, w);
    assert es[1..][1..] == seq(6, i => Store(b));
    StoresRun(m, b, w, 6);
    StoresWriteImage(w, image);
    assert Exec(m, es) == Exec(m1, es[1..]) == Exec(With(m, b, w), es[1..][1..]);
  }

  lemma RefusedSendRun(m: Machine, image: Image, b: nat)
    requires Shape(m) && m.isr.NoIsr? && b < 3 && m.slots[b].sender.Idle?
    requires !(m.hal.Usable() && m.slots[b].flags.tme)
    ensures IsRun(m, SendSteps(false, image, b))
    ensures Exec(m, SendSteps(false, image, b))
            == With(m, b, m.slots[b].(result := ResultWait)).(hal := if m.hal.Usable() then Error else m.hal)
  {
    hide StoreSlot, TxHandlerStep, SceHandlerStep, Finish;
    var s := m.slots[b].(result := ResultWait);
    var es := SendSteps(false, image, b);
    var m1 := With(m, b, s.(sender := Entered(image, m.hal)));
    assert Apply(m, es[0]) == m1;
    var m2 := Apply(m1, es[1]);
    assert m2.slots == With(m, b, s).slots;
    assert es[1..][1..] == [];
    assert IsRun(m2, es[1..][1..]);
    assert es[1..][0] == Check(b);
    assert IsRun(m1, es[1..]);
    assert Exec(m, es) == Exec(m1, es[1..]) == Exec(m2, es[1..][1..]) == m2;
  }

  lemma SentFlags(v: TxView, image: Image, b: nat, c: nat)
    requires b < 3 && c < 3 && |v.boxes| == 3 && SendAccepted(v, b)
    ensures FlagsOf(Sent(v, image, b).tsr, c)
            == if b == c then Flags(false, false, false, false, false) else FlagsOf(v.tsr, c)
  {
    hide FlagsOf, RequestTsr;
    RequestByMailbox(v.tsr, b, c);
  }

  /** A whole `_can_sendmsg` on the registers is the machine's send: same verdict, same state, and the
      mailbox words are the message's image with the request bit. */
  lemma SendRefines(v: TxView, m: Machine, image: Image, b: nat)
    requires Inv(m) && m.isr.NoIsr? && b < 3 && m.slots[b].sender.Idle? && Matches(v, m)
    requires !HasRequest(image.id)
    ensures IsRun(m, SendSteps(SendAccepted(v, b), image, b))
    ensures Matches(Sent(v, image, b), Exec(m, SendSteps(SendAccepted(v, b), image, b)))
  {
    hide FlagsOf, RequestTsr, HasRequest, TirOf;
    if SendAccepted(v, b) {
      AcceptedSendRun(m, image, b);
    } else {
      RefusedSendRun(m, image, b);
    }
    var v' := Sent(v, image, b);
    var m' := Exec(m, SendSteps(SendAccepted(v, b), image, b));
    forall c | 0 <= c < 3
      ensures FlagsOf(v'.tsr, c) == m'.slots[c].flags && BoxMatches(v'.boxes[c], m'.slots[c])
    {
      if SendAccepted(v, b) {
        SentFlags(v, image, b, c);
      }
    }
  }

  // ---------- the TX interrupt ----------

  lemma LowestDoneIsPending(v: TxView, m: Machine)
    requires Matches(v, m) && LowestDone(v.tsr) < 3
    ensures LowestPending(m, LowestDone(v.tsr))
  {
  }

  lemma AfterTxIrqFlags(v: TxView, m: Machine, c: nat)
    requires Inv(m) && Matches(v, m) && LowestDone(v.tsr) < 3 && c < 3
    ensures FlagsOf(AfterTxIrq(v.tsr), c) == Handled(m.slots[c], c == LowestDone(v.tsr)).flags
  {
  }

  /** A whole TX interrupt on the registers is the machine's handler run to its end: it reports the
      lowest mailbox done, with its TXOK, and clears the status of every mailbox that was done. */
  lemma TxIrqRefines(v: TxView, m: Machine)
    requires Inv(m) && m.isr.NoIsr? && Matches(v, m) && LowestDone(v.tsr) < 3
    ensures Matches(v.(tsr := AfterTxIrq(v.tsr)), Handle(m, LowestDone(v.tsr) + 5))
    ensures var b := LowestDone(v.tsr);
            Handle(m, b + 5).slots[b].reports
            == m.slots[b].reports + [Report(|m.slots[b].outcomes| - 1, FlagsOf(v.tsr, b).txok, FromTx)]
  {
    hide FlagsOf, HasRequest, TirOf, AfterTxIrq, LowestDone;
    var b := LowestDone(v.tsr);
    LowestDoneIsPending(v, m);
    HandlerReportsOneWipesRest(m, b);
    HandleKeepsHal(m, b + 5);
    var m' := Handle(m, b + 5);
    forall c | 0 <= c < 3
      ensures FlagsOf(AfterTxIrq(v.tsr), c) == m'.slots[c].flags && BoxMatches(v.boxes[c], m'.slots[c])
    {
      AfterTxIrqFlags(v, m, c);
      assert m'.slots[c] == Handled(m.slots[c], c == b);
    }
    assert SlotInv(m.slots[b], m.isr, b);
  }

  lemma {:induction false} HandleKeepsHal(m: Machine, n: nat)
    requires Inv(m) && !m.isr.Cleared?
    ensures Handle(m, n).hal == m.hal
    decreases n
  {
    if n > 0 {
      StepKeepsInv(m, TxHandler);
      HandleKeepsHal(Apply(m, TxHandler), n - 1);
    }
  }

  // ---------- the SCE interrupt ----------

  /** The flags of a mailbox after HAL_CAN_IRQHandler. */
  function HalCleared(f: Flags, on: bool): Flags {
    if on && f.rqcp then Flags(f.tme, false, false, false, false) else f
  }

  /** A whole SCE interrupt is two machine steps; the framework is told of a failure in mailbox 0 exactly
      when ESR names an acknowledge error and the machine's test of TSR says so. */
  lemma SceRefines(v: TxView, m: Machine, tsr: bv32, on: bool, esr: bv32)
    requires Inv(m) && m.isr.NoIsr? && Matches(v, m)
    requires forall c | 0 <= c < 3 :: FlagsOf(tsr, c) == HalCleared(FlagsOf(v.tsr, c), on)
    ensures var ackError := AckErrorIn(esr);
            var told := ackError && AckMaskClear(tsr);
            var n := Apply(Apply(m, SceHandler(on, ackError)), SceHandler(on, ackError));
            && n.isr.NoIsr?
            && Matches(v.(tsr := tsr), n)
            && (n.slots[0].completed <==> m.slots[0].completed || told)
            && n.slots[0].reports == m.slots[0].reports
                 + (if told then [Report(|m.slots[0].accepted| - 1, false, FromSce)] else [])
  {
    hide FlagsOf, HasRequest, TirOf, AckErrorReport, StoreSlot, TxHandlerStep, SlotInv, AckErrorIn, AckMaskClear;
    AckErrorOnlyReportsMailbox0(tsr);
    AckErrorMask(tsr);
    var m1 := Apply(m, SceHandler(on, AckErrorIn(esr)));
    forall c | 0 <= c < 3 ensures FlagsOf(tsr, c) == m1.slots[c].flags {
      assert m1.slots[c] == HalClearSlot(m.slots[c], on);
    }
  }
}
