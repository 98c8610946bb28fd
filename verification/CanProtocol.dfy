/** The CAN transmit path as a state machine over its atomic steps.

    Four parties share the three mailboxes: one sending thread per mailbox (the framework hands a
    mailbox to one sender at a time), the bxCAN hardware, the TX interrupt handler and the SCE
    interrupt handler.  Every register access of `_can_sendmsg` and of the TX handler is a step of
    its own, so hardware steps fall between any two of them.  Threads do not run inside a handler,
    and the two handlers have equal priority. */
module CanProtocol {
  import opened CanFrame

  datatype HalState = Reset | Ready | Listening | SleepPending | SleepActive | Error {
    predicate Usable() { Ready? || Listening? }
  }

  /** The status bits that CAN_TSR keeps for one mailbox. */
  datatype Flags = Flags(tme: bool, rqcp: bool, txok: bool, alst: bool, terr: bool)

  /** How the hardware ends a transmission attempt. */
  datatype Outcome = TxOk | ArbitrationLost | TransmitError

  /** Where a mailbox's sender stands.  `Entered` has read `hcan->State`, `Writing` has found the
      mailbox empty and is about to make register write number `next`, `Waiting` waits for the
      completion. */
  datatype Sender =
    | Idle
    | Entered(image: Image, state: HalState)
    | Writing(image: Image, next: nat)
    | Waiting

  /** Which handler a report comes from. */
  datatype Source = FromTx | FromSce

  /** A DONE or FAIL report, with the (ghost) number of the send it is taken to answer: the last one
      accepted on its mailbox, -1 when there was none. */
  datatype Report = Report(number: int, done: bool, source: Source)

  /** The `result` field that a report sets and the sender reads when it wakes. */
  datatype SendResult = ResultWait | ResultOk | ResultErr

  /** One mailbox, its sender, its `rt_completion` flag and result, and the history of both: the messages
      accepted, how each transmission ended, every report to the framework, what the sender told its
      caller after each wait, and the numbers of the transmissions whose completion was wiped before
      the TX handler reported it. */
  datatype Slot = Slot(
    txrq: bool,
    regs: Image,
    flags: Flags,
    sender: Sender,
    completed: bool,
    result: SendResult,
    accepted: seq<Image>,
    outcomes: seq<bool>,
    reports: seq<Report>,
    returned: seq<bool>,
    wiped: set<int>)

  /** Where the interrupt handlers stand.  `Polling(k)` is about to test RQCPk, `Seen(b)` has found
      RQCPb, `Reported(b)` is about to read TSR for the read-modify-write, `Loaded(b, v)` is about
      to write back `v` with RQCPb set.  `Cleared` is the SCE handler after HAL_CAN_IRQHandler. */
  datatype Isr =
    | NoIsr
    | Polling(k: nat)
    | Seen(b: nat)
    | Reported(b: nat)
    | Loaded(b: nat, v: seq<Flags>)
    | Cleared(ackError: bool)

  datatype Machine = Machine(slots: seq<Slot>, isr: Isr, hal: HalState)

  datatype Step =
    | Enter(b: nat, image: Image)
    | Check(b: nat)
    | Store(b: nat)
    | Wake(b: nat)
    | Complete(b: nat, outcome: Outcome)
    | TxHandler
    | SceHandler(mailboxIrqOn: bool, ackError: bool)
    | Configure(initAck: bool, startAck: bool)

  // ---------- hardware rules, per mailbox (section 32.9.2 of RM0090) ----------

  /** Effect of writing `w` to the rc_w1 bits of a mailbox: RQCP takes the whole group with it. */
  function WriteOneToClear(f: Flags, w: Flags): Flags {
    if w.rqcp then Flags(f.tme, false, false, false, false)
    else Flags(f.tme, f.rqcp, f.txok && !w.txok, f.alst && !w.alst, f.terr && !w.terr)
  }

  /** Register write number `k` of `_can_sendmsg`, up to the request.  The identifier word is kept
      apart from the request bit that shares TIR with it. */
  function WriteWord(regs: Image, image: Image, k: nat): Image {
    match k
    case 0 => regs.(id := 0)
    case 1 => regs.(id := regs.id | image.id)
    case 2 => regs.(dlc := image.dlc)
    case 3 => regs.(high := image.high)
    case 4 => regs.(low := image.low)
    case _ => regs
  }

  /** A mailbox that is not empty ignores register writes. */
  function StoreRegister(s: Slot, image: Image, k: nat): Slot {
    if !s.flags.tme then s
    else if k < 5 then s.(regs := WriteWord(s.regs, image, k))
    else RequestTransmission(s, image)
  }

  /** Setting TXRQ empties the status group and takes TME away; a completion still pending there
      is wiped. */
  function RequestTransmission(s: Slot, image: Image): Slot {
    s.(txrq := true,
       flags := Flags(false, false, false, false, false),
       accepted := s.accepted + [image],
       wiped := if s.flags.rqcp then WithLast(s) else s.wiped)
  }

  /** The wiped transmissions, with the last one that ended. */
  function WithLast(s: Slot): set<int> { s.wiped + {|s.outcomes| - 1} }

  function Finish(s: Slot, o: Outcome): Slot {
    s.(txrq := false,
       flags := Flags(true, true, o.TxOk?, o.ArbitrationLost?, o.TransmitError?),
       outcomes := s.outcomes + [o.TxOk?])
  }

  // ---------- the steps ----------

  ghost predicate Shape(m: Machine) {
    |m.slots| == 3
  }

  ghost predicate Enabled(m: Machine, e: Step)
    requires Shape(m)
  {
    match e
    case Enter(b, image) => m.isr.NoIsr? && b < 3 && m.slots[b].sender.Idle?
    case Check(b) => m.isr.NoIsr? && b < 3 && m.slots[b].sender.Entered?
    case Store(b) => m.isr.NoIsr? && b < 3 && m.slots[b].sender.Writing?
    case Wake(b) => m.isr.NoIsr? && b < 3 && m.slots[b].sender.Waiting? && m.slots[b].completed
    case Complete(b, _) => b < 3 && !m.slots[b].flags.tme
    case TxHandler => !m.isr.Cleared? && (m.isr.Polling? ==> m.isr.k < 3)
                      && (m.isr.Seen? || m.isr.Reported? ==> m.isr.b < 3)
                      && (m.isr.Loaded? ==> m.isr.b < 3 && |m.isr.v| == 3)
    case SceHandler(_, _) => m.isr.NoIsr? || m.isr.Cleared?
    case Configure(_, _) => m.isr.NoIsr?
  }

  function CheckSlot(s: Slot): Slot
    requires s.sender.Entered?
  {
    if s.sender.state.Usable() && s.flags.tme then s.(sender := Writing(s.sender.image, 0))
    else s.(sender := Idle)
  }

  function StoreSlot(s: Slot): Slot
    requires s.sender.Writing?
  {
    var t := StoreRegister(s, s.sender.image, s.sender.next);
    t.(sender := if s.sender.next < 5 then Writing(s.sender.image, s.sender.next + 1) else Waiting)
  }

  /** The sender is woken, clears the completion and counts its message as sent or dropped. */
  function WakeSlot(s: Slot): Slot {
    s.(sender := Idle, completed := false, returned := s.returned + [s.result.ResultOk?])
  }

  /** `rt_hw_can_isr` with TX_DONE or TX_FAIL. */
  function ReportSlot(s: Slot): Slot {
    s.(completed := true,
       result := if s.flags.txok then ResultOk else ResultErr,
       reports := s.reports + [Report(|s.accepted| - 1, s.flags.txok, FromTx)])
  }

  /** `rt_hw_can_isr` with TX_FAIL, called for an acknowledge error. */
  function AckSlot(s: Slot): Slot {
    s.(completed := true,
       result := ResultErr,
       reports := s.reports + [Report(|s.accepted| - 1, false, FromSce)])
  }

  /** The write half of `SET_BIT(TSR, RQCPb)`, as mailbox `c` sees it. */
  function StoreBackSlot(s: Slot, own: bool, w: Flags): Slot {
    s.(flags := WriteOneToClear(s.flags, w.(rqcp := own || w.rqcp)),
       wiped := if !own && w.rqcp && s.flags.rqcp then WithLast(s) else s.wiped)
  }

  /** HAL_CAN_IRQHandler with the mailbox interrupt source on: it clears a pending RQCP and calls
      the HAL's own empty callback. */
  function HalClearSlot(s: Slot, on: bool): Slot {
    if on && s.flags.rqcp
    then s.(flags := Flags(s.flags.tme, false, false, false, false), wiped := WithLast(s))
    else s
  }

  function TxHandlerStep(m: Machine): Machine
    requires Shape(m) && Enabled(m, TxHandler)
  {
    match m.isr
    case NoIsr => m.(isr := Polling(0))
    case Polling(k) =>
      if m.slots[k].flags.rqcp then m.(isr := Seen(k))
      else if k == 2 then m.(isr := NoIsr)
      else m.(isr := Polling(k + 1))
    case Seen(b) => m.(slots := m.slots[b := ReportSlot(m.slots[b])], isr := Reported(b))
    case Reported(b) => m.(isr := Loaded(b, seq(3, c requires 0 <= c < 3 => m.slots[c].flags)))
    case Loaded(b, v) =>
      m.(slots := seq(3, c requires 0 <= c < 3 => StoreBackSlot(m.slots[c], c == b, v[c])), isr := NoIsr)
    case Cleared(_) => m
  }

  /** The acknowledge-error test reads TSR with the masks 0x501, 0x509 and 0x511: only the first can
      be zero when it is reached, and it is zero when RQCP0, RQCP1 and ALST1 all are
      (see CanRegisters.AckErrorReport). */
  predicate AckReports(m: Machine)
    requires Shape(m)
  {
    !m.slots[0].flags.rqcp && !m.slots[1].flags.rqcp && !m.slots[1].flags.alst
  }

  /** The step at which an acknowledge error is reported as a failure of mailbox 0. */
  ghost predicate AckStep(m: Machine, e: Step)
    requires Shape(m)
  {
    e.SceHandler? && m.isr == Cleared(true) && AckReports(m)
  }

  function SceHandlerStep(m: Machine, mailboxIrqOn: bool, ackError: bool): Machine
    requires Shape(m)
  {
    match m.isr
    case Cleared(ack) =>
      var t := m.(isr := NoIsr);
      if ack && AckReports(m) then t.(slots := t.slots[0 := AckSlot(t.slots[0])]) else t
    case _ =>
      m.(slots := seq(3, c requires 0 <= c < 3 => HalClearSlot(m.slots[c], mailboxIrqOn)),
         isr := Cleared(ackError))
  }

  function Apply(m: Machine, e: Step): (m': Machine)
    requires Shape(m) && Enabled(m, e)
    ensures |m'.slots| == 3
  {
    match e
    case Enter(b, image) =>
      m.(slots := m.slots[b := m.slots[b].(sender := Entered(image, m.hal), result := ResultWait)])
    case Check(b) =>
      var s := m.slots[b];
      m.(slots := m.slots[b := CheckSlot(s)],
         hal := if s.sender.state.Usable() && !s.flags.tme then Error else m.hal)
    case Store(b) => m.(slots := m.slots[b := StoreSlot(m.slots[b])])
    case Wake(b) => m.(slots := m.slots[b := WakeSlot(m.slots[b])])
    case Complete(b, o) => m.(slots := m.slots[b := Finish(m.slots[b], o)])
    case TxHandler => TxHandlerStep(m)
    case SceHandler(on, ack) => SceHandlerStep(m, on, ack)
    case Configure(initAck, startAck) =>
      m.(hal := if initAck && startAck then Listening else Error)
  }

  // ---------- runs ----------

  ghost predicate IsRun(m: Machine, es: seq<Step>)
    requires Shape(m)
    decreases |es|
  {
    es == [] || (Enabled(m, es[0]) && IsRun(Apply(m, es[0]), es[1..]))
  }

  ghost function Exec(m: Machine, es: seq<Step>): (r: Machine)
    requires Shape(m) && IsRun(m, es)
    ensures Shape(r)
    decreases |es|
  {
    if es == [] then m else Exec(Apply(m, es[0]), es[1..])
  }

  /** After reset: nothing requested, nothing sent. */
  ghost predicate Initial(m: Machine) {
    && Shape(m)
    && m.isr.NoIsr?
    && forall b | 0 <= b < 3 :: FreshSlot(m.slots[b])
  }

  ghost predicate FreshSlot(s: Slot) {
    && !s.txrq
    && s.flags == Flags(true, false, false, false, false)
    && s.sender.Idle?
    && !s.completed
    && s.accepted == [] && s.outcomes == [] && s.reports == [] && s.returned == [] && s.wiped == {}
  }

  // ---------- the invariant of every run ----------

  /** The handler has reported mailbox `b` and not yet cleared its RQCP. */
  predicate Answering(isr: Isr, b: nat) {
    (isr.Reported? || isr.Loaded?) && isr.b == b
  }

  /** A completion that nobody has reported yet. */
  predicate Pending(s: Slot, isr: Isr, b: nat) {
    s.flags.rqcp && !Answering(isr, b)
  }

  /** The registers already written by a sender that has made `k` of its writes. */
  ghost predicate WrittenSoFar(r: Image, image: Image, k: nat) {
    && (k == 1 ==> r.id == 0)
    && (k >= 2 ==> r.id == image.id)
    && (k >= 3 ==> r.dlc == image.dlc)
    && (k >= 4 ==> r.high == image.high)
    && (k >= 5 ==> r.low == image.low)
  }

  ghost predicate RegistersInv(s: Slot) {
    && (s.flags.tme <==> !s.txrq)
    && (s.flags.rqcp ==> s.flags.tme)
    && (!s.flags.rqcp ==> !s.flags.txok && !s.flags.alst && !s.flags.terr)
    && (s.txrq ==> |s.accepted| > 0 && s.regs == s.accepted[|s.accepted| - 1])
    && (s.sender.Writing? ==> !s.txrq && s.sender.next <= 5
                              && WrittenSoFar(s.regs, s.sender.image, s.sender.next))
  }

  /** The transmissions that the TX handler has reported. */
  ghost function TxNumbers(reports: seq<Report>): set<int> {
    set i | 0 <= i < |reports| && reports[i].source.FromTx? :: reports[i].number
  }

  /** Of the transmissions 0 to k - 1 each is either reported by the TX handler or wiped. */
  ghost predicate Accounts(reports: seq<Report>, wiped: set<int>, k: int) {
    && (forall n :: n in TxNumbers(reports) || n in wiped <==> 0 <= n < k)
    && TxNumbers(reports) !! wiped
  }

  /** How many completions are no longer pending. */
  function Settled(s: Slot, isr: Isr, b: nat): int {
    |s.outcomes| - (if Pending(s, isr, b) then 1 else 0)
  }

  ghost predicate HistoryInv(s: Slot, isr: Isr, b: nat) {
    && |s.accepted| == |s.outcomes| + (if s.flags.tme then 0 else 1)
    && (s.flags.rqcp ==> |s.outcomes| > 0 && s.flags.txok == s.outcomes[|s.outcomes| - 1])
    && Accounts(s.reports, s.wiped, Settled(s, isr, b))
    && TxReportsTrue(s)
    && OnlyMailboxZeroGuesses(s, b)
  }

  /** Every report of the TX handler tells the outcome of one transmission, and it tells none twice. */
  ghost predicate TxReportsTrue(s: Slot) {
    && (forall i | 0 <= i < |s.reports| && s.reports[i].source.FromTx? ::
          0 <= s.reports[i].number < |s.outcomes| && s.reports[i].done == s.outcomes[s.reports[i].number])
    && (forall i, j | 0 <= i < j < |s.reports| && s.reports[i].source.FromTx? && s.reports[j].source.FromTx? ::
          s.reports[i].number < s.reports[j].number)
  }

  /** The SCE handler reports failures only, and of mailbox 0 only. */
  ghost predicate OnlyMailboxZeroGuesses(s: Slot, b: nat) {
    forall i | 0 <= i < |s.reports| && s.reports[i].source.FromSce? :: b == 0 && !s.reports[i].done
  }

  /** What the handler remembers of a mailbox is still true. */
  ghost predicate IsrInv(s: Slot, isr: Isr, b: nat) {
    && (isr.Seen? && isr.b == b ==> s.flags.rqcp)
    && (Answering(isr, b) ==> s.flags.rqcp)
    && (isr.Loaded? ==> |isr.v| == 3 && (b < 3 ==> LoadedTrue(isr.v[b], s.flags)))
  }

  ghost predicate LoadedTrue(v: Flags, f: Flags) {
    && (v.rqcp ==> f.rqcp)
    && (v.txok || v.alst || v.terr ==> v.rqcp)
  }

  ghost predicate SlotInv(s: Slot, isr: Isr, b: nat) {
    RegistersInv(s) && HistoryInv(s, isr, b) && IsrInv(s, isr, b)
  }

  ghost predicate IsrShape(isr: Isr) {
    && (isr.Polling? ==> isr.k < 3)
    && (isr.Seen? || isr.Reported? || isr.Loaded? ==> isr.b < 3)
    && (isr.Loaded? ==> |isr.v| == 3 && LoadedOwn(isr.v[isr.b]))
  }

  ghost predicate LoadedOwn(f: Flags) { f.rqcp }

  ghost predicate Inv(m: Machine) {
    && Shape(m)
    && IsrShape(m.isr)
    && forall b | 0 <= b < 3 :: SlotInv(m.slots[b], m.isr, b)
  }

  // ---------- each step keeps the invariant, mailbox by mailbox ----------

  lemma TxNumbersGrow(reports: seq<Report>, r: Report)
    ensures TxNumbers(reports + [r]) == TxNumbers(reports) + (if r.source.FromTx? then {r.number} else {})
  {
    var all := reports + [r];
    assert all[|reports|] == r;
    assert forall i | 0 <= i < |reports| :: all[i] == reports[i];
  }

  lemma AccountReport(reports: seq<Report>, wiped: set<int>, k: nat, r: Report)
    requires Accounts(reports, wiped, k) && r.source.FromTx? && r.number == k
    ensures Accounts(reports + [r], wiped, k + 1)
  {
    TxNumbersGrow(reports, r);
  }

  lemma AccountGuess(reports: seq<Report>, wiped: set<int>, k: int, r: Report)
    requires Accounts(reports, wiped, k) && r.source.FromSce?
    ensures Accounts(reports + [r], wiped, k)
  {
    TxNumbersGrow(reports, r);
  }

  lemma AccountWiped(reports: seq<Report>, wiped: set<int>, k: nat)
    requires Accounts(reports, wiped, k)
    ensures Accounts(reports, wiped + {k}, k + 1)
  {
  }

  lemma AccountBounds(reports: seq<Report>, wiped: set<int>, k: int, i: nat)
    requires Accounts(reports, wiped, k) && i < |reports| && reports[i].source.FromTx?
    ensures 0 <= reports[i].number < k
  {
    assert reports[i].number in TxNumbers(reports);
  }

  lemma StoreKeepsRegisters(s: Slot)
    requires RegistersInv(s) && s.sender.Writing?
    ensures RegistersInv(StoreSlot(s))
  {
  }

  lemma StoreKeepsHistory(s: Slot, b: nat)
    requires SlotInv(s, NoIsr, b) && s.sender.Writing?
    ensures HistoryInv(StoreSlot(s), NoIsr, b)
  {
    hide Accounts;
    if s.flags.rqcp {
      AccountWiped(s.reports, s.wiped, |s.outcomes| - 1);
    }
  }

  lemma FinishKeeps(s: Slot, isr: Isr, b: nat, o: Outcome)
    requires SlotInv(s, isr, b) && !s.flags.tme
    ensures SlotInv(Finish(s, o), isr, b)
  {
    hide Accounts;
  }

  lemma ReportKeeps(s: Slot, b: nat)
    requires SlotInv(s, Seen(b), b)
    ensures SlotInv(ReportSlot(s), Reported(b), b)
  {
    hide Accounts;
    var r := Report(|s.accepted| - 1, s.flags.txok, FromTx);
    AccountReport(s.reports, s.wiped, |s.outcomes| - 1, r);
    forall i | 0 <= i < |s.reports| && s.reports[i].source.FromTx?
      ensures s.reports[i].number < |s.outcomes| - 1
    {
      AccountBounds(s.reports, s.wiped, |s.outcomes| - 1, i);
    }
  }

  lemma GuessKeeps(s: Slot)
    requires SlotInv(s, Cleared(true), 0)
    ensures SlotInv(AckSlot(s), NoIsr, 0)
  {
    hide Accounts;
    AccountGuess(s.reports, s.wiped, Settled(s, NoIsr, 0), Report(|s.accepted| - 1, false, FromSce));
  }

  lemma StoreBackKeeps(s: Slot, isr: Isr, b: nat)
    requires SlotInv(s, isr, b) && IsrShape(isr) && isr.Loaded? && b < 3
    ensures SlotInv(StoreBackSlot(s, b == isr.b, isr.v[b]), NoIsr, b)
  {
    hide Accounts;
    if b != isr.b && s.flags.rqcp {
      AccountWiped(s.reports, s.wiped, |s.outcomes| - 1);
    }
  }

  lemma HalClearKeeps(s: Slot, b: nat, on: bool, ack: bool)
    requires SlotInv(s, NoIsr, b)
    ensures SlotInv(HalClearSlot(s, on), Cleared(ack), b)
  {
    hide Accounts;
    if s.flags.rqcp {
      AccountWiped(s.reports, s.wiped, |s.outcomes| - 1);
    }
  }

  /** A mailbox nobody touches is indifferent to a handler moving on, as long as what the handler
      remembers stays true of it. */
  lemma HandlerMoves(s: Slot, isr: Isr, isr': Isr, b: nat)
    requires SlotInv(s, isr, b) && IsrInv(s, isr', b)
    requires Answering(isr, b) <==> Answering(isr', b)
    ensures SlotInv(s, isr', b)
  {
    hide Accounts;
  }

  lemma StoreKeepsSlot(m: Machine, b: nat, c: nat)
    requires Inv(m) && Enabled(m, Store(b)) && c < 3
    ensures SlotInv(Apply(m, Store(b)).slots[c], NoIsr, c)
  {
    hide StoreSlot, TxHandlerStep, SceHandlerStep, Finish, CheckSlot, Accounts;
    assert SlotInv(m.slots[c], NoIsr, c);
    if b == c {
      StoreKeepsRegisters(m.slots[c]);
      StoreKeepsHistory(m.slots[c], c);
    }
  }

  lemma EnterKeepsSlot(m: Machine, b: nat, image: Image, c: nat)
    requires Inv(m) && Enabled(m, Enter(b, image)) && c < 3
    ensures SlotInv(Apply(m, Enter(b, image)).slots[c], NoIsr, c)
  {
    hide Accounts;
    assert SlotInv(m.slots[c], NoIsr, c);
  }

  lemma CheckSlotKeeps(s: Slot, b: nat)
    requires SlotInv(s, NoIsr, b) && s.sender.Entered?
    ensures SlotInv(CheckSlot(s), NoIsr, b)
  {
    hide Accounts;
  }

  lemma CheckKeepsSlot(m: Machine, b: nat, c: nat)
    requires Inv(m) && Enabled(m, Check(b)) && c < 3
    ensures SlotInv(Apply(m, Check(b)).slots[c], NoIsr, c)
  {
    hide SlotInv, CheckSlot, StoreSlot, TxHandlerStep, SceHandlerStep, Finish;
    assert SlotInv(m.slots[c], NoIsr, c);
    if b == c {
      CheckSlotKeeps(m.slots[c], c);
    }
  }

  lemma WakeKeepsSlot(m: Machine, b: nat, c: nat)
    requires Inv(m) && Enabled(m, Wake(b)) && c < 3
    ensures SlotInv(Apply(m, Wake(b)).slots[c], NoIsr, c)
  {
    hide Accounts;
    assert SlotInv(m.slots[c], NoIsr, c);
  }

  lemma TxHandlerKeepsSlot(m: Machine, c: nat)
    requires Inv(m) && Enabled(m, TxHandler) && c < 3
    ensures SlotInv(Apply(m, TxHandler).slots[c], Apply(m, TxHandler).isr, c)
  {
    hide Accounts;
    var s := m.slots[c];
    var isr' := Apply(m, TxHandler).isr;
    assert SlotInv(s, m.isr, c);
    match m.isr
    case Seen(b) => if b == c { ReportKeeps(s, c); } else { HandlerMoves(s, m.isr, isr', c); }
    case Loaded(b, v) => StoreBackKeeps(s, m.isr, c);
    case _ => HandlerMoves(s, m.isr, isr', c);
  }

  lemma SceHandlerKeepsSlot(m: Machine, on: bool, ack: bool, c: nat)
    requires Inv(m) && Enabled(m, SceHandler(on, ack)) && c < 3
    ensures SlotInv(SceHandlerStep(m, on, ack).slots[c], SceHandlerStep(m, on, ack).isr, c)
  {
    hide Accounts, TxReportsTrue, OnlyMailboxZeroGuesses;
    assert SlotInv(m.slots[c], m.isr, c);
    if m.isr.NoIsr? {
      HalClearKeeps(m.slots[c], c, on, ack);
    } else if c == 0 && m.isr.ackError && AckReports(m) {
      GuessKeeps(m.slots[c]);
    } else {
      HandlerMoves(m.slots[c], m.isr, NoIsr, c);
    }
  }

  /** One step of any party keeps the invariant. */
  lemma StepKeepsInv(m: Machine, e: Step)
    requires Inv(m) && Enabled(m, e)
    ensures Inv(Apply(m, e))
  {
    hide Accounts;
    var m' := Apply(m, e);
    forall c | 0 <= c < 3 ensures SlotInv(m'.slots[c], m'.isr, c) {
      match e
      case Complete(b, o) =>
        assert SlotInv(m.slots[c], m.isr, c);
        if b == c { FinishKeeps(m.slots[c], m.isr, c, o); }
      case TxHandler => TxHandlerKeepsSlot(m, c);
      case SceHandler(on, ack) => SceHandlerKeepsSlot(m, on, ack, c);
      case Store(b) => StoreKeepsSlot(m, b, c);
      case Enter(b, image) => EnterKeepsSlot(m, b, image, c);
      case Check(b) => CheckKeepsSlot(m, b, c);
      case Wake(b) => WakeKeepsSlot(m, b, c);
      case Configure(_, _) => assert SlotInv(m.slots[c], m.isr, c);
    }
    StepKeepsShape(m, e);
  }

  lemma StepKeepsShape(m: Machine, e: Step)
    requires Inv(m) && Enabled(m, e)
    ensures IsrShape(Apply(m, e).isr)
  {
  }
}
