/** What holds over every run of the CAN transmit machine. */
module CanRuns {
  import opened CanFrame
  import opened CanProtocol

  /** Every state reachable from reset satisfies the invariant. */
  lemma {:induction false} RunKeepsInv(m: Machine, es: seq<Step>)
    requires Inv(m) && IsRun(m, es)
    ensures Inv(Exec(m, es))
    decreases |es|
  {
    if es != [] {
      StepKeepsInv(m, es[0]);
      RunKeepsInv(Apply(m, es[0]), es[1..]);
    }
  }

  lemma InitialInv(m: Machine)
    requires Initial(m)
    ensures Inv(m)
  {
  }

  // ---------- frames are sent whole, and stay as sent ----------

  /** A register write of `_can_sendmsg` always meets an empty mailbox, and the one that raises TXRQ
      finds all four registers holding exactly the message that is thereby accepted. */
  lemma SendIsWhole(m: Machine, es: seq<Step>, b: nat)
    requires Initial(m) && IsRun(m, es)
    requires Enabled(Exec(m, es), Store(b))
    ensures var s := Exec(m, es).slots[b];
            var s' := Apply(Exec(m, es), Store(b)).slots[b];
            && s.flags.tme && !s.txrq
            && (s'.txrq <==> s.sender.next == 5)
            && (s'.txrq ==> s'.regs == s.sender.image && s'.accepted == s.accepted + [s.sender.image])
            && (!s'.txrq ==> s'.accepted == s.accepted)
  {
    InitialInv(m);
    RunKeepsInv(m, es);
    var n := Exec(m, es);
    assert SlotInv(n.slots[b], n.isr, b);
    StepKeepsInv(n, Store(b));
    assert SlotInv(Apply(n, Store(b)).slots[b], n.isr, b);
  }

  ghost predicate NoCompletionOf(es: seq<Step>, b: nat) {
    forall i | 0 <= i < |es| :: !(es[i].Complete? && es[i].b == b)
  }

  lemma StepLeavesInFlight(m: Machine, e: Step, b: nat)
    requires Inv(m) && Enabled(m, e) && b < 3 && m.slots[b].txrq
    requires !(e.Complete? && e.b == b)
    ensures Apply(m, e).slots[b].txrq
    ensures Apply(m, e).slots[b].regs == m.slots[b].regs
    ensures Apply(m, e).slots[b].accepted == m.slots[b].accepted
  {
  }

  /** From the request until the hardware completes it, no step of any party alters the mailbox, and
      it holds the message that was accepted last. */
  lemma {:induction false} InFlightIsFrozen(m: Machine, es: seq<Step>, b: nat)
    requires Inv(m) && IsRun(m, es) && b < 3 && m.slots[b].txrq && NoCompletionOf(es, b)
    ensures var s := Exec(m, es).slots[b];
            && s.txrq && s.regs == m.slots[b].regs && s.accepted == m.slots[b].accepted
            && |s.accepted| > 0 && s.regs == s.accepted[|s.accepted| - 1]
    decreases |es|
  {
    if es == [] {
      assert SlotInv(m.slots[b], m.isr, b);
    } else {
      assert !(es[0].Complete? && es[0].b == b);
      StepLeavesInFlight(m, es[0], b);
      StepKeepsInv(m, es[0]);
      InFlightIsFrozen(Apply(m, es[0]), es[1..], b);
    }
  }

  // ---------- conservation ----------

  /** Which of the transmissions that ended still waits for its report: the last one, or none. */
  predicate IsPending(s: Slot, isr: Isr, b: nat, n: int) {
    Pending(s, isr, b) && n == |s.outcomes| - 1
  }

  /** In every reachable state, whatever the interrupts: accepted sends are the transmissions that ended
      plus the one in flight, and each that ended is exactly one of reported by the TX handler,
      pending, and wiped; the TX handler's reports are true, and none is given twice. */
  lemma Conservation(m: Machine, es: seq<Step>, b: nat)
    requires Initial(m) && IsRun(m, es) && b < 3
    ensures var n := Exec(m, es);
            var s := n.slots[b];
            && |s.accepted| == |s.outcomes| + (if s.txrq then 1 else 0)
            && (forall k | 0 <= k < |s.outcomes| ::
                  k in TxNumbers(s.reports) || k in s.wiped || IsPending(s, n.isr, b, k))
            && (forall k | IsPending(s, n.isr, b, k) :: k !in TxNumbers(s.reports) && k !in s.wiped)
            && TxNumbers(s.reports) !! s.wiped
            && |s.outcomes| == |TxNumbers(s.reports)| + (if Pending(s, n.isr, b) then 1 else 0) + |s.wiped|
            && TxReportsTrue(s)
  {
    InitialInv(m);
    RunKeepsInv(m, es);
    var n := Exec(m, es);
    var s := n.slots[b];
    assert SlotInv(s, n.isr, b);
    AccountsCount(s.reports, s.wiped, Settled(s, n.isr, b));
  }

  lemma {:induction false} CountRange(ns: set<int>, k: nat)
    requires forall n :: n in ns <==> 0 <= n < k
    ensures |ns| == k
    decreases k
  {
    if k == 0 {
      assert forall n | n in ns :: false;
    } else {
      CountRange(ns - {k - 1}, k - 1);
    }
  }

  lemma AccountsCount(reports: seq<Report>, wiped: set<int>, k: nat)
    requires Accounts(reports, wiped, k)
    ensures |TxNumbers(reports)| + |wiped| == k
  {
    CountRange(TxNumbers(reports) + wiped, k);
  }

  // ---------- the reports of the SCE handler ----------

  /** No acknowledge error is reported along the run. */
  ghost predicate NoAck(m: Machine, es: seq<Step>)
    requires Shape(m) && IsRun(m, es)
    decreases |es|
  {
    es == [] || (!AckStep(m, es[0]) && NoAck(Apply(m, es[0]), es[1..]))
  }

  ghost predicate AllFromTx(reports: seq<Report>) {
    forall i | 0 <= i < |reports| :: reports[i].source.FromTx?
  }

  lemma StepKeepsAllFromTx(m: Machine, e: Step, b: nat)
    requires Shape(m) && Enabled(m, e) && b < 3 && AllFromTx(m.slots[b].reports)
    requires b == 0 ==> !AckStep(m, e)
    ensures AllFromTx(Apply(m, e).slots[b].reports)
  {
    hide WriteWord;
  }

  lemma {:induction false} RunKeepsAllFromTx(m: Machine, es: seq<Step>, b: nat)
    requires Shape(m) && IsRun(m, es) && b < 3 && AllFromTx(m.slots[b].reports)
    requires b == 0 ==> NoAck(m, es)
    ensures AllFromTx(Exec(m, es).slots[b].reports)
    decreases |es|
  {
    if es != [] {
      StepKeepsAllFromTx(m, es[0], b);
      RunKeepsAllFromTx(Apply(m, es[0]), es[1..], b);
    }
  }

  predicate Tells(r: Report, outcomes: seq<bool>) {
    0 <= r.number < |outcomes| && r.done == outcomes[r.number]
  }

  lemma {:induction false} ReportsCount(reports: seq<Report>)
    requires AllFromTx(reports)
    requires forall i, j | 0 <= i < j < |reports| :: reports[i].number < reports[j].number
    ensures |TxNumbers(reports)| == |reports|
    decreases |reports|
  {
    if reports != [] {
      var front := reports[..|reports| - 1];
      var last := reports[|reports| - 1];
      ReportsCount(front);
      TxNumbersGrow(front, last);
      assert front + [last] == reports;
    }
  }

  /** What the framework is told.  For mailboxes 1 and 2 in every run, and for mailbox 0 while no
      acknowledge error is reported: every report, of whichever handler, is true, no transmission
      is told twice, and completions are reports plus the pending one plus the wiped ones. */
  lemma EveryReportIsTrue(m: Machine, es: seq<Step>, b: nat)
    requires Initial(m) && IsRun(m, es) && b < 3
    requires b == 0 ==> NoAck(m, es)
    ensures var n := Exec(m, es);
            var s := n.slots[b];
            && (forall i | 0 <= i < |s.reports| :: Tells(s.reports[i], s.outcomes))
            && (forall i, j | 0 <= i < j < |s.reports| :: s.reports[i].number < s.reports[j].number)
            && |s.outcomes| == |s.reports| + (if Pending(s, n.isr, b) then 1 else 0) + |s.wiped|
  {
    assert FreshSlot(m.slots[b]);
    RunKeepsAllFromTx(m, es, b);
    Conservation(m, es, b);
    ReportsCount(Exec(m, es).slots[b].reports);
  }

  ghost predicate Told(reports: seq<Report>, n: int) {
    exists i :: 0 <= i < |reports| && reports[i].number == n
  }

  lemma ToldGrows(reports: seq<Report>, r: Report, n: int)
    ensures Told(reports + [r], n) <==> Told(reports, n) || r.number == n
  {
    var all := reports + [r];
    assert all[|reports|] == r;
    assert forall i | 0 <= i < |reports| :: all[i] == reports[i];
  }

  // ---------- what wipes a completion ----------

  /** The steps that wipe a pending completion of mailbox `c`: a new request there, the TX handler
      writing back a TSR in which RQCPc was set beside its own, and HAL_CAN_IRQHandler. */
  ghost predicate Wipes(m: Machine, e: Step, c: nat)
    requires Shape(m) && Enabled(m, e) && c < 3
  {
    Overwrites(m, e, c) || WritesBackOver(m, e, c) || HalWipes(m, e, c)
  }

  ghost predicate Overwrites(m: Machine, e: Step, c: nat)
    requires Shape(m) && Enabled(m, e) && c < 3
  {
    e.Store? && e.b == c && m.slots[c].sender.next >= 5 && m.slots[c].flags.tme && m.slots[c].flags.rqcp
  }

  ghost predicate WritesBackOver(m: Machine, e: Step, c: nat)
    requires Shape(m) && Enabled(m, e) && c < 3
  {
    e.TxHandler? && m.isr.Loaded? && m.isr.b != c && m.isr.v[c].rqcp
  }

  ghost predicate HalWipes(m: Machine, e: Step, c: nat)
    requires Shape(m) && c < 3
  {
    e.SceHandler? && !m.isr.Cleared? && e.mailboxIrqOn && m.slots[c].flags.rqcp
  }

  lemma TxHandlerWipes(m: Machine, c: nat)
    requires Inv(m) && Enabled(m, TxHandler) && c < 3
    ensures Apply(m, TxHandler).slots[c].wiped
            == if WritesBackOver(m, TxHandler, c) then WithLast(m.slots[c]) else m.slots[c].wiped
  {
    hide HistoryInv, RegistersInv;
    assert SlotInv(m.slots[c], m.isr, c);
  }

  lemma OtherStepWipes(m: Machine, e: Step, c: nat)
    requires Inv(m) && Enabled(m, e) && c < 3 && !e.TxHandler?
    ensures Apply(m, e).slots[c].wiped
            == if Overwrites(m, e, c) || HalWipes(m, e, c) then WithLast(m.slots[c]) else m.slots[c].wiped
  {
    hide WriteWord, SlotInv, TxHandlerStep;
  }

  lemma WipedIsNew(m: Machine, e: Step, c: nat)
    requires Inv(m) && Enabled(m, e) && c < 3 && Wipes(m, e, c)
    ensures |m.slots[c].outcomes| - 1 !in m.slots[c].wiped
  {
    hide Apply;
    assert SlotInv(m.slots[c], m.isr, c);
  }

  lemma StepWipes(m: Machine, e: Step, c: nat)
    requires Inv(m) && Enabled(m, e) && c < 3
    ensures Apply(m, e).slots[c].wiped == if Wipes(m, e, c) then WithLast(m.slots[c]) else m.slots[c].wiped
    ensures Wipes(m, e, c) ==> |m.slots[c].outcomes| - 1 !in m.slots[c].wiped
  {
    hide SlotInv, Apply, WithLast;
    if e.TxHandler? {
      TxHandlerWipes(m, c);
    } else {
      OtherStepWipes(m, e, c);
    }
    if Wipes(m, e, c) {
      WipedIsNew(m, e, c);
    }
  }

  ghost function WipesIn(m: Machine, es: seq<Step>, c: nat): nat
    requires Shape(m) && IsRun(m, es) && c < 3
    decreases |es|
  {
    if es == [] then 0
    else (if Wipes(m, es[0], c) then 1 else 0) + WipesIn(Apply(m, es[0]), es[1..], c)
  }

  lemma {:induction false} RunWipes(m: Machine, es: seq<Step>, c: nat)
    requires Inv(m) && IsRun(m, es) && c < 3
    ensures |Exec(m, es).slots[c].wiped| == |m.slots[c].wiped| + WipesIn(m, es, c)
    decreases |es|
  {
    hide Wipes, SlotInv;
    if es != [] {
      StepWipes(m, es[0], c);
      StepKeepsInv(m, es[0]);
      RunWipes(Apply(m, es[0]), es[1..], c);
    }
  }

  /** No step of the run wipes a completion of mailbox `c`: a condition on the state at each step. */
  ghost predicate NeverWipes(m: Machine, es: seq<Step>, c: nat)
    requires Shape(m) && IsRun(m, es) && c < 3
    decreases |es|
  {
    es == [] || (!Wipes(m, es[0], c) && NeverWipes(Apply(m, es[0]), es[1..], c))
  }

  lemma {:induction false} NeverWipesIffNone(m: Machine, es: seq<Step>, c: nat)
    requires Shape(m) && IsRun(m, es) && c < 3
    ensures NeverWipes(m, es, c) <==> WipesIn(m, es, c) == 0
    decreases |es|
  {
    if es != [] {
      NeverWipesIffNone(Apply(m, es[0]), es[1..], c);
    }
  }

  /** Every transmission of a mailbox that ended is reported by the TX handler or still pending exactly
      on the runs in which the TX handler writes back no RQCP of it that it has not answered, no
      sender requests over a pending completion of it, and HAL_CAN_IRQHandler finds none with the
      mailbox interrupt on. */
  lemma AllReportedIffNeverWiped(m: Machine, es: seq<Step>, b: nat)
    requires Initial(m) && IsRun(m, es) && b < 3
    ensures var n := Exec(m, es);
            var s := n.slots[b];
            NeverWipes(m, es, b)
            <==> forall k | 0 <= k < |s.outcomes| :: k in TxNumbers(s.reports) || IsPending(s, n.isr, b, k)
  {
    InitialInv(m);
    assert FreshSlot(m.slots[b]);
    RunWipes(m, es, b);
    NeverWipesIffNone(m, es, b);
    Conservation(m, es, b);
    RunKeepsInv(m, es);
    var n := Exec(m, es);
    var s := n.slots[b];
    assert SlotInv(s, n.isr, b);
    if forall k | 0 <= k < |s.outcomes| :: k in TxNumbers(s.reports) || IsPending(s, n.isr, b, k) {
      assert forall k :: k !in s.wiped;
      assert s.wiped == {};
    }
  }

  // ---------- the ERROR latch ----------

  ghost predicate NoConfigure(es: seq<Step>) {
    forall i | 0 <= i < |es| :: !es[i].Configure?
  }

  /** The sender of this mailbox has not passed its state test. */
  predicate NotSending(s: Slot) {
    !s.sender.Writing? && (s.sender.Entered? ==> !s.sender.state.Usable())
  }

  /** The sends accepted, and the one that may still be. */
  function AcceptedAtMost(s: Slot): nat {
    |s.accepted| + if NotSending(s) then 0 else 1
  }

  lemma StepInError(m: Machine, e: Step, b: nat)
    requires Inv(m) && Enabled(m, e) && m.hal.Error? && !e.Configure? && b < 3
    ensures Apply(m, e).hal.Error?
    ensures AcceptedAtMost(Apply(m, e).slots[b]) <= AcceptedAtMost(m.slots[b])
    ensures m.slots[b].accepted <= Apply(m, e).slots[b].accepted
  {
    hide WriteWord, Accounts;
    assert SlotInv(m.slots[b], m.isr, b);
  }

  lemma StepKeepsLatched(m: Machine, e: Step, b: nat)
    requires Inv(m) && Enabled(m, e) && m.hal.Error? && !e.Configure? && b < 3 && NotSending(m.slots[b])
    ensures NotSending(Apply(m, e).slots[b])
    ensures Apply(m, e).slots[b].regs == m.slots[b].regs
    ensures Apply(m, e).slots[b].txrq ==> m.slots[b].txrq
  {
    hide StoreSlot, SlotInv;
  }

  /** Once the handle is in ERROR, and until the device is configured again: on a mailbox whose sender had
      not passed its state test no send is accepted and no register is written; on any other
      mailbox the send under way is the only one that can still be accepted. */
  lemma {:induction false} ErrorLatches(m: Machine, es: seq<Step>, b: nat)
    requires Inv(m) && IsRun(m, es) && NoConfigure(es) && m.hal.Error? && b < 3
    ensures var n := Exec(m, es);
            && n.hal.Error?
            && m.slots[b].accepted <= n.slots[b].accepted
            && |n.slots[b].accepted| <= AcceptedAtMost(m.slots[b])
            && (NotSending(m.slots[b]) ==>
                  && NotSending(n.slots[b])
                  && n.slots[b].accepted == m.slots[b].accepted
                  && n.slots[b].regs == m.slots[b].regs
                  && (n.slots[b].txrq ==> m.slots[b].txrq))
    decreases |es|
  {
    ErrorBounds(m, es, b);
    if NotSending(m.slots[b]) {
      ErrorFreezes(m, es, b);
    }
  }

  lemma {:induction false} ErrorBounds(m: Machine, es: seq<Step>, b: nat)
    requires Inv(m) && IsRun(m, es) && NoConfigure(es) && m.hal.Error? && b < 3
    ensures Exec(m, es).hal.Error?
    ensures m.slots[b].accepted <= Exec(m, es).slots[b].accepted
    ensures AcceptedAtMost(Exec(m, es).slots[b]) <= AcceptedAtMost(m.slots[b])
    decreases |es|
  {
    hide NotSending, SlotInv;
    if es != [] {
      assert !es[0].Configure?;
      StepInError(m, es[0], b);
      StepKeepsInv(m, es[0]);
      ErrorBounds(Apply(m, es[0]), es[1..], b);
    }
  }

  lemma {:induction false} ErrorFreezes(m: Machine, es: seq<Step>, b: nat)
    requires Inv(m) && IsRun(m, es) && NoConfigure(es) && m.hal.Error? && b < 3 && NotSending(m.slots[b])
    ensures NotSending(Exec(m, es).slots[b])
    ensures Exec(m, es).slots[b].regs == m.slots[b].regs
    ensures Exec(m, es).slots[b].txrq ==> m.slots[b].txrq
    decreases |es|
  {
    hide NotSending, SlotInv;
    if es != [] {
      assert !es[0].Configure?;
      StepKeepsLatched(m, es[0], b);
      StepInError(m, es[0], b);
      StepKeepsInv(m, es[0]);
      ErrorFreezes(Apply(m, es[0]), es[1..], b);
    }
  }

  /** From the moment a send meets an occupied mailbox: the handle is in ERROR in every continuation until
      it is configured again, that mailbox accepts nothing and keeps its registers, and every other
      accepts at most the send that was already past its state test. */
  lemma OccupiedMailboxLatches(m: Machine, b: nat, es: seq<Step>, c: nat)
    requires Inv(m) && Enabled(m, Check(b)) && m.slots[b].sender.state.Usable() && m.slots[b].txrq
    requires IsRun(Apply(m, Check(b)), es) && NoConfigure(es) && c < 3
    ensures var n := Exec(Apply(m, Check(b)), es);
            && n.hal.Error?
            && n.slots[b].accepted == m.slots[b].accepted
            && n.slots[b].regs == m.slots[b].regs
            && |n.slots[c].accepted| <= AcceptedAtMost(m.slots[c])
            && (NotSending(m.slots[c]) ==> n.slots[c].regs == m.slots[c].regs)
  {
    assert SlotInv(m.slots[b], m.isr, b);
    var m' := Apply(m, Check(b));
    StepKeepsInv(m, Check(b));
    ErrorLatches(m', es, b);
    ErrorLatches(m', es, c);
  }

  /** The handle turns to ERROR exactly when a send that passed its state test meets an occupied
      mailbox, or a configuration fails. */
  lemma ErrorExactlyWhen(m: Machine, e: Step)
    requires Inv(m) && Enabled(m, e) && !m.hal.Error?
    ensures Apply(m, e).hal.Error? <==>
              || (e.Check? && m.slots[e.b].sender.state.Usable() && m.slots[e.b].txrq)
              || (e.Configure? && !(e.initAck && e.startAck))
  {
  }

  // ---------- two completions, one handler ----------

  /** `n` steps of the TX handler in a row, the hardware staying quiet. */
  ghost function Handle(m: Machine, n: nat): (r: Machine)
    requires Inv(m) && !m.isr.Cleared?
    ensures Inv(r)
    decreases n
  {
    if n == 0 then m
    else
      StepKeepsInv(m, TxHandler);
      Handle(Apply(m, TxHandler), n - 1)
  }

  ghost predicate LowestPending(m: Machine, b: nat)
    requires Shape(m)
  {
    b < 3 && m.slots[b].flags.rqcp && forall c | 0 <= c < b :: !m.slots[c].flags.rqcp
  }

  lemma {:induction false} PollingFinds(m: Machine, b: nat, k: nat, n: nat)
    requires Inv(m) && LowestPending(m, b) && k <= b && m.isr == Polling(k)
    ensures Inv(m.(isr := Seen(b)))
    ensures Handle(m, b - k + 1 + n) == Handle(m.(isr := Seen(b)), n)
    decreases b - k
  {
    StepKeepsInv(m, TxHandler);
    if k < b {
      PollingFinds(Apply(m, TxHandler), b, k + 1, n);
      assert m.(isr := Polling(k + 1)).(isr := Seen(b)) == m.(isr := Seen(b));
    }
  }

  /** What a handler that found one mailbox leaves in mailbox `c`. */
  function Handled(s: Slot, own: bool): Slot {
    if own then ReportSlot(s).(flags := Flags(s.flags.tme, false, false, false, false))
    else if s.flags.rqcp
    then s.(flags := Flags(s.flags.tme, false, false, false, false), wiped := WithLast(s))
    else s
  }

  lemma AnswerAndClear(m: Machine, b: nat)
    requires Inv(m) && m.isr == Seen(b) && b < 3
    ensures Handle(m, 3).isr == NoIsr
    ensures forall c | 0 <= c < 3 :: Handle(m, 3).slots[c] == Handled(m.slots[c], c == b)
  {
    hide Accounts, RegistersInv, HistoryInv;
    var m1 := Apply(m, TxHandler);
    StepKeepsInv(m, TxHandler);
    var m2 := Apply(m1, TxHandler);
    StepKeepsInv(m1, TxHandler);
    var m3 := Apply(m2, TxHandler);
    StepKeepsInv(m2, TxHandler);
    assert Handle(m, 3) == Handle(m1, 2) == Handle(m2, 1) == Handle(m3, 0) == m3;
    forall c | 0 <= c < 3 ensures m3.slots[c] == Handled(m.slots[c], c == b) {
      assert SlotInv(m.slots[c], m.isr, c);
      assert SlotInv(m2.slots[c], m2.isr, c);
      assert m2.isr.v[c] == m1.slots[c].flags;
    }
  }

  /** One TX interrupt reports the lowest pending mailbox and no other, and its read-modify-write
      wipes every other completion that was pending: it will never be reported. */
  lemma HandlerReportsOneWipesRest(m: Machine, b: nat)
    requires Inv(m) && m.isr.NoIsr? && LowestPending(m, b)
    ensures Handle(m, b + 5).isr == NoIsr
    ensures forall c | 0 <= c < 3 :: Handle(m, b + 5).slots[c] == Handled(m.slots[c], c == b)
  {
    var m1 := Apply(m, TxHandler);
    StepKeepsInv(m, TxHandler);
    PollingFinds(m1, b, 0, 3);
    AnswerAndClear(m1.(isr := Seen(b)), b);
  }

  // ---------- one handler pass, the hardware going on ----------

  /** The steps of a handler pass up to its read of TSR for the read-modify-write, and the
      completions that fall between them. */
  ghost predicate BeforeRead(m: Machine, es: seq<Step>)
    requires Shape(m) && IsRun(m, es)
    decreases |es|
  {
    es == []
    || ((es[0].Complete? || (es[0].TxHandler? && (m.isr.Polling? || m.isr.Seen?)))
        && BeforeRead(Apply(m, es[0]), es[1..]))
  }

  ghost predicate OnlyCompletions(es: seq<Step>) {
    forall i | 0 <= i < |es| :: es[i].Complete?
  }

  ghost predicate CompletesIn(es: seq<Step>, c: nat) {
    exists i :: 0 <= i < |es| && es[i].Complete? && es[i].b == c
  }

  lemma CompletesFirst(es: seq<Step>, c: nat)
    requires es != []
    ensures CompletesIn(es, c) <==> (es[0].Complete? && es[0].b == c) || CompletesIn(es[1..], c)
  {
    if i :| 0 <= i < |es| && es[i].Complete? && es[i].b == c {
      assert i > 0 ==> es[1..][i - 1] == es[i];
    }
    if j :| 0 <= j < |es[1..]| && es[1..][j].Complete? && es[1..][j].b == c {
      assert es[j + 1] == es[1..][j];
    }
  }

  /** A step of the pass, as mailbox `c` sees it when another mailbox is the one answered. */
  lemma StepBeforeRead(m: Machine, e: Step, c: nat)
    requires Inv(m) && Enabled(m, e) && c < 3
    requires e.Complete? || (e.TxHandler? && (m.isr.Polling? || (m.isr.Seen? && m.isr.b != c)))
    ensures var s, t := m.slots[c], Apply(m, e).slots[c];
            && (t.flags.rqcp <==> s.flags.rqcp || (e.Complete? && e.b == c))
            && t.wiped == s.wiped && t.reports == s.reports
    ensures m.isr.Reported? ==> Apply(m, e).isr == m.isr
    ensures m.isr.Loaded? ==> Apply(m, e).isr == m.isr
    ensures m.isr.Seen? && e.TxHandler? ==> Apply(m, e).isr == Reported(m.isr.b)
  {
    hide StoreSlot, ReportSlot, SceHandlerStep, Accounts;
  }

  lemma {:induction false} ReportedStays(m: Machine, es: seq<Step>)
    requires Inv(m) && IsRun(m, es) && m.isr.Reported? && BeforeRead(m, es)
    ensures Exec(m, es).isr == m.isr
    decreases |es|
  {
    hide SlotInv;
    if es != [] {
      StepKeepsInv(m, es[0]);
      ReportedStays(Apply(m, es[0]), es[1..]);
    }
  }

  lemma {:induction false} RunBeforeRead(m: Machine, es: seq<Step>, b: nat, c: nat)
    requires Inv(m) && IsRun(m, es) && BeforeRead(m, es) && Exec(m, es).isr == Reported(b)
    requires c < 3 && c != b
    ensures var s, t := m.slots[c], Exec(m, es).slots[c];
            && (t.flags.rqcp <==> s.flags.rqcp || CompletesIn(es, c))
            && t.wiped == s.wiped && t.reports == s.reports
    decreases |es|
  {
    hide SlotInv, CompletesIn, TxHandlerStep;
    if es == [] {
      NothingCompletes(c);
    } else {
      StepKeepsInv(m, es[0]);
      CompletesFirst(es, c);
      if m.isr.Seen? && es[0].TxHandler? {
        SeenIsReported(m);
        ReportedStays(Apply(m, TxHandler), es[1..]);
      }
      StepBeforeRead(m, es[0], c);
      RunBeforeRead(Apply(m, es[0]), es[1..], b, c);
    }
  }

  lemma NothingCompletes(c: nat)
    ensures !CompletesIn([], c)
  {
  }

  lemma SeenIsReported(m: Machine)
    requires Inv(m) && m.isr.Seen?
    ensures Apply(m, TxHandler).isr == Reported(m.isr.b)
  {
  }

  lemma {:induction false} RunAfterRead(m: Machine, es: seq<Step>, c: nat)
    requires Inv(m) && IsRun(m, es) && OnlyCompletions(es) && c < 3 && m.isr.Loaded?
    ensures Exec(m, es).isr == m.isr
    ensures var s, t := m.slots[c], Exec(m, es).slots[c];
            && (t.flags.rqcp <==> s.flags.rqcp || CompletesIn(es, c))
            && (s.flags.rqcp ==> t == s && !CompletesIn(es, c))
            && t.wiped == s.wiped && t.reports == s.reports
    decreases |es|
  {
    hide CompletesIn;
    if es == [] {
      NothingCompletes(c);
    } else {
      assert SlotInv(m.slots[c], m.isr, c);
      StepKeepsInv(m, es[0]);
      CompletesFirst(es, c);
      StepBeforeRead(m, es[0], c);
      RunAfterRead(Apply(m, es[0]), es[1..], c);
    }
  }

  lemma ReadStep(r: Machine, b: nat, c: nat)
    requires Inv(r) && r.isr == Reported(b) && c < 3
    ensures var l := Apply(r, TxHandler);
            && l.slots == r.slots
            && l.isr.Loaded? && l.isr.b == b && |l.isr.v| == 3 && l.isr.v[c] == r.slots[c].flags
  {
  }

  lemma WriteBackStep(w: Machine, c: nat)
    requires Inv(w) && w.isr.Loaded? && c < 3 && c != w.isr.b
    ensures Enabled(w, TxHandler) && Apply(w, TxHandler).isr.NoIsr?
    ensures var s, t := w.slots[c], Apply(w, TxHandler).slots[c];
            && t.reports == s.reports && t.outcomes == s.outcomes
            && t.wiped == s.wiped + (if w.isr.v[c].rqcp then {|s.outcomes| - 1} else {})
            && (t.flags.rqcp <==> s.flags.rqcp && !w.isr.v[c].rqcp)
  {
    hide Accounts, RegistersInv;
    assert SlotInv(w.slots[c], w.isr, c);
    assert Apply(w, TxHandler).slots[c] == StoreBackSlot(w.slots[c], false, w.isr.v[c]);
  }

  /** A whole handler pass that answers mailbox `b`, in terms of what happens during it: any other mailbox
      `c` loses its completion exactly when it was pending at the start of the pass or comes before
      the handler's read of TSR; what completes after that read, and nothing else, is pending
      afterwards. */
  lemma PassLosesIff(m: Machine, before: seq<Step>, after: seq<Step>, b: nat, c: nat)
    requires Inv(m) && IsRun(m, before) && BeforeRead(m, before) && Exec(m, before).isr == Reported(b)
    requires b < 3 && c < 3 && c != b
    requires IsRun(Apply(Exec(m, before), TxHandler), after) && OnlyCompletions(after)
    ensures var w := Exec(Apply(Exec(m, before), TxHandler), after);
            && w.isr.Loaded? && Enabled(w, TxHandler)
            && var s, t := m.slots[c], Apply(w, TxHandler).slots[c];
               && Apply(w, TxHandler).isr.NoIsr?
               && t.reports == s.reports
               && t.wiped == s.wiped + (if s.flags.rqcp || CompletesIn(before, c) then {|t.outcomes| - 1} else {})
               && (t.flags.rqcp <==> CompletesIn(after, c))
  {
    hide CompletesIn, TxHandlerStep, StoreBackSlot, Accounts;
    RunKeepsInv(m, before);
    RunBeforeRead(m, before, b, c);
    var r := Exec(m, before);
    var l := Apply(r, TxHandler);
    ReadStep(r, b, c);
    StepKeepsInv(r, TxHandler);
    RunKeepsInv(l, after);
    RunAfterRead(l, after, c);
    WriteBackStep(Exec(l, after), c);
  }

  // ---------- runs one after the other ----------

  lemma {:induction false} RunConcat(m: Machine, a: seq<Step>, b: seq<Step>)
    requires Shape(m) && IsRun(m, a) && IsRun(Exec(m, a), b)
    ensures IsRun(m, a + b) && Exec(m, a + b) == Exec(Exec(m, a), b)
    decreases |a|
  {
    if a == [] {
      assert a + b == b;
    } else {
      RunConcat(Apply(m, a[0]), a[1..], b);
      assert (a + b)[1..] == a[1..] + b && (a + b)[0] == a[0];
    }
  }

  lemma RunOfOne(m: Machine, e: Step)
    requires Shape(m) && Enabled(m, e)
    ensures IsRun(m, [e]) && Exec(m, [e]) == Apply(m, e)
  {
    assert [e][1..] == [];
  }
}
