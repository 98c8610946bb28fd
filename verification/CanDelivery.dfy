/** What the hand-over of a mailbox between the framework, its sender and the handlers guarantees, what a
    wiped completion costs, and what the acknowledge-error report can break. */
module CanDelivery {
  import opened CanFrame
  import opened CanProtocol
  import opened CanRuns

  // ---------- the hand-over of a mailbox ----------

  /** The sender waits for a completion that was wiped: nothing is in flight, nothing is pending,
      and only an acknowledge-error report can still complete it. */
  predicate Blocked(s: Slot) {
    s.sender.Waiting? && !s.completed && s.flags.tme && !s.flags.rqcp
  }

  /** Between sends a mailbox is empty, with no completion pending and no stale `rt_completion`; a sender
      is completed only when its transmission has ended. */
  predicate HandOver(s: Slot, isr: Isr, b: nat) {
    && (!s.sender.Waiting? ==> s.flags.tme && !s.flags.rqcp && !s.completed)
    && (s.completed ==> s.flags.tme && (s.flags.rqcp ==> Answering(isr, b)))
    && (Answering(isr, b) ==> s.completed)
  }

  /** An acknowledge-error report does no harm to a mailbox whose sender is blocked or already told. */
  predicate Harmless(s: Slot) { Blocked(s) || s.completed }

  /** An acknowledge-error report keeps the hand-over exactly when it is harmless. */
  lemma AckKeepsHandOverIff(m: Machine, e: Step)
    requires Inv(m) && Enabled(m, e) && AckStep(m, e) && HandOver(m.slots[0], m.isr, 0)
    ensures HandOver(Apply(m, e).slots[0], Apply(m, e).isr, 0) <==> Harmless(m.slots[0])
  {
  }

  lemma StepKeepsHandOver(m: Machine, e: Step, b: nat)
    requires Inv(m) && Enabled(m, e) && b < 3 && HandOver(m.slots[b], m.isr, b)
    requires b == 0 && AckStep(m, e) ==> Harmless(m.slots[0])
    ensures HandOver(Apply(m, e).slots[b], Apply(m, e).isr, b)
  {
    hide WriteWord, HistoryInv;
    assert SlotInv(m.slots[b], m.isr, b);
  }

  /** Every acknowledge-error report of the run is harmless. */
  ghost predicate HarmlessAcks(m: Machine, es: seq<Step>)
    requires Shape(m) && IsRun(m, es)
    decreases |es|
  {
    es == []
    || ((AckStep(m, es[0]) ==> Harmless(m.slots[0])) && HarmlessAcks(Apply(m, es[0]), es[1..]))
  }

  lemma {:induction false} NoAckIsHarmless(m: Machine, es: seq<Step>)
    requires Shape(m) && IsRun(m, es) && NoAck(m, es)
    ensures HarmlessAcks(m, es)
    decreases |es|
  {
    hide AckStep;
    if es != [] {
      NoAckIsHarmless(Apply(m, es[0]), es[1..]);
    }
  }

  lemma {:induction false} RunKeepsHandOver(m: Machine, es: seq<Step>, b: nat)
    requires Inv(m) && IsRun(m, es) && b < 3 && HandOver(m.slots[b], m.isr, b)
    requires b == 0 ==> HarmlessAcks(m, es)
    ensures HandOver(Exec(m, es).slots[b], Exec(m, es).isr, b)
    decreases |es|
  {
    hide HandOver, AckStep, Harmless, SlotInv;
    if es != [] {
      StepKeepsHandOver(m, es[0], b);
      StepKeepsInv(m, es[0]);
      RunKeepsHandOver(Apply(m, es[0]), es[1..], b);
    }
  }

  lemma InitialHandOver(m: Machine, b: nat)
    requires Initial(m) && b < 3
    ensures HandOver(m.slots[b], m.isr, b)
  {
    assert FreshSlot(m.slots[b]);
  }

  /** A send never meets an occupied mailbox: once its state test passes it is accepted.  For mailboxes 1
      and 2 that holds in every run, for mailbox 0 as long as acknowledge-error reports are
      harmless. */
  lemma SendsMeetEmptyMailboxes(m: Machine, es: seq<Step>, b: nat)
    requires Initial(m) && IsRun(m, es) && Enabled(Exec(m, es), Check(b))
    requires b == 0 ==> HarmlessAcks(m, es)
    ensures var n := Exec(m, es);
            var n' := Apply(n, Check(b));
            && n'.hal == n.hal
            && (n.slots[b].sender.state.Usable() ==>
                  n'.slots[b].sender == Writing(n.slots[b].sender.image, 0))
  {
    InitialInv(m);
    InitialHandOver(m, b);
    RunKeepsHandOver(m, es, b);
  }

  ghost predicate ConfiguresSucceed(es: seq<Step>) {
    forall i | 0 <= i < |es| && es[i].Configure? :: es[i].initAck && es[i].startAck
  }

  ghost predicate HandedOver(m: Machine)
    requires Shape(m)
  {
    forall b | 0 <= b < 3 :: HandOver(m.slots[b], m.isr, b)
  }

  lemma StepKeepsUsable(m: Machine, e: Step)
    requires Inv(m) && Enabled(m, e) && HandedOver(m) && !m.hal.Error?
    requires AckStep(m, e) ==> Harmless(m.slots[0])
    requires e.Configure? ==> e.initAck && e.startAck
    ensures !Apply(m, e).hal.Error? && HandedOver(Apply(m, e))
  {
    hide SlotInv, AckStep, Harmless;
    ErrorExactlyWhen(m, e);
    if e.Check? {
      assert HandOver(m.slots[e.b], m.isr, e.b);
      EmptyMeansNoRequest(m, e.b);
    }
    forall b | 0 <= b < 3 ensures HandOver(Apply(m, e).slots[b], Apply(m, e).isr, b) {
      assert HandOver(m.slots[b], m.isr, b);
      StepKeepsHandOver(m, e, b);
    }
  }

  lemma EmptyMeansNoRequest(m: Machine, b: nat)
    requires Inv(m) && b < 3
    ensures m.slots[b].flags.tme <==> !m.slots[b].txrq
  {
    assert SlotInv(m.slots[b], m.isr, b);
  }

  /** As long as configurations succeed and acknowledge-error reports are harmless, no run takes a working
      handle to ERROR. */
  lemma {:induction false} HandleStaysUsable(m: Machine, es: seq<Step>)
    requires Inv(m) && IsRun(m, es) && HandedOver(m) && !m.hal.Error?
    requires HarmlessAcks(m, es) && ConfiguresSucceed(es)
    ensures !Exec(m, es).hal.Error?
    decreases |es|
  {
    hide HandedOver, AckStep, Harmless, SlotInv;
    if es != [] {
      assert es[0].Configure? ==> es[0].initAck && es[0].startAck;
      StepKeepsUsable(m, es[0]);
      StepKeepsInv(m, es[0]);
      HandleStaysUsable(Apply(m, es[0]), es[1..]);
    }
  }

  // ---------- what the reports of acknowledge errors are worth ----------

  /** What has been told of a mailbox: transmissions that ended only, and its last send exactly when no sender
      waits to be told of it. */
  ghost predicate ToldInv(s: Slot) {
    && (forall i | 0 <= i < |s.reports| :: 0 <= s.reports[i].number < |s.outcomes|)
    && (|s.accepted| > 0 ==> (Told(s.reports, |s.accepted| - 1) <==> !s.sender.Waiting? || s.completed))
    && (s.sender.Waiting? ==> |s.accepted| > 0)
  }

  /** Every report tells the outcome of a transmission, and no two tell of the same. */
  ghost predicate TrueOnce(s: Slot) {
    && (forall i | 0 <= i < |s.reports| :: Tells(s.reports[i], s.outcomes))
    && (forall i, j | 0 <= i < j < |s.reports| :: s.reports[i].number != s.reports[j].number)
  }

  /** The sender is blocked on a transmission that failed. */
  predicate BlockedOnFailure(s: Slot) {
    Blocked(s) && |s.outcomes| > 0 && !s.outcomes[|s.outcomes| - 1]
  }

  lemma ToldAppends(s: Slot, r: Report)
    requires ToldInv(s) && 0 <= r.number < |s.outcomes|
    ensures TrueOnce(s.(reports := s.reports + [r]))
            <==> TrueOnce(s) && Tells(r, s.outcomes) && !Told(s.reports, r.number)
  {
    var all := s.reports + [r];
    assert all[|s.reports|] == r;
    assert forall i | 0 <= i < |s.reports| :: all[i] == s.reports[i];
  }

  lemma NobodyTold(s: Slot)
    requires |s.reports| == 0
    ensures TrueOnce(s) && forall n :: !Told(s.reports, n)
  {
  }

  /** Outcomes that come later do not change what earlier reports were worth. */
  lemma MoreOutcomes(s: Slot, t: Slot)
    requires ToldInv(s) && t.reports == s.reports && s.outcomes <= t.outcomes
    ensures TrueOnce(t) <==> TrueOnce(s)
  {
  }

  lemma ThreadKeepsTold(m: Machine, e: Step, b: nat)
    requires Inv(m) && Enabled(m, e) && b < 3 && HandOver(m.slots[b], m.isr, b) && ToldInv(m.slots[b])
    requires !e.TxHandler? && !e.SceHandler?
    ensures ToldInv(Apply(m, e).slots[b])
    ensures TrueOnce(Apply(m, e).slots[b]) <==> TrueOnce(m.slots[b])
  {
    hide WriteWord, HistoryInv, Told, TrueOnce;
    assert SlotInv(m.slots[b], m.isr, b);
    SendsMatchOutcomes(m, b);
    var s, t := m.slots[b], Apply(m, e).slots[b];
    MoreOutcomes(s, t);
    if |t.accepted| > |s.accepted| {
      NotYetTold(s);
    }
  }

  lemma SendsMatchOutcomes(m: Machine, b: nat)
    requires Inv(m) && b < 3
    ensures |m.slots[b].accepted| == |m.slots[b].outcomes| + (if m.slots[b].flags.tme then 0 else 1)
  {
    assert SlotInv(m.slots[b], m.isr, b);
  }

  lemma NotYetTold(s: Slot)
    requires ToldInv(s)
    ensures forall n | n >= |s.outcomes| :: !Told(s.reports, n)
  {
  }

  lemma ReportKeepsTold(s: Slot, b: nat)
    requires SlotInv(s, Seen(b), b) && HandOver(s, Seen(b), b) && ToldInv(s)
    ensures ToldInv(ReportSlot(s)) && (TrueOnce(ReportSlot(s)) <==> TrueOnce(s))
  {
    hide Accounts, Told, TrueOnce, WrittenSoFar;
    var r := Report(|s.accepted| - 1, s.flags.txok, FromTx);
    ToldAppends(s, r);
    ToldGrows(s.reports, r, r.number);
    SameReports(ReportSlot(s), s.(reports := s.reports + [r]));
  }

  lemma SameReports(s: Slot, t: Slot)
    requires s.reports == t.reports && s.outcomes == t.outcomes
    ensures TrueOnce(s) <==> TrueOnce(t)
  {
  }

  lemma AckKeepsTold(s: Slot)
    requires SlotInv(s, Cleared(true), 0) && HandOver(s, Cleared(true), 0) && ToldInv(s)
    requires !s.flags.rqcp && Harmless(s)
    ensures ToldInv(AckSlot(s)) && (TrueOnce(AckSlot(s)) <==> TrueOnce(s) && BlockedOnFailure(s))
  {
    hide Accounts, Told, TrueOnce, WrittenSoFar;
    var r := Report(|s.accepted| - 1, false, FromSce);
    ToldAppends(s, r);
    ToldGrows(s.reports, r, r.number);
    SameReports(AckSlot(s), s.(reports := s.reports + [r]));
  }

  /** A report that is true and new stays so, and another one is never made good: only acknowledge errors
      reported to a sender that is not blocked on a failure spoil the reports. */
  lemma StepKeepsTold(m: Machine, e: Step, b: nat)
    requires Inv(m) && Enabled(m, e) && b < 3 && HandOver(m.slots[b], m.isr, b) && ToldInv(m.slots[b])
    requires b == 0 && AckStep(m, e) ==> Harmless(m.slots[0])
    ensures ToldInv(Apply(m, e).slots[b])
    ensures TrueOnce(Apply(m, e).slots[b])
            <==> TrueOnce(m.slots[b]) && (b == 0 && AckStep(m, e) ==> BlockedOnFailure(m.slots[0]))
  {
    hide SlotInv, HandOver, ReportSlot, AckSlot, Told, TrueOnce, BlockedOnFailure, Harmless;
    var s, t := m.slots[b], Apply(m, e).slots[b];
    assert SlotInv(s, m.isr, b);
    if !e.TxHandler? && !e.SceHandler? {
      ThreadKeepsTold(m, e, b);
    } else if e.TxHandler? && m.isr == Seen(b) {
      ReportKeepsTold(s, b);
    } else if b == 0 && AckStep(m, e) {
      AckKeepsTold(s);
    } else {
      assert t.reports == s.reports && t.outcomes == s.outcomes && t.accepted == s.accepted;
      assert t.sender == s.sender && t.completed == s.completed;
      SameReports(s, t);
    }
  }

  /** Every acknowledge error of the run is reported to a sender that is blocked on a failed transmission. */
  ghost predicate TrueAcks(m: Machine, es: seq<Step>)
    requires Shape(m) && IsRun(m, es)
    decreases |es|
  {
    es == []
    || ((AckStep(m, es[0]) ==> BlockedOnFailure(m.slots[0])) && TrueAcks(Apply(m, es[0]), es[1..]))
  }

  lemma {:induction false} RunKeepsTold(m: Machine, es: seq<Step>)
    requires Inv(m) && IsRun(m, es) && HarmlessAcks(m, es)
    requires HandOver(m.slots[0], m.isr, 0) && ToldInv(m.slots[0])
    ensures ToldInv(Exec(m, es).slots[0])
    ensures TrueOnce(Exec(m, es).slots[0]) <==> TrueOnce(m.slots[0]) && TrueAcks(m, es)
    decreases |es|
  {
    hide HandOver, AckStep, Harmless, SlotInv, ToldInv, TrueOnce, BlockedOnFailure;
    if es != [] {
      StepKeepsTold(m, es[0], 0);
      StepKeepsHandOver(m, es[0], 0);
      StepKeepsInv(m, es[0]);
      RunKeepsTold(Apply(m, es[0]), es[1..]);
    }
  }

  lemma InitialTold(m: Machine, b: nat)
    requires Initial(m) && b < 3
    ensures ToldInv(m.slots[b]) && TrueOnce(m.slots[b])
  {
    assert FreshSlot(m.slots[b]);
    NobodyTold(m.slots[b]);
  }

  /** What the framework is told of mailbox 0, over runs whose acknowledge-error reports do no harm: all of it
      is true and nothing is repeated if and only if each of those reports went to a sender blocked on
      a transmission that failed. */
  lemma ReportsTrueIff(m: Machine, es: seq<Step>)
    requires Initial(m) && IsRun(m, es) && HarmlessAcks(m, es)
    ensures TrueOnce(Exec(m, es).slots[0]) <==> TrueAcks(m, es)
  {
    InitialInv(m);
    InitialHandOver(m, 0);
    InitialTold(m, 0);
    RunKeepsTold(m, es);
  }

  /** After such a run the next report of an acknowledge error, harmful or not, is true and no repetition if
      and only if the sender of mailbox 0 is blocked on a transmission that failed. */
  lemma AckReportIsTrueIff(m: Machine, es: seq<Step>, e: Step)
    requires Initial(m) && IsRun(m, es) && HarmlessAcks(m, es)
    requires Enabled(Exec(m, es), e) && AckStep(Exec(m, es), e)
    ensures var n := Exec(m, es);
            var s := n.slots[0];
            var r := Report(|s.accepted| - 1, false, FromSce);
            && Apply(n, e).slots[0].reports == s.reports + [r]
            && (Tells(r, s.outcomes) && !Told(s.reports, r.number) <==> BlockedOnFailure(s))
  {
    hide TrueOnce;
    InitialInv(m);
    InitialHandOver(m, 0);
    InitialTold(m, 0);
    RunKeepsInv(m, es);
    RunKeepsHandOver(m, es, 0);
    RunKeepsTold(m, es);
    AckReportValue(Exec(m, es), e);
  }

  lemma AckReportValue(m: Machine, e: Step)
    requires Inv(m) && Enabled(m, e) && AckStep(m, e) && HandOver(m.slots[0], m.isr, 0) && ToldInv(m.slots[0])
    ensures var s := m.slots[0];
            var r := Report(|s.accepted| - 1, false, FromSce);
            && Apply(m, e).slots[0].reports == s.reports + [r]
            && (Tells(r, s.outcomes) && !Told(s.reports, r.number) <==> BlockedOnFailure(s))
  {
    hide SlotInv, Told;
    SendsMatchOutcomes(m, 0);
  }

  // ---------- blocked senders ----------

  /** As long as no acknowledge error is reported: the reports are those of all transmissions so far, in
      order, except one that is pending or one that was wiped, which leaves the sender blocked. */
  ghost predicate QuietSlot(s: Slot, isr: Isr, b: nat) {
    && HandOver(s, isr, b)
    && QuietHistory(s, isr, b)
  }

  ghost predicate QuietHistory(s: Slot, isr: Isr, b: nat) {
    && |s.outcomes| == |s.reports| + (if Pending(s, isr, b) then 1 else 0) + (if Blocked(s) then 1 else 0)
    && s.wiped == (if Blocked(s) then {|s.outcomes| - 1} else {})
    && (forall i | 0 <= i < |s.reports| :: s.reports[i] == Report(i, s.outcomes[i], FromTx))
    && |s.reports| == |s.returned| + (if s.completed then 1 else 0)
    && (forall i | 0 <= i < |s.returned| :: s.returned[i] == s.outcomes[i])
    && (s.completed ==> s.result.ResultOk? == s.outcomes[|s.reports| - 1])
  }

  lemma ThreadKeepsHistory(m: Machine, e: Step, b: nat)
    requires Inv(m) && Enabled(m, e) && b < 3 && QuietSlot(m.slots[b], m.isr, b)
    requires !e.Complete? && !e.TxHandler? && !e.SceHandler?
    ensures QuietHistory(Apply(m, e).slots[b], Apply(m, e).isr, b)
  {
    hide WriteWord, Accounts;
    assert SlotInv(m.slots[b], m.isr, b);
  }

  lemma CompletionKeepsHistory(m: Machine, e: Step, b: nat)
    requires Inv(m) && Enabled(m, e) && b < 3 && QuietSlot(m.slots[b], m.isr, b) && e.Complete?
    ensures QuietHistory(Apply(m, e).slots[b], Apply(m, e).isr, b)
  {
    hide WriteWord, Accounts;
    assert SlotInv(m.slots[b], m.isr, b);
  }

  lemma ReportKeepsHistory(s: Slot, b: nat)
    requires SlotInv(s, Seen(b), b) && QuietSlot(s, Seen(b), b)
    ensures QuietHistory(ReportSlot(s), Reported(b), b)
  {
    hide Accounts;
  }

  lemma StoreBackKeepsHistory(s: Slot, isr: Isr, b: nat)
    requires SlotInv(s, isr, b) && QuietSlot(s, isr, b) && IsrShape(isr) && isr.Loaded? && b < 3
    ensures QuietHistory(StoreBackSlot(s, b == isr.b, isr.v[b]), NoIsr, b)
  {
    hide Accounts;
  }

  lemma TxHandlerKeepsHistory(m: Machine, b: nat)
    requires Inv(m) && Enabled(m, TxHandler) && b < 3 && QuietSlot(m.slots[b], m.isr, b)
    ensures QuietHistory(Apply(m, TxHandler).slots[b], Apply(m, TxHandler).isr, b)
  {
    hide SlotInv, HandOver, ReportSlot, StoreBackSlot;
    assert SlotInv(m.slots[b], m.isr, b);
    if m.isr == Seen(b) {
      ReportKeepsHistory(m.slots[b], b);
    } else if m.isr.Loaded? {
      StoreBackKeepsHistory(m.slots[b], m.isr, b);
    }
  }

  lemma HalClearKeepsHistory(s: Slot, b: nat, on: bool, ack: bool)
    requires SlotInv(s, NoIsr, b) && QuietSlot(s, NoIsr, b)
    ensures QuietHistory(HalClearSlot(s, on), Cleared(ack), b)
  {
    hide Accounts;
  }

  lemma SceHandlerKeepsHistory(m: Machine, e: Step, b: nat)
    requires Inv(m) && Enabled(m, e) && b < 3 && QuietSlot(m.slots[b], m.isr, b) && e.SceHandler?
    requires b == 0 ==> !AckStep(m, e)
    ensures QuietHistory(Apply(m, e).slots[b], Apply(m, e).isr, b)
  {
    hide SlotInv, HandOver, HalClearSlot;
    assert SlotInv(m.slots[b], m.isr, b);
    if m.isr.NoIsr? {
      HalClearKeepsHistory(m.slots[b], b, e.mailboxIrqOn, e.ackError);
    }
  }

  lemma StepKeepsQuiet(m: Machine, e: Step, b: nat)
    requires Inv(m) && Enabled(m, e) && b < 3 && QuietSlot(m.slots[b], m.isr, b)
    requires b == 0 ==> !AckStep(m, e)
    ensures QuietSlot(Apply(m, e).slots[b], Apply(m, e).isr, b)
  {
    hide HandOver, QuietHistory, AckStep, SlotInv;
    StepKeepsHandOver(m, e, b);
    match e
    case Complete(_, _) => CompletionKeepsHistory(m, e, b);
    case TxHandler => TxHandlerKeepsHistory(m, b);
    case SceHandler(_, _) => SceHandlerKeepsHistory(m, e, b);
    case _ => ThreadKeepsHistory(m, e, b);
  }

  lemma {:induction false} RunKeepsQuiet(m: Machine, es: seq<Step>, b: nat)
    requires Inv(m) && IsRun(m, es) && b < 3 && QuietSlot(m.slots[b], m.isr, b)
    requires b == 0 ==> NoAck(m, es)
    ensures QuietSlot(Exec(m, es).slots[b], Exec(m, es).isr, b)
    decreases |es|
  {
    hide QuietSlot, AckStep, SlotInv;
    if es != [] {
      StepKeepsQuiet(m, es[0], b);
      StepKeepsInv(m, es[0]);
      RunKeepsQuiet(Apply(m, es[0]), es[1..], b);
    }
  }

  lemma QuietFromReset(m: Machine, es: seq<Step>, b: nat)
    requires Initial(m) && IsRun(m, es) && b < 3
    requires b == 0 ==> NoAck(m, es)
    ensures QuietSlot(Exec(m, es).slots[b], Exec(m, es).isr, b) && Inv(Exec(m, es))
  {
    InitialInv(m);
    assert FreshSlot(m.slots[b]);
    RunKeepsQuiet(m, es, b);
    RunKeepsInv(m, es);
  }

  /** A sender that has returned has had every frame it was accepted for transmitted or given up,
      and reported in order with the true outcome; and that outcome is what it told its caller. */
  lemma ReturnedMeansReported(m: Machine, es: seq<Step>, b: nat)
    requires Initial(m) && IsRun(m, es) && b < 3 && !Exec(m, es).slots[b].sender.Waiting?
    requires b == 0 ==> NoAck(m, es)
    ensures var s := Exec(m, es).slots[b];
            && |s.accepted| == |s.outcomes| == |s.reports|
            && (forall i | 0 <= i < |s.outcomes| :: s.reports[i] == Report(i, s.outcomes[i], FromTx))
            && s.returned == s.outcomes
  {
    QuietFromReset(m, es, b);
    assert SlotInv(Exec(m, es).slots[b], Exec(m, es).isr, b);
  }

  /** A completion of mailbox `b` was wiped exactly when its sender is blocked now. */
  lemma WipedIffBlocked(m: Machine, es: seq<Step>, b: nat)
    requires Initial(m) && IsRun(m, es) && b < 3
    requires b == 0 ==> NoAck(m, es)
    ensures Exec(m, es).slots[b].wiped != {} <==> Blocked(Exec(m, es).slots[b])
  {
    QuietFromReset(m, es, b);
  }

  /** Only an acknowledge-error report, and only for mailbox 0, ever frees a blocked sender. */
  lemma StepFreesIff(m: Machine, e: Step, b: nat)
    requires Inv(m) && Enabled(m, e) && b < 3 && Blocked(m.slots[b])
    ensures Blocked(Apply(m, e).slots[b]) <==> !(b == 0 && AckStep(m, e))
    ensures !(b == 0 && AckStep(m, e)) ==>
              && Apply(m, e).slots[b].accepted == m.slots[b].accepted
              && Apply(m, e).slots[b].reports == m.slots[b].reports
  {
    hide WriteWord, Accounts;
    assert SlotInv(m.slots[b], m.isr, b);
  }

  /** A blocked sender stays blocked, and its mailbox accepts and reports nothing more: in every
      continuation for mailboxes 1 and 2, until an acknowledge error is reported for mailbox 0. */
  lemma {:induction false} BlockedForever(m: Machine, es: seq<Step>, b: nat)
    requires Inv(m) && IsRun(m, es) && b < 3 && Blocked(m.slots[b])
    requires b == 0 ==> NoAck(m, es)
    ensures var s := Exec(m, es).slots[b];
            Blocked(s) && s.accepted == m.slots[b].accepted && s.reports == m.slots[b].reports
    decreases |es|
  {
    hide Blocked, AckStep, SlotInv;
    if es != [] {
      StepFreesIff(m, es[0], b);
      StepKeepsInv(m, es[0]);
      BlockedForever(Apply(m, es[0]), es[1..], b);
    }
  }

  // ---------- one mailbox in use ----------

  ghost predicate OnlyEnters(es: seq<Step>, b: nat) {
    forall i | 0 <= i < |es| && es[i].Enter? :: es[i].b == b
  }

  predicate UnusedSlot(s: Slot) {
    s.sender.Idle? && s.flags.tme && !s.flags.rqcp
  }

  /** Mailboxes other than `b` were never used. */
  ghost predicate Unused(m: Machine, b: nat)
    requires Shape(m)
  {
    forall c | 0 <= c < 3 && c != b :: UnusedSlot(m.slots[c])
  }

  lemma AnsweredIsPending(m: Machine)
    requires Inv(m) && m.isr.Loaded?
    ensures m.slots[m.isr.b].flags.rqcp
  {
    assert SlotInv(m.slots[m.isr.b], m.isr, m.isr.b);
  }

  lemma StepKeepsUnused(m: Machine, e: Step, b: nat)
    requires Inv(m) && Enabled(m, e) && b < 3 && Unused(m, b) && (e.Enter? ==> e.b == b)
    ensures Unused(Apply(m, e), b)
    ensures !WritesBackOver(m, e, b)
  {
    hide WriteWord, HistoryInv, ReportSlot;
    forall c | 0 <= c < 3 && c != b ensures UnusedSlot(Apply(m, e).slots[c]) {
      assert UnusedSlot(m.slots[c]) && SlotInv(m.slots[c], m.isr, c);
    }
    if m.isr.Loaded? {
      AnsweredIsPending(m);
    }
  }

  /** No step of the run is HAL_CAN_IRQHandler meeting a pending completion of mailbox `b` with the mailbox
      interrupt on. */
  ghost predicate NoHalWipe(m: Machine, es: seq<Step>, b: nat)
    requires Shape(m) && IsRun(m, es) && b < 3
    decreases |es|
  {
    es == [] || (!HalWipes(m, es[0], b) && NoHalWipe(Apply(m, es[0]), es[1..], b))
  }

  /** The one mailbox in use, as long as it is handed over properly. */
  lemma SingleStep(m: Machine, e: Step, b: nat)
    requires Inv(m) && Enabled(m, e) && b < 3 && Unused(m, b) && HandOver(m.slots[b], m.isr, b)
    requires e.Enter? ==> e.b == b
    ensures Wipes(m, e, b) <==> HalWipes(m, e, b)
    ensures m.slots[b].wiped <= Apply(m, e).slots[b].wiped
    ensures m.slots[b].wiped == {} ==> (Apply(m, e).slots[b].wiped == {} <==> !HalWipes(m, e, b))
  {
    hide WriteWord, Accounts, AckStep;
    StepKeepsUnused(m, e, b);
    StepWipes(m, e, b);
  }

  lemma {:induction false} SingleRun(m: Machine, es: seq<Step>, b: nat)
    requires Inv(m) && IsRun(m, es) && b < 3 && Unused(m, b) && HandOver(m.slots[b], m.isr, b)
    requires OnlyEnters(es, b) && (b == 0 ==> HarmlessAcks(m, es))
    ensures m.slots[b].wiped <= Exec(m, es).slots[b].wiped
    ensures m.slots[b].wiped == {} ==> (Exec(m, es).slots[b].wiped == {} <==> NoHalWipe(m, es, b))
    decreases |es|
  {
    hide HandOver, Harmless, SlotInv, AckStep, Unused, Wipes, HalWipes;
    if es != [] {
      assert es[0].Enter? ==> es[0].b == b;
      SingleStep(m, es[0], b);
      StepKeepsUnused(m, es[0], b);
      StepKeepsHandOver(m, es[0], b);
      StepKeepsInv(m, es[0]);
      SingleRun(Apply(m, es[0]), es[1..], b);
    }
  }

  /** With a single mailbox in use the TX handler and the sender wipe nothing: a completion is lost exactly
      when HAL_CAN_IRQHandler meets it pending with the mailbox interrupt on, on every run whose
      acknowledge-error reports do mailbox 0 no harm.  Without any such report, and without a loss, every
      accepted frame is reported truly and in order, pending or in flight, and nobody blocks. */
  lemma SingleMailboxLosesNothingIff(m: Machine, es: seq<Step>, b: nat)
    requires Initial(m) && IsRun(m, es) && b < 3 && OnlyEnters(es, b)
    requires b == 0 ==> HarmlessAcks(m, es)
    ensures Exec(m, es).slots[b].wiped == {} <==> NoHalWipe(m, es, b)
    ensures NoHalWipe(m, es, b) && (b == 0 ==> NoAck(m, es)) ==>
              var n := Exec(m, es);
              var s := n.slots[b];
              && !Blocked(s)
              && |s.accepted| == |s.reports| + (if Pending(s, n.isr, b) then 1 else 0) + (if s.txrq then 1 else 0)
              && |s.reports| <= |s.outcomes|
              && forall i | 0 <= i < |s.reports| :: s.reports[i] == Report(i, s.outcomes[i], FromTx)
  {
    InitialInv(m);
    forall c | 0 <= c < 3 ensures FreshSlot(m.slots[c]) {}
    InitialHandOver(m, b);
    SingleRun(m, es, b);
    if NoHalWipe(m, es, b) && (b == 0 ==> NoAck(m, es)) {
      QuietFromReset(m, es, b);
      assert SlotInv(Exec(m, es).slots[b], Exec(m, es).isr, b);
    }
  }
}
