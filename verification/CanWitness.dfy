/** Failing runs: each weakness of the transmit path that the other modules bound is reached here from
    reset. */
module CanWitness {
  import opened CanFrame
  import opened CanProtocol
  import opened CanRuns
  import opened CanDelivery
  import opened CanTransmit

  /** A run prolonged by a run. */
  lemma Prolong(m: Machine, a: seq<Step>, b: seq<Step>, n: Machine)
    requires Shape(m) && IsRun(m, a) && Exec(m, a) == n && IsRun(n, b)
    ensures IsRun(m, a + b) && Exec(m, a + b) == Exec(n, b)
  {
    RunConcat(m, a, b);
  }

  lemma ProlongOne(m: Machine, a: seq<Step>, e: Step, n: Machine)
    requires Shape(m) && IsRun(m, a) && Exec(m, a) == n && Enabled(n, e)
    ensures IsRun(m, a + [e]) && Exec(m, a + [e]) == Apply(n, e)
  {
    RunOfOne(n, e);
    RunConcat(m, a, [e]);
  }

  function Start(): Step { Configure(true, true) }

  function Started(m: Machine): Machine { m.(hal := Listening) }

  /** A mailbox whose first message is in flight. */
  function FirstInFlight(image: Image): Slot {
    Slot(true, image, Flags(false, false, false, false, false), Waiting, false, ResultWait,
         [image], [], [], [], {})
  }

  /** Its transmission ended, nobody told yet. */
  function FirstEnded(image: Image, o: Outcome): Slot { Finish(FirstInFlight(image), o) }

  lemma FirstSend(m: Machine, image: Image, b: nat)
    requires Shape(m) && m.isr.NoIsr? && m.hal.Usable() && b < 3 && FreshSlot(m.slots[b])
    ensures IsRun(m, SendSteps(true, image, b))
    ensures Exec(m, SendSteps(true, image, b)) == With(m, b, FirstInFlight(image))
  {
    AcceptedSendRun(m, image, b);
    assert m.slots[b].accepted + [image] == [image];
    assert AcceptedSlot(m.slots[b].(result := ResultWait), image) == FirstInFlight(image);
  }

  function StartAndSend(image: Image): seq<Step> { [Start()] + SendSteps(true, image, 0) }

  lemma StartedAndSent(m: Machine, image: Image)
    requires Initial(m)
    ensures IsRun(m, StartAndSend(image))
    ensures Exec(m, StartAndSend(image)) == With(Started(m), 0, FirstInFlight(image))
  {
    hide Exec, IsRun, FirstInFlight, SendSteps, Initial;
    StartRun(m);
    FirstSend(Started(m), image, 0);
    Prolong(m, [Start()], SendSteps(true, image, 0), Started(m));
  }

  lemma StartRun(m: Machine)
    requires Initial(m)
    ensures IsRun(m, [Start()]) && Exec(m, [Start()]) == Started(m)
    ensures Shape(Started(m)) && Started(m).isr.NoIsr? && Started(m).hal.Usable()
    ensures forall b | 0 <= b < 3 :: FreshSlot(Started(m).slots[b])
  {
    RunOfOne(m, Start());
  }

  // ---------- the HAL's interrupt code loses a completion ----------

  function HalLoss(image: Image): seq<Step> {
    StartAndSend(image) + [Complete(0, TxOk)] + [SceHandler(true, false)]
  }

  /** One mailbox in use, one frame, transmitted without fault: an SCE interrupt with the mailbox interrupt
      on clears the completion, nobody is told, and the sender is blocked. */
  lemma SingleMailboxCanLose(m: Machine, image: Image)
    requires Initial(m)
    ensures IsRun(m, HalLoss(image)) && OnlyEnters(HalLoss(image), 0)
    ensures var s := Exec(m, HalLoss(image)).slots[0];
            s.outcomes == [true] && s.reports == [] && s.wiped == {0} && Blocked(s)
  {
    hide Exec, IsRun, StartAndSend, Initial, FirstInFlight;
    InitialNoIsr(m);
    var sent := StartAndSend(image);
    var m1 := With(Started(m), 0, FirstInFlight(image));
    StartedAndSent(m, image);
    InFlightFacts(image);
    ProlongOne(m, sent, Complete(0, TxOk), m1);
    var m2 := With(Started(m), 0, FirstEnded(image, TxOk));
    assert Apply(m1, Complete(0, TxOk)) == m2;
    ProlongOne(m, sent + [Complete(0, TxOk)], SceHandler(true, false), m2);
    StartAndSendEnters(image);
  }

  lemma InFlightFacts(image: Image)
    ensures FirstInFlight(image).flags == Flags(false, false, false, false, false)
    ensures FirstInFlight(image).sender.Waiting?
    ensures !FirstInFlight(image).completed && FirstInFlight(image).outcomes == []
    ensures FirstInFlight(image).reports == [] && FirstInFlight(image).wiped == {}
    ensures FirstInFlight(image).txrq && FirstInFlight(image).accepted == [image]
  {
  }

  lemma InitialNoIsr(m: Machine)
    requires Initial(m)
    ensures Shape(m) && m.isr.NoIsr?
  {
  }

  lemma StartAndSendEnters(image: Image)
    ensures OnlyEnters(StartAndSend(image), 0)
  {
  }

  // ---------- the TX handler loses a completion ----------

  /** A handler pass that answers mailbox 0, mailbox 1 completing just before the read of TSR. */
  function LatePass(o: Outcome): seq<Step> {
    [TxHandler, TxHandler, TxHandler] + [Complete(1, o)] + [TxHandler, TxHandler]
  }

  /** Two mailboxes in flight, the first completed: the state at the handler's entry. */
  function TwoSent(i0: Image, i1: Image, o: Outcome): seq<Step> {
    StartAndSend(i0) + SendSteps(true, i1, 1) + [Complete(0, o)]
  }

  function OneEnded(m: Machine, i0: Image, i1: Image, o: Outcome): Machine
    requires Shape(m)
  {
    With(With(Started(m), 0, FirstEnded(i0, o)), 1, FirstInFlight(i1))
  }

  lemma TwoSentRun(m: Machine, i0: Image, i1: Image, o: Outcome)
    requires Initial(m)
    ensures IsRun(m, TwoSent(i0, i1, o)) && Exec(m, TwoSent(i0, i1, o)) == OneEnded(m, i0, i1, o)
  {
    hide Exec, IsRun, StartAndSend, SendSteps, FirstInFlight, Initial, FreshSlot;
    StartRun(m);
    StartedAndSent(m, i0);
    InFlightFacts(i0);
    var m1 := With(Started(m), 0, FirstInFlight(i0));
    assert m1.slots[1] == Started(m).slots[1];
    FirstSend(m1, i1, 1);
    Prolong(m, StartAndSend(i0), SendSteps(true, i1, 1), m1);
    var m2 := With(m1, 1, FirstInFlight(i1));
    assert m2.slots[0] == FirstInFlight(i0);
    ProlongOne(m, StartAndSend(i0) + SendSteps(true, i1, 1), Complete(0, o), m2);
    assert Apply(m2, Complete(0, o)) == OneEnded(m, i0, i1, o);
  }

  lemma AnswerZero(m: Machine)
    requires Shape(m) && m.isr.NoIsr? && m.slots[0].flags.rqcp
    ensures IsRun(m, [TxHandler, TxHandler, TxHandler])
    ensures Exec(m, [TxHandler, TxHandler, TxHandler]) == With(m, 0, ReportSlot(m.slots[0])).(isr := Reported(0))
  {
    hide ReportSlot;
    var m1 := m.(isr := Polling(0));
    var m2 := m.(isr := Seen(0));
    var m3 := With(m, 0, ReportSlot(m.slots[0])).(isr := Reported(0));
    assert Apply(m, TxHandler) == m1 && Apply(m1, TxHandler) == m2 && Apply(m2, TxHandler) == m3;
    RunOfOne(m2, TxHandler);
    var two := [TxHandler, TxHandler];
    assert two[1..] == [TxHandler] && [TxHandler, TxHandler, TxHandler][1..] == two;
    assert Exec(m1, two) == Exec(m2, [TxHandler]);
  }

  /** A read-modify-write of TSR in which the last completion of mailbox `c` is wiped. */
  lemma WriteBackWipes(m: Machine, b: nat, c: nat)
    requires Shape(m) && m.isr == Reported(b) && b < 3 && c < 3 && c != b && m.slots[c].flags.rqcp
    ensures IsRun(m, [TxHandler, TxHandler])
    ensures var n := Exec(m, [TxHandler, TxHandler]);
            && n.isr.NoIsr?
            && n.slots[c] == m.slots[c].(flags := Flags(m.slots[c].flags.tme, false, false, false, false),
                                         wiped := WithLast(m.slots[c]))
  {
    var m1 := Apply(m, TxHandler);
    RunOfOne(m1, TxHandler);
    assert [TxHandler, TxHandler][1..] == [TxHandler];
    assert m1.isr.v[c] == m.slots[c].flags;
  }

  /** Without any SCE interrupt, and with a single completion pending when the handler is entered: the
      other mailbox's completion is wiped and its sender is blocked, so by `BlockedForever` it never
      returns. */
  lemma TxHandlerCanLose(m: Machine, i0: Image, i1: Image, o0: Outcome, o1: Outcome)
    requires Initial(m)
    ensures IsRun(m, TwoSent(i0, i1, o0)) && IsRun(m, TwoSent(i0, i1, o0) + LatePass(o1))
    ensures NoSce(TwoSent(i0, i1, o0) + LatePass(o1))
    ensures var entry := Exec(m, TwoSent(i0, i1, o0));
            && entry.isr.NoIsr?
            && entry.slots[0].flags.rqcp && !entry.slots[1].flags.rqcp && !entry.slots[2].flags.rqcp
    ensures var s := Exec(m, TwoSent(i0, i1, o0) + LatePass(o1)).slots[1];
            s.outcomes == [o1.TxOk?] && s.reports == [] && s.wiped == {0} && Blocked(s)
  {
    hide Exec, IsRun, TwoSent, Initial, ReportSlot, FirstInFlight;
    StartRun(m);
    TwoSentRun(m, i0, i1, o0);
    InFlightFacts(i0);
    InFlightFacts(i1);
    var entry := OneEnded(m, i0, i1, o0);
    assert FreshSlot(Started(m).slots[2]);
    AnswerZero(entry);
    var m3 := With(entry, 0, ReportSlot(entry.slots[0])).(isr := Reported(0));
    assert m3.slots[1] == FirstInFlight(i1);
    var m4 := With(m3, 1, FirstEnded(i1, o1));
    ProlongOne(entry, [TxHandler, TxHandler, TxHandler], Complete(1, o1), m3);
    assert Apply(m3, Complete(1, o1)) == m4;
    WriteBackWipes(m4, 0, 1);
    Prolong(entry, [TxHandler, TxHandler, TxHandler] + [Complete(1, o1)], [TxHandler, TxHandler], m4);
    Prolong(m, TwoSent(i0, i1, o0), LatePass(o1), entry);
    TwoSentNoSce(i0, i1, o0);
  }

  ghost predicate NoSce(es: seq<Step>) {
    forall i | 0 <= i < |es| :: !es[i].SceHandler?
  }

  lemma TwoSentNoSce(i0: Image, i1: Image, o: Outcome)
    ensures NoSce(TwoSent(i0, i1, o))
  {
  }

  // ---------- a harmful acknowledge-error report leads to ERROR ----------

  function NextSend(image: Image): seq<Step> { [Wake(0)] + [Enter(0, image)] + [Check(0)] }

  /** The sender of mailbox 0 has been completed while its frame is still in flight. */
  predicate CompletedInFlight(m: Machine)
    requires Shape(m)
  {
    m.isr.NoIsr? && m.hal.Usable()
    && m.slots[0].sender.Waiting? && m.slots[0].completed && !m.slots[0].flags.tme
  }

  lemma NextSendFails(m: Machine, image: Image)
    requires Shape(m) && CompletedInFlight(m)
    ensures IsRun(m, NextSend(image)) && Exec(m, NextSend(image)).hal.Error?
  {
    hide Exec, IsRun;
    var s := m.slots[0];
    var m1 := With(m, 0, WakeSlot(s));
    var m2 := With(m, 0, WakeSlot(s).(sender := Entered(image, m.hal), result := ResultWait));
    RunOfOne(m, Wake(0));
    ProlongOne(m, [Wake(0)], Enter(0, image), m1);
    assert Apply(m1, Enter(0, image)) == m2;
    ProlongOne(m, [Wake(0)] + [Enter(0, image)], Check(0), m2);
  }

  /** Steps of threads other than reconfigurations. */
  ghost predicate OnlySends(es: seq<Step>) {
    forall i | 0 <= i < |es| :: es[i].Enter? || es[i].Check? || es[i].Store? || es[i].Wake?
  }

  lemma FinishWriting(m: Machine, b: nat) returns (es: seq<Step>)
    requires Inv(m) && m.isr.NoIsr? && b < 3 && m.slots[b].sender.Writing?
    ensures IsRun(m, es) && OnlySends(es)
    ensures var n := Exec(m, es);
            && n == With(m, b, AcceptedSlot(m.slots[b], m.slots[b].sender.image))
  {
    hide StoreSlot, WriteWord, Accounts;
    var s := m.slots[b];
    assert SlotInv(s, NoIsr, b);
    es := seq(6 - s.sender.next, i => Store(b));
    assert m == With(m, b, s);
    StoresRun(m, b, s, 6 - s.sender.next);
    StoresFrom(s, s.sender.image, s.regs, s.sender.next);
    assert s == s.(regs := s.regs, sender := Writing(s.sender.image, s.sender.next));
    WritesComplete(s.regs, s.sender.image, s.sender.next);
  }

  lemma {:induction false} WritesComplete(r: Image, image: Image, k: nat)
    requires k <= 5 && WrittenSoFar(r, image, k)
    ensures WritesFrom(r, image, k) == image
    decreases 5 - k
  {
    if k < 5 {
      WriteAdvances(r, image, k);
      WritesComplete(WriteWord(r, image, k), image, k + 1);
    }
  }

  lemma WriteAdvances(r: Image, image: Image, k: nat)
    requires k < 5 && WrittenSoFar(r, image, k)
    ensures WrittenSoFar(WriteWord(r, image, k), image, k + 1)
  {
    if k == 1 {
      OrIntoCleared(r.id, image.id);
    }
  }

  lemma OrIntoCleared(a: bv32, b: bv32)
    requires a == 0
    ensures a | b == b
  {
  }

  /** A send that is past its state test when the handle turns to ERROR does complete: so the one accepted
      send that `ErrorLatches` leaves room for is real. */
  lemma WriterStillSends(m: Machine, b: nat) returns (es: seq<Step>)
    requires Inv(m) && m.isr.NoIsr? && b < 3
    requires m.slots[b].sender.Writing?
          || (m.slots[b].sender.Entered? && m.slots[b].sender.state.Usable() && m.slots[b].flags.tme)
    ensures IsRun(m, es) && OnlySends(es)
    ensures Exec(m, es) == With(m, b, AcceptedSlot(m.slots[b], m.slots[b].sender.image))
  {
    hide StoreSlot, WriteWord, SlotInv;
    if m.slots[b].sender.Writing? {
      es := FinishWriting(m, b);
    } else {
      var m1 := With(m, b, m.slots[b].(sender := Writing(m.slots[b].sender.image, 0)));
      assert Apply(m, Check(b)) == m1;
      StepKeepsInv(m, Check(b));
      var rest := FinishWriting(m1, b);
      es := [Check(b)] + rest;
      assert es[1..] == rest;
    }
  }

  /** From a mailbox 0 that is not waiting, with a stale completion: a send on it ends completed in flight. */
  lemma SendWithStaleCompletion(m: Machine, image: Image) returns (es: seq<Step>)
    requires Inv(m) && m.isr.NoIsr? && m.hal.Usable() && !m.slots[0].sender.Waiting?
    requires m.slots[0].completed && m.slots[0].flags.tme
    ensures IsRun(m, es) && OnlySends(es) && CompletedInFlight(Exec(m, es))
    decreases if m.slots[0].sender.Idle? then 0 else 1
  {
    hide StoreSlot, WriteWord, SlotInv, Accounts;
    var s := m.slots[0];
    if s.sender.Idle? {
      es := SendSteps(true, image, 0);
      AcceptedSendRun(m, image, 0);
    } else if s.sender.Writing? || s.sender.state.Usable() {
      es := WriterStillSends(m, 0);
    } else {
      var m1 := With(m, 0, s.(sender := Idle));
      assert Apply(m, Check(0)) == m1;
      StepKeepsInv(m, Check(0));
      var rest := SendWithStaleCompletion(m1, image);
      es := [Check(0)] + rest;
      assert es[1..] == rest;
    }
  }

  /** Every acknowledge-error report that is not harmless has a continuation, of thread steps only, in which
      a send meets an occupied mailbox and the handle turns to ERROR. */
  lemma HarmfulAckLeadsToError(m: Machine, e: Step, image: Image) returns (es: seq<Step>)
    requires Inv(m) && Enabled(m, e) && AckStep(m, e) && m.hal.Usable()
    requires HandOver(m.slots[0], m.isr, 0) && !Harmless(m.slots[0])
    ensures IsRun(Apply(m, e), es) && OnlySends(es)
    ensures Exec(Apply(m, e), es).hal.Error?
  {
    hide SlotInv, AckStep, HandOver, Harmless, Exec, IsRun, SendSteps;
    var n := Apply(m, e);
    AckEffect(m, e);
    StepKeepsInv(m, e);
    var first := [];
    if n.slots[0].sender.Waiting? {
      NothingRuns(n);
    } else {
      first := SendWithStaleCompletion(n, image);
    }
    var w := Exec(n, first);
    NextSendFails(w, image);
    es := first + NextSend(image);
    Prolong(n, first, NextSend(image), w);
  }

  lemma NothingRuns(m: Machine)
    requires Shape(m)
    ensures IsRun(m, []) && Exec(m, []) == m
  {
  }

  lemma AckEffect(m: Machine, e: Step)
    requires Inv(m) && Enabled(m, e) && AckStep(m, e)
    requires HandOver(m.slots[0], m.isr, 0) && !Harmless(m.slots[0])
    ensures var n := Apply(m, e);
            && n.isr.NoIsr? && n.hal == m.hal && n.slots[0].completed
            && n.slots[0].sender == m.slots[0].sender
            && (n.slots[0].flags.tme <==> !n.slots[0].sender.Waiting?)
  {
    hide SlotInv;
  }

  // ---------- the same from reset ----------

  function AckError(): seq<Step> { [SceHandler(false, true), SceHandler(false, true)] }

  /** From reset: a frame is sent, an acknowledge error is reported while it is in flight, the sender
      returns, and its next send turns the handle to ERROR. */
  lemma AckErrorLeadsToError(m: Machine, i: Image, next: Image)
    requires Initial(m)
    ensures IsRun(m, StartAndSend(i) + (AckError() + NextSend(next)))
    ensures Exec(m, StartAndSend(i) + (AckError() + NextSend(next))).hal.Error?
  {
    hide Exec, IsRun, StartAndSend, NextSend, FirstInFlight, Initial, AckSlot;
    StartRun(m);
    StartedAndSent(m, i);
    InFlightFacts(i);
    var m1 := With(Started(m), 0, FirstInFlight(i));
    assert FreshSlot(Started(m).slots[1]);
    AckErrorRun(m1);
    var m2 := With(m1, 0, AckSlot(m1.slots[0]));
    AckSlotFacts(m1.slots[0]);
    NextSendFails(m2, next);
    Prolong(m1, AckError(), NextSend(next), m2);
    Prolong(m, StartAndSend(i), AckError() + NextSend(next), m1);
  }

  lemma AckSlotFacts(s: Slot)
    ensures AckSlot(s).completed && AckSlot(s).sender == s.sender && AckSlot(s).flags == s.flags
  {
  }

  lemma AckErrorRun(m: Machine)
    requires Shape(m) && m.isr.NoIsr? && AckReports(m)
    ensures IsRun(m, AckError()) && Exec(m, AckError()) == With(m, 0, AckSlot(m.slots[0]))
  {
    var e := SceHandler(false, true);
    var m1 := m.(isr := Cleared(true));
    assert Apply(m, e).slots == m.slots;
    RunOfOne(m1, e);
    assert AckError()[1..] == [e];
  }
}
