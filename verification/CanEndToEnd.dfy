/** From a sender's frame to a receiver's frame, across every interleaving. */
module CanEndToEnd {
  import opened CanFrame
  import opened CanProtocol
  import opened CanRuns

  /** The image of a frame the driver may be asked to send. */
  ghost predicate IsFrameImage(image: Image) {
    exists f: Frame :: f.Valid() && image == ImageOf(f)
  }

  ghost predicate EntersFrames(es: seq<Step>) {
    forall i | 0 <= i < |es| :: es[i].Enter? ==> IsFrameImage(es[i].image)
  }

  ghost predicate CarriesFrames(s: Slot) {
    && (s.sender.Entered? || s.sender.Writing? ==> IsFrameImage(s.sender.image))
    && forall i | 0 <= i < |s.accepted| :: IsFrameImage(s.accepted[i])
  }

  lemma StepCarriesFrames(m: Machine, e: Step, b: nat)
    requires Inv(m) && Enabled(m, e) && b < 3 && CarriesFrames(m.slots[b])
    requires e.Enter? ==> IsFrameImage(e.image)
    ensures CarriesFrames(Apply(m, e).slots[b])
  {
    hide IsFrameImage, WriteWord;
  }

  lemma {:induction false} RunCarriesFrames(m: Machine, es: seq<Step>, b: nat)
    requires Inv(m) && IsRun(m, es) && EntersFrames(es) && b < 3 && CarriesFrames(m.slots[b])
    ensures CarriesFrames(Exec(m, es).slots[b])
    decreases |es|
  {
    hide IsFrameImage, CarriesFrames;
    if es != [] {
      assert es[0].Enter? ==> IsFrameImage(es[0].image);
      StepCarriesFrames(m, es[0], b);
      StepKeepsInv(m, es[0]);
      RunCarriesFrames(Apply(m, es[0]), es[1..], b);
    }
  }

  lemma FrameOfImage(image: Image, r: Received) returns (f: Frame)
    requires IsFrameImage(image) && Carries(r, image)
    ensures f.Valid() && image == ImageOf(f) && Unpack(r) == f
  {
    hide ImageOf, Carries, Unpack, IdFits, FitsDlc;
    f :| f.Valid() && image == ImageOf(f);
    UnpackUndoesPack(f, r);
  }

  /** Whatever a receiver takes from a mailbox in flight, in any reachable state, is the valid frame
      whose send was accepted last on that mailbox. */
  lemma ReceiverGetsAcceptedFrame(m: Machine, es: seq<Step>, b: nat, r: Received) returns (f: Frame)
    requires Initial(m) && IsRun(m, es) && EntersFrames(es) && b < 3
    requires Exec(m, es).slots[b].txrq && Carries(r, Exec(m, es).slots[b].regs)
    ensures f.Valid() && Unpack(r) == f
    ensures |Exec(m, es).slots[b].accepted| > 0
    ensures var accepted := Exec(m, es).slots[b].accepted;
            accepted[|accepted| - 1] == ImageOf(f)
  {
    hide ImageOf, Carries, Unpack, IdFits, FitsDlc, IsFrameImage;
    InitialInv(m);
    assert FreshSlot(m.slots[b]);
    RunCarriesFrames(m, es, b);
    RunKeepsInv(m, es);
    var s := Exec(m, es).slots[b];
    assert SlotInv(s, Exec(m, es).isr, b);
    f := FrameOfImage(s.regs, r);
  }
}
