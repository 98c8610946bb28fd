/** The bxCAN transmit registers as words (section 32.9.2 of RM0090), and the mailbox-wise view of
    them that the protocol machine works with. */
module CanRegisters {
  import opened CanFrame
  import opened CanProtocol

  const TXRQ: bv32 := 0x1

  /** The words of one transmit mailbox. */
  datatype Words = Words(tir: bv32, tdtr: bv32, tdhr: bv32, tdlr: bv32)

  /** RQCPb, the lowest bit of mailbox `b`'s group in TSR; TXOK, ALST, TERR and ABRQ follow it. */
  function Rqcp(b: nat): bv32
    requires b < 3
  {
    if b == 0 then 0x1 else if b == 1 then 0x100 else 0x1_0000
  }

  function Txok(b: nat): bv32
    requires b < 3
  {
    if b == 0 then 0x2 else if b == 1 then 0x200 else 0x2_0000
  }

  /** RQCP, TXOK, ALST and TERR of one mailbox. */
  function StatusGroup(b: nat): bv32
    requires b < 3
  {
    if b == 0 then 0xF else if b == 1 then 0xF00 else 0xF_0000
  }

  function Tme(b: nat): bv32
    requires b < 3
  {
    if b == 0 then 0x0400_0000 else if b == 1 then 0x0800_0000 else 0x1000_0000
  }

  function FlagsOf(tsr: bv32, b: nat): Flags
    requires b < 3
  {
    if b == 0 then
      Flags(tsr & 0x0400_0000 != 0, tsr & 0x1 != 0, tsr & 0x2 != 0, tsr & 0x4 != 0, tsr & 0x8 != 0)
    else if b == 1 then
      Flags(tsr & 0x0800_0000 != 0, tsr & 0x100 != 0, tsr & 0x200 != 0, tsr & 0x400 != 0, tsr & 0x800 != 0)
    else
      Flags(tsr & 0x1000_0000 != 0, tsr & 0x1_0000 != 0, tsr & 0x2_0000 != 0, tsr & 0x4_0000 != 0, tsr & 0x8_0000 != 0)
  }

  /** RQCP, TXOK, ALST and TERR of mailbox b are bits 8b to 8b + 3, its TME is bit 26 + b. */
  lemma FlagsAreBits(tsr: bv32)
    ensures FlagsOf(tsr, 0)
            == Flags(IsSet(tsr, 26), IsSet(tsr, 0), IsSet(tsr, 1), IsSet(tsr, 2), IsSet(tsr, 3))
    ensures FlagsOf(tsr, 1)
            == Flags(IsSet(tsr, 27), IsSet(tsr, 8), IsSet(tsr, 9), IsSet(tsr, 10), IsSet(tsr, 11))
    ensures FlagsOf(tsr, 2)
            == Flags(IsSet(tsr, 28), IsSet(tsr, 16), IsSet(tsr, 17), IsSet(tsr, 18), IsSet(tsr, 19))
  {
  }

  /** The bits of TSR that writing `w` clears: every rc_w1 bit written as one, and with an RQCP the
      rest of its group. */
  function ClearedBy(w: bv32): bv32 {
    (w & 0x000F_0F0F)
    | (if w & 0x1 != 0 then 0xF else 0)
    | (if w & 0x100 != 0 then 0xF00 else 0)
    | (if w & 0x1_0000 != 0 then 0xF_0000 else 0)
  }

  /** A write to TSR: ABRQ bits can only be set, everything else not rc_w1 is read-only. */
  function WriteTsr(tsr: bv32, w: bv32): bv32 {
    (tsr & !ClearedBy(w)) | (w & 0x0080_8080)
  }

  /** The word a `SET_BIT(TSR, RQCPb)` writes back, given the word it read. */
  function SetRqcp(tsr: bv32, b: nat): bv32
    requires b < 3
  {
    tsr | Rqcp(b)
  }

  /** What the hardware does to TSR when TXRQ of mailbox `b` is set. */
  function RequestTsr(tsr: bv32, b: nat): bv32
    requires b < 3
  {
    tsr & !(Tme(b) | StatusGroup(b))
  }

  lemma WriteTsrAt0(tsr: bv32, w: bv32)
    ensures FlagsOf(WriteTsr(tsr, w), 0) == WriteOneToClear(FlagsOf(tsr, 0), FlagsOf(w, 0))
  {
  }

  lemma WriteTsrAt1(tsr: bv32, w: bv32)
    ensures FlagsOf(WriteTsr(tsr, w), 1) == WriteOneToClear(FlagsOf(tsr, 1), FlagsOf(w, 1))
  {
  }

  lemma WriteTsrAt2(tsr: bv32, w: bv32)
    ensures FlagsOf(WriteTsr(tsr, w), 2) == WriteOneToClear(FlagsOf(tsr, 2), FlagsOf(w, 2))
  {
  }

  /** Writing a word to TSR acts on each mailbox on its own. */
  lemma WriteTsrByMailbox(tsr: bv32, w: bv32, c: nat)
    requires c < 3
    ensures FlagsOf(WriteTsr(tsr, w), c) == WriteOneToClear(FlagsOf(tsr, c), FlagsOf(w, c))
  {
    hide *;
    if c == 0 {
      WriteTsrAt0(tsr, w);
    } else if c == 1 {
      WriteTsrAt1(tsr, w);
    } else {
      WriteTsrAt2(tsr, w);
    }
  }

  // One fact per pair of mailboxes: small enough for bit-blasting.
  lemma SetRqcp0At0(tsr: bv32)
    ensures FlagsOf(SetRqcp(tsr, 0), 0) == FlagsOf(tsr, 0).(rqcp := true)
  {}
  lemma SetRqcp1At0(tsr: bv32)
    ensures FlagsOf(SetRqcp(tsr, 1), 0) == FlagsOf(tsr, 0)
  {}
  lemma SetRqcp2At0(tsr: bv32)
    ensures FlagsOf(SetRqcp(tsr, 2), 0) == FlagsOf(tsr, 0)
  {}
  lemma SetRqcp0At1(tsr: bv32)
    ensures FlagsOf(SetRqcp(tsr, 0), 1) == FlagsOf(tsr, 1)
  {}
  lemma SetRqcp1At1(tsr: bv32)
    ensures FlagsOf(SetRqcp(tsr, 1), 1) == FlagsOf(tsr, 1).(rqcp := true)
  {}
  lemma SetRqcp2At1(tsr: bv32)
    ensures FlagsOf(SetRqcp(tsr, 2), 1) == FlagsOf(tsr, 1)
  {}
  lemma SetRqcp0At2(tsr: bv32)
    ensures FlagsOf(SetRqcp(tsr, 0), 2) == FlagsOf(tsr, 2)
  {}
  lemma SetRqcp1At2(tsr: bv32)
    ensures FlagsOf(SetRqcp(tsr, 1), 2) == FlagsOf(tsr, 2)
  {}
  lemma SetRqcp2At2(tsr: bv32)
    ensures FlagsOf(SetRqcp(tsr, 2), 2) == FlagsOf(tsr, 2).(rqcp := true)
  {}

  /** Setting RQCPb in a word read from TSR changes that one flag. */
  lemma SetRqcpByMailbox(tsr: bv32, b: nat, c: nat)
    requires b < 3 && c < 3
    ensures FlagsOf(SetRqcp(tsr, b), c) == FlagsOf(tsr, c).(rqcp := b == c || FlagsOf(tsr, c).rqcp)
  {
    hide *;
    match (b, c)
    case (0, 0) => SetRqcp0At0(tsr);
    case (0, 1) => SetRqcp0At1(tsr);
    case (0, _) => SetRqcp0At2(tsr);
    case (1, 0) => SetRqcp1At0(tsr);
    case (1, 1) => SetRqcp1At1(tsr);
    case (1, _) => SetRqcp1At2(tsr);
    case (_, 0) => SetRqcp2At0(tsr);
    case (_, 1) => SetRqcp2At1(tsr);
    case (_, _) => SetRqcp2At2(tsr);
  }

  function StatusCleared(tsr: bv32): bv32 { tsr & 0xFFF0_F0F0 }

  /** Writing back a word read from TSR with one RQCP set clears every status bit of every mailbox and
      changes no other bit. */
  lemma WriteBackClearsAll(tsr: bv32, b: nat)
    requires b < 3
    ensures WriteTsr(tsr, SetRqcp(tsr, b)) == StatusCleared(tsr)
  {
  }

  /** The bits of TSR a request in mailbox `b` leaves alone: all but its TME and its status bits. */
  function SparedByRequest(tsr: bv32, b: nat): bv32
    requires b < 3
  {
    if b == 0 then tsr & 0xFBFF_FFF0 else if b == 1 then tsr & 0xF7FF_F0FF else tsr & 0xEFF0_FFFF
  }

  lemma Request0Spares(tsr: bv32)
    ensures RequestTsr(tsr, 0) == SparedByRequest(tsr, 0)
  {
  }

  lemma Request1Spares(tsr: bv32)
    ensures RequestTsr(tsr, 1) == SparedByRequest(tsr, 1)
  {
  }

  lemma Request2Spares(tsr: bv32)
    ensures RequestTsr(tsr, 2) == SparedByRequest(tsr, 2)
  {
  }

  lemma RequestSpares(tsr: bv32, b: nat)
    requires b < 3
    ensures RequestTsr(tsr, b) == SparedByRequest(tsr, b)
  {
    hide *;
    if b == 0 {
      Request0Spares(tsr);
    } else if b == 1 {
      Request1Spares(tsr);
    } else {
      Request2Spares(tsr);
    }
  }

  /** A transmission request empties the status of its own mailbox and touches no other. */
  lemma RequestByMailbox(tsr: bv32, b: nat, c: nat)
    requires b < 3 && c < 3
    ensures FlagsOf(RequestTsr(tsr, b), c)
            == if b == c then Flags(false, false, false, false, false) else FlagsOf(tsr, c)
  {
  }

  // ---------- the acknowledge-error test of the SCE handler ----------

  /** Which mailbox the acknowledge-error branch reports as failed, if any.  The masks are flag
      encodings (CAN_FLAG_TXOK0..2), used here as if they were bit masks. */
  function AckErrorReport(tsr: bv32): (r: int) {
    if tsr & 0x501 == 0 then 0
    else if tsr & 0x509 == 0 then 1
    else if tsr & 0x511 == 0 then 2
    else -1
  }

  /** The branches for mailboxes 1 and 2 are never taken, and mailbox 0 is reported as failed exactly
      when RQCP0, RQCP1 and ALST1 are clear, whatever TXOK0 says. */
  lemma AckErrorOnlyReportsMailbox0(tsr: bv32)
    ensures AckErrorReport(tsr) in {-1, 0}
    ensures AckErrorReport(tsr) == 0
            <==> !FlagsOf(tsr, 0).rqcp && !FlagsOf(tsr, 1).rqcp && !FlagsOf(tsr, 1).alst
  {
  }

  /** The one branch that can be taken tests the flag encoding of TXOK0, as a mask. */
  predicate AckMaskClear(tsr: bv32) { tsr & 0x501 == 0 }

  lemma AckErrorMask(tsr: bv32)
    ensures AckErrorReport(tsr) == 0 <==> AckMaskClear(tsr)
  {
  }

  /** ESR names an acknowledge error: LEC, bits 6:4, is 3. */
  predicate AckErrorIn(esr: bv32) { (esr >> 4) & 7 == 3 }
}
