/** The filter banks as registers: what HAL_CAN_ConfigFilter stores where, for every bank number it may be
    given (sections 32.7.4 and 32.9.4 of RM0090). */
module CanFilterBanks {
  import opened WordBits

  /** `CAN_FilterTypeDef`; `fifo1`, `scale32` and `active` keep what the driver set at start-up, the first
      bank of CAN2 is always 14. */
  datatype FilterConfig = FilterConfig(
    bank: int, idHigh: bv32, idLow: bv32, maskHigh: bv32, maskLow: bv32, list: bool,
    fifo1: bool, scale32: bool, active: bool)

  /** The registers of one bank: FxR1, FxR2 and its bits of FM1R, FFA1R, FS1R and FA1R. */
  datatype Bank = Bank(fr1: bv32, fr2: bv32, list: bool, fifo1: bool, scale32: bool, active: bool)

  /** The two identifier registers of a bank. */
  datatype Pair = Pair(fr1: bv32, fr2: bv32)

  /** The filter registers: FMR; the identifier registers of the banks; and FM1R, FFA1R, FS1R and FA1R, which
      have a bit for each bank. */
  datatype FilterRegs = FilterRegs(
    fmr: bv32, words: map<int, Pair>, mode: bv32, fifo: bv32, scale: bv32, active: bv32)

  /** The hardware has 28 banks. */
  predicate IsBank(k: int) { 0 <= k < 28 }

  /** The bit that HAL_CAN_ConfigFilter uses for a bank number: its low five bits. */
  function Position(bank: int): nat { bank % 32 }

  /** The place, in steps of 8 bytes from `sFilterRegister`, where it stores the identifiers: addresses have
      32 bits, so the number counts modulo 2^29. */
  function Place(bank: int): (place: int)
    ensures -0x1000_0000 <= place < 0x1000_0000
    ensures -0x1000_0000 <= bank < 0x1000_0000 ==> place == bank
    ensures Position(bank) == place % 32
  {
    PlacePosition(bank);
    (bank + 0x1000_0000) % 0x2000_0000 - 0x1000_0000
  }

  lemma PlacePosition(bank: int)
    ensures bank % 32 == ((bank + 0x1000_0000) % 0x2000_0000 - 0x1000_0000) % 32
  {
    var q := (bank + 0x1000_0000) / 0x2000_0000;
    assert bank == (bank + 0x1000_0000) % 0x2000_0000 - 0x1000_0000 + 32 * (0x100_0000 * q);
  }

  function WordsAt(r: FilterRegs, k: int): Pair {
    if k in r.words then r.words[k] else Pair(0, 0)
  }

  /** What the hardware makes of bank `k`. */
  function BankAt(r: FilterRegs, k: nat): Bank
    requires IsBank(k)
  {
    Bank(WordsAt(r, k).fr1, WordsAt(r, k).fr2, Bit(r.mode, k), Bit(r.fifo, k), Bit(r.scale, k), Bit(r.active, k))
  }

  /** How two half words are joined. */
  function Join(high: bv32, low: bv32): bv32 { ((high & 0xFFFF) << 16) | (low & 0xFFFF) }

  function PairFor(cfg: FilterConfig): Pair {
    if cfg.scale32 then Pair(Join(cfg.idHigh, cfg.idLow), Join(cfg.maskHigh, cfg.maskLow))
    else Pair(Join(cfg.maskLow, cfg.idLow), Join(cfg.maskHigh, cfg.idHigh))
  }

  /** The bank a filter configuration asks for. */
  function BankFor(cfg: FilterConfig): Bank {
    Bank(PairFor(cfg).fr1, PairFor(cfg).fr2, cfg.list, cfg.fifo1, cfg.scale32, cfg.active)
  }

  // ---------- FMR ----------

  const FINIT: nat := 0
  const CAN2_START: nat := 14

  /** Filter initialisation: no frame is received, and FM1R, FS1R and FFA1R can be written, as they cannot
      otherwise. */
  predicate Finit(fmr: bv32) { Bit(fmr, FINIT) }

  /** The first bank that belongs to CAN2; those before it are CAN1's. */
  function StartBank(fmr: bv32): nat { ((fmr >> 8) & 0x3F) as nat }

  /** FMR as the function sets it first. */
  function Opened(fmr: bv32): bv32 { ((fmr | 0x1) & !0x3F00) | (14 << 8) }

  /** FMR as it leaves it. */
  function Closed(fmr: bv32): bv32 { ClearBits(fmr, Mask(FINIT)) }

  /** FMR: FINIT in bit 0, CAN2SB in bits 13:8. */
  function FmrOf(init: bv1, start: bv6, others: bv32): bv32 {
    (init as bv32) | ((start as bv32) << 8) | (others & 0xFFFF_C0FE)
  }

  lemma FinitOfFmr(init: bv1, start: bv6, others: bv32)
    ensures Finit(FmrOf(init, start, others)) <==> init == 1
  {
    assert Mask(FINIT) == 1;
    assert FmrOf(init, start, others) & 1 == init as bv32;
  }

  lemma StartOfFmr(init: bv1, start: bv6, others: bv32)
    ensures StartBank(FmrOf(init, start, others)) == start as nat
  {
    assert (FmrOf(init, start, others) >> 8) & 0x3F == start as bv32;
  }

  lemma OpenedByFields(init: bv1, start: bv6, others: bv32)
    ensures Opened(FmrOf(init, start, others)) == FmrOf(1, 14, others)
  {
  }

  lemma ClosedByFields(init: bv1, start: bv6, others: bv32)
    ensures Closed(FmrOf(init, start, others)) == FmrOf(0, start, others)
  {
    assert Mask(FINIT) == 1;
    assert FmrOf(init, start, others) & !1 == FmrOf(0, start, others);
  }

  lemma OpenedIsInit(fmr: bv32)
    ensures Finit(Opened(fmr))
  {
  }

  lemma OpenedStart(fmr: bv32)
    ensures StartBank(Opened(fmr)) == CAN2_START
  {
    assert (Opened(fmr) >> 8) & 0x3F == 14;
  }

  lemma ClosedIsNotInit(fmr: bv32)
    ensures !Finit(Closed(fmr))
  {
    hide Bit, Mask, ClearBits;
    BitOfCleared(fmr, FINIT, FINIT);
  }

  lemma ClosedStart(fmr: bv32)
    ensures StartBank(Closed(fmr)) == StartBank(fmr)
  {
    assert Mask(FINIT) == 1;
    assert ((fmr & !1) >> 8) & 0x3F == (fmr >> 8) & 0x3F;
  }

  // ---------- HAL_CAN_ConfigFilter ----------

  /** The identifiers of a configuration, stored at a place whatever lies there: first FR1, then FR2.  64 bytes
      before `sFilterRegister` that is FMR and FM1R, then for three places a reserved word and FS1R, FFA1R
      or FA1R, then reserved words, then the banks; elsewhere no filter register. */
  function StorePair(r: FilterRegs, place: int, pair: Pair): FilterRegs {
    if place == -8 then r.(fmr := pair.fr1, mode := if Finit(pair.fr1) then pair.fr2 else r.mode)
    else if place == -7 then r.(scale := if Finit(r.fmr) then pair.fr2 else r.scale)
    else if place == -6 then r.(fifo := if Finit(r.fmr) then pair.fr2 else r.fifo)
    else if place == -5 then r.(active := pair.fr2)
    else if IsBank(place) then r.(words := r.words[place := pair])
    else r
  }

  /** The registers up to the stores of the identifiers: initialisation mode, the bank switched off, its scale. */
  function Prepared(r: FilterRegs, cfg: FilterConfig): FilterRegs {
    var p := Position(cfg.bank);
    r.(fmr := Opened(r.fmr), active := ClearBits(r.active, Mask(p)), scale := PutBit(r.scale, p, cfg.scale32))
  }

  /** The registers after them: mode and FIFO, activation, end of the initialisation mode. */
  function Completed(r: FilterRegs, cfg: FilterConfig): FilterRegs {
    var p := Position(cfg.bank);
    FilterRegs(Closed(r.fmr), r.words,
               if Finit(r.fmr) then PutBit(r.mode, p, cfg.list) else r.mode,
               if Finit(r.fmr) then PutBit(r.fifo, p, cfg.fifo1) else r.fifo,
               r.scale,
               if cfg.active then SetBits(r.active, Mask(p)) else r.active)
  }

  /** HAL_CAN_ConfigFilter on a usable handle. */
  function ConfigBank(r: FilterRegs, cfg: FilterConfig): FilterRegs {
    Completed(StorePair(Prepared(r, cfg), Place(cfg.bank), PairFor(cfg)), cfg)
  }

  // ---------- its effect ----------

  lemma StoredWords(r: FilterRegs, place: int, pair: Pair, k: nat)
    requires IsBank(k)
    ensures WordsAt(StorePair(r, place, pair), k) == if k == place then pair else WordsAt(r, k)
  {
    hide Finit;
  }

  // The identifiers stored at places -8 to -5 fall on FMR and FM1R, on FS1R, on FFA1R and on FA1R.

  lemma StoredFmr(r: FilterRegs, place: int, pair: Pair)
    requires Finit(r.fmr)
    ensures StorePair(r, place, pair).fmr == if place == -8 then pair.fr1 else r.fmr
  {
    hide Finit;
  }

  lemma StoredMode(r: FilterRegs, place: int, pair: Pair)
    requires Finit(r.fmr)
    ensures StorePair(r, place, pair).mode == if place == -8 && Finit(pair.fr1) then pair.fr2 else r.mode
  {
    hide Finit;
  }

  lemma StoredScale(r: FilterRegs, place: int, pair: Pair)
    requires Finit(r.fmr)
    ensures StorePair(r, place, pair).scale == if place == -7 then pair.fr2 else r.scale
  {
    hide Finit;
  }

  lemma StoredFifo(r: FilterRegs, place: int, pair: Pair)
    requires Finit(r.fmr)
    ensures StorePair(r, place, pair).fifo == if place == -6 then pair.fr2 else r.fifo
  {
    hide Finit;
  }

  lemma StoredActive(r: FilterRegs, place: int, pair: Pair)
    requires Finit(r.fmr)
    ensures StorePair(r, place, pair).active == if place == -5 then pair.fr2 else r.active
  {
    hide Finit;
  }

  /** The bits of FM1R, FFA1R, FS1R and FA1R that belong to a bank. */
  datatype Field = Mode | Fifo | Scale | Active

  function FieldAt(r: FilterRegs, f: Field, k: nat): bool
    requires IsBank(k)
  {
    match f
    case Mode => Bit(r.mode, k)
    case Fifo => Bit(r.fifo, k)
    case Scale => Bit(r.scale, k)
    case Active => Bit(r.active, k)
  }

  function Wanted(cfg: FilterConfig, f: Field): bool {
    match f
    case Mode => cfg.list
    case Fifo => cfg.fifo1
    case Scale => cfg.scale32
    case Active => cfg.active
  }

  /** The place at which the identifiers overwrite the register of a field. */
  function PlaceOf(f: Field): int {
    match f
    case Mode => -8
    case Fifo => -6
    case Scale => -7
    case Active => -5
  }

  /** Whether a configuration decides a field of bank `k`: as the bank at its bit, or by overwriting the whole
      register; but one that overwrites FMR with initialisation mode off leaves modes and FIFOs alone. */
  predicate Decides(cfg: FilterConfig, f: Field, k: nat)
  {
    if Place(cfg.bank) == -8 && (f.Mode? || f.Fifo?) && !Finit(PairFor(cfg).fr1) then false
    else k == Position(cfg.bank) || Place(cfg.bank) == PlaceOf(f)
  }

  /** What it makes of the field then.  The scale is set before the identifiers are stored, mode, FIFO and
      activation after. */
  predicate Decision(cfg: FilterConfig, f: Field, k: nat)
    requires IsBank(k)
  {
    if Place(cfg.bank) != PlaceOf(f) then Wanted(cfg, f)
    else
      match f
      case Scale => Bit(PairFor(cfg).fr2, k)
      case Active => Bit(PairFor(cfg).fr2, k) || (k == Position(cfg.bank) && cfg.active)
      case _ => if k == Position(cfg.bank) then Wanted(cfg, f) else Bit(PairFor(cfg).fr2, k)
  }

  lemma PreparedEffect(r: FilterRegs, cfg: FilterConfig, k: nat)
    requires IsBank(k)
    ensures var q := Prepared(r, cfg);
            && Finit(q.fmr) && q.words == r.words && q.mode == r.mode && q.fifo == r.fifo
            && (Bit(q.scale, k) <==> if k == Position(cfg.bank) then cfg.scale32 else Bit(r.scale, k))
            && (Bit(q.active, k) <==> k != Position(cfg.bank) && Bit(r.active, k))
  {
    hide Bit, Mask, SetBits, ClearBits, PutBit, Opened, Finit;
    OpenedIsInit(r.fmr);
    BitOfPut(r.scale, Position(cfg.bank), cfg.scale32, k);
    BitOfCleared(r.active, Position(cfg.bank), k);
  }

  lemma CompletedEffect(r: FilterRegs, cfg: FilterConfig, k: nat)
    requires IsBank(k)
    ensures var t := Completed(r, cfg);
            var here := k == Position(cfg.bank);
            && (Bit(t.mode, k) <==> if here && Finit(r.fmr) then cfg.list else Bit(r.mode, k))
            && (Bit(t.fifo, k) <==> if here && Finit(r.fmr) then cfg.fifo1 else Bit(r.fifo, k))
            && (Bit(t.active, k) <==> Bit(r.active, k) || (here && cfg.active))
            && t.scale == r.scale && t.words == r.words
  {
    hide Bit, Mask, SetBits, ClearBits, PutBit, Closed, Finit;
    BitOfPut(r.mode, Position(cfg.bank), cfg.list, k);
    BitOfPut(r.fifo, Position(cfg.bank), cfg.fifo1, k);
    BitOfSet(r.active, Position(cfg.bank), k);
  }

  lemma ConfigWords(r: FilterRegs, cfg: FilterConfig, k: nat)
    requires IsBank(k)
    ensures WordsAt(ConfigBank(r, cfg), k) == if k == Place(cfg.bank) then PairFor(cfg) else WordsAt(r, k)
  {
    hide Bit, StorePair, PutBit, Opened, Closed, ClearBits, SetBits, Finit, PairFor, Place, Position;
    var q := Prepared(r, cfg);
    StoredWords(q, Place(cfg.bank), PairFor(cfg), k);
    assert WordsAt(q, k) == WordsAt(r, k);
  }

  lemma ConfigField(r: FilterRegs, cfg: FilterConfig, k: nat, f: Field)
    requires IsBank(k)
    ensures FieldAt(ConfigBank(r, cfg), f, k) <==> if Decides(cfg, f, k) then Decision(cfg, f, k) else FieldAt(r, f, k)
  {
    hide Bit, Prepared, StorePair, Completed, Finit, PairFor, Place, Position, WordsAt;
    var q := Prepared(r, cfg);
    PreparedEffect(r, cfg, k);
    var pair := PairFor(cfg);
    StoredFmr(q, Place(cfg.bank), pair);
    StoredMode(q, Place(cfg.bank), pair);
    StoredScale(q, Place(cfg.bank), pair);
    StoredFifo(q, Place(cfg.bank), pair);
    StoredActive(q, Place(cfg.bank), pair);
    CompletedEffect(StorePair(q, Place(cfg.bank), PairFor(cfg)), cfg, k);
  }

  /** For every bank number, also out of range: the identifiers of bank `k` are replaced when the place is
      `k`, and each of its fields takes the decision of the configuration where that decides it. */
  lemma ConfigBankEffect(r: FilterRegs, cfg: FilterConfig, k: nat, f: Field)
    requires IsBank(k)
    ensures var t := ConfigBank(r, cfg);
            && WordsAt(t, k) == (if k == Place(cfg.bank) then PairFor(cfg) else WordsAt(r, k))
            && (FieldAt(t, f, k) <==> if Decides(cfg, f, k) then Decision(cfg, f, k) else FieldAt(r, f, k))
  {
    hide *;
    ConfigWords(r, cfg, k);
    ConfigField(r, cfg, k, f);
  }

  /** The device is always left out of initialisation mode, with banks 0 to 13 for CAN1, unless the
      identifiers went to FMR. */
  lemma ConfigBankStart(r: FilterRegs, cfg: FilterConfig)
    ensures !Finit(ConfigBank(r, cfg).fmr)
    ensures StartBank(ConfigBank(r, cfg).fmr)
            == if Place(cfg.bank) == -8 then StartBank(PairFor(cfg).fr1) else CAN2_START
  {
    hide Bit, Mask, SetBits, ClearBits, PutBit, Opened, Closed, Finit, StartBank, PairFor, StorePair;
    var q := Prepared(r, cfg);
    OpenedIsInit(r.fmr);
    OpenedStart(r.fmr);
    StoredFmr(q, Place(cfg.bank), PairFor(cfg));
    var u := StorePair(q, Place(cfg.bank), PairFor(cfg));
    ClosedIsNotInit(u.fmr);
    ClosedStart(u.fmr);
  }

  // ---------- one bank and nothing else ----------

  lemma BankByFields(r: FilterRegs, k: nat)
    requires IsBank(k)
    ensures BankAt(r, k) == Bank(WordsAt(r, k).fr1, WordsAt(r, k).fr2, FieldAt(r, Mode, k), FieldAt(r, Fifo, k),
                                 FieldAt(r, Scale, k), FieldAt(r, Active, k))
  {
  }

  /** Bank `k` is now `b`, and every other bank is as before. */
  ghost predicate OnlyBank(r: FilterRegs, t: FilterRegs, k: int, b: Bank) {
    && IsBank(k)
    && BankAt(t, k) == b
    && forall j: nat | IsBank(j) && j != k :: BankAt(t, j) == BankAt(r, j)
  }

  /** The configuration lands in one bank of the hardware, and only there. */
  ghost predicate LandsInABank(r: FilterRegs, cfg: FilterConfig) {
    exists k :: OnlyBank(r, ConfigBank(r, cfg), k, BankFor(cfg))
  }

  lemma FieldInRange(r: FilterRegs, cfg: FilterConfig, k: nat, f: Field)
    requires IsBank(Place(cfg.bank)) && IsBank(k)
    ensures FieldAt(ConfigBank(r, cfg), f, k) == if k == Place(cfg.bank) then Wanted(cfg, f) else FieldAt(r, f, k)
    ensures WordsAt(ConfigBank(r, cfg), k) == if k == Place(cfg.bank) then PairFor(cfg) else WordsAt(r, k)
  {
    hide ConfigBank, FieldAt, PairFor, Finit, Bit, WordsAt, Place;
    ConfigBankEffect(r, cfg, k, f);
    PlaceIsPosition(cfg.bank);
  }

  lemma PlaceIsPosition(bank: int)
    requires IsBank(Place(bank))
    ensures Position(bank) == Place(bank)
  {
  }

  lemma ConfigInRange(r: FilterRegs, cfg: FilterConfig, k: nat)
    requires IsBank(Place(cfg.bank)) && IsBank(k)
    ensures BankAt(ConfigBank(r, cfg), k) == if k == Place(cfg.bank) then BankFor(cfg) else BankAt(r, k)
  {
    hide ConfigBank, BankAt, FieldAt, PairFor, WordsAt, Place;
    BankByFields(r, k);
    BankByFields(ConfigBank(r, cfg), k);
    FieldInRange(r, cfg, k, Mode);
    FieldInRange(r, cfg, k, Fifo);
    FieldInRange(r, cfg, k, Scale);
    FieldInRange(r, cfg, k, Active);
  }

  /** A configuration lands in one bank and changes no other, whatever the registers held, exactly when its
      number, modulo 2^29, is one of the 28. */
  lemma LandsInABankIff(cfg: FilterConfig)
    ensures (forall r: FilterRegs :: LandsInABank(r, cfg)) <==> IsBank(cfg.bank % 0x2000_0000)
  {
    hide ConfigBank, BankAt, BankFor;
    var place := Place(cfg.bank);
    if IsBank(place) {
      forall r: FilterRegs ensures LandsInABank(r, cfg) {
        forall k: nat | IsBank(k)
          ensures BankAt(ConfigBank(r, cfg), k) == if k == place then BankFor(cfg) else BankAt(r, k)
        {
          ConfigInRange(r, cfg, k);
        }
        assert OnlyBank(r, ConfigBank(r, cfg), place, BankFor(cfg));
      }
    } else {
      NowhereToLand(cfg);
    }
    PlaceInRange(cfg.bank);
  }

  lemma PlaceInRange(bank: int)
    ensures IsBank(Place(bank)) <==> IsBank(bank % 0x2000_0000)
  {
    var q := bank / 0x2000_0000;
    var m := bank % 0x2000_0000;
    assert bank == 0x2000_0000 * q + m;
    assert Place(bank) == if m < 0x1000_0000 then m else m - 0x2000_0000;
  }

  lemma NowhereToLand(cfg: FilterConfig)
    requires !IsBank(Place(cfg.bank))
    ensures exists r: FilterRegs :: !LandsInABank(r, cfg)
  {
    hide ConfigBank, PairFor, Finit, Bit;
    var other := if PairFor(cfg) == Pair(0, 0) then Pair(1, 0) else Pair(0, 0);
    var r := FilterRegs(0, map k | 0 <= k < 28 && IsBank(k) :: other, 0, 0, 0, 0);
    forall k: nat | IsBank(k) ensures BankAt(ConfigBank(r, cfg), k) != BankFor(cfg) {
      ConfigBankEffect(r, cfg, k, Mode);
    }
    assert !LandsInABank(r, cfg);
  }
}
