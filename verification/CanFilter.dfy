/** Acceptance filters: what RT_CAN_CMD_SET_FILTER makes of a list of items, and which frames the hardware
    then lets through (section 32.7.4 of RM0090). */
module CanFilter {
  import opened CanFrame
  import opened WordBits
  import opened CanFilterBanks
  import opened CanFilterMasks

  /** `struct rt_can_filter_item`; `bank` is its signed `hdr`, which nothing checks on the way to
      HAL_CAN_ConfigFilter. */
  datatype Item = Item(id: bv32, ide: bool, rtr: bool, list: bool, mask: bv32, bank: int)

  const DEFAULT_FILTER := FilterConfig(0, 0, 0, 0, 0, false, false, true, true)

  function IdeBit(ide: bool): bv32 { if ide then 0x4 else 0x0 }

  function IdHigh(id: bv32): bv32 { (id >> 13) & 0xFFFF }

  function IdLow(id: bv32, ide: bool, rtr: bool): bv32 {
    ((id << 3) | IdeBit(ide) | RtrBit(rtr)) & 0xFFFF
  }

  function High(mask: bv32): bv32 { (mask >> 16) & 0xFFFF }

  function Low(mask: bv32): bv32 { mask & 0xFFFF }

  function WithItem(cfg: FilterConfig, item: Item): FilterConfig {
    cfg.(bank := item.bank, idHigh := IdHigh(item.id), idLow := IdLow(item.id, item.ide, item.rtr),
         maskHigh := High(item.mask), maskLow := Low(item.mask), list := item.list)
  }

  // ---------- which frames a bank accepts ----------

  /** The half word of a frame in 16-bit scale: standard identifier, RTR, IDE and the upper three bits of the
      identifier extension. */
  function Half(word: bv32): bv32 {
    ((word >> 16) & 0xFFE0) | ((word & 0x2) << 3) | ((word & 0x4) << 1) | ((word >> 18) & 0x7)
  }

  /** Half by its fields: STDID in bits 15:5, RTR in 4, IDE in 3, EXID 17:15 in 2:0. */
  lemma HalfFields(word: bv32)
    ensures Half(word) >> 5 == word >> 21
    ensures (Half(word) >> 4) & 1 == (word >> 1) & 1
    ensures (Half(word) >> 3) & 1 == (word >> 2) & 1
    ensures Half(word) & 7 == (word >> 18) & 7
  {
  }

  /** In 32-bit scale a bank is one identifier and its mask, or two identifiers. */
  predicate Accepts32(bank: Bank, word: bv32) {
    if bank.list then word == bank.fr1 || word == bank.fr2 else Agree(word, bank.fr1, bank.fr2)
  }

  /** In 16-bit scale it is two identifiers, each with its mask in the upper half word, or four identifiers. */
  predicate Accepts16(bank: Bank, half: bv32) {
    if bank.list then half in {Low(bank.fr1), High(bank.fr1), Low(bank.fr2), High(bank.fr2)}
    else Agree(half, Low(bank.fr1), High(bank.fr1)) || Agree(half, Low(bank.fr2), High(bank.fr2))
  }

  /** One filter bank, as a test on the identifier word of a frame. */
  predicate Accepts(bank: Bank, word: bv32) {
    bank.active && (if bank.scale32 then Accepts32(bank, word) else Accepts16(bank, Half(word)))
  }

  /** CAN1 receives a frame when one of the banks before CAN2's accepts it, outside initialisation mode. */
  ghost predicate DeviceAccepts(r: FilterRegs, word: bv32) {
    !Finit(r.fmr) && exists k: nat :: k < StartBank(r.fmr) && IsBank(k) && Accepts(BankAt(r, k), word)
  }

  // ---------- a whole filter command ----------

  /** The state a filter command changes: the stored configuration and the registers. */
  datatype FilterState = FilterState(cfg: FilterConfig, regs: FilterRegs)

  /** HAL_CAN_ConfigFilter with the stored configuration, on a usable handle. */
  function ConfigFilter(s: FilterState): FilterState {
    s.(regs := ConfigBank(s.regs, s.cfg))
  }

  function SetItem(s: FilterState, item: Item): FilterState {
    ConfigFilter(s.(cfg := WithItem(s.cfg, item)))
  }

  function SetItems(s: FilterState, items: seq<Item>): FilterState
    decreases |items|
  {
    if items == [] then s else SetItem(SetItems(s, items[..|items| - 1]), items[|items| - 1])
  }

  ghost predicate SameFixed(c: FilterConfig, d: FilterConfig) {
    c.fifo1 == d.fifo1 && c.scale32 == d.scale32 && c.active == d.active
  }

  /** An item overwrites everything a previous item set. */
  lemma WithItemForgets(c: FilterConfig, d: FilterConfig, item: Item)
    requires SameFixed(c, d)
    ensures WithItem(c, item) == WithItem(d, item)
  {
  }

  /** The last item whose identifiers go to place `k`, or -1. */
  function LastStored(items: seq<Item>, k: int): (r: int)
    ensures -1 <= r < |items|
    ensures r >= 0 ==> Place(items[r].bank) == k
    ensures forall i | r < i < |items| :: Place(items[i].bank) != k
    decreases |items|
  {
    if items == [] then -1
    else if Place(items[|items| - 1].bank) == k then |items| - 1
    else LastStored(items[..|items| - 1], k)
  }

  /** The last item that decides a field of bank `k`, or -1. */
  function LastDecider(cfg: FilterConfig, items: seq<Item>, f: Field, k: nat): (r: int)
    ensures -1 <= r < |items|
    ensures r >= 0 ==> Decides(WithItem(cfg, items[r]), f, k)
    ensures forall i | r < i < |items| :: !Decides(WithItem(cfg, items[i]), f, k)
    decreases |items|
  {
    if items == [] then -1
    else if Decides(WithItem(cfg, items[|items| - 1]), f, k) then |items| - 1
    else LastDecider(cfg, items[..|items| - 1], f, k)
  }

  /** After a filter command, for items of any number: each bank has the identifiers of the last item stored
      there, and each of its fields what the last item that decides it makes of it; what has no such item
      is as before; and the configuration that a later `_can_config` applies again is that of the last
      item alone. */
  lemma {:induction false} SetItemsMeaning(s: FilterState, items: seq<Item>, k: nat, f: Field)
    requires IsBank(k)
    ensures var t := SetItems(s, items);
            var w, d := LastStored(items, k), LastDecider(s.cfg, items, f, k);
            && SameFixed(s.cfg, t.cfg)
            && (items != [] ==> t.cfg == WithItem(s.cfg, items[|items| - 1]))
            && WordsAt(t.regs, k) == (if w >= 0 then PairFor(WithItem(s.cfg, items[w])) else WordsAt(s.regs, k))
            && (FieldAt(t.regs, f, k)
                <==> if d >= 0 then Decision(WithItem(s.cfg, items[d]), f, k) else FieldAt(s.regs, f, k))
    decreases |items|
  {
    hide ConfigBank, PairFor, Decides, Decision, WordsAt, FieldAt;
    if items != [] {
      var front := items[..|items| - 1];
      var last := items[|items| - 1];
      SetItemsMeaning(s, front, k, f);
      var u := SetItems(s, front);
      WithItemForgets(s.cfg, u.cfg, last);
      ConfigBankEffect(u.regs, WithItem(u.cfg, last), k, f);
    }
  }

  /** After a filter command with items the device is out of initialisation mode, with banks 0 to 13 for CAN1
      unless the last item went to FMR. */
  lemma SetItemsStart(s: FilterState, items: seq<Item>)
    requires items != []
    ensures var t := SetItems(s, items);
            var last := items[|items| - 1];
            && !Finit(t.regs.fmr)
            && StartBank(t.regs.fmr)
               == if Place(last.bank) == -8 then StartBank(PairFor(WithItem(s.cfg, last)).fr1) else CAN2_START
  {
    hide ConfigBank, PairFor, Finit, StartBank, Place;
    var front := items[..|items| - 1];
    SetItemsMeaning(s, front, 0, Mode);
    var u := SetItems(s, front);
    WithItemForgets(s.cfg, u.cfg, items[|items| - 1]);
    ConfigBankStart(u.regs, WithItem(u.cfg, items[|items| - 1]));
  }

  function ItemBank(cfg: FilterConfig, item: Item): Bank { BankFor(WithItem(cfg, item)) }

  /** When every item names one of the 28 banks, each bank holds the last item meant for it and the others
      are as before. */
  lemma {:induction false} SetItemsInRange(s: FilterState, items: seq<Item>, k: nat)
    requires IsBank(k) && forall i | 0 <= i < |items| :: IsBank(items[i].bank)
    ensures var w := LastStored(items, k);
            && SameFixed(s.cfg, SetItems(s, items).cfg)
            && BankAt(SetItems(s, items).regs, k) == if w >= 0 then ItemBank(s.cfg, items[w]) else BankAt(s.regs, k)
    decreases |items|
  {
    hide BankFor, BankAt, ConfigBank;
    if items != [] {
      var front := items[..|items| - 1];
      var last := items[|items| - 1];
      SetItemsInRange(s, front, k);
      var u := SetItems(s, front);
      WithItemForgets(s.cfg, u.cfg, last);
      ConfigInRange(u.regs, WithItem(u.cfg, last), k);
    }
  }

  /** The bank an item asks for, as the hardware finds it after the item was set. */
  function Installed(s: FilterState, item: Item): Bank
    requires IsBank(item.bank)
  {
    BankAt(SetItem(s, item).regs, item.bank)
  }

  lemma InstalledIs(s: FilterState, item: Item)
    requires IsBank(item.bank)
    ensures Installed(s, item) == ItemBank(s.cfg, item)
  {
    hide BankFor, BankAt, ConfigBank;
    ConfigInRange(s.regs, WithItem(s.cfg, item), item.bank);
  }

  // ---------- the filter word of an item is the identifier word of a frame ----------

  /** The layout the driver uses for every item, standard ones included. */
  function ItemWord(id: bv32, ide: bool, rtr: bool): bv32 { (id << 3) | IdeBit(ide) | RtrBit(rtr) }

  lemma HighHalfExtRemote(id: bv32)
    ensures IdHigh(id) == High(ItemWord(id, true, true))
  {
  }

  lemma HighHalfExtData(id: bv32)
    ensures IdHigh(id) == High(ItemWord(id, true, false))
  {
  }

  lemma HighHalfStdRemote(id: bv32)
    ensures IdHigh(id) == High(ItemWord(id, false, true))
  {
  }

  lemma HighHalfStdData(id: bv32)
    ensures IdHigh(id) == High(ItemWord(id, false, false))
  {
  }

  lemma HighHalf(id: bv32, ide: bool, rtr: bool)
    ensures IdHigh(id) == High(ItemWord(id, ide, rtr))
  {
    hide *;
    match (ide, rtr)
    case (true, true) => HighHalfExtRemote(id);
    case (true, false) => HighHalfExtData(id);
    case (false, true) => HighHalfStdRemote(id);
    case (false, false) => HighHalfStdData(id);
  }

  lemma LowHalf(id: bv32, ide: bool, rtr: bool)
    ensures IdLow(id, ide, rtr) == Low(ItemWord(id, ide, rtr))
  {
  }

  lemma JoinWord(word: bv32)
    ensures Join(High(word), Low(word)) == word
  {
  }

  /** The two half words of an item are those of one word. */
  lemma JoinHalves(id: bv32, ide: bool, rtr: bool)
    ensures Join(IdHigh(id), IdLow(id, ide, rtr)) == ItemWord(id, ide, rtr)
  {
    hide *;
    HighHalf(id, ide, rtr);
    LowHalf(id, ide, rtr);
    JoinWord(ItemWord(id, ide, rtr));
  }

  lemma ExtendedItemWord(id: bv32, rtr: bool)
    ensures ItemWord(id, true, rtr) == IdWord(true, id, rtr)
  {
  }

  lemma ItemBankIs(cfg: FilterConfig, item: Item)
    requires cfg.scale32
    ensures BankFor(WithItem(cfg, item))
            == Bank(ItemWord(item.id, item.ide, item.rtr), item.mask, item.list, cfg.fifo1, true, cfg.active)
  {
  }

  /** What the driver configures: 32-bit scale, active, and an identifier of the field's 29 bits. */
  predicate Proper(s: FilterState, item: Item) {
    IsBank(item.bank) && s.cfg.scale32 && s.cfg.active && IdFits(true, item.id)
  }

  /** Any mask-mode item in a bank of the hardware makes that bank accept exactly the frames whose identifier
      word agrees with the item's on the masked bits. */
  lemma MaskItemFilters(s: FilterState, item: Item, word: bv32)
    requires Proper(s, item) && !item.list
    ensures Accepts(Installed(s, item), word) <==> Agree(word, ItemWord(item.id, item.ide, item.rtr), item.mask)
  {
    hide ItemWord, Agree, BankFor, WithItem, Installed, IdFits, Half;
    InstalledIs(s, item);
    ItemBankIs(s.cfg, item);
  }

  /** An extended item filters on the very identifier word that a send of such a frame writes; in mask
      mode it accepts exactly the frames whose word agrees with it on the masked bits. */
  lemma ExtendedItemFilters(s: FilterState, item: Item, f: Frame)
    requires Proper(s, item) && item.ide && !item.list
    ensures Accepts(Installed(s, item), IdWord(f.extended, f.id, f.remote))
            <==> Agree(IdWord(f.extended, f.id, f.remote), IdWord(true, item.id, item.rtr), item.mask)
  {
    hide IdWord, ItemWord, Agree, Accepts, Installed, IdFits;
    MaskItemFilters(s, item, IdWord(f.extended, f.id, f.remote));
    ExtendedItemWord(item.id, item.rtr);
  }

  lemma FullMask(w: bv32, v: bv32)
    ensures Agree(w, v, 0xFFFF_FFFF) <==> w == v
  {
  }

  /** With the full mask of RT_CAN_FILTER_EXT_INIT, in a bank of the hardware, exactly the one extended
      identifier passes. */
  lemma ExactExtendedFilter(s: FilterState, item: Item, f: Frame)
    requires Proper(s, item) && item.ide && !item.list
    requires item.mask == 0xFFFF_FFFF && IdFits(f.extended, f.id)
    ensures Accepts(Installed(s, item), IdWord(f.extended, f.id, f.remote))
            <==> f.extended && f.id == item.id && f.remote == item.rtr
  {
    hide IdWord, Agree, Installed, IdFits, Accepts;
    ExtendedItemFilters(s, item, f);
    FullMask(IdWord(f.extended, f.id, f.remote), IdWord(true, item.id, item.rtr));
    IdWordInjective(f.extended, f.id, f.remote, true, item.id, item.rtr);
  }

  lemma NoFrameHasAllBits(extended: bool, id: bv32, remote: bool)
    ensures IdWord(extended, id, remote) != 0xFFFF_FFFF
  {
  }

  /** A list-mode item, as the macros for remote and data frames make it: the mask is taken as a second
      identifier, which no frame has, so exactly the item's own word passes, and with it one of the two
      frame types only. */
  lemma ListItemFilters(s: FilterState, item: Item, f: Frame)
    requires Proper(s, item) && item.list && item.mask == 0xFFFF_FFFF
    ensures Accepts(Installed(s, item), IdWord(f.extended, f.id, f.remote))
            <==> IdWord(f.extended, f.id, f.remote) == ItemWord(item.id, item.ide, item.rtr)
  {
    hide IdWord, ItemWord, Agree, BankFor, WithItem, Installed, IdFits, Half;
    InstalledIs(s, item);
    ItemBankIs(s.cfg, item);
    NoFrameHasAllBits(f.extended, f.id, f.remote);
  }

  /** So an extended one passes its identifier in frames of the item's own type, and never in the other. */
  lemma ListItemPassesOneType(s: FilterState, item: Item, f: Frame)
    requires Proper(s, item) && item.list && item.ide && item.mask == 0xFFFF_FFFF && IdFits(f.extended, f.id)
    ensures Accepts(Installed(s, item), IdWord(f.extended, f.id, f.remote))
            <==> f.extended && f.id == item.id && f.remote == item.rtr
  {
    hide IdWord, ItemWord, Installed, IdFits, Accepts;
    ListItemFilters(s, item, f);
    ExtendedItemWord(item.id, item.rtr);
    IdWordInjective(f.extended, f.id, f.remote, true, item.id, item.rtr);
  }

  /** The default filter lets every frame through. */
  lemma DefaultAcceptsAll(word: bv32)
    ensures Accepts(BankFor(DEFAULT_FILTER), word)
  {
  }

  // ---------- standard items: the layout does not fit ----------

  function Standard18(id: bv32): bv32 { id << 18 }

  lemma StandardItemKind(i: bv32, r: bool, id: bv32, remote: bool)
    requires IdFits(true, i) && IdFits(true, id)
    ensures ItemWord(i, false, r) != IdWord(true, id, remote)
  {
  }

  lemma StandardItemMatch(i: bv32, r: bool, id: bv32, remote: bool)
    requires IdFits(true, i) && IdFits(false, id)
    ensures ItemWord(i, false, r) == IdWord(false, id, remote) <==> i == Standard18(id) && r == remote
  {
  }

  /** A standard item is laid out as if its identifier were an extended one: under a full mask it
      passes a frame exactly when the frame is standard and the item holds its identifier shifted
      left by 18. */
  lemma StandardItemFilters(s: FilterState, item: Item, f: Frame)
    requires Proper(s, item) && !item.ide && !item.list
    requires item.mask == 0xFFFF_FFFF && IdFits(f.extended, f.id)
    ensures Accepts(Installed(s, item), IdWord(f.extended, f.id, f.remote))
            <==> !f.extended && item.id == Standard18(f.id) && item.rtr == f.remote
  {
    hide IdWord, ItemWord, Agree, Accepts, Installed, IdFits, Standard18;
    MaskItemFilters(s, item, IdWord(f.extended, f.id, f.remote));
    FullMask(IdWord(f.extended, f.id, f.remote), ItemWord(item.id, item.ide, item.rtr));
    if f.extended {
      StandardItemKind(item.id, item.rtr, f.id, f.remote);
    } else {
      StandardItemMatch(item.id, item.rtr, f.id, f.remote);
    }
  }

  function Differing(w: bv32, v: bv32): bv32 { w ^ v }

  predicate Spares(mask: bv32, bits: bv32) { bits & mask == 0 }

  /** The bits in which the two layouts of a standard identifier differ. */
  function BothLayouts(id: bv32): bv32 { (id << 3) ^ (id << 21) }

  lemma AgreeMeansSpares(w: bv32, v: bv32, mask: bv32)
    ensures Agree(w, v, mask) <==> Spares(mask, Differing(w, v))
  {
    assert (w ^ v) & mask == (w & mask) ^ (v & mask);
  }

  lemma LayoutsXor(id: bv32, rtr: bool)
    requires IdFits(false, id)
    ensures Differing(IdWord(false, id, rtr), ItemWord(id, false, rtr)) == BothLayouts(id)
  {
  }

  lemma LayoutsDiffer(id: bv32, rtr: bool, mask: bv32)
    requires IdFits(false, id)
    ensures Agree(IdWord(false, id, rtr), ItemWord(id, false, rtr), mask) <==> Spares(mask, BothLayouts(id))
  {
    hide *;
    LayoutsXor(id, rtr);
    AgreeMeansSpares(IdWord(false, id, rtr), ItemWord(id, false, rtr), mask);
  }

  /** So an item for the standard identifier `id`, in a bank of the hardware, passes the frames with that
      identifier exactly when its mask leaves out every bit in which the two layouts of `id` differ:
      under the full mask, for id 0 only. */
  lemma StandardFilterWorksIff(s: FilterState, item: Item, f: Frame)
    requires Proper(s, item) && !item.ide && !item.list
    requires IdFits(false, item.id) && !f.extended && f.id == item.id && f.remote == item.rtr
    ensures Accepts(Installed(s, item), IdWord(f.extended, f.id, f.remote))
            <==> Spares(item.mask, BothLayouts(item.id))
    ensures item.mask == 0xFFFF_FFFF ==>
              (Accepts(Installed(s, item), IdWord(f.extended, f.id, f.remote)) <==> item.id == 0)
  {
    hide IdWord, ItemWord, Agree, Accepts, Installed, IdFits, BothLayouts, Spares;
    MaskItemFilters(s, item, IdWord(f.extended, f.id, f.remote));
    LayoutsDiffer(item.id, item.rtr, item.mask);
    OnlyZeroFits(item.id);
  }

  lemma OnlyZeroFits(id: bv32)
    requires IdFits(false, id)
    ensures Spares(0xFFFF_FFFF, BothLayouts(id)) <==> id == 0
  {
  }

  // ---------- the items that the framework's macros make ----------

  /** The initialisers of the framework leave `hdr` at -1. */
  predicate FromMacro(item: Item) { item.bank == -1 }

  /** Such items reach no bank at all: their identifiers go to reserved words, their bit is no bank's. */
  lemma {:induction false} MacroItemsReachNoBank(s: FilterState, items: seq<Item>, k: nat)
    requires IsBank(k) && forall i | 0 <= i < |items| :: FromMacro(items[i])
    ensures BankAt(SetItems(s, items).regs, k) == BankAt(s.regs, k)
    decreases |items|
  {
    hide BankAt, ConfigBank, SetItem;
    if items != [] {
      var front := items[..|items| - 1];
      MacroItemsReachNoBank(s, front, k);
      MacroItem(SetItems(s, front), items[|items| - 1], k);
    }
  }

  lemma MacroItem(s: FilterState, item: Item, k: nat)
    requires IsBank(k) && FromMacro(item)
    ensures BankAt(SetItem(s, item).regs, k) == BankAt(s.regs, k)
  {
    hide BankAt, ConfigBank, FieldAt, WordsAt, PairFor, Finit;
    var cfg := WithItem(s.cfg, item);
    var t := ConfigBank(s.regs, cfg);
    BankByFields(s.regs, k);
    BankByFields(t, k);
    ConfigBankEffect(s.regs, cfg, k, Mode);
    ConfigBankEffect(s.regs, cfg, k, Fifo);
    ConfigBankEffect(s.regs, cfg, k, Scale);
    ConfigBankEffect(s.regs, cfg, k, Active);
  }

  // ---------- what the default filter still lets through ----------

  /** Bank 0 belongs to CAN1 and accepts every frame. */
  ghost predicate DefaultOpen(r: FilterRegs) {
    && !Finit(r.fmr) && StartBank(r.fmr) > 0
    && forall word :: Accepts(BankAt(r, 0), word)
  }

  /** As `_can_config` leaves the filters of a started device. */
  ghost predicate Started(s: FilterState) {
    && SameFixed(DEFAULT_FILTER, s.cfg)
    && !Finit(s.regs.fmr) && StartBank(s.regs.fmr) > 0
    && BankAt(s.regs, 0) == BankFor(DEFAULT_FILTER)
  }

  /** The default filter, applied to any registers, leaves the device started: bank 0 takes every frame. */
  lemma DefaultFilterStarts(r: FilterRegs)
    ensures Started(ConfigFilter(FilterState(DEFAULT_FILTER, r)))
  {
    hide ConfigBank, BankAt, BankFor, PairFor, Finit, StartBank, Place;
    DefaultPlace();
    ConfigInRange(r, DEFAULT_FILTER, 0);
    ConfigBankStart(r, DEFAULT_FILTER);
  }

  lemma DefaultPlace()
    ensures Place(DEFAULT_FILTER.bank) == 0
  {
  }

  lemma NeverAgrees(v: bv32, mask: bv32)
    requires mask != 0
    ensures !Agree(!v, v, mask)
  {
  }

  /** A 32-bit bank accepts every frame iff it is active, in mask mode, and compares no bit. */
  lemma Accepts32AllIff(b: Bank)
    requires b.scale32
    ensures (forall word :: Accepts(b, word)) <==> b.active && !b.list && b.fr2 == 0
  {
    hide Agree, Half, Accepts16;
    if b.active && !b.list && b.fr2 == 0 {
      forall word ensures Accepts(b, word) {
        AlwaysAgrees(word, b.fr1);
      }
    } else if b.active && !b.list {
      NeverAgrees(b.fr1, b.fr2);
      assert !Accepts(b, !b.fr1);
    } else if b.active {
      var word := NeitherOf(b.fr1, b.fr2);
      assert !Accepts(b, word);
    } else {
      assert !Accepts(b, 0);
    }
  }

  lemma NeitherOf(a: bv32, b: bv32) returns (word: bv32)
    ensures word != a && word != b
  {
    word := if a != 0 && b != 0 then 0 else if a != 1 && b != 1 then 1 else 2;
  }

  /** A word with a given half word. */
  function WordOf(half: bv32): bv32 {
    ((half & 0xFFE0) << 16) | ((half & 0x10) >> 3) | ((half & 0x8) >> 1) | ((half & 0x7) << 18)
  }

  lemma HalfOfWord(half: bv32)
    requires FitsHalf(half)
    ensures Half(WordOf(half)) == half
  {
  }

  lemma HalvesFit(w: bv32)
    ensures FitsHalf(Low(w)) && FitsHalf(High(w))
  {
  }

  /** A half word that is none of four. */
  lemma NoneOf(a: bv32, b: bv32, c: bv32, d: bv32) returns (half: bv32)
    ensures FitsHalf(half) && half !in {a, b, c, d}
  {
    half := if 0 !in {a, b, c, d} then 0 else if 1 !in {a, b, c, d} then 1
    else if 2 !in {a, b, c, d} then 2 else if 3 !in {a, b, c, d} then 3 else 4;
  }

  /** The identifiers of a mask-mode bank let everything through. */
  predicate OpenWords(b: Bank) {
    if b.scale32 then b.fr2 == 0 else CoverAll(Low(b.fr1), High(b.fr1), Low(b.fr2), High(b.fr2))
  }

  /** A bank accepts every frame iff it is active, in mask mode, and its identifiers let everything through. */
  lemma AcceptsAllIff(b: Bank)
    ensures (forall word :: Accepts(b, word)) <==> b.active && !b.list && OpenWords(b)
  {
    hide Agree, Half, Low, High, CoverAll, WordOf, FitsHalf;
    if b.scale32 {
      Accepts32AllIff(b);
    } else if !b.active {
      assert !Accepts(b, 0);
    } else if b.list {
      var half := NoneOf(Low(b.fr1), High(b.fr1), Low(b.fr2), High(b.fr2));
      HalfOfWord(half);
      assert !Accepts(b, WordOf(half));
    } else if OpenWords(b) {
      forall word ensures Accepts(b, word) {
        CoveredHalf(Half(word), Low(b.fr1), High(b.fr1), Low(b.fr2), High(b.fr2));
      }
    } else {
      HalvesFit(b.fr1);
      HalvesFit(b.fr2);
      var half := UncoveredHalf(Low(b.fr1), High(b.fr1), Low(b.fr2), High(b.fr2));
      HalfOfWord(half);
      assert !Accepts(b, WordOf(half));
    }
  }

  /** The identifiers of bank 0 let everything through: nothing was stored there, or last an item with mask 0;
      or, in 16-bit scale, one whose four half words happen to cover every frame. */
  predicate LetsThrough(cfg: FilterConfig, items: seq<Item>) {
    var w := LastStored(items, 0);
    w < 0
    || var word := ItemWord(items[w].id, items[w].ide, items[w].rtr);
       if KeepsScale(cfg, items) then items[w].mask == 0
       else CoverAll(Low(word), High(word), Low(items[w].mask), High(items[w].mask))
  }

  predicate InMaskMode(cfg: FilterConfig, items: seq<Item>) {
    var d := LastDecider(cfg, items, Mode, 0);
    d < 0 || !items[d].list
  }

  /** The last item that decides its activation switches it on, or is one whose mask overwrites FA1R, with
      the bit of bank 0 set. */
  predicate SwitchedOn(cfg: FilterConfig, items: seq<Item>) {
    var d := LastDecider(cfg, items, Active, 0);
    d < 0 || Place(items[d].bank) != -5 || Bit(items[d].mask, 0)
  }

  predicate KeepsScale(cfg: FilterConfig, items: seq<Item>) {
    var d := LastDecider(cfg, items, Scale, 0);
    d < 0 || Place(items[d].bank) != -7 || Bit(items[d].mask, 0)
  }

  /** The last item does not overwrite FMR with a word that gives CAN1 no bank. */
  predicate LeavesBanks(items: seq<Item>) {
    items == []
    || var last := items[|items| - 1];
       Place(last.bank) != -8 || StartBank(ItemWord(last.id, last.ide, last.rtr)) > 0
  }

  lemma ItemPair(cfg: FilterConfig, item: Item)
    requires cfg.scale32
    ensures PairFor(WithItem(cfg, item)) == Pair(ItemWord(item.id, item.ide, item.rtr), item.mask)
  {
    hide ItemWord;
    ItemBankIs(cfg, item);
  }

  lemma ItemIsNotInit(id: bv32, ide: bool, rtr: bool)
    ensures !Finit(ItemWord(id, ide, rtr))
  {
    assert ItemWord(id, ide, rtr) & 1 == 0;
    assert Mask(FINIT) == 1;
  }

  /** Bank 0 after a command to a started device. */
  lemma BankZeroAfter(s: FilterState, items: seq<Item>)
    requires Started(s)
    ensures var b := BankAt(SetItems(s, items).regs, 0);
            && (OpenWords(b) <==> LetsThrough(s.cfg, items))
            && (!b.list <==> InMaskMode(s.cfg, items))
            && (b.active <==> SwitchedOn(s.cfg, items))
            && (b.scale32 <==> KeepsScale(s.cfg, items))
  {
    hide ConfigBank, SetItems, Bit, FieldAt, WordsAt, ItemWord, PairFor, Finit, Low, High, CoverAll;
    var t := SetItems(s, items);
    ZeroWordsOpen();
    BankByFields(s.regs, 0);
    BankByFields(t.regs, 0);
    SetItemsMeaning(s, items, 0, Mode);
    SetItemsMeaning(s, items, 0, Scale);
    SetItemsMeaning(s, items, 0, Active);
    DefaultFields();
    var w := LastStored(items, 0);
    if w >= 0 {
      ItemPair(s.cfg, items[w]);
    }
    var m := LastDecider(s.cfg, items, Mode, 0);
    var c := LastDecider(s.cfg, items, Scale, 0);
    var a := LastDecider(s.cfg, items, Active, 0);
    if m >= 0 {
      ModeOfZero(s.cfg, items[m]);
    }
    if c >= 0 {
      ScaleOfZero(s.cfg, items[c]);
    }
    if a >= 0 {
      ActiveOfZero(s.cfg, items[a]);
    }
  }

  lemma ZeroWordsOpen()
    ensures CoverAll(Low(0), High(0), Low(0), High(0))
  {
  }

  lemma DefaultFields()
    ensures BankFor(DEFAULT_FILTER) == Bank(0, 0, false, false, true, true)
  {
  }

  lemma ModeOfZero(cfg: FilterConfig, item: Item)
    requires cfg.scale32 && Decides(WithItem(cfg, item), Mode, 0)
    ensures Decision(WithItem(cfg, item), Mode, 0) == item.list
  {
    hide ItemWord, PairFor, Finit, Bit, Place;
    ItemPair(cfg, item);
    ItemIsNotInit(item.id, item.ide, item.rtr);
  }

  lemma ScaleOfZero(cfg: FilterConfig, item: Item)
    requires cfg.scale32
    ensures Decision(WithItem(cfg, item), Scale, 0) <==> Place(item.bank) != -7 || Bit(item.mask, 0)
  {
    hide ItemWord, PairFor, Finit, Bit, Place;
    ItemPair(cfg, item);
  }

  lemma ActiveOfZero(cfg: FilterConfig, item: Item)
    requires cfg.scale32 && cfg.active
    ensures Decision(WithItem(cfg, item), Active, 0) <==> Place(item.bank) != -5 || Bit(item.mask, 0)
  {
    hide ItemWord, PairFor, Finit, Bit;
    ItemPair(cfg, item);
  }

  /** When a filter command, with items of any number, leaves the default bank of a started device open to
      every frame. */
  lemma DefaultStaysOpenIff(s: FilterState, items: seq<Item>)
    requires Started(s)
    ensures DefaultOpen(SetItems(s, items).regs)
            <==> && LetsThrough(s.cfg, items) && InMaskMode(s.cfg, items)
                 && SwitchedOn(s.cfg, items) && LeavesBanks(items)
  {
    hide SetItems, BankAt, BankFor, Accepts, Finit, StartBank, Place, ItemWord;
    hide LetsThrough, InMaskMode, SwitchedOn, KeepsScale, OpenWords;
    BankZeroAfter(s, items);
    AcceptsAllIff(BankAt(SetItems(s, items).regs, 0));
    if items == [] {
      NoItems(s);
    } else {
      SetItemsStart(s, items);
      ItemPair(s.cfg, items[|items| - 1]);
    }
  }

  lemma NoItems(s: FilterState)
    ensures SetItems(s, []) == s
  {
  }

  /** In particular, a command none of whose items has a number that is 0 modulo 32, or lies at -8 or -5 by
      address, narrows nothing: the device still accepts every frame. */
  lemma DefaultStaysOpen(s: FilterState, items: seq<Item>, word: bv32)
    requires Started(s)
    requires forall i | 0 <= i < |items| ::
               Position(items[i].bank) != 0 && Place(items[i].bank) != -8 && Place(items[i].bank) != -5
    ensures DeviceAccepts(SetItems(s, items).regs, word)
  {
    hide SetItems, BankAt, BankFor, Accepts, Finit, StartBank, Place, ItemWord, KeepsScale;
    assert LastStored(items, 0) < 0 by {
      NothingAtZero(items);
    }
    ModeUndecided(s.cfg, items);
    DefaultStaysOpenIff(s, items);
    assert Accepts(BankAt(SetItems(s, items).regs, 0), word);
  }

  lemma NothingAtZero(items: seq<Item>)
    requires forall i | 0 <= i < |items| :: Position(items[i].bank) != 0
    ensures LastStored(items, 0) < 0
  {
  }

  lemma ModeUndecided(cfg: FilterConfig, items: seq<Item>)
    requires forall i | 0 <= i < |items| ::
               Position(items[i].bank) != 0 && Place(items[i].bank) != -8 && Place(items[i].bank) != -5
    ensures InMaskMode(cfg, items) && SwitchedOn(cfg, items)
  {
    hide Finit, PairFor, Place, Position;
  }

  // ---------- an item that closes the device ----------

  /** An item whose mask, 0, is stored into FA1R. */
  const CLOSING_ITEM := Item(0x123, true, false, false, 0, -5)

  lemma ZeroHasNoBit(k: nat)
    requires k < 32
    ensures !Bit(0, k)
  {
  }

  /** It leaves bank 27 alone active, which is CAN2's: a started device then accepts no frame at all. */
  lemma ClosingItemClosesAll(s: FilterState, word: bv32)
    requires Started(s)
    ensures !DeviceAccepts(SetItems(s, [CLOSING_ITEM]).regs, word)
  {
    hide BankFor, ConfigBank, Accepts32, Accepts16, Finit, StartBank, Half, ItemWord, Bit, PairFor;
    var t := SetItems(s, [CLOSING_ITEM]);
    SetItemsStart(s, [CLOSING_ITEM]);
    ItemPair(s.cfg, CLOSING_ITEM);
    forall k: nat | k < CAN2_START ensures !Accepts(BankAt(t.regs, k), word) {
      SetItemsMeaning(s, [CLOSING_ITEM], k, Active);
      OnlyItem(s.cfg, k);
      ZeroHasNoBit(k);
    }
  }

  lemma OnlyItem(cfg: FilterConfig, k: nat)
    requires k < CAN2_START
    ensures LastDecider(cfg, [CLOSING_ITEM], Active, k) == 0
  {
    hide PairFor, Finit;
    assert Decides(WithItem(cfg, [CLOSING_ITEM][0]), Active, k);
  }
}
