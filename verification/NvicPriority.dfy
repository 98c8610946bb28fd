/** Interrupt priorities: the encoder and decoder, the stored priority bytes and the grouping field,
    against the architecture's own reading of them (sections B1.5.4 and B3.2.6 of the Armv7-M
    Architecture Reference Manual). */
module NvicPriority {

  /** Implemented priority bits (`__NVIC_PRIO_BITS`). */
  type Width = nb: bv32 | 1 <= nb <= 8 witness 4

  /** The number of bits of a field. */
  type FieldBits = k: bv32 | k <= 8 witness 0

  function Low(k: FieldBits): bv32 { (1 << k) - 1 }

  // ---------- field widths ----------

  function PreemptBits(group: bv32, nb: Width): FieldBits {
    if 7 - (group & 7) > nb then nb else 7 - (group & 7)
  }

  /** `(group & 7) - 7` wraps around below 7; adding the width brings it back. */
  function SubBits(group: bv32, nb: Width): FieldBits {
    if (group & 7) + nb < 7 then 0 else (group & 7) - 7 + nb
  }

  /** The two fields always fill the implemented bits. */
  lemma FieldsFillTheWidth(group: bv32, nb: Width)
    ensures PreemptBits(group, nb) + SubBits(group, nb) == nb
  {
  }

  // ---------- encoding and decoding ----------

  datatype Priority = Priority(preempt: bv32, sub: bv32)

  function Join(preempt: bv32, sub: bv32, pb: FieldBits, sb: FieldBits): bv32 {
    ((preempt & Low(pb)) << sb) | (sub & Low(sb))
  }

  function UpperField(v: bv32, pb: FieldBits, sb: FieldBits): bv32 { (v >> sb) & Low(pb) }

  function LowerField(v: bv32, sb: FieldBits): bv32 { v & Low(sb) }

  /** `NVIC_EncodePriority` */
  function Encode(group: bv32, p: Priority, nb: Width): bv32 {
    Join(p.preempt, p.sub, PreemptBits(group, nb), SubBits(group, nb))
  }

  function Decoded(group: bv32, v: bv32, nb: Width): Priority {
    Priority(UpperField(v, PreemptBits(group, nb), SubBits(group, nb)), LowerField(v, SubBits(group, nb)))
  }

  /** The bits of a priority that fit its two fields. */
  function Masked(group: bv32, p: Priority, nb: Width): Priority {
    Priority(p.preempt & Low(PreemptBits(group, nb)), p.sub & Low(SubBits(group, nb)))
  }

  /** `NVIC_DecodePriority`, which writes through its two pointers. */
  method DecodePriority(v: bv32, group: bv32, nb: Width) returns (preempt: bv32, sub: bv32)
    ensures Priority(preempt, sub) == Decoded(group, v, nb)
  {
    hide PreemptBits, SubBits, UpperField, LowerField;
    var pb, sb := PreemptBits(group, nb), SubBits(group, nb);
    preempt := UpperField(v, pb, sb);
    sub := LowerField(v, sb);
  }

  lemma UpperOfJoin(preempt: bv32, sub: bv32, pb: FieldBits, sb: FieldBits)
    ensures UpperField(Join(preempt, sub, pb, sb), pb, sb) == preempt & Low(pb)
  {
  }

  lemma LowerOfJoin(preempt: bv32, sub: bv32, pb: FieldBits, sb: FieldBits)
    ensures LowerField(Join(preempt, sub, pb, sb), sb) == sub & Low(sb)
  {
  }

  lemma JoinOfFields(v: bv32, pb: FieldBits, sb: FieldBits, nb: Width)
    requires pb + sb == nb && v & Low(nb) == v
    ensures Join(UpperField(v, pb, sb), LowerField(v, sb), pb, sb) == v
  {
  }

  /** Decoding gives back what was encoded, cut to the two fields. */
  lemma DecodeUndoesEncode(group: bv32, p: Priority, nb: Width)
    ensures Decoded(group, Encode(group, p, nb), nb) == Masked(group, p, nb)
  {
    hide PreemptBits, SubBits, Join, UpperField, LowerField, Low;
    UpperOfJoin(p.preempt, p.sub, PreemptBits(group, nb), SubBits(group, nb));
    LowerOfJoin(p.preempt, p.sub, PreemptBits(group, nb), SubBits(group, nb));
  }

  /** Every value of the implemented width is the code of what it decodes to. */
  lemma EncodeUndoesDecode(group: bv32, v: bv32, nb: Width)
    requires v & Low(nb) == v
    ensures Encode(group, Decoded(group, v, nb), nb) == v
  {
    hide PreemptBits, SubBits, Join, UpperField, LowerField, Low;
    FieldsFillTheWidth(group, nb);
    JoinOfFields(v, PreemptBits(group, nb), SubBits(group, nb), nb);
  }

  // ---------- the stored byte ----------

  /** The byte `__NVIC_SetPriority` stores. */
  function StoredByte(priority: bv32, nb: Width): bv32 { (priority << (8 - nb)) & 0xFF }

  /** What `__NVIC_GetPriority` makes of a stored byte. */
  function ReadBack(byte: bv32, nb: Width): bv32 { byte >> (8 - nb) }

  /** The group priority the processor takes from a stored byte: the bits above PRIGROUP. */
  function GroupField(byte: bv32, group: bv32): bv32 { byte >> ((group & 7) + 1) }

  /** The rest of the byte, which orders interrupts of one group priority. */
  function SubField(byte: bv32, group: bv32): bv32 { byte & ((2 << (group & 7)) - 1) }

  predicate Below(a: bv32, b: bv32) { a < b }

  predicate Fits8(x: bv32) { x & 0xFF == x }

  lemma ReadBackUndoesStore(priority: bv32, nb: Width)
    ensures ReadBack(StoredByte(priority, nb), nb) == priority & Low(nb)
  {
  }

  /** The place of a group field inside the architecture's, which may have more bits than are
      implemented: the missing ones read as zero below it. */
  function Aligned(x: bv32, unused: FieldBits): bv32 { x << unused }

  function UnusedGroupBits(group: bv32, nb: Width): FieldBits { 7 - (group & 7) - PreemptBits(group, nb) }

  function UnusedSubBits(group: bv32, nb: Width): FieldBits
  {
    (group & 7) + 1 - SubBits(group, nb)
  }

  lemma GroupFieldIs(group: bv32, p: Priority, nb: Width)
    ensures GroupField(StoredByte(Encode(group, p, nb), nb), group)
            == Aligned(Masked(group, p, nb).preempt, UnusedGroupBits(group, nb))
  {
  }

  lemma SubFieldIs(group: bv32, p: Priority, nb: Width)
    ensures SubField(StoredByte(Encode(group, p, nb), nb), group)
            == Aligned(Masked(group, p, nb).sub, UnusedSubBits(group, nb))
  {
  }

  lemma AlignedOrder(x: bv32, y: bv32, k: FieldBits)
    requires Fits8(x) && Fits8(y) && Fits8(Aligned(x, k)) && Fits8(Aligned(y, k))
    ensures Below(Aligned(x, k), Aligned(y, k)) <==> Below(x, y)
  {
  }

  lemma BelowIsTotal(x: bv32, y: bv32)
    requires Fits8(x) && Fits8(y)
    ensures Below(x, y) || x == y || Below(y, x)
  {
  }

  lemma BelowIsIrreflexive(x: bv32)
    ensures !Below(x, x)
  {
  }

  lemma MaskedFits(x: bv32, k: FieldBits)
    ensures Fits8(x & Low(k))
  {
  }

  lemma StoredByteFits(priority: bv32, nb: Width)
    ensures Fits8(StoredByte(priority, nb))
  {
  }

  lemma GroupFieldFits(byte: bv32, group: bv32)
    requires Fits8(byte)
    ensures Fits8(GroupField(byte, group))
  {
  }

  lemma SubFieldFits(byte: bv32, group: bv32)
    requires Fits8(byte)
    ensures Fits8(SubField(byte, group))
  {
  }

  /** The processor's order of two stored bytes. */
  predicate Preempts(a: bv32, b: bv32, group: bv32) { Below(GroupField(a, group), GroupField(b, group)) }

  predicate Precedes(a: bv32, b: bv32, group: bv32) {
    Preempts(a, b, group)
    || (GroupField(a, group) == GroupField(b, group) && Below(SubField(a, group), SubField(b, group)))
  }

  lemma FieldsFit(group: bv32, p: Priority, nb: Width)
    ensures var byte := StoredByte(Encode(group, p, nb), nb);
            Fits8(GroupField(byte, group)) && Fits8(SubField(byte, group))
    ensures Fits8(Masked(group, p, nb).preempt) && Fits8(Masked(group, p, nb).sub)
  {
    hide GroupField, SubField, StoredByte, Encode, Low, PreemptBits, SubBits, Fits8;
    var byte := StoredByte(Encode(group, p, nb), nb);
    StoredByteFits(Encode(group, p, nb), nb);
    GroupFieldFits(byte, group);
    SubFieldFits(byte, group);
    MaskedFits(p.preempt, PreemptBits(group, nb));
    MaskedFits(p.sub, SubBits(group, nb));
  }

  lemma PreemptsIffPreemptBelow(group: bv32, p: Priority, q: Priority, nb: Width)
    ensures Preempts(StoredByte(Encode(group, p, nb), nb), StoredByte(Encode(group, q, nb), nb), group)
            <==> Below(Masked(group, p, nb).preempt, Masked(group, q, nb).preempt)
  {
    hide GroupField, StoredByte, Encode, Aligned, Below, Low, PreemptBits, SubBits, UnusedGroupBits, Fits8;
    FieldsFit(group, p, nb);
    FieldsFit(group, q, nb);
    GroupFieldIs(group, p, nb);
    GroupFieldIs(group, q, nb);
    AlignedOrder(Masked(group, p, nb).preempt, Masked(group, q, nb).preempt, UnusedGroupBits(group, nb));
  }

  lemma SubFieldOrder(group: bv32, p: Priority, q: Priority, nb: Width)
    ensures Below(SubField(StoredByte(Encode(group, p, nb), nb), group),
                  SubField(StoredByte(Encode(group, q, nb), nb), group))
            <==> Below(Masked(group, p, nb).sub, Masked(group, q, nb).sub)
  {
    hide SubField, StoredByte, Encode, Aligned, Below, Low, PreemptBits, SubBits, UnusedSubBits, Fits8;
    FieldsFit(group, p, nb);
    FieldsFit(group, q, nb);
    SubFieldIs(group, p, nb);
    SubFieldIs(group, q, nb);
    AlignedOrder(Masked(group, p, nb).sub, Masked(group, q, nb).sub, UnusedSubBits(group, nb));
  }

  /** For every grouping and width: one interrupt preempts another exactly when its masked preempt
      priority is lower, and comes first exactly when, with equal ones, its masked subpriority is. */
  lemma StoredOrderIsLexicographic(group: bv32, p: Priority, q: Priority, nb: Width)
    ensures var a, b := StoredByte(Encode(group, p, nb), nb), StoredByte(Encode(group, q, nb), nb);
            var m, n := Masked(group, p, nb), Masked(group, q, nb);
            && (Preempts(a, b, group) <==> Below(m.preempt, n.preempt))
            && (Precedes(a, b, group)
                <==> Below(m.preempt, n.preempt) || (m.preempt == n.preempt && Below(m.sub, n.sub)))
  {
    hide Preempts, GroupField, SubField, StoredByte, Encode, Masked, Below;
    PreemptsIffPreemptBelow(group, p, q, nb);
    GroupFieldsEqualIff(group, p, q, nb);
    SubFieldOrder(group, p, q, nb);
  }

  lemma GroupFieldsEqualIff(group: bv32, p: Priority, q: Priority, nb: Width)
    ensures GroupField(StoredByte(Encode(group, p, nb), nb), group)
            == GroupField(StoredByte(Encode(group, q, nb), nb), group)
            <==> Masked(group, p, nb).preempt == Masked(group, q, nb).preempt
  {
    hide GroupField, StoredByte, Encode, Masked, Below;
    var a, b := StoredByte(Encode(group, p, nb), nb), StoredByte(Encode(group, q, nb), nb);
    PreemptsIffPreemptBelow(group, p, q, nb);
    PreemptsIffPreemptBelow(group, q, p, nb);
    FieldsFit(group, p, nb);
    FieldsFit(group, q, nb);
    BelowIsTotal(GroupField(a, group), GroupField(b, group));
    BelowIsTotal(Masked(group, p, nb).preempt, Masked(group, q, nb).preempt);
    BelowIsIrreflexive(GroupField(a, group));
    BelowIsIrreflexive(Masked(group, p, nb).preempt);
  }

  /** Encoding never uses a bit above the implemented ones. */
  lemma JoinFits(preempt: bv32, sub: bv32, pb: FieldBits, sb: FieldBits, nb: Width)
    requires pb + sb == nb
    ensures Join(preempt, sub, pb, sb) & Low(nb) == Join(preempt, sub, pb, sb)
  {
  }

  /** What `HAL_NVIC_SetPriority` stores, `HAL_NVIC_GetPriority` of the same group reads back. */
  lemma HalRoundTrip(group: bv32, p: Priority, nb: Width)
    ensures Decoded(group, ReadBack(StoredByte(Encode(group, p, nb), nb), nb), nb) == Masked(group, p, nb)
  {
    hide PreemptBits, SubBits, Join, ReadBack, StoredByte, Decoded, Masked, Low;
    FieldsFillTheWidth(group, nb);
    JoinFits(p.preempt, p.sub, PreemptBits(group, nb), SubBits(group, nb), nb);
    ReadBackUndoesStore(Encode(group, p, nb), nb);
    DecodeUndoesEncode(group, p, nb);
  }

  /** Any priority with all implemented bits set is stored as the lowest urgency there is: the 0xFF of
      `rt_hw_systick_init` and the `(1 << bits) - 1` of `SysTick_Config` are the same byte. */
  lemma LowestUrgency(priority: bv32, nb: Width)
    requires priority & Low(nb) == Low(nb)
    ensures StoredByte(priority, nb) == StoredByte(Low(nb), nb)
  {
  }

  lemma NothingIsLessUrgent(priority: bv32, nb: Width)
    ensures !Below(StoredByte(0xFF, nb), StoredByte(priority, nb))
  {
  }

  // ---------- the grouping field of AIRCR ----------

  function PriGroup(aircr: bv32): bv32 { (aircr & 0x700) >> 8 }

  /** The value `__NVIC_SetPriorityGrouping` stores: write key and group over the other bits read. */
  function GroupingWrite(aircr: bv32, group: bv32): bv32 {
    (aircr & !(0xFFFF_0000 | 0x700)) | (0x5FA << 16) | ((group & 7) << 8)
  }

  /** The bits of AIRCR below the key and outside PRIGROUP. */
  function OtherBits(aircr: bv32): bv32 { aircr & 0xF8FF }

  predicate Unlocks(value: bv32) { value & 0xFFFF_0000 == 0x05FA_0000 }

  function Keyed(value: bv32): bv32 { 0xFA05_0000 | (value & 0xFFFF) }

  /** A store to AIRCR: ignored without the key; the key reads back inverted. */
  function AircrAfter(aircr: bv32, value: bv32): bv32 {
    if Unlocks(value) then Keyed(value) else aircr
  }

  lemma GroupingWriteUnlocks(aircr: bv32, group: bv32)
    ensures Unlocks(GroupingWrite(aircr, group))
  {
  }

  lemma GroupIsStored(aircr: bv32, group: bv32)
    ensures PriGroup(Keyed(GroupingWrite(aircr, group))) == group & 7
  {
  }

  lemma KeyedOnce(value: bv32)
    ensures Keyed(Keyed(value)) == Keyed(value)
  {
  }

  /** AIRCR has PRIGROUP in bits 10:8; a reader finds the inverted key 0xFA05 in the upper half. */
  function AircrOf(group: bv3, others: bv32): bv32 {
    0xFA05_0000 | ((group as bv32) << 8) | (others & 0xF8FF)
  }

  lemma GroupOfAircr(group: bv3, others: bv32)
    ensures PriGroup(AircrOf(group, others)) == group as bv32
  {
  }

  /** The grouping call leaves the new group, modulo 8, and the other bits. */
  lemma GroupingStoreOf(group: bv3, others: bv32, g: bv32)
    ensures AircrAfter(AircrOf(group, others), GroupingWrite(AircrOf(group, others), g))
            == AircrOf((g & 7) as bv3, others)
  {
  }

  lemma OtherBitsAreKept(aircr: bv32, group: bv32)
    ensures OtherBits(Keyed(GroupingWrite(aircr, group))) == OtherBits(aircr)
  {
  }

  // ---------- the registers ----------

  /** Interrupts whose priority can be set: external ones and the exceptions behind SHPR1 to SHPR3. */
  type Irq = n: int | -12 <= n < 240 witness 0

  class PriorityUnit {
    const nb: Width
    const ip: array<bv32>
    const shp: array<bv32>
    var aircr: bv32

    constructor (nb: Width)
      ensures Valid() && this.nb == nb && fresh(ip) && fresh(shp)
    {
      this.nb := nb;
      ip := new bv32[240];
      shp := new bv32[12];
    }

    ghost predicate Valid()
      reads this
    {
      ip.Length == 240 && shp.Length == 12 && ip != shp
    }

    /** The priority byte of an interrupt. */
    function ByteOf(irq: Irq): bv32
      requires Valid()
      reads this, ip, shp
    {
      if irq >= 0 then ip[irq] else shp[irq % 16 - 4]
    }

    /** `__NVIC_SetPriority`: the byte of this interrupt and no other; SHPR1 begins with exception 4, which is
        number -12. */
    method SetPriority(irq: Irq, priority: bv32)
      requires Valid()
      modifies ip, shp
      ensures StoredByte(priority, nb) == if irq >= 0 then ip[irq] else shp[irq + 12]
      ensures ByteOf(irq) == StoredByte(priority, nb)
      ensures forall other: Irq | other != irq :: ByteOf(other) == old(ByteOf(other))
    {
      hide StoredByte;
      if irq >= 0 {
        ip[irq] := StoredByte(priority, nb);
      } else {
        shp[irq % 16 - 4] := StoredByte(priority, nb);
      }
    }

    /** `__NVIC_GetPriority` */
    method GetPriority(irq: Irq) returns (r: bv32)
      requires Valid()
      ensures r == ReadBack(ByteOf(irq), nb)
    {
      hide ReadBack;
      if irq >= 0 {
        r := ReadBack(ip[irq], nb);
      } else {
        r := ReadBack(shp[irq % 16 - 4], nb);
      }
    }

    /** `__NVIC_SetPriorityGrouping`: the unlock sequence succeeds and changes the field only. */
    method SetPriorityGrouping(group: bv32)
      modifies this`aircr
      ensures PriGroup(aircr) == group & 7
      ensures OtherBits(aircr) == OtherBits(old(aircr))
      ensures Keyed(aircr) == aircr
    {
      hide GroupingWrite, Unlocks, Keyed, PriGroup, OtherBits;
      KeyedOnce(GroupingWrite(aircr, group));
      GroupingWriteUnlocks(aircr, group);
      GroupIsStored(aircr, group);
      OtherBitsAreKept(aircr, group);
      aircr := AircrAfter(aircr, GroupingWrite(aircr, group));
    }

    /** `HAL_NVIC_SetPriority`: under the grouping in force the byte decodes to the two priorities,
        each cut to its field, and no other byte changes. */
    method HalSetPriority(irq: Irq, preempt: bv32, sub: bv32)
      requires Valid()
      modifies ip, shp
      ensures ByteOf(irq) == StoredByte(Encode(PriGroup(aircr), Priority(preempt, sub), nb), nb)
      ensures Decoded(PriGroup(aircr), ReadBack(ByteOf(irq), nb), nb)
              == Masked(PriGroup(aircr), Priority(preempt, sub), nb)
      ensures forall other: Irq | other != irq :: ByteOf(other) == old(ByteOf(other))
    {
      hide PriGroup, Encode, StoredByte, ReadBack, Decoded, Masked;
      HalRoundTrip(PriGroup(aircr), Priority(preempt, sub), nb);
      SetPriority(irq, Encode(PriGroup(aircr), Priority(preempt, sub), nb));
    }

    /** `HAL_NVIC_GetPriority` */
    method HalGetPriority(irq: Irq, group: bv32) returns (preempt: bv32, sub: bv32)
      requires Valid()
      ensures Priority(preempt, sub) == Decoded(group, ReadBack(ByteOf(irq), nb), nb)
    {
      hide Decoded, ReadBack;
      var v := GetPriority(irq);
      preempt, sub := DecodePriority(v, group, nb);
    }
  }
}
