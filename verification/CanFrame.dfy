/** CAN frames and the layout of a bxCAN mailbox: how `_can_sendmsg` packs a message into
    the four transmit registers, and how the receive path unpacks the same layout. */
module CanFrame {

  /** A message (`struct rt_can_msg`), reduced to the fields that travel on the bus. */
  datatype Frame = Frame(extended: bool, id: bv32, remote: bool, len: bv32, data: seq<bv8>) {
    /** What the driver asserts of a message before sending it. */
    ghost predicate Valid() {
      && IdFits(extended, id)
      && FitsDlc(len)
      && |data| == 8
    }
  }

  /** The identifier has 29 bits in an extended frame and 11 in a standard one. */
  predicate IdFits(extended: bool, id: bv32) {
    if extended then id & 0xE000_0000 == 0 else id & 0xFFFF_F800 == 0
  }

  predicate FitsDlc(len: bv32) { len <= 8 }

  /** IdFits is the range check of IS_CAN_EXTID and IS_CAN_STDID. */
  lemma IdFitsIsRange(extended: bool, id: bv32)
    ensures IdFits(extended, id) <==> if extended then id <= 0x1FFF_FFFF else id <= 0x7FF
  {
  }

  /** A frame can be sent exactly when it keeps the ranges that the driver asserts, with its eight data bytes. */
  lemma ValidIsRange(f: Frame)
    ensures f.Valid() <==>
              && (if f.extended then f.id <= 0x1FFF_FFFF else f.id <= 0x7FF)
              && f.len <= 8 && |f.data| == 8
  {
    hide IdFits;
    IdFitsIsRange(f.extended, f.id);
  }

  /** The register image of a message: its identifier word, TDTxR, TDHxR and TDLxR. */
  datatype Image = Image(id: bv32, dlc: bv32, high: bv32, low: bv32)

  function RtrBit(remote: bool): bv32 {
    if remote then 0x2 else 0x0
  }

  /** The identifier word, without the transmission request bit. */
  function IdWord(extended: bool, id: bv32, remote: bool): bv32 {
    if extended then (id << 3) | 0x4 | RtrBit(remote) else (id << 21) | RtrBit(remote)
  }

  function DataWord(b0: bv8, b1: bv8, b2: bv8, b3: bv8): bv32 {
    ((b3 as bv32) << 24) | ((b2 as bv32) << 16) | ((b1 as bv32) << 8) | (b0 as bv32)
  }

  function HighWord(f: Frame): bv32
    requires |f.data| == 8
  {
    DataWord(f.data[4], f.data[5], f.data[6], f.data[7])
  }

  function LowWord(f: Frame): bv32
    requires |f.data| == 8
  {
    DataWord(f.data[0], f.data[1], f.data[2], f.data[3])
  }

  function ImageOf(f: Frame): Image
    requires |f.data| == 8
  {
    Image(IdWord(f.extended, f.id, f.remote), LengthWord(f.len), HighWord(f), LowWord(f))
  }

  function ByteOf(word: bv32, k: nat): bv8
    requires k < 4
  {
    match k
    case 0 => (word & 0xFF) as bv8
    case 1 => ((word >> 8) & 0xFF) as bv8
    case 2 => ((word >> 16) & 0xFF) as bv8
    case _ => ((word >> 24) & 0xFF) as bv8
  }

  // ---------- receiving ----------

  /** The words of a receive FIFO mailbox: RIxR, RDTxR, RDHxR and RDLxR. */
  datatype Received = Received(rir: bv32, rdtr: bv32, rdhr: bv32, rdlr: bv32)

  /** The identifier word as HAL_CAN_GetRxMessage and `_can_recvmsg` read it. */
  function IsExtended(rir: bv32): bool { rir & 0x4 != 0 }

  function IdIn(rir: bv32): bv32 {
    if IsExtended(rir) then (rir & 0xFFFF_FFF8) >> 3 else (rir & 0xFFE0_0000) >> 21
  }

  function IsRemote(rir: bv32): bool { (rir & 0x2) >> 1 != 0 }

  function BytesOf(word: bv32): seq<bv8> {
    [ByteOf(word, 0), ByteOf(word, 1), ByteOf(word, 2), ByteOf(word, 3)]
  }

  function BytesIn(low: bv32, high: bv32): seq<bv8> { BytesOf(low) + BytesOf(high) }

  /** The message `_can_recvmsg` builds. */
  function Unpack(r: Received): Frame {
    Frame(IsExtended(r.rir), IdIn(r.rir), IsRemote(r.rir), LengthIn(r.rdtr), BytesIn(r.rdlr, r.rdhr))
  }

  /** Two identifier words agree in every bit that a receiver reads: all but the reserved bit 0 for an
      extended frame, the standard identifier, IDE and RTR for a standard one. */
  predicate SameHeader(rir: bv32, word: bv32) {
    if IsExtended(word) then SameExtended(rir, word) else SameStandard(rir, word)
  }

  predicate SameExtended(rir: bv32, word: bv32) { rir & 0xFFFF_FFFE == word & 0xFFFF_FFFE }

  predicate SameStandard(rir: bv32, word: bv32) { rir & 0xFFE0_0006 == word & 0xFFE0_0006 }

  predicate SameLength(rdtr: bv32, dlc: bv32) { rdtr & 0xF == dlc & 0xF }

  function LengthIn(rdtr: bv32): bv32 { rdtr & 0xF }

  function LengthWord(len: bv32): bv32 { len & 0xF }

  /** `r` carries the image `image`: RIR agrees where it is read, and the upper bits of RDTR hold the
      filter match index and the time stamp. */
  predicate Carries(r: Received, image: Image) {
    && SameHeader(r.rir, image.id)
    && SameLength(r.rdtr, image.dlc)
    && r.rdhr == image.high
    && r.rdlr == image.low
  }

  lemma ExtendedKindBack(rir: bv32, id: bv32, remote: bool)
    requires IdFits(true, id)
    requires SameExtended(rir, IdWord(true, id, remote))
    ensures IsExtended(rir) == true
  {
  }

  lemma ExtendedIdBack(rir: bv32, id: bv32, remote: bool)
    requires IdFits(true, id)
    requires SameExtended(rir, IdWord(true, id, remote))
    ensures IdIn(rir) == id
  {
  }

  lemma ExtendedRtrBack(rir: bv32, id: bv32, remote: bool)
    requires IdFits(true, id)
    requires SameExtended(rir, IdWord(true, id, remote))
    ensures IsRemote(rir) == remote
  {
  }

  lemma StandardKindBack(rir: bv32, id: bv32, remote: bool)
    requires IdFits(false, id)
    requires SameStandard(rir, IdWord(false, id, remote))
    ensures IsExtended(rir) == false
  {
  }

  lemma StandardIdBack(rir: bv32, id: bv32, remote: bool)
    requires IdFits(false, id)
    requires SameStandard(rir, IdWord(false, id, remote))
    ensures IdIn(rir) == id
  {
  }

  lemma StandardRtrBack(rir: bv32, id: bv32, remote: bool)
    requires IdFits(false, id)
    requires SameStandard(rir, IdWord(false, id, remote))
    ensures IsRemote(rir) == remote
  {
  }

  lemma IdWordKind(extended: bool, id: bv32, remote: bool)
    requires IdFits(extended, id)
    ensures IsExtended(IdWord(extended, id, remote)) == extended
  {
  }

  /** A word that agrees with an identifier word where it is read gives back what that was made of. */
  lemma IdWordBack(rir: bv32, extended: bool, id: bv32, remote: bool)
    requires IdFits(extended, id)
    requires SameHeader(rir, IdWord(extended, id, remote))
    ensures IsExtended(rir) == extended && IdIn(rir) == id && IsRemote(rir) == remote
  {
    hide IdFits, SameExtended, SameStandard, IsExtended, IdIn, IsRemote, IdWord;
    IdWordKind(extended, id, remote);
    if extended {
      ExtendedKindBack(rir, id, remote);
      ExtendedIdBack(rir, id, remote);
      ExtendedRtrBack(rir, id, remote);
    } else {
      StandardKindBack(rir, id, remote);
      StandardIdBack(rir, id, remote);
      StandardRtrBack(rir, id, remote);
    }
  }

  lemma LengthBack(rdtr: bv32, len: bv32)
    requires FitsDlc(len) && SameLength(rdtr, LengthWord(len))
    ensures LengthIn(rdtr) == len
  {
  }

  lemma Byte0Back(b0: bv8, b1: bv8, b2: bv8, b3: bv8)
    ensures ByteOf(DataWord(b0, b1, b2, b3), 0) == b0
  {
  }

  lemma Byte1Back(b0: bv8, b1: bv8, b2: bv8, b3: bv8)
    ensures ByteOf(DataWord(b0, b1, b2, b3), 1) == b1
  {
  }

  lemma Byte2Back(b0: bv8, b1: bv8, b2: bv8, b3: bv8)
    ensures ByteOf(DataWord(b0, b1, b2, b3), 2) == b2
  {
  }

  lemma Byte3Back(b0: bv8, b1: bv8, b2: bv8, b3: bv8)
    ensures ByteOf(DataWord(b0, b1, b2, b3), 3) == b3
  {
  }

  lemma WordBytesBack(b0: bv8, b1: bv8, b2: bv8, b3: bv8)
    ensures BytesOf(DataWord(b0, b1, b2, b3)) == [b0, b1, b2, b3]
  {
    hide ByteOf, DataWord;
    Byte0Back(b0, b1, b2, b3);
    Byte1Back(b0, b1, b2, b3);
    Byte2Back(b0, b1, b2, b3);
    Byte3Back(b0, b1, b2, b3);
  }

  lemma BytesBack(f: Frame)
    requires |f.data| == 8
    ensures BytesIn(LowWord(f), HighWord(f)) == f.data
  {
    hide BytesOf, DataWord;
    WordBytesBack(f.data[0], f.data[1], f.data[2], f.data[3]);
    WordBytesBack(f.data[4], f.data[5], f.data[6], f.data[7]);
    assert f.data == [f.data[0], f.data[1], f.data[2], f.data[3]] + [f.data[4], f.data[5], f.data[6], f.data[7]];
  }

  lemma CarriedHeader(f: Frame, r: Received)
    requires f.Valid() && Carries(r, ImageOf(f))
    ensures IdFits(f.extended, f.id)
    ensures SameHeader(r.rir, IdWord(f.extended, f.id, f.remote))
  {
  }

  lemma CarriedLength(f: Frame, r: Received)
    requires f.Valid() && Carries(r, ImageOf(f))
    ensures FitsDlc(f.len) && SameLength(r.rdtr, LengthWord(f.len))
  {
  }

  lemma CarriedData(f: Frame, r: Received)
    requires f.Valid() && Carries(r, ImageOf(f))
    ensures |f.data| == 8 && r.rdhr == HighWord(f) && r.rdlr == LowWord(f)
  {
  }

  lemma UnpackFields(r: Received)
    ensures Unpack(r)
            == Frame(IsExtended(r.rir), IdIn(r.rir), IsRemote(r.rir), LengthIn(r.rdtr), BytesIn(r.rdlr, r.rdhr))
  {
  }

  /** Whoever receives the registers of a valid frame unpacks that frame: kind, identifier, remote
      flag, length and all eight data bytes. */
  lemma UnpackUndoesPack(f: Frame, r: Received)
    requires f.Valid() && Carries(r, ImageOf(f))
    ensures Unpack(r) == f
  {
    hide *;
    CarriedHeader(f, r);
    CarriedLength(f, r);
    CarriedData(f, r);
    IdWordBack(r.rir, f.extended, f.id, f.remote);
    LengthBack(r.rdtr, f.len);
    BytesBack(f);
    UnpackFields(r);
  }

  lemma SameHeaderReflexive(word: bv32)
    ensures SameHeader(word, word)
  {
    hide IsExtended;
  }

  /** Two valid identifiers have the same identifier word only when they are the same. */
  lemma IdWordInjective(e: bool, i: bv32, r: bool, e': bool, i': bv32, r': bool)
    requires IdFits(e, i) && IdFits(e', i')
    ensures IdWord(e, i, r) == IdWord(e', i', r') <==> e == e' && i == i' && r == r'
  {
    hide *;
    SameHeaderReflexive(IdWord(e, i, r));
    if IdWord(e, i, r) == IdWord(e', i', r') {
      IdWordBack(IdWord(e, i, r), e, i, r);
      IdWordBack(IdWord(e, i, r), e', i', r');
    }
  }

  // ---------- the layout itself (section 32.9.3 of RM0090) ----------

  /** The eight data bytes lie in two registers, in each from the least significant byte up. */
  ghost predicate HoldsData(low: bv32, high: bv32, data: seq<bv8>)
    requires |data| == 8
  {
    && low & 0xFF == data[0] as bv32 && (low >> 8) & 0xFF == data[1] as bv32
    && (low >> 16) & 0xFF == data[2] as bv32 && low >> 24 == data[3] as bv32
    && high & 0xFF == data[4] as bv32 && (high >> 8) & 0xFF == data[5] as bv32
    && (high >> 16) & 0xFF == data[6] as bv32 && high >> 24 == data[7] as bv32
  }

  /** Bit `i` of a register. */
  predicate IsSet(word: bv32, i: bv32)
    requires i < 32
  {
    (word >> i) & 1 == 1
  }

  /** The bits of a register from `i` up. */
  function From(word: bv32, i: bv32): bv32
    requires i < 32
  {
    word >> i
  }

  /** RTR is bit 1, IDE bit 2, an extended identifier bits 31:3, a standard one bits 31:21. */
  ghost predicate HoldsHeader(word: bv32, extended: bool, id: bv32, remote: bool) {
    && (IsSet(word, 1) <==> remote)
    && (IsSet(word, 2) <==> extended)
    && id == From(word, if extended then 3 else 21)
  }

  lemma PackedByte0(b0: bv8, b1: bv8, b2: bv8, b3: bv8)
    ensures DataWord(b0, b1, b2, b3) & 0xFF == b0 as bv32
  {
  }

  lemma PackedByte1(b0: bv8, b1: bv8, b2: bv8, b3: bv8)
    ensures (DataWord(b0, b1, b2, b3) >> 8) & 0xFF == b1 as bv32
  {
  }

  lemma PackedByte2(b0: bv8, b1: bv8, b2: bv8, b3: bv8)
    ensures (DataWord(b0, b1, b2, b3) >> 16) & 0xFF == b2 as bv32
  {
  }

  lemma PackedByte3(b0: bv8, b1: bv8, b2: bv8, b3: bv8)
    ensures DataWord(b0, b1, b2, b3) >> 24 == b3 as bv32
  {
  }

  lemma PackedWord(b0: bv8, b1: bv8, b2: bv8, b3: bv8)
    ensures var w := DataWord(b0, b1, b2, b3);
            && w & 0xFF == b0 as bv32 && (w >> 8) & 0xFF == b1 as bv32
            && (w >> 16) & 0xFF == b2 as bv32 && w >> 24 == b3 as bv32
  {
    hide DataWord;
    PackedByte0(b0, b1, b2, b3);
    PackedByte1(b0, b1, b2, b3);
    PackedByte2(b0, b1, b2, b3);
    PackedByte3(b0, b1, b2, b3);
  }

  /** The data registers written for a frame hold byte k of each half in their bits 8k + 7 to 8k. */
  lemma PackedDataLayout(f: Frame)
    requires |f.data| == 8
    ensures HoldsData(LowWord(f), HighWord(f), f.data)
  {
    hide DataWord;
    PackedWord(f.data[0], f.data[1], f.data[2], f.data[3]);
    PackedWord(f.data[4], f.data[5], f.data[6], f.data[7]);
  }

  lemma PackedRtr(extended: bool, id: bv32, remote: bool)
    ensures IsSet(IdWord(extended, id, remote), 1) <==> remote
  {
  }

  lemma PackedIde(extended: bool, id: bv32, remote: bool)
    ensures IsSet(IdWord(extended, id, remote), 2) <==> extended
  {
  }

  lemma PackedExtendedId(id: bv32, remote: bool)
    requires IdFits(true, id)
    ensures From(IdWord(true, id, remote), 3) == id
  {
  }

  lemma PackedStandardId(id: bv32, remote: bool)
    requires IdFits(false, id)
    ensures From(IdWord(false, id, remote), 21) == id
  {
  }

  lemma PackedRest(extended: bool, id: bv32, remote: bool)
    ensures IdWord(extended, id, remote) & 1 == 0
    ensures !extended ==> IdWord(extended, id, remote) & 0x001F_FFF8 == 0
  {
  }

  /** The identifier word written for a frame: every field in its place, and nothing outside them. */
  lemma PackedHeaderLayout(extended: bool, id: bv32, remote: bool)
    requires IdFits(extended, id)
    ensures HoldsHeader(IdWord(extended, id, remote), extended, id, remote)
    ensures IdWord(extended, id, remote) & 1 == 0
    ensures !extended ==> IdWord(extended, id, remote) & 0x001F_FFF8 == 0
  {
    hide IdWord, IdFits, IsSet, From;
    PackedRtr(extended, id, remote);
    PackedIde(extended, id, remote);
    PackedRest(extended, id, remote);
    if extended {
      PackedExtendedId(id, remote);
    } else {
      PackedStandardId(id, remote);
    }
  }

  lemma UnpackedBytes(word: bv32)
    ensures ByteOf(word, 0) as bv32 == word & 0xFF
    ensures ByteOf(word, 1) as bv32 == (word >> 8) & 0xFF
    ensures ByteOf(word, 2) as bv32 == (word >> 16) & 0xFF
    ensures ByteOf(word, 3) as bv32 == word >> 24
  {
  }

  lemma UnpackedKind(rir: bv32)
    ensures IsSet(rir, 2) <==> IsExtended(rir)
  {
  }

  lemma UnpackedRtr(rir: bv32)
    ensures IsSet(rir, 1) <==> IsRemote(rir)
  {
  }

  lemma UnpackedId(rir: bv32)
    ensures IdIn(rir) == From(rir, if IsExtended(rir) then 3 else 21)
  {
  }

  /** Receiving reads the same layout, from any register contents. */
  lemma UnpackedLayout(r: Received)
    ensures var f := Unpack(r);
            && |f.data| == 8 && HoldsData(r.rdlr, r.rdhr, f.data)
            && HoldsHeader(r.rir, f.extended, f.id, f.remote)
  {
    hide ByteOf, IsExtended, IsRemote, IdIn, IsSet, From;
    UnpackedBytes(r.rdlr);
    UnpackedBytes(r.rdhr);
    UnpackedKind(r.rir);
    UnpackedRtr(r.rir);
    UnpackedId(r.rir);
  }
}
