/** Single bits of 32-bit register words. */
module WordBits {

  function Mask(i: nat): bv32
    requires i < 32
  {
    1 << i
  }

  function Common(w: bv32, m: bv32): bv32 { w & m }

  function Either(a: bv32, b: bv32): bv32 { a | b }

  predicate Touches(w: bv32, m: bv32) { Common(w, m) != 0 }

  predicate Bit(w: bv32, i: nat)
    requires i < 32
  {
    Touches(w, Mask(i))
  }

  /** `w |= bits`, and a store to a register that sets the bits written as one. */
  function SetBits(w: bv32, bits: bv32): bv32 { w | bits }

  /** `w &= ~bits`, and a store to a register that clears the bits written as one. */
  function ClearBits(w: bv32, bits: bv32): bv32 { w & !bits }

  function HalfOf(w: bv32): bv32 { w >> 1 }

  function DoubleOf(w: bv32): bv32 { w << 1 }

  predicate IsOdd(w: bv32) { w & 1 == 1 }

  predicate TopClear(w: bv32) { w & 0x8000_0000 == 0 }

  function Halved(w: bv32, i: nat): bv32
    decreases i
  {
    if i == 0 then w else Halved(HalfOf(w), i - 1)
  }

  lemma BitZero(w: bv32)
    ensures Bit(w, 0) <==> IsOdd(w)
  {
  }

  lemma MaskDoubles(i: nat)
    requires i < 31
    ensures Mask(i + 1) == DoubleOf(Mask(i)) && TopClear(Mask(i))
  {
  }

  lemma TouchesHalf(w: bv32, m: bv32)
    requires TopClear(m)
    ensures Touches(w, DoubleOf(m)) <==> Touches(HalfOf(w), m)
  {
  }

  /** Bits are numbered from the least significant one: bit `i` is the last bit after `i` halvings. */
  lemma {:induction false} BitIsNumbered(w: bv32, i: nat)
    requires i < 32
    ensures Bit(w, i) <==> IsOdd(Halved(w, i))
    decreases i
  {
    hide Mask, HalfOf, IsOdd, Touches, DoubleOf, TopClear;
    if i == 0 {
      BitZero(w);
    } else {
      MaskDoubles(i - 1);
      TouchesHalf(w, Mask(i - 1));
      BitIsNumbered(HalfOf(w), i - 1);
    }
  }

  lemma MaskTouches(i: nat, j: nat)
    requires i < 32 && j < 32
    ensures Touches(Mask(i), Mask(j)) <==> i == j
  {
  }

  lemma SetTwice(w: bv32, bits: bv32)
    ensures SetBits(SetBits(w, bits), bits) == SetBits(w, bits)
  {
  }

  lemma OnesSplit(w: bv32, value: bv32, m: bv32)
    ensures Common(SetBits(w, value), m) == Either(Common(w, m), Common(value, m))
  {
    assert (w | value) & m == (w & m) | (value & m);
  }

  lemma EitherVanishes(a: bv32, b: bv32)
    ensures Either(a, b) == 0 <==> a == 0 && b == 0
  {
  }

  lemma OnesTouch(w: bv32, value: bv32, m: bv32)
    ensures Touches(SetBits(w, value), m) <==> Touches(w, m) || Touches(value, m)
  {
    hide Common, Either, SetBits;
    OnesSplit(w, value, m);
    EitherVanishes(Common(w, m), Common(value, m));
  }

  lemma ClearedVanishes(w: bv32, m: bv32)
    ensures !Touches(ClearBits(w, m), m)
  {
  }

  lemma ClearedSpares(w: bv32, m: bv32, n: bv32)
    requires !Touches(m, n)
    ensures Touches(ClearBits(w, m), n) <==> Touches(w, n)
  {
  }

  lemma BitOfSet(w: bv32, i: nat, j: nat)
    requires i < 32 && j < 32
    ensures Bit(SetBits(w, Mask(i)), j) <==> Bit(w, j) || i == j
  {
    hide Mask, Touches, SetBits;
    OnesTouch(w, Mask(i), Mask(j));
    MaskTouches(i, j);
  }

  lemma BitOfCleared(w: bv32, i: nat, j: nat)
    requires i < 32 && j < 32
    ensures Bit(ClearBits(w, Mask(i)), j) <==> Bit(w, j) && i != j
  {
    hide Mask, Touches, ClearBits;
    MaskTouches(i, j);
    if i == j {
      ClearedVanishes(w, Mask(i));
    } else {
      ClearedSpares(w, Mask(i), Mask(j));
    }
  }

  /** Bit `i` of `w` made `on`. */
  function PutBit(w: bv32, i: nat, on: bool): bv32
    requires i < 32
  {
    if on then SetBits(w, Mask(i)) else ClearBits(w, Mask(i))
  }

  lemma BitOfPut(w: bv32, i: nat, on: bool, j: nat)
    requires i < 32 && j < 32
    ensures Bit(PutBit(w, i, on), j) <==> if i == j then on else Bit(w, j)
  {
    hide Bit, Mask, SetBits, ClearBits;
    BitOfSet(w, i, j);
    BitOfCleared(w, i, j);
  }
}
