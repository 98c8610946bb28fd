/** The bit-level intrinsics: the software bit reversal, rotation, and the byte swaps built from it.
    Bit numbers are taken modulo 32. */
module Intrinsics {

  predicate Bit(w: bv32, i: bv32) { (w >> (i & 31)) & 1 != 0 }

  // ---------- single operations on words ----------

  function Doubled(w: bv32): bv32 { w << 1 }

  function Lowest(w: bv32): bv32 { w & 1 }

  function Either(a: bv32, b: bv32): bv32 { a | b }

  function Right(w: bv32, k: bv32): bv32
    requires k <= 32
  {
    w >> k
  }

  function Left(w: bv32, k: bv32): bv32
    requires k <= 32
  {
    w << k
  }

  lemma BitOfDoubled(w: bv32, i: bv32)
    ensures Bit(Doubled(w), i) <==> i & 31 != 0 && Bit(w, i - 1)
  {
  }

  lemma BitOfLowest(w: bv32, i: bv32)
    ensures Bit(Lowest(w), i) <==> i & 31 == 0 && Bit(w, 0)
  {
  }

  lemma BitOfEither(a: bv32, b: bv32, i: bv32)
    ensures Bit(Either(a, b), i) <==> Bit(a, i) || Bit(b, i)
  {
    assert ((a | b) >> (i & 31)) & 1 == ((a >> (i & 31)) & 1) | ((b >> (i & 31)) & 1);
  }

  lemma LeftNone(w: bv32)
    ensures Left(w, 0) == w
  {
  }

  lemma LeftOnce(w: bv32, s: bv32)
    requires 0 < s <= 31
    ensures Left(w, s) == Doubled(Left(w, s - 1))
  {
  }

  lemma IndexSteps(i: bv32, s: bv32)
    ensures i - 1 - (s - 1) == i - s
  {
  }

  lemma IndexNonZero(i: bv32)
    requires i <= 31
    ensures i & 31 == 0 <==> i == 0
  {
  }

  lemma {:induction false} BitOfLeft(w: bv32, s: bv32, i: bv32)
    requires s <= 31 && i <= 31
    ensures Bit(Left(w, s), i) <==> s <= i && Bit(w, i - s)
    decreases s
  {
    hide Bit, Left, Doubled;
    if s == 0 {
      LeftNone(w);
    } else {
      LeftOnce(w, s);
      BitOfDoubled(Left(w, s - 1), i);
      IndexNonZero(i);
      if i != 0 {
        BitOfLeft(w, s - 1, i - 1);
        IndexSteps(i, s);
      }
    }
  }

  lemma RightOnce(w: bv32, k: bv32)
    requires k <= 31
    ensures Right(Right(w, k), 1) == Right(w, k + 1)
  {
  }

  lemma LowestOfRight(w: bv32, k: bv32)
    requires k <= 31
    ensures Bit(Right(w, k), 0) <==> Bit(w, k)
  {
  }

  lemma NothingAbove(w: bv32, k: bv32, i: bv32)
    requires k <= i <= 31 && Right(w, k) == 0
    ensures !Bit(w, i)
  {
  }

  // ---------- a word is its bits ----------

  function Unit(b: bool): bv32 { if b then 1 else 0 }

  lemma RightGrows(w: bv32, k: bv32)
    requires k <= 31
    ensures Right(w, k) == Either(Doubled(Right(w, k + 1)), Unit(Bit(w, k)))
  {
  }

  ghost predicate SameBits(a: bv32, b: bv32) {
    forall i: bv32 :: Bit(a, i) <==> Bit(b, i)
  }

  lemma {:induction false} SameBitsAbove(a: bv32, b: bv32, k: bv32)
    requires k <= 32 && SameBits(a, b)
    ensures Right(a, k) == Right(b, k)
    decreases 32 - k
  {
    hide Right, Bit, Either, Doubled, Unit;
    if k == 32 {
      RightAll(a);
      RightAll(b);
    } else {
      SameBitsAbove(a, b, k + 1);
      RightGrows(a, k);
      RightGrows(b, k);
    }
  }

  lemma RightAll(w: bv32)
    ensures Right(w, 32) == 0
  {
  }

  lemma RightNone(w: bv32)
    ensures Right(w, 0) == w
  {
  }

  lemma BitsDecide(a: bv32, b: bv32)
    requires SameBits(a, b)
    ensures a == b
  {
    hide *;
    SameBitsAbove(a, b, 0);
    RightNone(a);
    RightNone(b);
  }

  // ---------- __RBIT ----------

  ghost predicate IsReverse(result: bv32, v: bv32) {
    forall i: bv32 | i <= 31 :: Bit(result, i) <==> Bit(v, 31 - i)
  }

  /** The low `32 - s` bits of `result` are those of `v` reversed; the bits above may be anything. */
  ghost predicate ReversedBelow(result: bv32, v: bv32, s: bv32)
    requires s <= 31
  {
    forall j: bv32 | j <= 31 - s :: Bit(result, j) <==> Bit(v, 31 - s - j)
  }

  lemma StepIndex(s: bv32, j: bv32)
    ensures 31 - s - (j - 1) == 31 - (s - 1) - j
  {
  }

  lemma ReverseStepBit(result: bv32, v: bv32, s: bv32, j: bv32)
    requires 0 < s <= 31 && j <= 31 - (s - 1)
    requires ReversedBelow(result, v, s)
    ensures Bit(Either(Doubled(result), Lowest(Right(v, 32 - s))), j) <==> Bit(v, 31 - (s - 1) - j)
  {
    hide Bit, Either, Doubled, Lowest, Right;
    var low := Lowest(Right(v, 32 - s));
    BitOfEither(Doubled(result), low, j);
    BitOfDoubled(result, j);
    BitOfLowest(Right(v, 32 - s), j);
    LowestOfRight(v, 32 - s);
    IndexNonZero(j);
    StepIndex(s, j);
  }

  lemma ReverseStep(result: bv32, v: bv32, s: bv32)
    requires 0 < s <= 31 && ReversedBelow(result, v, s)
    ensures ReversedBelow(Either(Doubled(result), Lowest(Right(v, 32 - s))), v, s - 1)
  {
    hide Bit, Either, Doubled, Lowest, Right;
    var next := Either(Doubled(result), Lowest(Right(v, 32 - s)));
    forall j: bv32 | j <= 31 - (s - 1)
      ensures Bit(next, j) <==> Bit(v, 31 - (s - 1) - j)
    {
      ReverseStepBit(result, v, s, j);
    }
  }

  lemma ReverseStart(v: bv32)
    ensures ReversedBelow(v, v, 31)
  {
  }

  lemma LastIndex(s: bv32, i: bv32)
    ensures 31 - s - (i - s) == 31 - i
  {
  }

  lemma LastShiftBit(result: bv32, v: bv32, s: bv32, i: bv32)
    requires s <= 31 && i <= 31 && ReversedBelow(result, v, s) && Right(v, 32 - s) == 0
    ensures Bit(Left(result, s), i) <==> Bit(v, 31 - i)
  {
    hide Bit, Left, Right;
    BitOfLeft(result, s, i);
    LastIndex(s, i);
    if i < s {
      NothingAbove(v, 32 - s, 31 - i);
    }
  }

  lemma LastShift(result: bv32, v: bv32, s: bv32)
    requires s <= 31 && ReversedBelow(result, v, s) && Right(v, 32 - s) == 0
    ensures IsReverse(Left(result, s), v)
  {
    hide Bit, Left, Right, ReversedBelow;
    forall i: bv32 | i <= 31
      ensures Bit(Left(result, s), i) <==> Bit(v, 31 - i)
    {
      LastShiftBit(result, v, s, i);
    }
  }

  /** The software `__RBIT`: bit `i` of the result is bit `31 - i` of the argument.  The high bits of
      the argument that stay in `result` are shifted out, and `s` never goes below 0. */
  method Rbit(v: bv32) returns (result: bv32)
    ensures IsReverse(result, v)
  {
    hide *;
    var value := v;
    var s: bv32 := 31;
    result := value;
    value := Right(value, 1);
    ReverseStart(v);
    while value != 0
      invariant s <= 31 && value == Right(v, 32 - s) && ReversedBelow(result, v, s)
      decreases s
    {
      RightAll(v);
      ReverseStep(result, v, s);
      RightOnce(v, 32 - s);
      result := Doubled(result);
      result := Either(result, Lowest(value));
      s := s - 1;
      value := Right(value, 1);
    }
    LastShift(result, v, s);
    result := Left(result, s);
  }

  lemma IndexTwice(i: bv32)
    requires i <= 31
    ensures 31 - (31 - i) == i && 31 - i <= 31
  {
  }

  lemma BitModulo(w: bv32, i: bv32)
    ensures Bit(w, i) <==> Bit(w, i & 31)
  {
  }

  lemma IndexInRange(i: bv32)
    ensures i & 31 <= 31
  {
  }

  /** Reversing twice gives the word back. */
  lemma ReverseTwice(v: bv32, r: bv32, w: bv32)
    requires IsReverse(r, v) && IsReverse(w, r)
    ensures w == v
  {
    hide Bit;
    forall i: bv32
      ensures Bit(w, i) <==> Bit(v, i)
    {
      var j := i & 31;
      BitModulo(w, i);
      BitModulo(v, i);
      IndexInRange(i);
      IndexTwice(j);
      assert Bit(w, j) <==> Bit(r, 31 - j);
      assert Bit(r, 31 - j) <==> Bit(v, 31 - (31 - j));
    }
    BitsDecide(w, v);
  }

  /** A word has one reversal only. */
  lemma ReverseIsUnique(v: bv32, r: bv32, r': bv32)
    requires IsReverse(r, v) && IsReverse(r', v)
    ensures r == r'
  {
    hide Bit;
    forall i: bv32
      ensures Bit(r, i) <==> Bit(r', i)
    {
      BitModulo(r, i);
      BitModulo(r', i);
      IndexInRange(i);
    }
    BitsDecide(r, r');
  }

  // ---------- __ROR ----------

  function Remainder32(n: bv32): (m: bv32)
    ensures m <= 31
  {
    n % 32
  }

  /** `__ROR` */
  function Ror(x: bv32, n: bv32): bv32 {
    var m := Remainder32(n);
    if m == 0 then x else Either(Right(x, m), Left(x, 32 - m))
  }

  lemma BitOfHalved(w: bv32, i: bv32)
    requires i <= 31
    ensures Bit(Right(w, 1), i) <==> i != 31 && Bit(w, i + 1)
  {
  }

  lemma RightBack(w: bv32, k: bv32)
    requires 0 < k <= 31
    ensures Right(w, k) == Right(Right(w, k - 1), 1)
  {
  }

  lemma IndexUp(i: bv32, k: bv32)
    ensures i + 1 + (k - 1) == i + k
  {
  }

  lemma {:induction false} BitOfRight(w: bv32, k: bv32, i: bv32)
    requires k <= 31 && i <= 31
    ensures Bit(Right(w, k), i) <==> i <= 31 - k && Bit(w, i + k)
    decreases k
  {
    hide Bit, Right;
    if k == 0 {
      RightNone(w);
    } else {
      RightBack(w, k);
      BitOfHalved(Right(w, k - 1), i);
      if i != 31 {
        BitOfRight(w, k - 1, i + 1);
        IndexUp(i, k);
      }
    }
  }

  lemma WrappedIndex(i: bv32, m: bv32)
    requires 0 < m <= 31 && i <= 31 && 32 - m <= i
    ensures i - (32 - m) == (i + m) & 31
  {
  }

  /** 32-bit addition. */
  function Plus(a: bv32, b: bv32): bv32 { a + b }

  function Modulo32(i: bv32): (j: bv32)
    ensures j <= 31
  {
    i & 31
  }

  lemma BitOfModulo(w: bv32, i: bv32)
    ensures Bit(w, Modulo32(i)) <==> Bit(w, i)
  {
  }

  lemma BitAfterRemainder(w: bv32, i: bv32, n: bv32)
    ensures Bit(w, Plus(Modulo32(i), Remainder32(n))) <==> Bit(w, Plus(i, n))
  {
  }

  lemma BitOfRotated(x: bv32, m: bv32, i: bv32)
    requires 0 < m <= 31 && i <= 31
    ensures Bit(Either(Right(x, m), Left(x, 32 - m)), i) <==> Bit(x, Plus(i, m))
  {
    hide Bit, Either, Right, Left;
    BitOfEither(Right(x, m), Left(x, 32 - m), i);
    BitOfRight(x, m, i);
    BitOfLeft(x, 32 - m, i);
    BitModulo(x, i + m);
    if 32 - m <= i {
      WrappedIndex(i, m);
    }
  }

  lemma PlusNothing(i: bv32)
    ensures Plus(i, 0) == i
  {
  }

  lemma RorBelow32(x: bv32, n: bv32, i: bv32)
    requires i <= 31
    ensures Bit(Ror(x, n), i) <==> Bit(x, Plus(i, Remainder32(n)))
  {
    hide Bit, Either, Right, Left, Remainder32, Plus;
    var m := Remainder32(n);
    if m == 0 {
      PlusNothing(i);
    } else {
      BitOfRotated(x, m, i);
    }
  }

  /** Rotation by any 32-bit amount moves bit `i + n` to bit `i`, modulo 32. */
  lemma BitOfRor(x: bv32, n: bv32, i: bv32)
    ensures Bit(Ror(x, n), i) <==> Bit(x, Plus(i, n))
  {
    hide *;
    BitOfModulo(Ror(x, n), i);
    RorBelow32(x, n, Modulo32(i));
    BitAfterRemainder(x, i, n);
  }

  /** A bit number as such, modulo 32. */
  function Low5(i: bv32): bv5 { (i & 31) as bv5 }

  function Sum5(x: bv5, y: bv5): bv5 { x + y }

  lemma Low5OfPlus(a: bv32, b: bv32)
    ensures Low5(Plus(a, b)) == Sum5(Low5(a), Low5(b))
  {
  }

  lemma SumAssociates(x: bv5, y: bv5, z: bv5)
    ensures Sum5(Sum5(x, y), z) == Sum5(x, Sum5(z, y))
  {
  }

  lemma PlusAssociates(i: bv32, b: bv32, a: bv32)
    ensures Low5(Plus(Plus(i, b), a)) == Low5(Plus(i, Plus(a, b)))
  {
    hide Plus, Low5, Sum5;
    Low5OfPlus(Plus(i, b), a);
    Low5OfPlus(i, b);
    Low5OfPlus(i, Plus(a, b));
    Low5OfPlus(a, b);
    SumAssociates(Low5(i), Low5(b), Low5(a));
  }

  lemma BitOfLow5(w: bv32, i: bv32, j: bv32)
    requires Low5(i) == Low5(j)
    ensures Bit(w, i) <==> Bit(w, j)
  {
    assert i & 31 == j & 31;
  }

  /** Rotations compose by adding their amounts, also where the sum wraps around 32 bits. */
  lemma RorAddsUp(x: bv32, a: bv32, b: bv32)
    ensures Ror(Ror(x, a), b) == Ror(x, Plus(a, b))
  {
    hide Bit, Ror, Plus, Low5;
    forall i: bv32
      ensures Bit(Ror(Ror(x, a), b), i) <==> Bit(Ror(x, Plus(a, b)), i)
    {
      BitOfRor(Ror(x, a), b, i);
      BitOfRor(x, a, Plus(i, b));
      BitOfRor(x, Plus(a, b), i);
      PlusAssociates(i, b, a);
      BitOfLow5(x, Plus(Plus(i, b), a), Plus(i, Plus(a, b)));
    }
    BitsDecide(Ror(Ror(x, a), b), Ror(x, Plus(a, b)));
  }

  lemma Opposite(a: bv32)
    ensures Plus(a, 0 - a) == 0
  {
  }

  lemma RorByNothing(x: bv32)
    ensures Ror(x, 0) == x
  {
  }

  /** Every rotation is undone by the rotation by the negated amount. */
  lemma RorUndone(x: bv32, a: bv32)
    ensures Ror(Ror(x, a), 0 - a) == x
  {
    hide Ror, Plus;
    RorAddsUp(x, a, 0 - a);
    Opposite(a);
    RorByNothing(x);
  }

  // ---------- __REV and __REV16 ----------

  /** `__REV`: the four bytes in reverse order. */
  function Rev(x: bv32): bv32 {
    (x << 24) | ((x & 0xFF00) << 8) | ((x >> 8) & 0xFF00) | (x >> 24)
  }

  /** `__REV16` */
  function Rev16(x: bv32): bv32 { Ror(Rev(x), 16) }

  /** The bit in the other byte of the same halfword. */
  function Exchanged(i: bv32): bv32 { i ^ 8 }

  /** Bytes are exchanged inside each halfword: bit `i` comes from bit `i ^ 8`. */
  lemma BitOfRev16(x: bv32, i: bv32)
    ensures Bit(Rev16(x), i) <==> Bit(x, Exchanged(i))
  {
  }

  /** `__REV16` is its own inverse. */
  lemma Rev16Twice(x: bv32)
    ensures Rev16(Rev16(x)) == x
  {
  }
}
