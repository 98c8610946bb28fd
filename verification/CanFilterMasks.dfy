/** Masked comparison of identifiers, and when two 16-bit filters together let everything through. */
module CanFilterMasks {

  predicate Agree(w: bv32, v: bv32, mask: bv32) { w & mask == v & mask }

  predicate FitsHalf(x: bv32) { x & 0xFFFF_0000 == 0 }

  predicate OneBit(m: bv32) { m & (m - 1) == 0 }

  predicate Meets(a: bv32, b: bv32) { a & b != 0 }

  /** On the bits of `m` one identifier is the complement of the other. */
  predicate Opposed(a: bv32, b: bv32, m: bv32) { !a & m == b & m }

  function LowestBit(m: bv32): bv32 { m & (0 - m) }

  function Without(m: bv32, d: bv32): bv32 { m & !d }

  /** An identifier with all bits turned, or some. */
  function Turned(i: bv32): bv32 { !i & 0xFFFF }

  function TurnedAt(i: bv32, d: bv32): bv32 { (i ^ d) & 0xFFFF }

  /** Two filters with identifiers `i`, `j` and masks `m`, `n` cover all half words: one of them compares
      nothing, or both compare the same single bit and ask for different values of it. */
  predicate CoverAll(i: bv32, m: bv32, j: bv32, n: bv32) {
    m == 0 || n == 0 || (m == n && OneBit(m) && !Agree(i, j, m))
  }

  lemma AlwaysAgrees(w: bv32, v: bv32)
    ensures Agree(w, v, 0)
  {
  }

  lemma TurnedFits(i: bv32)
    ensures FitsHalf(Turned(i))
  {
  }

  lemma TurnedAtFits(i: bv32, d: bv32)
    ensures FitsHalf(TurnedAt(i, d))
  {
  }

  lemma TurnedDisagrees(i: bv32, m: bv32)
    requires m != 0 && FitsHalf(m)
    ensures !Agree(Turned(i), i, m)
  {
  }

  lemma TurnedMasked(i: bv32, n: bv32)
    requires FitsHalf(n)
    ensures Turned(i) & n == !i & n
  {
  }

  lemma TurnedAgreesIff(i: bv32, j: bv32, n: bv32)
    requires FitsHalf(n)
    ensures Agree(Turned(i), j, n) <==> Opposed(i, j, n)
  {
    hide Turned, FitsHalf;
    TurnedMasked(i, n);
  }

  lemma TurnedAtDisagrees(i: bv32, d: bv32, m: bv32)
    requires FitsHalf(m) && Meets(d, m)
    ensures !Agree(TurnedAt(i, d), i, m)
  {
  }

  lemma TurnedAtDisagreesToo(i: bv32, d: bv32, j: bv32, n: bv32)
    requires FitsHalf(n) && Without(n, d) != 0 && Opposed(i, j, n)
    ensures !Agree(TurnedAt(i, d), j, n)
  {
  }

  lemma LowestIsIn(m: bv32)
    requires m != 0
    ensures Meets(LowestBit(m), m)
  {
  }

  lemma OnlyLowest(m: bv32, n: bv32)
    requires m != 0 && n != 0 && Without(n, LowestBit(m)) == 0
    ensures n == LowestBit(m) && OneBit(n)
  {
  }

  lemma MoreThanLowest(m: bv32, n: bv32)
    requires m != 0 && n == LowestBit(m) && m != n
    ensures Meets(Without(m, n), m) && Without(n, Without(m, n)) != 0
  {
  }

  lemma OpposedDisagree(i: bv32, j: bv32, n: bv32)
    requires n != 0 && Opposed(i, j, n)
    ensures !Agree(i, j, n)
  {
  }

  /** Otherwise some half word passes neither. */
  lemma UncoveredHalf(i: bv32, m: bv32, j: bv32, n: bv32) returns (x: bv32)
    requires FitsHalf(m) && FitsHalf(n) && !CoverAll(i, m, j, n)
    ensures FitsHalf(x) && !Agree(x, i, m) && !Agree(x, j, n)
  {
    hide Agree, FitsHalf, OneBit, Meets, Opposed, LowestBit, Without, Turned, TurnedAt;
    x := Turned(i);
    TurnedFits(i);
    TurnedDisagrees(i, m);
    TurnedAgreesIff(i, j, n);
    if Opposed(i, j, n) {
      var d := LowestBit(m);
      LowestIsIn(m);
      OpposedDisagree(i, j, n);
      if Without(n, d) == 0 {
        OnlyLowest(m, n);
        MoreThanLowest(m, n);
        d := Without(m, n);
      }
      x := TurnedAt(i, d);
      TurnedAtFits(i, d);
      TurnedAtDisagrees(i, d, m);
      TurnedAtDisagreesToo(i, d, j, n);
    }
  }

  lemma OneBitCovers(x: bv32, i: bv32, j: bv32, m: bv32)
    requires OneBit(m) && !Agree(i, j, m)
    ensures Agree(x, i, m) || Agree(x, j, m)
  {
  }

  /** Covered half words pass one of the two. */
  lemma CoveredHalf(x: bv32, i: bv32, m: bv32, j: bv32, n: bv32)
    requires CoverAll(i, m, j, n)
    ensures Agree(x, i, m) || Agree(x, j, n)
  {
    hide Agree, OneBit;
    if m == 0 {
      AlwaysAgrees(x, i);
    } else if n == 0 {
      AlwaysAgrees(x, j);
    } else {
      OneBitCovers(x, i, j, m);
    }
  }
}
