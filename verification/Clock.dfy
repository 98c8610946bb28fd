/** `SystemCoreClockUpdate`: the core clock computed from the RCC registers, in 32-bit arithmetic, and
    how far it lies from the exact frequency. */
module Clock {

  const WORD := 0x1_0000_0000
  const HSI_VALUE := 16_000_000
  const HSE_VALUE := 8_000_000

  /** The AHB prescaler as a shift (`AHBPrescTable`). */
  const AHB_TABLE: seq<nat> := [0, 0, 0, 0, 0, 0, 0, 0, 1, 2, 3, 4, 6, 7, 8, 9]

  // ---------- register fields ----------

  /** The clock the switch status names. */
  datatype Switch = Hsi | Hse | Pll | Invalid

  function SwsField(cfgr: bv32): Switch {
    var tmp := cfgr & 0xC;
    if tmp == 0x0 then Hsi else if tmp == 0x4 then Hse else if tmp == 0x8 then Pll else Invalid
  }

  function HpreField(cfgr: bv32): bv32 { (cfgr & 0xF0) >> 4 }

  function HseSource(pllcfgr: bv32): bool { (pllcfgr & 0x40_0000) >> 22 != 0 }

  function PllM(pllcfgr: bv32): (m: nat)
    ensures m < 64
  {
    (pllcfgr & 0x3F) as nat
  }

  function PllN(pllcfgr: bv32): (n: nat)
    ensures n < 512
  {
    ((pllcfgr & 0x7FC0) >> 6) as nat
  }

  function PllPBits(pllcfgr: bv32): (p: nat)
    ensures p < 4
  {
    ((pllcfgr & 0x3_0000) >> 16) as nat
  }

  function AhbShift(cfgr: bv32): (shift: nat)
    ensures shift <= 9
  {
    var i := HpreField(cfgr) as nat;
    AhbIndex(cfgr);
    AHB_TABLE[i]
  }

  lemma AhbIndex(cfgr: bv32)
    ensures HpreField(cfgr) as nat < 16
  {
  }

  // ---------- the computation ----------

  function Pow2(k: nat): (p: nat)
    ensures p >= 1
  {
    if k == 0 then 1 else 2 * Pow2(k - 1)
  }

  function SourceOf(pllcfgr: bv32): nat { if HseSource(pllcfgr) then HSE_VALUE else HSI_VALUE }

  function PllP(pllcfgr: bv32): (p: nat)
    ensures p > 0
  {
    (PllPBits(pllcfgr) + 1) * 2
  }

  /** The 32-bit product of the divided source and the multiplier. */
  function Vco(src: nat, m: nat, n: nat): nat
    requires m != 0
  {
    src / m * n % WORD
  }

  function Divided(a: nat, d: nat): nat
    requires d != 0
  {
    a / d
  }

  /** The PLL output. */
  function PllClock(pllcfgr: bv32): nat
    requires PllM(pllcfgr) != 0
  {
    Divided(Vco(SourceOf(pllcfgr), PllM(pllcfgr), PllN(pllcfgr)), PllP(pllcfgr))
  }

  predicate PllSelected(cfgr: bv32) { SwsField(cfgr).Pll? }

  /** The clock before the AHB prescaler. */
  function SystemClock(cfgr: bv32, pllcfgr: bv32): nat
    requires PllSelected(cfgr) ==> PllM(pllcfgr) != 0
  {
    if PllSelected(cfgr) then PllClock(pllcfgr)
    else if SwsField(cfgr).Hse? then HSE_VALUE
    else HSI_VALUE
  }

  // ---------- the clock by register fields (section 7.3 of RM0090) ----------

  /** SWS and HPRE of CFGR; PLLM, PLLN, PLLP and PLLSRC of PLLCFGR. */
  datatype ClockFields = ClockFields(sws: bv2, hpre: bv4, m: bv6, n: bv9, p: bv2, hse: bv1)

  /** CFGR has SWS in bits 3:2 and HPRE in 7:4; PLLCFGR has M in bits 5:0, N in 14:6, P in 17:16 and the source
      in 22.  The other bits may be anything. */
  function CfgrOf(f: ClockFields, others: bv32): bv32 {
    ((f.sws as bv32) << 2) | ((f.hpre as bv32) << 4) | (others & 0xFFFF_FF03)
  }

  function PllcfgrOf(f: ClockFields, others: bv32): bv32 {
    (f.m as bv32) | ((f.n as bv32) << 6) | ((f.p as bv32) << 16) | ((f.hse as bv32) << 22) | (others & 0xFFBC_8000)
  }

  /** The divisor that an HPRE value names. */
  function AhbDivisor(hpre: bv4): (d: nat)
    ensures d > 0
  {
    match hpre
    case 8 => 2
    case 9 => 4
    case 10 => 8
    case 11 => 16
    case 12 => 64
    case 13 => 128
    case 14 => 256
    case 15 => 512
    case _ => 1
  }

  /** The core clock that the fields name, with the product of source and N in 32 bits. */
  function CoreClock(f: ClockFields): int
    requires f.sws == 2 ==> f.m != 0
  {
    (if f.sws == 2 then PllOutput(if f.hse == 1 then 8_000_000 else 16_000_000, f.m as nat, f.n as nat, f.p as nat)
     else if f.sws == 1 then 8_000_000
     else 16_000_000) / AhbDivisor(f.hpre)
  }

  function PllOutput(src: nat, m: nat, n: nat, p: nat): int
    requires m > 0
  {
    src / m * n % 0x1_0000_0000 / (2 * (p + 1))
  }

  lemma SwsOfCfgr(f: ClockFields, others: bv32)
    ensures SwsField(CfgrOf(f, others))
            == match f.sws case 0 => Hsi case 1 => Hse case 2 => Pll case _ => Invalid
  {
  }

  lemma HpreOfCfgr(f: ClockFields, others: bv32)
    ensures HpreField(CfgrOf(f, others)) == f.hpre as bv32
  {
  }

  lemma MOfPllcfgr(f: ClockFields, others: bv32)
    ensures PllM(PllcfgrOf(f, others)) == f.m as nat
  {
    assert PllcfgrOf(f, others) & 0x3F == f.m as bv32;
  }

  lemma NOfPllcfgr(f: ClockFields, others: bv32)
    ensures PllN(PllcfgrOf(f, others)) == f.n as nat
  {
    assert (PllcfgrOf(f, others) & 0x7FC0) >> 6 == f.n as bv32;
  }

  lemma POfPllcfgr(f: ClockFields, others: bv32)
    ensures PllPBits(PllcfgrOf(f, others)) == f.p as nat
  {
    assert (PllcfgrOf(f, others) & 0x3_0000) >> 16 == f.p as bv32;
  }

  lemma SourceOfPllcfgr(f: ClockFields, others: bv32)
    ensures HseSource(PllcfgrOf(f, others)) <==> f.hse == 1
  {
  }

  lemma ShiftIsDivisor(f: ClockFields, others: bv32)
    ensures Pow2(AhbShift(CfgrOf(f, others))) == AhbDivisor(f.hpre)
  {
    hide CfgrOf, HpreField;
    HpreOfCfgr(f, others);
    HpreShift(f.hpre);
  }

  lemma HpreShift(hpre: bv4)
    ensures hpre as bv32 as nat < 16
    ensures Pow2(AHB_TABLE[hpre as bv32 as nat]) == AhbDivisor(hpre)
  {
    match hpre
    case 8 => case 9 => case 10 => case 11 => case 12 => case 13 => case 14 => case 15 =>
    case _ =>
      assert hpre < 8;
  }

  lemma ClockOfFields(f: ClockFields, others: bv32, others': bv32)
    requires f.sws == 2 ==> f.m != 0
    ensures var cfgr, pllcfgr := CfgrOf(f, others), PllcfgrOf(f, others');
            && (PllSelected(cfgr) ==> PllM(pllcfgr) != 0)
            && Divided(SystemClock(cfgr, pllcfgr), Pow2(AhbShift(cfgr))) == CoreClock(f)
  {
    hide CfgrOf, PllcfgrOf, SwsField, PllM, PllN, PllPBits, HseSource, AhbShift, AhbDivisor, Pow2;
    SwsOfCfgr(f, others);
    MOfPllcfgr(f, others');
    NOfPllcfgr(f, others');
    POfPllcfgr(f, others');
    SourceOfPllcfgr(f, others');
    ShiftIsDivisor(f, others);
  }

  lemma DivisorIsNotZero(f: ClockFields, others: bv32, others': bv32)
    requires PllSelected(CfgrOf(f, others)) ==> PllM(PllcfgrOf(f, others')) != 0
    ensures f.sws == 2 ==> f.m != 0
  {
    hide CfgrOf, PllcfgrOf, SwsField, PllM;
    SwsOfCfgr(f, others);
    MOfPllcfgr(f, others');
  }

  /** Every pair of register values is made of its fields. */
  lemma ClockHasFields(cfgr: bv32, pllcfgr: bv32) returns (f: ClockFields)
    ensures CfgrOf(f, cfgr) == cfgr && PllcfgrOf(f, pllcfgr) == pllcfgr
  {
    f := ClockFields(((cfgr >> 2) & 3) as bv2, ((cfgr >> 4) & 0xF) as bv4, (pllcfgr & 0x3F) as bv6,
                     ((pllcfgr >> 6) & 0x1FF) as bv9, ((pllcfgr >> 16) & 3) as bv2, ((pllcfgr >> 22) & 1) as bv1);
  }

  class Rcc {
    var cfgr: bv32
    var pllcfgr: bv32
    var systemCoreClock: nat

    /** `SystemCoreClockUpdate`.  A PLL divisor of 0 divides by zero in the program. */
    method Update()
      requires PllSelected(cfgr) ==> PllM(pllcfgr) != 0
      modifies this`systemCoreClock
      ensures systemCoreClock == Divided(SystemClock(cfgr, pllcfgr), Pow2(AhbShift(cfgr)))
      ensures forall f, others, others' | cfgr == CfgrOf(f, others) && pllcfgr == PllcfgrOf(f, others') ::
                (f.sws == 2 ==> f.m != 0) && systemCoreClock == CoreClock(f)
    {
      hide PllM, PllN, PllPBits, HseSource, AhbShift, SwsField, Pow2, Vco, Divided, CfgrOf, PllcfgrOf, CoreClock;
      var pllvco, pllp, pllm := 0, 2, 2;
      match SwsField(cfgr) {
        case Hsi =>
          systemCoreClock := HSI_VALUE;
        case Hse =>
          systemCoreClock := HSE_VALUE;
        case Pll =>
          pllm := PllM(pllcfgr);
          if HseSource(pllcfgr) {
            pllvco := Vco(HSE_VALUE, pllm, PllN(pllcfgr));
          } else {
            pllvco := Vco(HSI_VALUE, pllm, PllN(pllcfgr));
          }
          pllp := (PllPBits(pllcfgr) + 1) * 2;
          systemCoreClock := Divided(pllvco, pllp);
        case Invalid =>
          systemCoreClock := HSI_VALUE;
      }
      var shift := AhbShift(cfgr);
      systemCoreClock := Divided(systemCoreClock, Pow2(shift));
      forall f, others, others' | cfgr == CfgrOf(f, others) && pllcfgr == PllcfgrOf(f, others')
        ensures (f.sws == 2 ==> f.m != 0) && systemCoreClock == CoreClock(f)
      {
        DivisorIsNotZero(f, others, others');
        ClockOfFields(f, others, others');
      }
    }
  }

  // ---------- overflow ----------

  lemma ProductMonotone(a: nat, b: nat, c: nat, d: nat)
    requires a <= b && c <= d
    ensures a * c <= b * d
  {
  }

  lemma QuotientIsLargest(a: nat, k: nat, q: nat)
    requires k > 0 && q * k <= a
    ensures q <= a / k
  {
    if a / k < q {
      ProductMonotone(a / k + 1, q, k, k);
    }
  }

  lemma QuotientShrinks(a: nat, m: nat, k: nat)
    requires 1 <= k <= m
    ensures a / m <= a / k
  {
    ProductMonotone(a / m, a / m, k, m);
    QuotientIsLargest(a, k, a / m);
  }

  /** The 32-bit product overflows only for the internal source undivided (M = 1) with N above 268;
      with M of 2 and more, which the hardware asks for, never. */
  lemma VcoOverflowsIff(pllcfgr: bv32)
    requires PllM(pllcfgr) != 0
    ensures SourceOf(pllcfgr) / PllM(pllcfgr) * PllN(pllcfgr) >= WORD
            <==> !HseSource(pllcfgr) && PllM(pllcfgr) == 1 && PllN(pllcfgr) > 268
  {
    hide PllM, PllN, HseSource;
    var m, n := PllM(pllcfgr), PllN(pllcfgr);
    if m >= 2 || HseSource(pllcfgr) {
      if m >= 2 {
        QuotientShrinks(SourceOf(pllcfgr), m, 2);
      } else {
        QuotientShrinks(SourceOf(pllcfgr), m, 1);
      }
      ProductMonotone(SourceOf(pllcfgr) / m, 8_000_000, n, 511);
    }
  }

  // ---------- the error ----------

  /** Two truncating divisions: the result is never above the exact value and the loss is bounded. */
  lemma TruncationBounds(src: nat, m: nat, n: nat, p: nat)
    requires m > 0 && p > 0
    ensures var c := Divided(src / m * n, p);
            c * p * m <= src * n < (c + 1) * p * m + n * m
  {
  }

  /** Nothing is lost exactly when both divisions are exact (or nothing is multiplied). */
  lemma ExactIff(src: nat, m: nat, n: nat, p: nat)
    requires m > 0 && p > 0
    ensures src / m * n / p * p * m == src * n <==> n == 0 || (src % m == 0 && src / m * n % p == 0)
  {
  }

  /** Dividing by the prescaler keeps the bounds, one step of the divided clock wide. */
  lemma PrescaledBounds(c: nat, d: nat, h: nat, scale: nat, exact: nat, slack: nat)
    requires d > 0 && h == c / d
    requires c * scale <= exact < (c + 1) * scale + slack
    ensures h * d * scale <= exact < (h + 1) * d * scale + slack
  {
    assert h * d <= c && c + 1 <= (h + 1) * d;
    ProductMonotone(h * d, c, scale, scale);
    ProductMonotone(c + 1, (h + 1) * d, scale, scale);
  }

  lemma Associate(a: nat, b: nat, c: nat)
    ensures a * b * c == a * (b * c)
  {
  }

  /** With the PLL selected and no overflow: the computed clock `h`, scaled by the prescaler, P and M,
      is at most the exact product of source and N, which lies less than one step of `h` and N * M above. */
  lemma PllClockBounds(cfgr: bv32, pllcfgr: bv32, h: nat)
    requires PllSelected(cfgr) && PllM(pllcfgr) != 0
    requires HseSource(pllcfgr) || PllM(pllcfgr) != 1 || PllN(pllcfgr) <= 268
    requires h == Divided(SystemClock(cfgr, pllcfgr), Pow2(AhbShift(cfgr)))
    ensures var m, n, p, d := PllM(pllcfgr), PllN(pllcfgr), PllP(pllcfgr), Pow2(AhbShift(cfgr));
            h * d * (p * m) <= SourceOf(pllcfgr) * n < (h + 1) * d * (p * m) + n * m
  {
    hide PllM, PllN, PllPBits, HseSource, AhbShift, SwsField, Pow2, SourceOf, PllP;
    var m, n, p, d := PllM(pllcfgr), PllN(pllcfgr), PllP(pllcfgr), Pow2(AhbShift(cfgr));
    VcoOverflowsIff(pllcfgr);
    var c := SystemClock(cfgr, pllcfgr);
    TruncationBounds(SourceOf(pllcfgr), m, n, p);
    Associate(c, p, m);
    Associate(c + 1, p, m);
    PrescaledBounds(c, d, h, p * m, SourceOf(pllcfgr) * n, n * m);
  }
}
