/** The interrupt enable and pending bitmaps (section B3.4 of the Armv7-M Architecture Reference
    Manual) against two plain sets of interrupt numbers. */
module Nvic {
  import opened WordBits

  const WORDS := 8

  /** External interrupts; a negative number names a processor exception. */
  type Irq = n: int | -16 <= n < 32 * WORDS witness 0

  /** A set bit in each of the eight words. */
  type Bitmap = words: seq<bv32> | |words| == WORDS witness seq(WORDS, _ => 0)

  datatype Registers = Registers(enable: Bitmap, pending: Bitmap)

  datatype Sets = Sets(enabled: set<int>, pending: set<int>)

  datatype Call = Enable(irq: Irq) | Disable(irq: Irq) | SetPending(irq: Irq) | ClearPending(irq: Irq)

  // ---------- the bitmaps ----------

  /** The numbers whose bits are set. */
  ghost function Members(words: Bitmap): set<int> {
    set n: int | 0 <= n < 32 * WORDS && Bit(words[n / 32], n % 32)
  }

  ghost function SetsOf(s: Registers): Sets {
    Sets(Members(s.enable), Members(s.pending))
  }

  /** A store of the bit of interrupt `n` to ISER or ISPR. */
  function StoreSet(words: Bitmap, n: nat): Bitmap
    requires n < 32 * WORDS
  {
    words[n / 32 := SetBits(words[n / 32], Mask(n % 32))]
  }

  /** A store of the bit of interrupt `n` to ICER or ICPR. */
  function StoreClear(words: Bitmap, n: nat): Bitmap
    requires n < 32 * WORDS
  {
    words[n / 32 := ClearBits(words[n / 32], Mask(n % 32))]
  }

  lemma StoreSetAdds(words: Bitmap, n: nat)
    requires n < 32 * WORDS
    ensures Members(StoreSet(words, n)) == Members(words) + {n}
  {
    hide Bit, Mask, SetBits;
    forall m: int | 0 <= m < 32 * WORDS
      ensures m in Members(StoreSet(words, n)) <==> m in Members(words) || m == n
    {
      BitOfSet(words[n / 32], n % 32, m % 32);
    }
  }

  lemma StoreClearRemoves(words: Bitmap, n: nat)
    requires n < 32 * WORDS
    ensures Members(StoreClear(words, n)) == Members(words) - {n}
  {
    hide Bit, Mask, ClearBits;
    forall m: int | 0 <= m < 32 * WORDS
      ensures m in Members(StoreClear(words, n)) <==> m in Members(words) && m != n
    {
      BitOfCleared(words[n / 32], n % 32, m % 32);
    }
  }

  // ---------- calls and sequences of calls ----------

  /** What a call does to the registers; a call for a processor exception does nothing. */
  function Perform(s: Registers, c: Call): Registers {
    if c.irq < 0 then s
    else match c
      case Enable(n) => s.(enable := StoreSet(s.enable, n))
      case Disable(n) => s.(enable := StoreClear(s.enable, n))
      case SetPending(n) => s.(pending := StoreSet(s.pending, n))
      case ClearPending(n) => s.(pending := StoreClear(s.pending, n))
  }

  /** What a call does to the sets. */
  function Expected(s: Sets, c: Call): Sets {
    if c.irq < 0 then s
    else match c
      case Enable(n) => s.(enabled := s.enabled + {n})
      case Disable(n) => s.(enabled := s.enabled - {n})
      case SetPending(n) => s.(pending := s.pending + {n})
      case ClearPending(n) => s.(pending := s.pending - {n})
  }

  function PerformAll(s: Registers, calls: seq<Call>): Registers
    decreases |calls|
  {
    if calls == [] then s else Perform(PerformAll(s, calls[..|calls| - 1]), calls[|calls| - 1])
  }

  function ExpectedAll(s: Sets, calls: seq<Call>): Sets
    decreases |calls|
  {
    if calls == [] then s else Expected(ExpectedAll(s, calls[..|calls| - 1]), calls[|calls| - 1])
  }

  lemma PerformMatches(s: Registers, c: Call)
    ensures SetsOf(Perform(s, c)) == Expected(SetsOf(s), c)
  {
    hide Members, StoreSet, StoreClear;
    if c.irq >= 0 {
      StoreSetAdds(s.enable, c.irq);
      StoreClearRemoves(s.enable, c.irq);
      StoreSetAdds(s.pending, c.irq);
      StoreClearRemoves(s.pending, c.irq);
    }
  }

  /** Over every sequence of calls the bitmaps represent the two sets. */
  lemma {:induction false} BitmapsAreSets(s: Registers, calls: seq<Call>)
    ensures SetsOf(PerformAll(s, calls)) == ExpectedAll(SetsOf(s), calls)
    decreases |calls|
  {
    hide SetsOf, Perform, Expected;
    if calls != [] {
      BitmapsAreSets(s, calls[..|calls| - 1]);
      PerformMatches(PerformAll(s, calls[..|calls| - 1]), calls[|calls| - 1]);
    }
  }

  /** The last call among `calls` that enables or disables interrupt `n`, or -1. */
  function LastSwitch(calls: seq<Call>, n: Irq): (r: int)
    ensures -1 <= r < |calls|
    ensures r >= 0 ==> calls[r] == Enable(n) || calls[r] == Disable(n)
    ensures forall i | r < i < |calls| :: calls[i] != Enable(n) && calls[i] != Disable(n)
    decreases |calls|
  {
    if calls == [] then -1
    else
      var c := calls[|calls| - 1];
      if c == Enable(n) || c == Disable(n) then |calls| - 1 else LastSwitch(calls[..|calls| - 1], n)
  }

  /** The last call among `calls` that sets or clears the pending state of interrupt `n`, or -1. */
  function LastPend(calls: seq<Call>, n: Irq): (r: int)
    ensures -1 <= r < |calls|
    ensures r >= 0 ==> calls[r] == SetPending(n) || calls[r] == ClearPending(n)
    ensures forall i | r < i < |calls| :: calls[i] != SetPending(n) && calls[i] != ClearPending(n)
    decreases |calls|
  {
    if calls == [] then -1
    else
      var c := calls[|calls| - 1];
      if c == SetPending(n) || c == ClearPending(n) then |calls| - 1 else LastPend(calls[..|calls| - 1], n)
  }

  /** After any calls, an interrupt is enabled iff the last call that switched it was an enable, and
      pending iff the last call about that was a set; without one it keeps what it had.  In
      particular the two states, and different interrupts, do not influence each other. */
  lemma {:induction false} LastCallDecides(s: Sets, calls: seq<Call>, n: Irq)
    requires n >= 0
    ensures var r := LastSwitch(calls, n);
            n in ExpectedAll(s, calls).enabled <==> if r >= 0 then calls[r].Enable? else n in s.enabled
    ensures var r := LastPend(calls, n);
            n in ExpectedAll(s, calls).pending <==> if r >= 0 then calls[r].SetPending? else n in s.pending
    decreases |calls|
  {
    if calls != [] {
      LastCallDecides(s, calls[..|calls| - 1], n);
    }
  }

  /** The NVIC registers.  `ISER` and `ICER` are two views of the enable state, `ISPR` and `ICPR` of
      the pending state. */
  class Controller {
    const enable: array<bv32>
    const pending: array<bv32>

    constructor ()
      ensures Valid() && fresh(enable) && fresh(pending)
    {
      enable := new bv32[WORDS];
      pending := new bv32[WORDS];
    }

    ghost predicate Valid()
      reads this
    {
      enable.Length == WORDS && pending.Length == WORDS && enable != pending
    }

    ghost function State(): Registers
      requires Valid()
      reads this, enable, pending
    {
      Registers(enable[..], pending[..])
    }

    /** `__NVIC_EnableIRQ` */
    method EnableIrq(irq: Irq)
      requires Valid()
      modifies enable
      ensures State() == Perform(old(State()), Enable(irq))
    {
      hide SetBits, Mask;
      if irq >= 0 {
        enable[irq / 32] := SetBits(enable[irq / 32], Mask(irq % 32));
      }
    }

    /** `__NVIC_DisableIRQ` */
    method DisableIrq(irq: Irq)
      requires Valid()
      modifies enable
      ensures State() == Perform(old(State()), Disable(irq))
    {
      hide ClearBits, Mask;
      if irq >= 0 {
        enable[irq / 32] := ClearBits(enable[irq / 32], Mask(irq % 32));
      }
    }

    /** `__NVIC_SetPendingIRQ` */
    method SetPendingIrq(irq: Irq)
      requires Valid()
      modifies pending
      ensures State() == Perform(old(State()), SetPending(irq))
    {
      hide SetBits, Mask;
      if irq >= 0 {
        pending[irq / 32] := SetBits(pending[irq / 32], Mask(irq % 32));
      }
    }

    /** `__NVIC_ClearPendingIRQ` */
    method ClearPendingIrq(irq: Irq)
      requires Valid()
      modifies pending
      ensures State() == Perform(old(State()), ClearPending(irq))
    {
      hide ClearBits, Mask;
      if irq >= 0 {
        pending[irq / 32] := ClearBits(pending[irq / 32], Mask(irq % 32));
      }
    }

    /** `__NVIC_GetEnableIRQ`: membership in the enabled set; a processor exception is no member. */
    method GetEnableIrq(irq: Irq) returns (r: int)
      requires Valid()
      ensures r == if irq in SetsOf(State()).enabled then 1 else 0
    {
      hide Bit;
      if irq >= 0 {
        r := if Bit(enable[irq / 32], irq % 32) then 1 else 0;
      } else {
        r := 0;
      }
    }

    /** `__NVIC_GetPendingIRQ` */
    method GetPendingIrq(irq: Irq) returns (r: int)
      requires Valid()
      ensures r == if irq in SetsOf(State()).pending then 1 else 0
    {
      hide Bit;
      if irq >= 0 {
        r := if Bit(pending[irq / 32], irq % 32) then 1 else 0;
      } else {
        r := 0;
      }
    }
  }
}
