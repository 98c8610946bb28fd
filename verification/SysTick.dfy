/** The system timer (section B3.3 of the Armv7-M Architecture Reference Manual): its configuration,
    the interrupts it gives, and the delay loops that read its counter. */
module SysTick {
  import opened NvicPriority
  import opened Options

  const WORD := 0x1_0000_0000
  const RELOAD_MASK := 0xFF_FFFF

  /** A `uint32_t`. */
  type Word = n: int | 0 <= n < 0x1_0000_0000

  // ---------- the counter ----------

  /** One clock of the enabled counter. */
  function Next(load: nat, val: nat): nat { if val == 0 then load else val - 1 }

  /** The counter value after `n` clocks. */
  function ValueAfter(load: nat, val: nat, n: nat): nat
    decreases n
  {
    if n == 0 then val else Next(load, ValueAfter(load, val, n - 1))
  }

  /** The interrupt is raised by the clock that takes the counter from 1 to 0. */
  predicate Fires(load: nat, val: nat, n: nat)
    requires n > 0
  {
    ValueAfter(load, val, n - 1) == 1 && ValueAfter(load, val, n) == 0
  }

  /** The interrupts raised by the first `n` clocks. */
  function Interrupts(load: nat, val: nat, n: nat): nat
    decreases n
  {
    if n == 0 then 0 else Interrupts(load, val, n - 1) + if Fires(load, val, n) then 1 else 0
  }

  /** The counter runs backwards modulo `load + 1`. */
  lemma {:induction false} ValueIsModular(load: nat, val: nat, n: nat)
    requires val <= load
    ensures var r := n % (load + 1);
            ValueAfter(load, val, n) == if r <= val then val - r else load + 1 + val - r
    decreases n
  {
    if n > 0 {
      ValueIsModular(load, val, n - 1);
      ModStep(n - 1, load + 1);
    }
  }

  lemma ModStep(n: nat, p: nat)
    requires p > 0
    ensures (n + 1) % p == if n % p == p - 1 then 0 else n % p + 1
    ensures (n + 1) / p == if n % p == p - 1 then n / p + 1 else n / p
  {
    var q, r := n / p, n % p;
    assert n + 1 == q * p + (r + 1);
    if r == p - 1 {
      assert n + 1 == (q + 1) * p;
      DivUnique(n + 1, p, q + 1, 0);
    } else {
      DivUnique(n + 1, p, q, r + 1);
    }
  }

  lemma MulAtLeast(d: int, p: nat)
    requires d >= 1
    ensures d * p >= p
  {
  }

  lemma QuotientOnce(p: nat, a: int, r: nat, b: int, t: nat)
    requires a * p + r == b * p + t && r < p && t < p
    ensures a == b
  {
    if a > b {
      assert (a - b) * p == t - r;
      MulAtLeast(a - b, p);
    } else if a < b {
      assert (b - a) * p == r - t;
      MulAtLeast(b - a, p);
    }
  }

  lemma DivUnique(n: nat, p: nat, q: nat, r: nat)
    requires n == q * p + r && r < p
    ensures n / p == q && n % p == r
  {
    QuotientOnce(p, n / p, n % p, q, r);
  }

  // ---------- configuration ----------

  const SYSTICK_IRQ: Irq := -1

  class Timer {
    var load: Word
    var val: Word
    var running: bool

    /** `SysTick_Config`: accepts 1 to 2^24 ticks; 0 wraps around and is refused.  A store to VAL
        clears the counter whatever the value, and the SysTick exception gets the lowest urgency. */
    method Config(ticks: Word, unit: PriorityUnit) returns (r: int)
      requires unit.Valid()
      modifies this, unit.ip, unit.shp
      ensures r == if 1 <= ticks <= 0x100_0000 then 0 else 1
      ensures r == 0 ==> load == ticks - 1 && val == 0 && running
      ensures r != 0 ==> load == old(load) && val == old(val) && running == old(running)
      ensures unit.ByteOf(-1) == if r == 0 then StoredByte(Low(unit.nb), unit.nb) else old(unit.ByteOf(-1))
      ensures forall other: Irq | other != -1 :: unit.ByteOf(other) == old(unit.ByteOf(other))
    {
      hide StoredByte, Low;
      if (ticks - 1) % WORD > RELOAD_MASK {
        return 1;
      }
      load := (ticks - 1) % WORD;
      unit.SetPriority(SYSTICK_IRQ, Low(unit.nb));
      val := 0;
      running := true;
      return 0;
    }

    /** `rt_hw_systick_init`: a tick every millisecond of a bus clock of at least 1 kHz.  The priority of 0xFF
        that it sets is the one the configuration gave, and holds even when that refused. */
    method Init(hclk: Word, unit: PriorityUnit)
      requires unit.Valid()
      modifies this, unit.ip, unit.shp
      ensures hclk >= 1000 ==> load == ReloadFor(hclk) && val == 0 && running
      ensures hclk < 1000 ==> load == old(load) && val == old(val) && running == old(running)
      ensures unit.ByteOf(-1) == StoredByte(Low(unit.nb), unit.nb)
      ensures forall other: Irq | other != -1 :: unit.ByteOf(other) == old(unit.ByteOf(other))
    {
      hide StoredByte, Low;
      var r := Config(hclk / TICKS_PER_SECOND, unit);
      AllOnesCover(unit.nb);
      LowestUrgency(0xFF, unit.nb);
      unit.SetPriority(SYSTICK_IRQ, 0xFF);
    }
  }

  lemma AllOnesCover(nb: Width)
    ensures 0xFF & Low(nb) == Low(nb)
  {
  }

  /** After a configuration with at least two ticks, clock `n` raises the interrupt exactly when it is a
      multiple of `ticks`; with one tick (LOAD = 0) the counter stays at 0 and none is ever raised,
      although the configuration reports success. */
  lemma FiresEveryTicks(ticks: nat, n: nat)
    requires ticks >= 1 && n > 0
    ensures Fires(ticks - 1, 0, n) <==> ticks >= 2 && n % ticks == 0
  {
    ValueIsModular(ticks - 1, 0, n - 1);
    ValueIsModular(ticks - 1, 0, n);
    ModStep(n - 1, ticks);
  }

  /** So the tick count kept by the handler is the number of whole periods that have passed. */
  lemma {:induction false} InterruptsCountPeriods(ticks: nat, n: nat)
    requires ticks >= 1
    ensures Interrupts(ticks - 1, 0, n) == if ticks >= 2 then n / ticks else 0
    decreases n
  {
    if n > 0 {
      InterruptsCountPeriods(ticks, n - 1);
      FiresEveryTicks(ticks, n);
      ModStep(n - 1, ticks);
    }
  }

  // ---------- the microsecond delay ----------

  /** The elapsed ticks as `rt_hw_us_delay` computes them. */
  function Delta(start: nat, now: nat, reload: nat): int {
    if start >= now then start - now else reload + start - now
  }

  /** The 32-bit product of ticks per microsecond and microseconds. */
  function TicksFor(usTick: nat, us: nat): nat { usTick * us % 0x1_0000_0000 }

  /** The ticks `rt_hw_us_delay` waits for. */
  function Target(clock: nat, us: nat): nat { TicksFor(clock / 1000000, us) }

  lemma TargetIsProduct(clock: nat, us: nat)
    requires clock / 1000000 * us < 0x1_0000_0000
    ensures Target(clock, us) == clock / 1000000 * us
  {
  }

  /** After a wrap the code counts one tick less than has passed: the period is `reload + 1`, not
      `reload`. */
  lemma DeltaOfElapsed(start: nat, reload: nat, elapsed: nat)
    requires start <= reload
    ensures var r := elapsed % (reload + 1);
            Delta(start, ValueAfter(reload, start, elapsed), reload) == if r <= start then r else r - 1
  {
    ValueIsModular(reload, start, elapsed);
  }

  /** A trace of reads of VAL, the i-th one at clock `times[i]`. */
  ghost predicate IsTrace(samples: seq<nat>, times: seq<nat>, reload: nat) {
    && |samples| == |times|
    && (forall i | 0 <= i < |samples| :: samples[i] <= reload)
    && (forall i, j | 0 <= i <= j < |samples| ::
          times[i] <= times[j] && samples[j] == ValueAfter(reload, samples[i], times[j] - times[i]))
  }

  lemma DeltaNeverAhead(start: nat, reload: nat, elapsed: nat)
    requires start <= reload
    ensures Delta(start, ValueAfter(reload, start, elapsed), reload) <= elapsed
  {
  }

  function Max(a: int, b: int): int { if a >= b then a else b }

  /** The largest delta any read can give. */
  function Peak(start: nat, reload: nat): int { Max(start, reload - 1) }

  lemma DeltaWithinPeak(start: nat, reload: nat, elapsed: nat)
    requires start <= reload
    ensures Delta(start, ValueAfter(reload, start, elapsed), reload) <= Peak(start, reload)
  {
  }

  lemma DeltaInFirstPeriod(start: nat, reload: nat, elapsed: nat)
    requires start <= reload && elapsed <= reload
    ensures Delta(start, ValueAfter(reload, start, elapsed), reload)
            == if elapsed <= start then elapsed else elapsed - 1
  {
    DeltaOfElapsed(start, reload, elapsed);
    DivUnique(elapsed, reload + 1, 0, elapsed);
  }

  /** The first moment whose delta reaches the target, when there is one. */
  function EndMoment(start: nat, target: nat): nat { if target <= start then target else target + 1 }

  /** A loop that reads every tick ends, at its end moment, iff the target is at most
      max(start, reload - 1); beyond that no read ever ends the loop. */
  lemma DelayEndsIff(start: nat, reload: nat, target: nat)
    requires start <= reload
    ensures (exists t: nat :: Delta(start, ValueAfter(reload, start, t), reload) >= target)
            <==> target <= Peak(start, reload)
    ensures target <= Peak(start, reload) ==>
              Delta(start, ValueAfter(reload, start, EndMoment(start, target)), reload) == target
    ensures forall u: nat | u < EndMoment(start, target) ::
              Delta(start, ValueAfter(reload, start, u), reload) < target
  {
    hide ValueAfter, Delta;
    forall t: nat
      ensures Delta(start, ValueAfter(reload, start, t), reload) <= Peak(start, reload)
    {
      DeltaWithinPeak(start, reload, t);
    }
    if target <= Peak(start, reload) {
      DeltaInFirstPeriod(start, reload, EndMoment(start, target));
    }
    forall u: nat | u < EndMoment(start, target)
      ensures Delta(start, ValueAfter(reload, start, u), reload) < target
    {
      NotBeforeEndMoment(start, reload, target, u);
    }
  }

  lemma NotBeforeEndMoment(start: nat, reload: nat, target: nat, elapsed: nat)
    requires start <= reload && elapsed < EndMoment(start, target)
    ensures Delta(start, ValueAfter(reload, start, elapsed), reload) < target
  {
    DeltaOfElapsed(start, reload, elapsed);
    ModAtMost(elapsed, reload + 1);
  }

  lemma ModAtMost(n: nat, p: nat)
    requires p > 0
    ensures n % p <= n
  {
  }

  /** From read `pos` on no tick is skipped, though some may be read more than once. */
  ghost predicate SamplesEveryTick(times: seq<nat>, pos: nat) {
    forall i | pos < i < |times| :: times[i] <= times[i - 1] + 1
  }

  /** Every moment between the first and the last read is read. */
  lemma {:induction false} MomentIsRead(times: seq<nat>, pos: nat, last: nat, t: nat) returns (i: nat)
    requires pos <= last < |times| && SamplesEveryTick(times, pos) && times[pos] <= t <= times[last]
    ensures pos <= i <= last && times[i] == t
    decreases last
  {
    if last == pos || times[last] == t {
      i := last;
    } else {
      i := MomentIsRead(times, pos, last - 1, t);
    }
  }

  lemma SomeReadEnds(samples: seq<nat>, times: seq<nat>, pos: nat, reload: nat, target: nat)
    requires IsTrace(samples, times, reload) && pos < |samples| && SamplesEveryTick(times, pos)
    requires target <= Peak(samples[pos], reload)
    requires times[|times| - 1] - times[pos] > EndMoment(samples[pos], target)
    ensures exists i :: pos < i < |samples| && Delta(samples[pos], samples[i], reload) >= target
  {
    var start := samples[pos];
    var moment := EndMoment(start, target);
    var i := MomentIsRead(times, pos, |times| - 1, times[pos] + moment);
    if i == pos {
      // The target is 0, and any later read ends the loop.
      DeltaInFirstPeriod(start, reload, 0);
      DeltaOfElapsed(start, reload, times[pos + 1] - times[pos]);
      assert Delta(start, samples[pos + 1], reload) >= target;
    } else {
      DeltaInFirstPeriod(start, reload, moment);
      assert Delta(start, samples[i], reload) >= target;
    }
  }

  lemma ReadAtMoment(samples: seq<nat>, times: seq<nat>, pos: nat, j: nat, reload: nat, target: nat)
    requires IsTrace(samples, times, reload) && pos < j < |samples| && target <= Peak(samples[pos], reload)
    requires target == 0 || times[j] - times[pos] == EndMoment(samples[pos], target)
    ensures Delta(samples[pos], samples[j], reload) >= target
  {
    if target == 0 {
      DeltaOfElapsed(samples[pos], reload, times[j] - times[pos]);
    } else {
      DeltaInFirstPeriod(samples[pos], reload, EndMoment(samples[pos], target));
    }
  }

  /** Sampling every tick, the loop ends at most one tick after its end moment. */
  lemma EndsInTime(samples: seq<nat>, times: seq<nat>, pos: nat, i: nat, reload: nat, target: nat)
    requires IsTrace(samples, times, reload) && pos < i < |samples| && SamplesEveryTick(times, pos)
    requires target <= Peak(samples[pos], reload)
    requires forall j | pos < j < i :: Delta(samples[pos], samples[j], reload) < target
    ensures times[i] - times[pos] <= EndMoment(samples[pos], target) + 1
  {
    var moment := EndMoment(samples[pos], target);
    if times[i - 1] - times[pos] >= moment {
      var j := MomentIsRead(times, pos, i - 1, times[pos] + moment);
      if j > pos {
        ReadAtMoment(samples, times, pos, j, reload, target);
      } else if i > pos + 1 {
        ReadAtMoment(samples, times, pos, pos + 1, reload, target);
      }
    }
  }

  /** `rt_hw_us_delay` on a trace of reads from `pos` on: the position after the read that ends the
      loop, or None while the trace does not end it.  It never ends early, and it ends at the first
      read whose delta reaches the target; when every tick is sampled, long enough, it ends if and
      only if the target is at most max(start, reload - 1). */
  method UsDelay(us: Word, clock: Word, reload: Word, samples: seq<nat>, pos: nat, ghost times: seq<nat>)
    returns (end: Option<nat>)
    requires IsTrace(samples, times, reload) && pos < |samples|
    ensures end.Some? ==> pos + 1 < end.value <= |samples|
    ensures end.Some? ==> times[end.value - 1] - times[pos] >= Target(clock, us)
    ensures forall i | pos < i < (if end.Some? then end.value - 1 else |samples|) ::
              Delta(samples[pos], samples[i], reload) < Target(clock, us)
    ensures end.Some? ==> Delta(samples[pos], samples[end.value - 1], reload) >= Target(clock, us)
    ensures end.Some? ==> Target(clock, us) <= Peak(samples[pos], reload)
    ensures SamplesEveryTick(times, pos)
            && times[|times| - 1] - times[pos] > EndMoment(samples[pos], Target(clock, us)) ==>
              (end.Some? <==> Target(clock, us) <= Peak(samples[pos], reload))
    ensures SamplesEveryTick(times, pos) && end.Some? ==>
              times[end.value - 1] - times[pos] <= EndMoment(samples[pos], Target(clock, us)) + 1
  {
    hide TicksFor, ValueAfter;
    var start := samples[pos];
    var usTick := clock / 1000000;
    var i := pos + 1;
    while i < |samples|
      invariant pos < i <= |samples|
      invariant forall j | pos < j < i :: Delta(start, samples[j], reload) < Target(clock, us)
    {
      var now := samples[i];
      var delta := if start >= now then start - now else reload + start - now;
      if delta >= TicksFor(usTick, us) {
        DeltaNeverAhead(start, reload, times[i] - times[pos]);
        DeltaWithinPeak(start, reload, times[i] - times[pos]);
        if SamplesEveryTick(times, pos) {
          EndsInTime(samples, times, pos, i, reload, Target(clock, us));
        }
        return Some(i + 1);
      }
      i := i + 1;
    }
    if SamplesEveryTick(times, pos) && Target(clock, us) <= Peak(start, reload)
       && times[|times| - 1] - times[pos] > EndMoment(start, Target(clock, us)) {
      SomeReadEnds(samples, times, pos, reload, Target(clock, us));
    }
    return None;
  }

  // ---------- the millisecond delay ----------

  const TICKS_PER_SECOND := 1000

  /** The reload value `rt_hw_systick_init` asks for at core clock `clock`. */
  function ReloadFor(clock: nat): int { clock / TICKS_PER_SECOND - 1 }

  /** When the 1000 us calls of `HAL_Delay` can end: with `r` the kilohertz of the clock beyond whole
      megahertz, iff r >= 2, or r == 1 and the first read sees the reload value.  At a whole number of
      megahertz they never end. */
  lemma MillisecondEndsIff(clock: Word, start: nat)
    requires 0 <= start <= ReloadFor(clock)
    ensures var r := clock / 1000 % 1000;
            Target(clock, 1000) <= Peak(start, ReloadFor(clock)) <==> r >= 2 || (r == 1 && start == ReloadFor(clock))
  {
  }

  /** The ticks of `n` waits in a row. */
  function Waits(n: nat, ticks: nat): nat { n * ticks }

  lemma OneMoreWait(n: nat, ticks: nat)
    ensures Waits(n + 1, ticks) == Waits(n, ticks) + ticks
    ensures Waits(0, ticks) == 0
  {
  }

  /** The timer runs at the tick rate of a clock of whole megahertz. */
  predicate NeverEnds(clock: nat, reload: nat) {
    reload == ReloadFor(clock) && clock / 1000 % 1000 == 0
  }

  lemma NeverEndsMeans(clock: Word, reload: nat, start: nat)
    requires start <= reload
    ensures NeverEnds(clock, reload) ==> Target(clock, 1000) > Peak(start, reload)
  {
    if NeverEnds(clock, reload) {
      MillisecondEndsIff(clock, start);
    }
  }

  /** The timer runs at the tick rate of a clock with at least 2 kHz beyond whole megahertz. */
  predicate AlwaysEnds(clock: nat, reload: nat) {
    reload == ReloadFor(clock) && clock / 1000 % 1000 >= 2
  }

  lemma AlwaysEndsMeans(clock: Word, reload: nat, start: nat)
    requires start <= reload
    ensures AlwaysEnds(clock, reload) ==> Target(clock, 1000) <= Peak(start, reload)
  {
    if AlwaysEnds(clock, reload) {
      MillisecondEndsIff(clock, start);
    }
  }

  lemma MomentBound(start: nat, target: nat)
    ensures EndMoment(start, target) <= target + 1
  {
  }

  /** The trace reads every tick, for as long as `delay` milliseconds can take: each is over within three
      ticks of its target. */
  ghost predicate LongEnough(times: seq<nat>, pos: nat, delay: nat, ticks: nat)
    requires pos < |times|
  {
    SamplesEveryTick(times, pos) && times[|times| - 1] - times[pos] >= Waits(delay, ticks + 3)
  }

  lemma WaitsGrow(n: nat, m: nat, ticks: nat)
    requires n <= m
    ensures Waits(n, ticks) <= Waits(m, ticks)
  {
  }

  /** What a loop that has made `count` of its calls by `at` still has of the trace. */
  lemma TraceLeft(times: seq<nat>, pos: nat, at: nat, count: nat, delay: nat, ticks: nat)
    requires pos < |times| && pos <= at <= |times| && count < delay && LongEnough(times, pos, delay, ticks)
    requires if at == pos then count == 0 else times[at - 1] - times[pos] <= Waits(count, ticks + 3)
    ensures at < |times|
    ensures times[at] - times[pos] <= Waits(count, ticks + 3) + 1
    ensures times[|times| - 1] - times[at] >= ticks + 2
    ensures SamplesEveryTick(times, at)
  {
    OneMoreWait(count, ticks + 3);
    WaitsGrow(count + 1, delay, ticks + 3);
    hide Waits;
  }

  /** `HAL_Delay` outside any thread, on a trace of reads from `pos` on.  It is never early; at a whole
      number of megahertz a delay that is not 0 never returns, and with at least 2 kHz more it does, on
      every trace that samples every tick for long enough. */
  method MillisecondDelay(delay: Word, clock: Word, reload: Word, samples: seq<nat>, pos: nat, ghost times: seq<nat>)
    returns (end: Option<nat>)
    requires IsTrace(samples, times, reload) && pos < |samples|
    ensures end.Some? && delay > 0 ==>
              && pos < end.value <= |samples|
              && times[end.value - 1] - times[pos] >= Waits(delay, Target(clock, 1000))
    ensures NeverEnds(clock, reload) && delay > 0 ==> end.None?
    ensures AlwaysEnds(clock, reload) && LongEnough(times, pos, delay, Target(clock, 1000)) ==> end.Some?
    ensures delay == 0 ==> end == Some(pos)
  {
    hide Waits, NeverEnds, AlwaysEnds, Target, Peak, SamplesEveryTick, LongEnough, EndMoment, Delta;
    ghost var ticks := Target(clock, 1000);
    ghost var long := LongEnough(times, pos, delay, ticks);
    var count := 0;
    var at := pos;
    while count < delay
      invariant 0 <= count <= delay
      invariant count == 0 ==> at == pos
      invariant count > 0 ==> pos < at <= |samples| && times[at - 1] - times[pos] >= Waits(count, ticks)
      invariant count > 0 && long ==> times[at - 1] - times[pos] <= Waits(count, ticks + 3)
      invariant count > 0 ==> !NeverEnds(clock, reload)
    {
      if long {
        TraceLeft(times, pos, at, count, delay, ticks);
      }
      if at == |samples| {
        return None;
      }
      MomentBound(samples[at], ticks);
      AlwaysEndsMeans(clock, reload, samples[at]);
      var e := UsDelay(1000, clock, reload, samples, at, times);
      if e.None? {
        return None;
      }
      NeverEndsMeans(clock, reload, samples[at]);
      OneMoreWait(count, ticks);
      OneMoreWait(count, ticks + 3);
      assert count > 0 ==> times[at - 1] <= times[at];
      at := e.value;
      count := count + 1;
    }
    return Some(at);
  }
}
