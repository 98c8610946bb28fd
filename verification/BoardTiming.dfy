/** The clock tree the board sets up, and what it means for `HAL_Delay` and for the CAN bit rates. */
module BoardTiming {
  import Clock
  import SysTick
  import CanConfig

  /** The board's clock registers: the PLL as system clock on an undivided AHB clock, fed by the external source,
      with M = 4, N = 168 and P = 2 (a field value of 0). */
  predicate BoardClockTree(cfgr: bv32, pllcfgr: bv32) {
    cfgr & 0xFC == 0x08 && pllcfgr & 0x0043_7FFF == 0x0040_2A04
  }

  /** The computed core clock is 168 MHz, a whole number of megahertz; so with the tick configured for
      it, no read of the counter, at any moment and from any start, ends one millisecond of
      `HAL_Delay`. */
  lemma BoardDelayNeverEnds(cfgr: bv32, pllcfgr: bv32, start: nat, elapsed: nat)
    requires BoardClockTree(cfgr, pllcfgr)
    requires start <= SysTick.ReloadFor(168_000_000)
    ensures Clock.PllSelected(cfgr) && Clock.PllM(pllcfgr) != 0
    ensures Clock.Divided(Clock.SystemClock(cfgr, pllcfgr), Clock.Pow2(Clock.AhbShift(cfgr))) == 168_000_000
    ensures var reload := SysTick.ReloadFor(168_000_000);
            SysTick.Delta(start, SysTick.ValueAfter(reload, start, elapsed), reload)
            < SysTick.Target(168_000_000, 1000)
  {
  }

  /** The board divides the core clock by 4 for the bus of the CAN controllers. */
  const APB1_CLOCK: nat := 168_000_000 / 4

  /** What the board makes of a rate: 14/15 of it, or 15/16 in the case of 800000. */
  function OnBoard(baud: nat): real { baud as real * if baud == 800000 then 15.0 / 16.0 else 14.0 / 15.0 }

  /** After any controls the rate of a usable handle on this board is 14/15 (15/16) of the one asked for: no
      accepted rate comes out as asked. */
  lemma BoardBitRate(d: CanConfig.Device, bus: CanConfig.Bus, cs: seq<(CanConfig.Control, CanConfig.Bus)>)
    requires CanConfig.IsMode(d.config.mode) && CanConfig.IsBaud(d.config.baud)
    requires CanConfig.Controls(CanConfig.Configured(d, d.config, bus).0, cs).hal.Usable()
    ensures CanConfig.BitRate(APB1_CLOCK, CanConfig.Controls(CanConfig.Configured(d, d.config, bus).0, cs).btr)
            == OnBoard(CanConfig.LastValue(cs, CanConfig.ChangesBaud, d.config.baud))
  {
    hide *;
    CanConfig.UsableHandleTiming(d, bus, cs);
    RateOnBoard(CanConfig.Controls(CanConfig.Configured(d, d.config, bus).0, cs).btr,
                CanConfig.LastValue(cs, CanConfig.ChangesBaud, d.config.baud),
                CanConfig.LastValue(cs, CanConfig.ChangesMode, d.config.mode));
  }

  lemma RateOnBoard(btr: bv32, baud: nat, mode: nat)
    requires CanConfig.HasTiming(btr, baud, mode)
    ensures CanConfig.BitRate(APB1_CLOCK, btr) == OnBoard(baud)
  {
    hide CanConfig.BitClocks, CanConfig.Field;
    assert baud as real * CanConfig.BitClocks(btr) as real == CanConfig.TableClock(baud) as real;
  }
}
