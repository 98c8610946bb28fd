# Models and proofs of the on-chip driver layer

This project models the hardware-facing part of an STM32F407 / RT-Thread firmware: the bxCAN driver,
the MPU table load, the NVIC, the SysTick timing, the clock computation and the bit-level intrinsics.
Registers are 32-bit words, hardware is modelled as the reference manuals describe it (RM0090 for the
peripherals, the Armv7-M Architecture Reference Manual for the core), and every result is a statement
over all inputs, all interleavings or all sequences of calls. Where an operation takes a register apart or
puts one together, its result is also stated on the register's fields, for words composed of any field values
(`EsrOf`, `RdtrOf`, `CfgrOf`, `PllcfgrOf`, `RbarOf`, `AircrOf`, `FmrOf`, `HoldsHeader`, `HoldsData`, `IsSet`).

## How the modules fit together

| file | content |
|---|---|
| `CanFrame.dfy` | packing a message into the mailbox words, unpacking received words |
| `CanProtocol.dfy` | the transmit path as a state machine over single register accesses: sending threads, hardware, TX handler, SCE handler, reconfiguration; its invariant |
| `CanRuns.dfy` | what holds over every run: frames whole and frozen, conservation, the ERROR latch, what one handler pass does |
| `CanDelivery.dfy` | the hand-over of a mailbox: when senders return, when they block for ever, which acknowledge-error reports do harm |
| `CanWitness.dfy` | failing runs from reset, and continuations that reach the stated bounds |
| `CanEndToEnd.dfy` | from an accepted frame to the frame a receiver unpacks |
| `CanRegisters.dfy` | TSR at bit level and its mailbox-wise reading |
| `CanTransmit.dfy` | whole operations on words, each shown to be a run of the machine |
| `CanConfig.dfy` | baud table, `Init` block, bit timing register, controls and what they leave stored |
| `CanFilter.dfy`, `CanFilterBanks.dfy`, `CanFilterMasks.dfy` | filter items and what passes them; the filter registers for every bank number; masked comparison |
| `CanDriver.dfy` | the driver as an object updated in place, each method tied to the functions above |
| `WordBits.dfy`, `Options.dfy` | single bits of register words; an optional result |
| `Mpu.dfy` | the chunked table load against one row at a time; what a load means |
| `Nvic.dfy`, `NvicPriority.dfy` | the enable and pending bitmaps against sets; priority encoding, stored bytes, grouping |
| `SysTick.dfy`, `Clock.dfy`, `BoardTiming.dfy` | timer, delay loops, clock arithmetic; what the board makes of both, and of the CAN bit rates |
| `Intrinsics.dfy` | `__RBIT`, `__ROR`, `__REV16` bit by bit |

The CAN part is layered. `CanDriver.CanPort` holds the fields and registers; `SendMsg`, `TxIrq` and
`SceIrq` are proved equal to word-level functions; `CanTransmit` shows each of these to be a run of the
machine of `CanProtocol`; the machine, however, lets hardware and other parties act between any two
register accesses, and the theorems of `CanRuns`, `CanDelivery` and `CanEndToEnd` are about all its runs.

## What the code does not do as its comments or names suggest

- The TX handler's comment says "Write 0 to Clear". TSR is write-1-to-clear, and `SET_BIT` reads the
  whole register and writes it back, so a completion of another mailbox that is pending at that read is
  cleared unreported (`PassLosesIff`), even when it came after the handler's entry (`TxHandlerCanLose`).
  The sender waiting for it never returns (`WipedIffBlocked`, `BlockedForever`).
- HAL_CAN_IRQHandler, called first by the SCE handler, clears every pending completion when the mailbox
  interrupt is on. So one mailbox in use is not safe either (`SingleMailboxCanLose`), and
  `SingleMailboxLosesNothingIff` says exactly when it is.
- The acknowledge-error branch of the SCE handler uses flag encodings as bit masks. Its cases for
  mailboxes 1 and 2 cannot be reached, and mailbox 0 is reported as failed whenever RQCP0, RQCP1 and
  ALST1 are clear (`AckErrorOnlyReportsMailbox0`), which is news, and true, only in the case of
  `AckReportIsTrueIff`. It frees a sender whose frame is still in flight, and the next send then turns
  the handle to ERROR (`AckErrorLeadsToError`, `HarmfulAckLeadsToError`).
- The framework's filter macros leave the bank at -1, and the driver passes any signed number on. At -1 the
  item reaches no bank (`MacroItemsReachNoBank`). Other numbers outside 0 to 27 set control bits of the
  bank at their low five bits, and -8 to -5 overwrite FMR, FS1R, FFA1R and FA1R (`ConfigBankEffect`,
  `LandsInABankIff`): the one item of `ClosingItemClosesAll` makes the device deaf. Identifiers that go to
  number -8 end initialisation mode, so that FM1R, which RM0090 lets be written in that mode only, stays.
- The default filter in bank 0 accepts everything, and items for other banks do not change that:
  `DefaultStaysOpenIff` says which commands do.
- A mode, baud or private-mode change that failed in the HAL cannot be repeated: the value is already
  stored, so the same call answers success and the handle stays in ERROR (`FailedChangeCannotBeRepeated`).
- `_can_config` answers success even when HAL_CAN_Start fails (`Configured`, `ReconfiguresOnlyOnChange`).
- The baud table is made for a bus clock of 45 MHz (44.8 MHz in the case of 800000), but the board divides its
  168 MHz by 4: every rate comes out as 14/15 of the one asked for, 800000 as 15/16 (`UsableHandleTiming`,
  `BoardBitRate`).
- RT_DEVICE_CTRL_CONFIG does not store what it applies; `ForeignConfigureKeepsSyncIff` says when the
  `Init` block still matches the stored configuration.
- Standard-identifier filter items are laid out like extended ones; even in a proper bank they let their
  identifier through only when the mask spares every bit in which the layouts differ, under the full mask
  of the macro for identifier 0 only (`StandardFilterWorksIff`). The macros for remote and data frames let
  one of the two types through (`ListItemPassesOneType`).
- `SysTick_Config(1)` reports success and never interrupts (`FiresEveryTicks`).
- `rt_hw_us_delay` takes the counter's period to be LOAD, not LOAD + 1. It is never early, but a delay
  beyond max(start, LOAD - 1) never ends (`DelayEndsIff`). The 1000 us calls of `HAL_Delay` are such a
  delay at every clock of whole megahertz, this board's 168 MHz included (`MillisecondEndsIff`,
  `BoardDelayNeverEnds`).
- `__NVIC_SetPriority` drops the bits above the implemented width, so the 0xFF of `rt_hw_systick_init`
  reads back as 0xF with 4 bits (`LowestUrgency`, `ReadBackUndoesStore`).

## Model

| member | source | states |
|---|---|---|
| CanFrame.ValidIsRange | HALLIB/HAL_Drivers/drv_can.c:393-444 | the tests by masks that a send demands are the asserted ranges: a 29-bit or 11-bit identifier and a length of at most 8 |
| CanFrame.IdWordBack | HALLIB/HAL_Drivers/drv_can.c:455-464 | from any word that agrees with the written identifier word in the bits a receiver reads, kind, identifier and remote flag are read back unchanged |
| CanFrame.IdWordInjective | HALLIB/HAL_Drivers/drv_can.c:455-464 | two valid identifiers share an identifier word only when kind, identifier and remote flag are all equal |
| CanFrame.UnpackUndoesPack | HALLIB/HAL_Drivers/drv_can.c:504-529 | receiving the registers of any valid frame, whatever the bits hold that the receive path masks off, gives that frame back with all eight data bytes |
| CanFrame.PackedDataLayout | HALLIB/HAL_Drivers/drv_can.c:468-477 | byte k of the data lies in bits 8k + 7 to 8k of TDLR, byte 4 + k in those of TDHR |
| CanFrame.PackedHeaderLayout | HALLIB/HAL_Drivers/drv_can.c:455-464 | RTR is bit 1 of the identifier word, IDE bit 2, an extended identifier bits 31:3 and a standard one bits 31:21; all other bits are 0 |
| CanFrame.UnpackedLayout | HALLIB/STM32F4xx_HAL_Driver/Src/stm32f4xx_hal_can.c:1548-1574 | from any register contents the receive path takes identifier, kind, remote flag and the eight bytes from these places |
| CanProtocol.StepKeepsInv | HALLIB/HAL_Drivers/drv_can.c:384-490 | every step of a sender, the hardware, either handler or a reconfiguration keeps: empty iff TXRQ is 0; a mailbox in flight holds the message accepted last; partial writes are a prefix of the message; the history adds up |
| CanRuns.RunKeepsInv | HALLIB/HAL_Drivers/drv_can.c:384-490 | the invariant holds over every run, in every interleaving |
| CanRuns.SendIsWhole | HALLIB/HAL_Drivers/drv_can.c:395-481 | from reset, in every run, a register write of a send meets an empty mailbox, and the write that raises TXRQ finds all four registers holding exactly the message then accepted |
| CanRuns.InFlightIsFrozen | HALLIB/HAL_Drivers/drv_can.c:454-481 | from the request until the hardware completes it, no run alters the mailbox words |
| CanRuns.Conservation | HALLIB/HAL_Drivers/drv_can.c:611-656 | per mailbox, in every reachable state and whatever the interrupts: accepted = completed + in flight, and each completion is exactly one of reported by the TX handler, pending, and wiped; that handler's reports tell TXOK, none twice |
| CanRuns.EveryReportIsTrue | RT-Thread/components/drivers/can/can.c:883-902 | what the framework is told, by either handler: on mailboxes 1 and 2 in every run, and on mailbox 0 while no acknowledge error is reported, every report is true, none is repeated, and completed = reported + pending + wiped |
| CanRuns.RunWipes | HALLIB/HAL_Drivers/drv_can.c:626-627 | the wiped completions of a run are as many as the steps that request over a pending completion, write one back, or let the HAL clear it |
| CanRuns.AllReportedIffNeverWiped | HALLIB/HAL_Drivers/drv_can.c:611-656 | every completion is reported by the TX handler or pending if and only if no step of the run is one of these |
| CanRuns.ErrorLatches | HALLIB/HAL_Drivers/drv_can.c:483-489 | in ERROR, and until the next configuration: a mailbox whose sender had not passed its state test accepts nothing and keeps its registers; any other accepts at most the send under way |
| CanRuns.OccupiedMailboxLatches | HALLIB/HAL_Drivers/drv_can.c:398-431 | from the step at which a send meets an occupied mailbox, in every continuation up to the next configuration: the handle stays in ERROR, that mailbox is untouched, and every other one accepts at most the send past its state test |
| CanRuns.HandlerReportsOneWipesRest | HALLIB/HAL_Drivers/drv_can.c:611-656 | one TX interrupt reports the lowest pending mailbox only and clears the status of every other pending one |
| CanRuns.PassLosesIff | HALLIB/HAL_Drivers/drv_can.c:611-656 | in one handler pass that answers a mailbox, any other mailbox loses its completion iff it was pending at the start of the pass or comes before the read of TSR; exactly what completes after that read is pending afterwards |
| CanDelivery.AckKeepsHandOverIff | HALLIB/HAL_Drivers/drv_can.c:700-707 | an acknowledge-error report keeps the hand-over of mailbox 0 between framework, sender and handler intact iff its sender is blocked or already told |
| CanDelivery.HandleStaysUsable | HALLIB/HAL_Drivers/drv_can.c:395-431 | as long as configurations succeed and acknowledge-error reports are of that kind, no run takes a working handle to ERROR |
| CanDelivery.AckReportIsTrueIff | HALLIB/HAL_Drivers/drv_can.c:700-707 | after any run from reset with harmless reports only, the next report of an acknowledge error is true and no repetition iff the sender of mailbox 0 is blocked on a transmission that failed |
| CanDelivery.ReportsTrueIff | RT-Thread/components/drivers/can/can.c:883-902 | over such runs everything told of mailbox 0, by either handler, is true and told once iff each of those reports went to a sender blocked on a failed transmission |
| CanDelivery.ReturnedMeansReported | RT-Thread/components/drivers/can/can.c:130-200 | a sender that has returned has had every accepted frame completed and reported, in order, with the true outcome, and has told its caller just these outcomes: on mailboxes 1 and 2 in every run, on mailbox 0 in every run without an acknowledge-error report |
| CanDelivery.SendsMeetEmptyMailboxes | RT-Thread/components/drivers/can/can.c:141-178 | no send meets an occupied mailbox: on mailboxes 1 and 2 in every run, on mailbox 0 in every run whose acknowledge-error reports find its sender blocked or already told |
| CanDelivery.WipedIffBlocked | RT-Thread/components/drivers/can/can.c:168-178 | a completion of a mailbox was wiped if and only if its sender waits now for a report nobody will give: on mailboxes 1 and 2 in every run, on mailbox 0 in every run without an acknowledge-error report |
| CanDelivery.StepFreesIff | RT-Thread/components/drivers/can/can.c:168-178 | a blocked sender is freed by an acknowledge-error report on mailbox 0 and by no other step |
| CanDelivery.BlockedForever | RT-Thread/components/drivers/can/can.c:168-178 | so it stays blocked, and its mailbox accepts and reports nothing more, in every continuation (mailbox 0: up to such a report) |
| CanDelivery.SingleMailboxLosesNothingIff | HALLIB/HAL_Drivers/drv_can.c:611-656 | with one mailbox in use a completion is lost iff the HAL's interrupt code meets it pending with the mailbox interrupt on (mailbox 0: on runs whose acknowledge-error reports are harmless); without a loss, and without such a report on mailbox 0, every accepted frame is reported truly and in order, pending, or in flight, and nobody blocks |
| CanWitness.SingleMailboxCanLose | HALLIB/STM32F4xx_HAL_Driver/Src/stm32f4xx_hal_can.c:1733-1864 | a run from reset with one mailbox and one frame, sent without fault, that ends with its completion wiped and its sender blocked |
| CanWitness.TxHandlerCanLose | HALLIB/HAL_Drivers/drv_can.c:626-627 | a run from reset without SCE interrupts, with a single completion pending at the handler's entry, that ends with another mailbox's completion wiped and its sender blocked |
| CanWitness.HarmfulAckLeadsToError | HALLIB/HAL_Drivers/drv_can.c:700-707 | every acknowledge-error report that breaks the hand-over has a continuation, of thread steps only, in which a send meets an occupied mailbox and the handle turns to ERROR |
| CanWitness.AckErrorLeadsToError | HALLIB/HAL_Drivers/drv_can.c:700-707 | a run from reset: an acknowledge error while a frame is in flight lets its sender go, and its next send puts the handle into ERROR |
| CanWitness.WriterStillSends | HALLIB/HAL_Drivers/drv_can.c:454-481 | a sender past its state test can complete its send also with the handle in ERROR, so the bound of `ErrorLatches` is reached |
| CanEndToEnd.RunCarriesFrames | HALLIB/HAL_Drivers/drv_can.c:384-490 | over every run in which only valid frames are sent, senders and histories hold images of valid frames only |
| CanEndToEnd.ReceiverGetsAcceptedFrame | HALLIB/HAL_Drivers/drv_can.c:492-543 | what a receiver unpacks from a mailbox in flight, in any reachable state, is the valid frame whose send was accepted last |
| CanRegisters.WriteTsrByMailbox | HALLIB/HAL_Drivers/drv_can.c:626-627 | a store to the write-1-to-clear TSR acts on each mailbox separately, RQCP taking its whole group along |
| CanRegisters.SetRqcpByMailbox | HALLIB/HAL_Drivers/drv_can.c:626-627 | the word that `SET_BIT` writes back differs from the one read in that one flag only |
| CanRegisters.RequestByMailbox | HALLIB/HAL_Drivers/drv_can.c:478-479 | a request empties the status group of its own mailbox and touches no other |
| CanRegisters.FlagsAreBits | HALLIB/STM32F4xx_HAL_Driver/Src/stm32f4xx_hal_can.c:1733-1864 | RQCP, TXOK, ALST and TERR of mailbox b are bits 8b to 8b + 3 of TSR, its TME is bit 26 + b |
| CanRegisters.WriteBackClearsAll | HALLIB/HAL_Drivers/drv_can.c:626-627 | writing back what `SET_BIT` read clears every status bit of all three mailboxes and no other bit of TSR |
| CanRegisters.RequestSpares | HALLIB/HAL_Drivers/drv_can.c:478-479 | a request clears TME and the status bits of its mailbox in TSR and no other bit |
| CanRegisters.AckErrorOnlyReportsMailbox0 | HALLIB/HAL_Drivers/drv_can.c:700-707 | of the three acknowledge-error branches only the first can be taken, and it is taken iff RQCP0, RQCP1 and ALST1 are clear |
| CanTransmit.StoresWriteImage | HALLIB/HAL_Drivers/drv_can.c:454-481 | the six register writes together put the whole message in place and request it |
| CanTransmit.WordsRequestFrame | HALLIB/HAL_Drivers/drv_can.c:454-481 | the words written for a valid frame have TXRQ, every field of the frame in its place, the length, and no reserved bit |
| CanTransmit.SendRefines | HALLIB/HAL_Drivers/drv_can.c:384-490 | a whole send on the words is a run of the machine with the same verdict and the same state |
| CanTransmit.TxIrqRefines | HALLIB/HAL_Drivers/drv_can.c:611-656 | a whole TX interrupt on the words is the machine's handler run to its end, and reports TXOK of the mailbox it answers |
| CanTransmit.SceRefines | HALLIB/HAL_Drivers/drv_can.c:681-724 | a whole SCE interrupt on the words is two machine steps with the same report: one exactly when LEC of ESR is 3 and `TSR & 0x501` is 0 |
| CanConfig.GetBaudIndex | HALLIB/HAL_Drivers/drv_can.c:93-105 | the search returns the matching row for every accepted rate and row 0 otherwise |
| CanConfig.RateHasRow | HALLIB/HAL_Drivers/drv_can.c:37-48 | the accepted rates are exactly the rates of the table |
| CanConfig.RowIsUnique | HALLIB/HAL_Drivers/drv_can.c:37-48 | no rate has two rows |
| CanConfig.RowSplits | HALLIB/HAL_Drivers/drv_can.h:26-40 | the four field masks take every row apart without loss, with a prescaler that is not 0 |
| CanConfig.ModeBitsMeaning | HALLIB/HAL_Drivers/drv_can.c:124-138 | listen-only modes set the silent bit, loop-back modes the loop-back bit, and no mode any other |
| CanConfig.BtrIsRowAndMode | HALLIB/STM32F4xx_HAL_Driver/Src/stm32f4xx_hal_can.c:435-440 | for every legal configuration the word written to BTR is the table row of its rate, less one for the prescaler, under its mode bits |
| CanConfig.FirstConfigureSyncs | HALLIB/HAL_Drivers/drv_can.c:107-157 | the first configuration makes the `Init` block the encoding of the stored configuration, however the hardware answers |
| CanConfig.ControlsKeepSync | HALLIB/HAL_Drivers/drv_can.c:319-366 | after any sequence of mode, baud and private-mode controls, accepted, refused or failing, the `Init` block still encodes the stored configuration, and a usable handle has it in BTR |
| CanConfig.LastControlDecides | HALLIB/HAL_Drivers/drv_can.c:319-366 | after any sequence of controls, however the hardware answers, the stored mode, rate and private mode are each the value of the last legal control of that kind, or the initial one; a control of one kind leaves the other two alone |
| CanConfig.UsableHandleTiming | HALLIB/HAL_Drivers/drv_can.c:319-366 | after the first configuration and any controls, a handle that takes sends has in BTR the rate of the last legal baud control (rate * prescaler * quanta per bit = 45 MHz, 44.8 MHz for 800000), the silent and loop-back bits of the last legal mode control, and a jump width of two quanta |
| CanConfig.RowClock | HALLIB/HAL_Drivers/drv_can.c:37-48 | the same law for every row of the table: rate * prescaler * (1 + BS1 + BS2) = 45 MHz, 44.8 MHz for 800000 |
| CanConfig.ModeOfBtr | HALLIB/STM32F4xx_HAL_Driver/Src/stm32f4xx_hal_can.c:435-440 | the mode bits are SILM and LBKM, bits 31 and 30 of BTR |
| CanConfig.ReconfiguresOnlyOnChange | HALLIB/HAL_Drivers/drv_can.c:319-366 | the device is reconfigured iff the value is legal and differs from the stored one; every other call changes nothing; and what each call answers |
| CanConfig.FailedChangeCannotBeRepeated | HALLIB/HAL_Drivers/drv_can.c:329-333 | after a failed change the same call answers success and leaves the handle in ERROR |
| CanConfig.ForeignConfigureKeepsSyncIff | HALLIB/HAL_Drivers/drv_can.c:107-144 | applying a configuration that is not the stored one keeps the `Init` block in step iff its mode and table row are the stored ones |
| CanFilter.JoinHalves | HALLIB/HAL_Drivers/drv_can.c:307-310 | the two identifier half words of an item, truncated separately, join to one word of the extended layout |
| CanFilter.HalfFields | HALLIB/HAL_Drivers/drv_can.c:304-315 | the half word that a 16-bit filter compares is STDID, RTR, IDE and EXID 17:15 of the identifier word, in this order |
| CanFilter.MaskItemFilters | HALLIB/HAL_Drivers/drv_can.c:304-315 | any mask-mode item for one of the 28 banks makes that bank accept exactly the words that agree with the item's on the masked bits |
| CanFilter.ExtendedItemFilters | HALLIB/HAL_Drivers/drv_can.c:304-315 | for an extended item that is the identifier word a send of such a frame writes |
| CanFilter.ExactExtendedFilter | HALLIB/HAL_Drivers/drv_can.c:304-315 | with the full mask, exactly the one extended identifier passes that bank |
| CanFilter.ListItemFilters | RT-Thread/components/drivers/include/drivers/can.h:86-89 | a list-mode item as the macros for remote and data frames make it, in a bank of the hardware, passes exactly its own word |
| CanFilter.ListItemPassesOneType | RT-Thread/components/drivers/include/drivers/can.h:88-89 | so an extended one passes its identifier in data frames or in remote frames, never in both |
| CanFilter.DefaultAcceptsAll | HALLIB/HAL_Drivers/drv_can.c:881-891 | the default filter lets every frame through |
| CanFilter.DefaultFilterStarts | HALLIB/HAL_Drivers/drv_can.c:881-897 | applying it to any registers leaves bank 0 of CAN1 open to every frame, outside initialisation mode; a first successful `Configure` does |
| CanFilter.StandardItemFilters | HALLIB/HAL_Drivers/drv_can.c:304-315 | a standard item for one of the banks passes, under a full mask, exactly the standard frame whose identifier, shifted left by 18, it holds |
| CanFilter.StandardFilterWorksIff | HALLIB/HAL_Drivers/drv_can.c:304-315 | such an item passes the frames of its own identifier iff its mask leaves out every bit in which the two layouts of that identifier differ: under the full mask, for identifier 0 and no other |
| CanFilter.MacroItemsReachNoBank | RT-Thread/components/drivers/include/drivers/can.h:76-89 | items made by the framework's macros, which leave the bank at -1, change no bank at all |
| CanFilter.DefaultStaysOpenIff | HALLIB/HAL_Drivers/drv_can.c:881-897 | for commands with items of any number, the exact condition under which the default bank of a started device still accepts every frame: what the last items made of its identifiers, mode and activation, and of FMR |
| CanFilter.DefaultStaysOpen | HALLIB/HAL_Drivers/drv_can.c:881-897 | in particular a command narrows nothing when no number in it is 0 modulo 32 or lies, by address, at -8 or -5 |
| CanFilter.ClosingItemClosesAll | HALLIB/HAL_Drivers/drv_can.c:304-315 | an item with number -5 and mask 0 stores 0 into FA1R: a started device then accepts no frame |
| CanFilterBanks.ConfigBankEffect | HALLIB/STM32F4xx_HAL_Driver/Src/stm32f4xx_hal_can.c:909-978 | for every bank number, also out of range: which bank takes the identifiers, and for each bank and each of its four control bits whether the configuration decides it, by its low five bits or by overwriting the register, and how |
| CanFilterBanks.ConfigBankStart | HALLIB/STM32F4xx_HAL_Driver/Src/stm32f4xx_hal_can.c:892-981 | the device is left out of initialisation mode with banks 0 to 13 for CAN1, except that identifiers stored at -8 overwrite the start bank |
| CanFilterBanks.FinitOfFmr | HALLIB/STM32F4xx_HAL_Driver/Src/stm32f4xx_hal_can.c:891-892 | FINIT is bit 0 of FMR, whatever the other bits |
| CanFilterBanks.StartOfFmr | HALLIB/STM32F4xx_HAL_Driver/Src/stm32f4xx_hal_can.c:904-906 | the start bank is bits 13:8 of FMR |
| CanFilterBanks.OpenedByFields | HALLIB/STM32F4xx_HAL_Driver/Src/stm32f4xx_hal_can.c:891-911 | the first stores set FINIT, bit 0 of FMR, and put 14 into CAN2SB, bits 13:8, and keep all other bits |
| CanFilterBanks.ClosedByFields | HALLIB/STM32F4xx_HAL_Driver/Src/stm32f4xx_hal_can.c:979-981 | the last one clears FINIT only |
| CanFilterBanks.LandsInABankIff | HALLIB/STM32F4xx_HAL_Driver/Src/stm32f4xx_hal_can.c:909-978 | a configuration lands in one bank and changes no other, whatever the registers held, iff its number modulo 2^29 is one of the 28 |
| CanFilter.SetItemsMeaning | HALLIB/HAL_Drivers/drv_can.c:302-317 | after a filter command with items of any number each bank has the identifiers of the last item stored there, each control bit is what the last item that decides it makes of it, what has no such item is as before, and the stored filter is that of the last item |
| CanFilter.SetItemsInRange | HALLIB/HAL_Drivers/drv_can.c:302-317 | when all items name one of the 28 banks, each bank holds the last item meant for it and the others are as before |
| CanDriver.CanPort.constructor | HALLIB/HAL_Drivers/drv_can.c:869-897 | the port after reset: default configuration and filter, all mailboxes empty |
| CanDriver.CanPort.WriteMailbox | HALLIB/HAL_Drivers/drv_can.c:454-481 | the register writes leave exactly the message's words with the request bit, whatever the mailbox held, and no other mailbox changed |
| CanDriver.CanPort.SendMsg | HALLIB/HAL_Drivers/drv_can.c:384-490 | accepted iff the handle is usable and the mailbox empty; then its registers hold every field of the frame and each data byte where the layout of the mailbox has it, with TXRQ, and TSR loses the flags of this mailbox only; an occupied mailbox gives ERROR, an unusable handle an error code, and neither writes a register |
| CanDriver.CanPort.TxIrq | HALLIB/HAL_Drivers/drv_can.c:611-656 | reports the lowest of RQCP0, RQCP1, RQCP2 (bits 0, 8, 16 of TSR) that is set, with the TXOK next to it, and then clears the status bits of all mailboxes |
| CanDriver.CanPort.HalClearMailboxes | HALLIB/STM32F4xx_HAL_Driver/Src/stm32f4xx_hal_can.c:1733-1864 | with the mailbox interrupt on, every pending completion is cleared without a report to the framework |
| CanDriver.CanPort.RecordError | HALLIB/HAL_Drivers/drv_can.c:692-721 | for any ESR composed of REC, TEC, LEC and state, whatever its other bits: exactly the counter of LEC steps (1 stuff, 2 form, 3 acknowledge, 4 and 5 bit, 6 CRC, 0 and 7 none), and the status takes REC, TEC, LEC << 4 and the state |
| CanDriver.CanPort.SceIrq | HALLIB/HAL_Drivers/drv_can.c:681-724 | clears pending completions, records the fields of ESR as `RecordError` does, and reports a failure of mailbox 0 iff LEC is 3 and `TSR & 0x501` is then 0 |
| CanDriver.CountersMoveByOne | HALLIB/HAL_Drivers/drv_can.c:692-716 | at most one of the five counters moves, and it moves by one, in 32-bit arithmetic |
| CanDriver.EsrHasFields | HALLIB/HAL_Drivers/drv_can.c:692-721 | every value of ESR is composed of such fields, so the statements about them leave none out |
| CanDriver.CanPort.FillInit | HALLIB/HAL_Drivers/drv_can.c:117-144 | the `Init` block becomes the encoding of the configuration, with automatic bus-off recovery and FIFO priority on and the four other options off; an unknown mode keeps the mode bits |
| CanDriver.CanPort.HalCanInit | HALLIB/STM32F4xx_HAL_Driver/Src/stm32f4xx_hal_can.c:274-450 | READY with BTR programmed, or ERROR with BTR untouched |
| CanDriver.CanPort.HalCanStart | HALLIB/STM32F4xx_HAL_Driver/Src/stm32f4xx_hal_can.c:1032-1076 | LISTENING from READY, ERROR when initialisation mode is not left, and only an error code in any other state |
| CanDriver.CanPort.Configure | HALLIB/HAL_Drivers/drv_can.c:107-157 | the whole new device state and filter banks; the result ignores HAL_CAN_Start |
| CanDriver.CanPort.Set | HALLIB/HAL_Drivers/drv_can.c:319-366 | a control call is exactly the function whose sequences `ControlsKeepSync` and `LastControlDecides` are about; the filter registers change only in a reconfiguration that succeeds |
| CanDriver.CanPort.PrepareFilter | HALLIB/STM32F4xx_HAL_Driver/Src/stm32f4xx_hal_can.c:891-919 | initialisation mode, the first bank of CAN2, the bank switched off, its scale |
| CanDriver.CanPort.StoreIdentifiers | HALLIB/STM32F4xx_HAL_Driver/Src/stm32f4xx_hal_can.c:921-948 | the two identifier words go where the number points: to a bank, to FMR, FM1R, FS1R, FFA1R or FA1R, or to no filter register |
| CanDriver.CanPort.CompleteFilter | HALLIB/STM32F4xx_HAL_Driver/Src/stm32f4xx_hal_can.c:950-981 | mode and FIFO, which initialisation mode alone admits, activation, end of that mode |
| CanDriver.CanPort.ApplyFilter | HALLIB/STM32F4xx_HAL_Driver/Src/stm32f4xx_hal_can.c:838-993 | a usable handle stores the filter as `ConfigBankEffect` and `ConfigBankStart` describe, for every bank number; an unusable one records an error code only |
| CanDriver.CanPort.SetFilters | HALLIB/HAL_Drivers/drv_can.c:302-317 | the loop over the items has the meaning of `SetItemsMeaning` on a usable handle; on an unusable one the banks stay, the last item is still remembered, and any item records the error code |
| CanDriver.CanPort.RecvMsg | HALLIB/STM32F4xx_HAL_Driver/Src/stm32f4xx_hal_can.c:1516-1596 | the oldest message of the named FIFO, which alone is released: identifier, kind, remote flag and bytes from their places in its registers, and for RDTR composed of time stamp, match index f and length, that length and `hdr` = (f + 1) / 2; no message, nothing released and the error code of the failing test otherwise |
| CanDriver.HdrOfFields | HALLIB/HAL_Drivers/drv_can.c:531-534 | for every match index f of an RDTR with any time stamp and length, `hdr` is (f + 1) / 2 |
| CanDriver.RdtrHasFields | HALLIB/STM32F4xx_HAL_Driver/Src/stm32f4xx_hal_can.c:1559-1561 | every value of RDTR is composed of these fields |
| CanDriver.HdrPairs | HALLIB/HAL_Drivers/drv_can.c:531-534 | the `hdr` of a message is n exactly for the match indices 2n - 1 and 2n |
| Mpu.WordsAreRows | CORE/mpu_armv7.h:246-253 | within one window, words written through RBAR, RASR and their aliases are rows set one by one |
| Mpu.SetRowsConcat | CORE/mpu_armv7.h:259-268 | loading a concatenated table is loading its parts in turn |
| Mpu.SetRowByLayout | CORE/mpu_armv7.h:223-227 | for an RBAR composed of address, VALID and region: the row goes to that region, or without VALID to the one RNR names, RNR ends there, and the other regions stay |
| Mpu.MpuUnit.SetRegion | CORE/mpu_armv7.h:223-227 | sets one row |
| Mpu.MpuUnit.SetRegionEx | CORE/mpu_armv7.h:234-239 | selects a region, then sets one row |
| Mpu.MpuUnit.OrderedCopy | CORE/mpu_armv7.h:246-253 | writes the words in order and never past the eighth of the window |
| Mpu.MpuUnit.Load | CORE/mpu_armv7.h:259-268 | for every table and count the chunked load leaves RNR and all regions as setting rows 0 to count - 1 in order does, and reads no word past the table |
| Mpu.RbarSelects | CORE/mpu_armv7.h:75-78 | a value of the macro always selects its region |
| Mpu.RbarRegion | CORE/mpu_armv7.h:75-78 | it selects the low four bits of the given number, whatever the address |
| Mpu.RbarAddress | CORE/mpu_armv7.h:75-78 | and carries the address without its low five bits |
| Mpu.LastRowWins | CORE/mpu_armv7.h:259-268 | for rows that name their regions, the last row of each region is what the load leaves, other regions are as before, and RNR is that of the last row |
| Mpu.OrderIsIrrelevant | CORE/mpu_armv7.h:259-268 | tables of the same rows with distinct regions give the same regions in any order |
| Mpu.SetRegionExReaches | CORE/mpu_armv7.h:234-239 | the given region gets the row iff the RBAR value selects no other one; otherwise that other one does |
| Nvic.StoreSetAdds | CORE/core_cm4.h:1688-1694 | a store to a set-enable or set-pending word adds exactly that number to the set the words stand for |
| Nvic.StoreClearRemoves | CORE/core_cm4.h:1724-1732 | a store to a clear word removes exactly that number |
| WordBits.BitIsNumbered | CORE/core_cm4.h:1688-1694 | bit i of a word, as all bitmaps use it, is its last bit after i halvings |
| Nvic.BitmapsAreSets | CORE/core_cm4.h:1688-1783 | over every sequence of enable, disable, set-pending and clear-pending calls the two bitmaps represent the two sets |
| Nvic.LastCallDecides | CORE/core_cm4.h:1688-1783 | after any calls an interrupt is enabled (pending) iff the last call about that was an enable (a set), or it was so before and there was none |
| Nvic.Controller.EnableIrq | CORE/core_cm4.h:1688-1694 | the enable call on the registers; negative numbers change nothing |
| Nvic.Controller.DisableIrq | CORE/core_cm4.h:1724-1732 | the disable call on the registers |
| Nvic.Controller.SetPendingIrq | CORE/core_cm4.h:1762-1768 | the set-pending call on the registers |
| Nvic.Controller.ClearPendingIrq | CORE/core_cm4.h:1777-1783 | the clear-pending call on the registers |
| Nvic.Controller.GetEnableIrq | CORE/core_cm4.h:1705-1715 | 1 iff the number is in the enabled set |
| Nvic.Controller.GetPendingIrq | CORE/core_cm4.h:1743-1753 | 1 iff the number is in the pending set |
| NvicPriority.FieldsFillTheWidth | CORE/core_cm4.h:1869-1870 | the two field widths add up to the implemented bits for every grouping, in spite of the unsigned wraparound |
| NvicPriority.DecodePriority | CORE/core_cm4.h:1890-1901 | writes both decoded fields |
| NvicPriority.DecodeUndoesEncode | CORE/core_cm4.h:1863-1901 | decoding gives back both priorities, cut to their fields |
| NvicPriority.EncodeUndoesDecode | CORE/core_cm4.h:1863-1901 | every value of the implemented width is the code of what it decodes to |
| NvicPriority.ReadBackUndoesStore | CORE/core_cm4.h:1816-1848 | the stored byte reads back as the priority's implemented bits |
| NvicPriority.PreemptsIffPreemptBelow | CORE/core_cm4.h:1863-1876 | the architecture's group field of the stored bytes orders interrupts exactly by masked preempt priority |
| NvicPriority.StoredOrderIsLexicographic | CORE/core_cm4.h:1863-1876 | for every grouping and width: preemption by masked preempt priority, and ties by masked subpriority |
| NvicPriority.HalRoundTrip | HALLIB/STM32F4xx_HAL_Driver/Src/stm32f4xx_hal_cortex.c:165-176 | encode, store, read, decode gives both priorities back, cut to their fields |
| NvicPriority.LowestUrgency | HALLIB/HAL_Drivers/drv_common.c:40 | 0xFF and the highest implemented priority are stored as the same byte |
| NvicPriority.NothingIsLessUrgent | HALLIB/HAL_Drivers/drv_common.c:40 | no priority is stored as a less urgent byte than 0xFF |
| NvicPriority.PriorityUnit.SetPriority | CORE/core_cm4.h:1816-1826 | the byte of this interrupt or exception, and no other |
| NvicPriority.PriorityUnit.GetPriority | CORE/core_cm4.h:1838-1849 | the implemented bits of that byte |
| NvicPriority.PriorityUnit.SetPriorityGrouping | CORE/core_cm4.h:1657-1668 | the unlock sequence succeeds, the field becomes the group modulo 8 and the other bits keep their values |
| NvicPriority.GroupOfAircr | CORE/core_cm4.h:1676-1679 | the grouping read back is bits 10:8 of AIRCR |
| NvicPriority.GroupingStoreOf | CORE/core_cm4.h:1657-1668 | for AIRCR composed of PRIGROUP (bits 10:8) and any other bits, the store leaves the new group modulo 8 and those bits |
| NvicPriority.PriorityUnit.HalSetPriority | HALLIB/STM32F4xx_HAL_Driver/Src/stm32f4xx_hal_cortex.c:165-176 | under the grouping in force the byte decodes to both priorities cut to their fields, and no other byte changes |
| NvicPriority.PriorityUnit.HalGetPriority | HALLIB/STM32F4xx_HAL_Driver/Src/stm32f4xx_hal_cortex.c:371-377 | the decoded fields of the byte |
| SysTick.ValueIsModular | HALLIB/HAL_Drivers/drv_common.c:114-126 | the reloading counter runs backwards modulo LOAD + 1, for any number of clocks |
| SysTick.Timer.Config | CORE/core_cm4.h:2022-2036 | accepts exactly 1 to 2^24 ticks, 0 being refused through wraparound, and gives the exception the lowest urgency and no other interrupt a new one; a refusal changes nothing |
| SysTick.Timer.Init | HALLIB/HAL_Drivers/drv_common.c:28-41 | a tick period of clock / 1000 from 1 kHz on, below that the refused configuration unnoticed; the lowest urgency in any case |
| SysTick.FiresEveryTicks | CORE/core_cm4.h:2022-2036 | clock n after the configuration interrupts iff n is a multiple of ticks, and never for ticks = 1 |
| SysTick.InterruptsCountPeriods | HALLIB/HAL_Drivers/drv_common.c:47-57 | the handler's tick count after n clocks is n / ticks |
| SysTick.DeltaOfElapsed | HALLIB/HAL_Drivers/drv_common.c:123 | the computed delta is the elapsed time modulo the period, less one tick after a wrap |
| SysTick.UsDelay | HALLIB/HAL_Drivers/drv_common.c:114-126 | on any sampling of the counter the loop ends at the first read whose delta reaches the target, and never before that time has passed; on one that reads every tick for long enough it ends iff the target is at most max(start, LOAD - 1), within one tick of its end moment |
| SysTick.TargetIsProduct | HALLIB/HAL_Drivers/drv_common.c:125 | the target is the exact product whenever that fits 32 bits |
| SysTick.DelayEndsIff | HALLIB/HAL_Drivers/drv_common.c:114-126 | some read can end the loop iff the target is at most max(start, LOAD - 1), and the first such moment is given exactly |
| SysTick.MillisecondEndsIff | HALLIB/HAL_Drivers/drv_common.c:72-85 | a millisecond of `HAL_Delay` can end iff the clock has at least 2 kHz, or 1 kHz and a start at LOAD, beyond whole megahertz |
| SysTick.MillisecondDelay | HALLIB/HAL_Drivers/drv_common.c:72-85 | the whole delay is never early, never returns at whole megahertz unless it is 0, and with at least 2 kHz more returns on every trace that reads every tick for long enough |
| Clock.Rcc.Update | USER/system_stm32f4xx.c:217-267 | for CFGR composed of SWS and HPRE and PLLCFGR of M, N, P and the source, whatever their other bits: HSI, HSE, or (source / M * N modulo 2^32) / (2 * (P + 1)), with 8 MHz when the source bit is set and 16 MHz else, divided by 1, or by 2, 4, 8, 16, 64, 128, 256, 512 for HPRE 8 to 15 |
| Clock.ClockOfFields | USER/system_stm32f4xx.c:217-267 | the computed clock on the fields, from which the bounds below get their M, N, P and source |
| Clock.ClockHasFields | USER/system_stm32f4xx.c:217-267 | every pair of register values is composed of these fields |
| Clock.VcoOverflowsIff | USER/system_stm32f4xx.c:243-251 | the 32-bit product overflows iff the internal source is undivided and N is above 268; never for M of 2 and more |
| Clock.TruncationBounds | USER/system_stm32f4xx.c:243-255 | c * P * M <= source * N < (c + 1) * P * M + N * M |
| Clock.ExactIff | USER/system_stm32f4xx.c:243-255 | nothing is lost iff both divisions are exact or N is 0 |
| Clock.PllClockBounds | USER/system_stm32f4xx.c:234-266 | the same bounds for the divided clock: the prescaler widens them by less than one step of it |
| BoardTiming.BoardDelayNeverEnds | SYSTEM/board/board.c:31-45 | the board's register values (SWS = PLL, HPRE = 0, PLLCFGR 0x402A04 in the bits read) compute to 168 MHz, where no read of the counter ends a millisecond of `HAL_Delay` |
| BoardTiming.BoardBitRate | SYSTEM/board/board.c:41-45 | after any controls a usable handle on the board's 42 MHz bus runs at 14/15 of the last legal rate asked for, or 15/16 of 800000 |
| Intrinsics.BitsDecide | CORE/cmsis_armcc.h:516-530 | two words with the same bits are equal, the step from bitwise to wordwise statements |
| Intrinsics.Rbit | CORE/cmsis_armcc.h:516-530 | the early-exit loop returns the word whose bit i is bit 31 - i of the argument, for every word; the left-over high bits are shifted out and the shift count never underflows |
| Intrinsics.ReverseTwice | CORE/cmsis_armcc.h:516-530 | reversing twice is the identity |
| Intrinsics.ReverseIsUnique | CORE/cmsis_armcc.h:516-530 | the specification determines the result |
| Intrinsics.BitOfRor | CORE/cmsis_armclang.h:876-884 | rotation by any 32-bit amount takes bit i + n, modulo 32, to bit i |
| Intrinsics.RorAddsUp | CORE/cmsis_armclang.h:876-884 | rotations compose by 32-bit addition of their amounts, wrapping sums included |
| Intrinsics.RorUndone | CORE/cmsis_armclang.h:876-884 | every rotation is undone by the negated amount |
| Intrinsics.BitOfRev16 | CORE/cmsis_armclang.h:857 | `__REV16` exchanges the bytes inside each halfword |
| Intrinsics.Rev16Twice | CORE/cmsis_armclang.h:857 | `__REV16` is its own inverse |

## Left out

- The user interface, file browser, storage, GPIO and bring-up code: foreign library calls and I/O.
- The CAN2 handlers: the same code on a second set of registers.
- Interrupt enable and disable controls, GET_STATUS, and the callback HAL_CAN_ErrorCallback, which only switch interrupt masks or copy fields.
- Receive FIFO overrun events, the `hdr` numbering of CAN2, and the framework's receive queues.
- Registers other than the filter registers that identifiers stored under a number below -8 or above 27 may hit: only that no filter register changes by that store is modelled.
- The interval between the sender's reset of `result` and its read of the handle state: one step, so no handler falls between them; the read of `result` after waking is one step with the wake-up.
- The private-mode sender and its sharing of mailboxes; in the model a mailbox has one sender at a time, as the free list of the ordinary sender ensures.
- ABRQ, CODE and the lowest-priority flags of TSR, which the driver never uses.
- Assertion failures (RT_ASSERT): the asserted conditions are preconditions of `SendMsg`.
- The waiting loops of HAL_CAN_Init and HAL_CAN_Start: the hardware's answer within the time limit is a parameter, so a time-out may happen or not.
- The effect of entering initialisation mode on a frame in flight, about which the driver makes no provision; the mailboxes are taken to stay as they are.
- The SCE handler in steps as fine as the TX handler: in `CanProtocol` it is two steps, before and after the HAL's interrupt code, with the HAL's clearing of all three mailboxes in one.
- The read-modify-writes of TIR: one step each, because only the sender writes an empty mailbox.
- Weak memory and barriers (`__DSB`, `__ISB`, `__DMB`): register accesses are sequentially consistent.
- The store of ERRI to MSR at the end of the SCE handler: it acknowledges the interrupt and changes nothing else.
- `SET_FILTER` without items: it applies the stored filter again, which is `ApplyFilter`.
- `ARM_MPU_RASR_EX`, `ARM_MPU_ACCESS_NORMAL`, `ARM_MPU_ClrRegion` and enabling the MPU: field macros and single stores.
- Exceptions whose priority cannot be set (numbers below -12), for which `__NVIC_SetPriority` would index outside SHPR.
- The active and vector-table functions of the NVIC: reads without arithmetic.
- The interrupt handler's work inside `SysTick_Handler`, apart from counting ticks.
- `HAL_Delay` inside a thread, which the kernel's `rt_thread_mdelay` serves; the kernel is not part of this model.
- A PLL divisor of 0, which divides by zero in `SystemCoreClockUpdate`; it is excluded by a precondition.
- The bits of MCR that HAL_CAN_Init sets from the option fields of the `Init` block.
- `__CLZ`, the saturating intrinsics and the inline-assembly wrappers.
