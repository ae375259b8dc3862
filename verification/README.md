# Driver verification for a Kinetis SDK firmware

A Dafny model of the four drivers of this firmware that hold its hard logic, with proofs about them:

- **ENET** (`drivers/fsl_enet.c`): the receive and transmit buffer-descriptor rings shared with the DMA, and
  the multicast hash filter.
- **UART** (`drivers/fsl_uart.c`): interrupt-driven receive (drop-oldest ring plus direct delivery), its
  critical section, interrupt-driven transmit, and the fractional baud divisor.
- **MCG** (`drivers/fsl_clock.c`): the PLL divider search and the table-driven mode switch.
- **Flash** (`drivers/fsl_flash.c`): splitting requests into hardware commands, protection, swap, EEPROM.

Driver objects are classes whose methods do what the C functions do, branch by branch; each is proved against
a function of the old state.  What the drivers promise is then proved about those functions, over all inputs
or over all runs of driver calls, interrupts and hardware steps.  Registers are plain fields; hardware is a
step that may happen at any time.  Integers are unbounded and every wrap-around or truncation that the C code
can reach is written out; where a width is assumed to suffice, the precondition or the list below says so.

`dafny verify dfyconfig.toml` checks everything.

| file | content |
|---|---|
| `CircularArray.dfy`, `Multiples.dfy`, `Words.dfy` | indices modulo a size; sectors, blocks and regions as units of an address range; 32-bit masks and ALIGN_UP |
| `EnetReceive.dfy`, `EnetReceiveRuns.dfy` | receive ring, and its runs against the DMA |
| `EnetTransmit.dfy`, `EnetTransmitRuns.dfy` | transmit ring, and its runs against the DMA |
| `Gf2Division.dfy`, `EnetMulticast.dfy` | polynomial division over GF(2), and the hash filter |
| `UartReceive.dfy`, `UartReceiveRuns.dfy`, `UartDirectRuns.dfy`, `UartCriticalSection.dfy` | receive transfers, their runs with and without a ring buffer, and the split of the receive call into steps |
| `UartTransmit.dfy`, `UartBaud.dfy` | transmit transfers; baud rate |
| `McgPll.dfy`, `McgModes.dfy` | divider search; mode switch |
| `FlashDevice.dfy`, `FlashProgram.dfy`, `FlashErase.dfy`, `FlashProtection.dfy`, `FlashSwap.dfy`, `FlashEeprom.dfy` | the flash controller and the calls on it |

## Where the code does less than one would expect

Each of these is proved, with the condition under which the code does behave and an input or a state that shows
the failure.

- `ENET_SendFrame` that reports Busy halfway leaves the front of the frame queued; the next accepted frame then
  goes out with these bytes in front (`EnetTransmitRuns.PendingIffTorn`, `EnetTransmitRuns.TransmitIffNoneSpoilt`;
  600 bytes into two buffers of 256, `EnetTransmitRuns.TornGoesOut`).
- `ENET_ReadFrame` with a length of the caller's choice copies whole buffers, and so beyond a buffer of that
  length unless the length ends with one or reaches into the last piece (`EnetReceive.ShortReadFits`; 300 bytes received in
  buffers of 256 and read with length 1, `EnetReceiveRuns.ShortReadOverruns`).
- `ENET_LeaveMulticastGroup` also removes every other group with the same hash entry (`EnetMulticast.AddThenLeave`,
  `EnetMulticast.LeaveDropsOther`; there are such groups among any 65, `EnetMulticast.SharedEntry`).
- A UART overrun callback that asks for more than the ring holds leaves its request pending behind bytes that go
  to the ring, and later bytes overtake them (`UartReceiveRuns.OrderedIffCapped`, `UartReceiveRuns.Overtaken`).
- A receive call returns in the state of an atomic one if and only if the driver is idle when RIE is masked, or has
  an empty ring, RIE on and an untouched pending request of the very size asked for
  (`UartCriticalSection.CriticalSectionExact`).  A callback that asks for too much between the busy check and the
  masking spoils the call (`UartCriticalSection.UncappedSpoils`, `UartCriticalSection.SpoiltCall`), and with an empty
  ring the call overwrites the pending request (`UartCriticalSection.RequestOverwritten`).
- `UART_SetBaudRate` refuses an error of exactly the tolerance, which `UART_Init` accepts; below 100 baud the
  integer tolerance is 0, so it refuses every rate (`UartBaud.SetAcceptsLessThanInit`, `UartBaud.NoSlowRates`; 100
  baud from 1648 Hz, 50 baud from 800 Hz, `UartBaud.ToleranceGap`).
- Neither baud function checks that SBR fits its 13 bits: a rate is accepted although it does not exactly for
  clocks from 2^17 up to 2^20 times the rate (`UartBaud.ProgrammedRate`; 300 baud from 39321600 Hz,
  `UartBaud.SbrOverflows`).
- `CLOCK_CalcPllDiv` can return a divider that PRDIV cannot hold, exactly from a reference of
  (field size + PRDIV base) * REF_MIN on (`McgPll.PllRoundTrip`, `McgPll.UnfitDivider`; 100 MHz with a five-bit
  field, `McgPll.UnfitExample`).
- `CLOCK_SetPbeMode` started on the internal reference switches it without the ERR007993 workaround
  (`McgModes.Mcg.SetPbeMode`); `CLOCK_SetMcgConfig` never does that.
- `CLOCK_SetMcgConfig` from PBE to PEE leaves the PLL dividers as they were, unless the PLL is also asked for
  independently of the mode; every other switch to PBE or PEE programs them (`McgModes.PllReconfigured`).
- `FLASH_Erase` of zero bytes erases nothing if and only if the address is sector aligned and not the start of
  flash: inside a sector it erases that sector, and at the start of flash the end address wraps and everything is
  erased (`FlashErase.EraseZeroBytes`).
- `FLASH_IsProtected` can miss the last region of a range (`FlashProtection.RightIffNotMissed`), and on a flash
  whose regions have more than the least size some range makes it read beyond its tables if and only if the flash
  does not divide by its region count (`FlashProtection.EvenlyDividedIff`, `FlashProtection.RemainderOutOfBounds`).
- `FLASH_Swap` loops for ever in the update state with the address of another sector
  (`FlashSwap.SwapSystem.NeverEnds`).

## Model

| member | source | states |
|---|---|---|
| EnetReceive.RxHandle.SetRxBufferDescriptors | drivers/fsl_enet.c:762-836 | initialisation establishes the ownership invariant with an empty driver arc: every descriptor EMPTY, no LAST or status, WRAP on exactly the last |
| EnetReceive.RxHandle.GetRxFrameSize | drivers/fsl_enet.c:1094-1150 | the scan ends within ring-size steps and judges the first descriptor that stops it |
| EnetReceive.RxHandle.ReadFrame | drivers/fsl_enet.c:1152-1277 | without data: releases up to LAST or once around; with data: says exactly when a copy would leave its buffers, and otherwise copies exactly the bytes of the specified read and leaves the rest of the user buffer alone |
| EnetReceive.RxHandle.UpdateReadBuffers | drivers/fsl_enet.c:1279-1323 | only the current descriptor changes hands: EMPTY set, LAST and status cleared, WRAP, length and buffer kept |
| EnetReceive.StoreAppends | drivers/fsl_enet.c:809-836 | the DMA may write exactly when the driver does not own the whole ring, and its write extends the driver's contiguous arc by one piece and keeps the invariant |
| EnetReceive.ReleasePops | drivers/fsl_enet.c:1285-1303 | releasing a descriptor removes the front piece and keeps the invariant |
| EnetReceive.FrameSizeComplete | drivers/fsl_enet.c:1106-1149 | on a ring with a complete front frame the size call reports that frame's own length, or an error exactly if the frame is bad |
| EnetReceive.FrameSizeIncomplete | drivers/fsl_enet.c:1106-1149 | with only part of a frame in the ring, even a full ring, it reports Empty |
| EnetReceive.ControlMasks | drivers/fsl_enet.h:66-78 | what the driver's masks read from a control word: 0x37 the five error bits, 0x8800 a last descriptor that the driver owns; a release leaves WRAP and sets EMPTY |
| EnetReceive.GoodMeaning | drivers/fsl_enet.h:135-138 | the frames to be delivered are the nonempty ones whose status has no bit of 0x37 set |
| EnetReceive.ReadFront | drivers/fsl_enet.c:1187-1277 | a read with the reported size returns the front frame byte for byte, removes exactly it, and stays within a buffer of that size |
| EnetReceive.ShortReadFits | drivers/fsl_enet.c:1240-1260 | a read with a length of the caller's choice stays within a buffer of that length if and only if the length is a multiple of the buffer size or reaches into the last piece |
| EnetReceiveRuns.ShortReadOverruns | drivers/fsl_enet.c:1240-1260 | on a fresh ring of 256-byte buffers, a 300-byte frame read with length 1 is copied beyond a buffer of one byte |
| EnetReceive.DiscardPopsFrame | drivers/fsl_enet.c:1166-1186 | a read without data removes exactly the front frame |
| EnetReceive.WrongLengthFails | drivers/fsl_enet.c:1187-1277 | a read with any other length never reports success |
| EnetReceive.CutCount | drivers/fsl_enet.c:374-379 | a frame takes as many descriptors as its bytes need |
| EnetReceiveRuns.StepKeepsInv | drivers/fsl_enet.c:1094-1323 | every driver call and every DMA write keeps the ownership invariant and the books of arrived, stored and delivered frames |
| EnetReceiveRuns.AskSizeMeaning | drivers/fsl_enet.c:1106-1149 | in every reachable state the size call says Empty exactly when no complete frame is waiting, and otherwise judges the front one |
| EnetReceiveRuns.ReceiveCorrect | drivers/fsl_enet.h:1165-1240 | over every interleaving with the documented call pattern the user gets exactly the error-free frames, in order, each once; a reported size stays good until it is used |
| EnetReceiveRuns.ToldReadSucceeds | drivers/fsl_enet.h:1165-1240 | the read that follows a reported size returns that frame whatever the DMA did in between |
| EnetReceiveRuns.DrainDelivers | drivers/fsl_enet.h:1165-1240 | asking and reading once per waiting frame delivers everything good that has arrived |
| EnetReceiveRuns.NoReceiveDeadlock | drivers/fsl_enet.c:374-379 | if the ring holds more than a maximal frame, a ring the driver owns entirely has a complete frame at its front |
| EnetTransmit.TxHandle.SetTxBufferDescriptors | drivers/fsl_enet.c:709-760 | initialisation establishes the transmit invariant: nothing READY, WRAP on exactly the last |
| EnetTransmit.TxHandle.SendFrame | drivers/fsl_enet.c:1325-1480 | the call's effect on the ring and its status are those of the specified send, mid-frame Busy included |
| EnetTransmit.SendMeaning | drivers/fsl_enet.c:1340-1480 | a frame of legal length is accepted if and only if there are as many free descriptors as pieces; then all pieces are queued, otherwise Busy and every free descriptor filled with the front of the frame |
| EnetTransmit.SendLengths | drivers/fsl_enet.c:1335-1348 | the frame is too long exactly from 1519 bytes on, and otherwise accepted if and only if a descriptor is free and the free ones have room for its bytes |
| EnetTransmit.CutShape | drivers/fsl_enet.c:1379-1480 | ceil(max(length,1)/buffer size) pieces, all but the last full, LAST on the last only, rejoining to the frame |
| EnetTransmit.SentPops | drivers/fsl_enet.c:1325-1480 | the DMA finds its descriptor READY exactly when something is queued, and sends the pieces in order |
| EnetTransmitRuns.TransmitAccounts | drivers/fsl_enet.c:1325-1480 | over every run, Busy calls included, the wire carries the queued pieces in order, and they read back as the accepted frames, each behind what earlier Busy calls left |
| EnetTransmitRuns.TransmitCorrect | drivers/fsl_enet.c:1325-1480 | over runs without a mid-frame Busy the wire carries exactly the accepted frames in call order |
| EnetTransmitRuns.PendingIffTorn | drivers/fsl_enet.c:1476-1478 | bytes are left pending exactly by a call that finds some but too few free descriptors |
| EnetTransmitRuns.TornSpoilsNext | drivers/fsl_enet.c:1476-1478 | the frame accepted after such a call is not the frame that goes out |
| EnetTransmitRuns.TransmitIffNoneSpoilt | drivers/fsl_enet.c:1325-1480 | over whole runs the queued stream is that of the accepted frames if and only if none was accepted behind bytes of a torn one |
| EnetTransmitRuns.TornExample | drivers/fsl_enet.c:1476-1478 | from a fresh ring of two 256-byte buffers a 600-byte call reports Busy and leaves bytes pending |
| EnetTransmitRuns.TornGoesOut | drivers/fsl_enet.c:1476-1478 | after it a one-byte frame is accepted and goes out as a different one |
| Gf2Division.DivideCorrect | drivers/fsl_enet.c:1933-1951 | quotient and remainder over GF(2) are unique, and the division computes them: reference for the hash |
| Gf2Division.RegisterIsRemainder | drivers/fsl_enet.c:1933-1951 | a shift register fed with a message holds the remainder of its division by the generator |
| EnetMulticast.Crc | drivers/fsl_enet.c:1933-1951 | the two loops compute the CRC-32 remainder of the address bits, all-ones start, no final complement |
| EnetMulticast.Crc32Generator | drivers/fsl_enet.c:1929-1944 | the constant is the IEEE 802.3 generator, coefficient by coefficient, and the register starts with ones |
| EnetMulticast.HashUnique | drivers/fsl_enet.c:1933-1951 | an address has one such remainder only |
| EnetMulticast.HashFilter.AddMulticastGroup | drivers/fsl_enet.c:1925-1962 | for entry h, the six top bits of the hash: below 32 sets bit h of GALR, from 32 on bit h - 32 of GAUR, and changes no other bit of either register |
| EnetMulticast.HashFilter.LeaveMulticastGroup | drivers/fsl_enet.c:1964-2001 | clears that bit of that register and no other |
| EnetMulticast.EntryUnique | drivers/fsl_enet.c:1953-1961 | an address selects one table entry only |
| EnetMulticast.EntryBits | drivers/fsl_enet.c:1953-1961 | its number is made of the six lowest coefficients of the remainder, that of x^0 on top |
| EnetMulticast.AddThenLeave | drivers/fsl_enet.c:1925-2001 | leaving undoes adding if and only if the entry was clear before |
| EnetMulticast.SharedEntry | drivers/fsl_enet.c:1953-1961 | among any 65 addresses two select the same entry |
| EnetMulticast.LeaveDropsOther | drivers/fsl_enet.c:1925-2001 | for two such addresses, both added, leaving one group clears the entry of the other |
| UartReceive.UartHandle.StartRingBuffer | drivers/fsl_uart.c:680-699 | an empty ring that keeps one byte of the buffer free |
| UartReceive.UartHandle.GetRxRingBufferLength | drivers/fsl_uart.c:166-182 | the number of bytes between tail and head, wrapped or not |
| UartReceive.UartHandle.IsRxRingBufferFull | drivers/fsl_uart.c:184-200 | true exactly when one more byte would overrun |
| UartReceive.UartHandle.ReceiveNonBlocking | drivers/fsl_uart.c:777-897 | takes min(requested, available) oldest bytes, leaves exactly the rest pending with RIE on and a count of 0, refuses without any change while one is pending, reports what it took itself, and runs the RxIdle callback, with the requests it makes in turn, exactly when the ring satisfied the request |
| UartReceive.CallIsSequence | drivers/fsl_uart.c:862-869 | a call with its nested callbacks has the effect of its requests one after the other |
| UartReceive.UartHandle.AbortReceive | drivers/fsl_uart.c:899-918 | drops the request, keeps ring, FIFO and delivered bytes, and turns RIE off without a ring |
| UartReceive.UartHandle.GetReceiveCount | drivers/fsl_uart.c:920-938 | the part of the direct request received so far: its size less what is pending |
| UartReceive.UartHandle.HandleReceiveIRQ | drivers/fsl_uart.c:1070-1147 | the interrupt's chunked loops have the effect of handling the FIFO bytes one at a time, first for pending requests, then for the ring, with any requests of the callbacks and with overruns; fewer bytes than are pending all go to the request, as many complete it and call RxIdle |
| UartDirectRuns.DirectRequest | drivers/fsl_uart.c:870-884 | without a ring buffer a request for n bytes on an idle driver takes exactly the next n bytes of the stream, in order, over every run of arrivals and interrupts; until then n less those delivered are pending and the count is their number; with the last one the driver is idle and RxIdle has been called once; the rest waits in the FIFO |
| UartDirectRuns.StepServes | drivers/fsl_uart.c:1078-1106 | each interrupt brings the request on by the smaller of what it reads and what is pending |
| UartDirectRuns.DirectCompletes | drivers/fsl_uart.c:1078-1106 | an interrupt that reads the whole FIFO completes the request if the bytes are there |
| UartDirectRuns.DirectConserves | drivers/fsl_uart.c:777-918 | without a ring buffer, over every run with any requests, aborts and callbacks, delivered bytes and FIFO are the arrived stream, and a pending request has RIE on |
| UartReceiveRuns.StepAccounts | drivers/fsl_uart.c:777-897 | every call, arrival and interrupt keeps the books with exactly its own marks: the arrived stream is what was delivered or dropped, then the ring, then the FIFO |
| UartReceiveRuns.ReceiveOrder | drivers/fsl_uart.c:1070-1147 | order and conservation over every run with capped overrun callbacks: marks are fixed by the steps, the lost ones are counted by the overruns, and a pending request implies an empty ring |
| UartReceiveRuns.LossesAreOverruns | drivers/fsl_uart.c:1111-1132 | the lost marks of a run are exactly the places where the ring is still full after the callback; receive calls and aborts lose nothing |
| UartReceiveRuns.ReceiveConserves | drivers/fsl_uart.c:777-897 | from a fresh ring, in every run, delivered, waiting and overrun bytes add up to the arrived ones; with capped callbacks and no overrun the former are the arrived stream itself |
| UartReceiveRuns.InterruptOrdered | drivers/fsl_uart.c:1107-1147 | an interrupt keeps the order if and only if each callback of a full ring asks for at most what the ring holds |
| UartReceiveRuns.OrderedIffCapped | drivers/fsl_uart.c:1107-1147 | the same over whole runs |
| UartReceiveRuns.Overtaken | drivers/fsl_uart.c:1107-1147 | a callback that asks for one byte more lets a later byte overtake an earlier one |
| UartReceiveRuns.RingByteAccounts | drivers/fsl_uart.c:1109-1145 | storing a byte first delivers the oldest bytes the callback asked for, then drops the oldest one exactly if the ring is still full |
| UartReceiveRuns.OneByteLoss | drivers/fsl_uart.c:1109-1145 | a byte is lost exactly when the ring is still full after the callback, and then exactly one |
| UartCriticalSection.MaskedIsQuiet | drivers/fsl_uart.c:816-858 | while RIE is masked no interrupt changes ring, request or delivered bytes |
| UartCriticalSection.CriticalSectionAdequate | drivers/fsl_uart.c:802-858 | with the interrupt allowed between any two steps of the receive call, the result is that of one atomic call, as long as the driver is in a harmless state when RIE is masked |
| UartCriticalSection.CriticalSectionExact | drivers/fsl_uart.c:802-858 | the call returns in the state of the atomic one if and only if that state is harmless: idle, or an empty ring, RIE on and an untouched pending request of the size asked for |
| UartCriticalSection.IdleIsHarmless | drivers/fsl_uart.c:802-818 | so a window in which every request that is started is also completed does no harm |
| UartCriticalSection.IdleIffCapped | drivers/fsl_uart.c:802-818 | an interrupt in that window starts none if and only if its overrun callbacks ask for at most what the ring holds |
| UartCriticalSection.UncappedSpoils | drivers/fsl_uart.c:802-858 | one interrupt in the window with an uncapped callback on an idle driver makes every call that masks next end in another state |
| UartCriticalSection.SpoiltCall | drivers/fsl_uart.c:802-858 | such a run from the start of a call for one byte |
| UartCriticalSection.RequestOverwritten | drivers/fsl_uart.c:847-855 | with an empty ring and a request pending, the call writes its own size over it |
| UartTransmit.UartHandle.SendNonBlocking | drivers/fsl_uart.c:722-750 | accepts data exactly when idle, as a new transfer of all its bytes with TIE on; refuses without any change otherwise |
| UartTransmit.UartHandle.GetSendCount | drivers/fsl_uart.c:762-775 | the number of bytes of the transfer written so far |
| UartTransmit.UartHandle.HandleTransmitIRQ | drivers/fsl_uart.c:1181-1219 | the interrupt's loop has the effect of the specified interrupt |
| UartTransmit.InterruptKeepsInv | drivers/fsl_uart.c:1181-1219 | one interrupt keeps the transmit invariant and never overfills the FIFO |
| UartTransmit.TransmitCorrect | drivers/fsl_uart.c:722-775 | over every run D receives the accepted transfers in order and once, each completely unless aborted or in progress; TxIdle fires once per completed transfer; TIE is on exactly while one is in progress |
| UartTransmit.TransmitComplete | drivers/fsl_uart.c:722-775 | over runs without aborts D receives the complete data of every accepted transfer but the one in progress, then the sent part of that one, with one TxIdle for each of the former |
| UartTransmit.InterruptProgress | drivers/fsl_uart.c:1181-1219 | an interrupt that finds room completes the transfer or shortens it by that room |
| UartBaud.FractionalBaud | drivers/fsl_uart.c:219-247 | sbr*32+brfa is floor(2*clock/baud), brfa below 32, and the rate lies in [baud, baud+baud/32] |
| UartBaud.DivisorBest | drivers/fsl_uart.c:219-247 | no other divisor gives a rate at least baud and closer to it |
| UartBaud.SlowClockRejected | drivers/fsl_uart.c:219-257 | with clock below 16*baud the wrapped BRFA always leads to rejection |
| UartBaud.SetAcceptsLessThanInit | drivers/fsl_uart.c:395-427 | UART_SetBaudRate accepts only what UART_Init accepts, and refuses one of those if and only if the clock lies between 16 and 2^20 times the rate and 2*clock/q, for q = floor(2*clock/baud), exceeds the rate by exactly its tolerance |
| UartBaud.NoSlowRates | drivers/fsl_uart.c:425-427 | below 100 baud UART_SetBaudRate accepts nothing |
| UartBaud.ToleranceGap | drivers/fsl_uart.c:425-427 | 100 baud from 1648 Hz and 50 baud from 800 Hz are accepted by UART_Init only |
| UartBaud.ProgrammedRate | drivers/fsl_uart.c:219-275 | the register fields hold the divisor if and only if clock < 2^17 * baud; from there on UART_Init accepts if and only if clock < 2^20 * baud |
| UartBaud.AcceptedRate | drivers/fsl_uart.c:219-275 | both conditions of acceptance on clock and rate alone, and the rate of the register fields |
| UartBaud.WideClockRejected | drivers/fsl_uart.c:219-257 | above that the 16-bit SBR wraps and the rate is refused |
| UartBaud.SbrOverflows | drivers/fsl_uart.c:249-275 | 300 baud from 39321600 Hz is exact, accepted, and leaves the SBR field 0 |
| UartBaud.UartRegisters.InitBaudRate | drivers/fsl_uart.c:206-275 | success exactly if the clock lies between 16 and 2^20 times the rate and floor(2*clock/floor(2*clock/baud)) is at most 3 percent over it; below 2^17 times the rate 2*clock/(32*sbr+brfa), from the register fields, then lies between the rate and 3 percent over it; otherwise nothing changes |
| UartBaud.UartRegisters.SetBaudRate | drivers/fsl_uart.c:387-451 | the same below 3 percent; transmitter and receiver enables are restored |
| McgPll.CalcPllDiv | drivers/fsl_clock.c:741-836 | finds something exactly when the reference is in range and some divider p with p*REF_MIN <= reference <= p*REF_MAX has a candidate next to the target; then the pair is the best of all such dividers and all multipliers, and of several exact ones that with the largest divider |
| McgPll.BoundsAreLimits | drivers/fsl_clock.c:770-775 | the two divider bounds of the search are exactly the limits of the reference after division |
| McgPll.PrunedNoBetter | drivers/fsl_clock.c:776-823 | a divider that the search skips has no multiplier that beats the best found |
| McgPll.NearestBeat | drivers/fsl_clock.c:782-823 | for one divider, the two candidates around the target beat all multipliers in range |
| McgPll.BeatsAll | drivers/fsl_clock.c:770-823 | the best over the tried dividers is the best over all allowed ones |
| McgPll.Pll.GetPll0Freq | drivers/fsl_clock.c:632-654 | the frequency of the programmed fields, 0 when not locked |
| McgPll.PllRoundTrip | drivers/fsl_clock.c:826-856 | programming the result and reading the frequency back gives the reported frequency if and only if the divider fits its field, and always below a bound on the reference |
| McgPll.UnfitDivider | drivers/fsl_clock.c:826-856 | from that bound on some target makes the search return a divider its field cannot hold |
| McgPll.UnfitExample | drivers/fsl_clock.c:826-856 | references of 2 to 4 MHz, a five-bit field and a 100 MHz reference do so |
| McgPll.DividersFit | drivers/fsl_clock.c:751-775 | the bound on the reference below which every divider fits its field |
| McgModes.NextModeIsMatrix | drivers/fsl_clock.c:1686-1704 | the transition function is the driver's table |
| McgModes.TableProgress | drivers/fsl_clock.c:1686-1704 | every step of the table brings the target nearer, for all 64 pairs, in at most four steps |
| McgModes.TableAccepted | drivers/fsl_clock.c:1686-1704 | every step is one the optional guard of its setter accepts |
| McgModes.Mcg.SetMcgConfig | drivers/fsl_clock.c:1706-1800 | from any consistent mode it ends, successfully, in the requested mode; OSCSEL, IRCS, FCRDIV, the MCGIRCLK enable and the independent PLL enable are the requested ones, DRS, DMX32, FRDIV and the PLL dividers exactly where a mode on the way sets them and as before elsewhere; every write on the way obeys the clock-change rules |
| McgModes.Mcg.SetExternalRefClkConfig | drivers/fsl_clock.c:656-691 | OSCSEL changes exactly if unused, else an error and no change; no other setting changes |
| McgModes.Mcg.SetInternalRefClkConfig | drivers/fsl_clock.c:693-739 | MCGIRCLK enable, IRCS and FCRDIV change as asked exactly if not in use by the system clock, else an error and no change; no other setting changes |
| McgModes.Mcg.SetFeiMode | drivers/fsl_clock.c:1175-1233 | reaches FEI; the reference flips only while the low DRST_DRS bit is inverted (ERR007993) |
| McgModes.Mcg.SetFeeMode | drivers/fsl_clock.c:1235-1311 | reaches FEE under the same rule |
| McgModes.Mcg.SetFbiMode | drivers/fsl_clock.c:1313-1375 | reaches FBI under the same rule |
| McgModes.Mcg.SetFbeMode | drivers/fsl_clock.c:1377-1458 | reaches FBE under the same rule |
| McgModes.Mcg.SetPbeMode | drivers/fsl_clock.c:1490-1529 | reaches PBE with the PLL locked at the given dividers from every mode, and breaks the reference switch rule exactly when started on the internal reference |
| McgModes.Mcg.SetPeeMode | drivers/fsl_clock.c:1531-1550 | reaches PEE from PBE |
| McgModes.ModeRegisters | drivers/fsl_clock.c:1075-1173 | in settled states CLOCK_GetMode names each mode exactly by its control fields |
| McgModes.PeeToPee | drivers/fsl_clock.c:1686-1704 | from PEE to PEE the way goes through PBE |
| McgModes.PllReconfigured | drivers/fsl_clock.c:1686-1704 | every way to PBE or PEE goes through PBE, which programs the PLL dividers, but that from PBE to PEE |
| Words.AlignUpToUnitEnd | drivers/fsl_flash.c:1194-1201 | the macro, and one unit on if already aligned, gives the end of the current unit |
| Words.AlignUpBitsIsAlignUp | drivers/fsl_flash.c:46-48 | for a power of two the macro's negations and mask are rounding up to a multiple, modulo 2^32 |
| Words.AlignUpBitsMeaning | drivers/fsl_flash.c:46-48 | without wrap-around it gives the least multiple not below its argument |
| FlashDevice.ProgramJoins | drivers/fsl_flash.c:1047-1108 | programming two adjacent stretches is programming them as one |
| FlashProgram.ProgramSectionCall | drivers/fsl_flash.c:1149-1271 | refused exactly for no source, a misaligned start or length, or a range outside the flash, each with its error code and without effect; otherwise the flash is as after one plain write, on failure of a prefix; each command stays in one sector, fits the acceleration RAM and has an exact phrase count; the FlexRAM function is restored on success |
| FlashProgram.ProgramCall | drivers/fsl_flash.c:1047-1108 | the same with one command per aligned write unit |
| FlashProgram.PassIsGood | drivers/fsl_flash.c:1206-1250 | the size the driver picks for a pass makes a command within all limits |
| FlashProgram.WroteMore | drivers/fsl_flash.c:1206-1250 | a command for the next bytes extends the plain write by exactly these |
| FlashProgram.WroteOnErased | drivers/fsl_flash.c:1149-1271 | on an erased range a complete write leaves exactly the data there and everything else as it was |
| FlashErase.EraseCall | drivers/fsl_flash.c:910-975 | refused exactly for a misaligned start or length, a range outside the flash, or a wrong key, each with its error code and without effect; otherwise success erases exactly the sectors that meet the range, a failure a prefix of them; without faults it fails only for zero bytes at the start of flash |
| FlashErase.SweptExactly | drivers/fsl_flash.c:934-970 | for a nonempty range that erases exactly the sectors that share an address with it |
| FlashErase.EachSectorOnce | drivers/fsl_flash.c:934-970 | each such sector by exactly one command, and no other |
| FlashErase.EmptyEraseHarmless | drivers/fsl_flash.c:934-951 | for an empty range the loop has nothing to do if and only if the address is sector aligned and not 0 |
| FlashErase.EraseZeroBytes | drivers/fsl_flash.c:910-975 | erasing zero bytes does nothing exactly then; inside a sector it erases that sector, at the start of flash it erases all of it and fails |
| FlashErase.VerifyEraseCall | drivers/fsl_flash.c:1537-1594 | refused exactly for a misaligned or outside range; otherwise success implies the whole range is erased; failure, without a device fault, that it is not; checks follow one another through the range |
| FlashErase.PhrasesExact | drivers/fsl_flash.c:1564-1581 | on a device whose blocks hold fewer than 2^16 phrases each check has an exact phrase count and stays within its block |
| FlashErase.PhraseCountIff | drivers/fsl_flash.c:1572-1576 | the 16-bit count is exact if and only if the check is shorter than 2^16 phrases |
| FlashErase.ChecksPartition | drivers/fsl_flash.c:1554-1591 | every byte of the range is covered by exactly one check |
| FlashErase.EraseThenVerify | drivers/fsl_flash.c:910-975 | without faults an erased range verifies as erased |
| FlashProtection.ReadStatus | drivers/fsl_flash.c:1740-1808 | the register and shift chosen for region i give bit i of the 64-bit number that the registers form |
| FlashProtection.RegisterBit | drivers/fsl_flash.c:1721-1731 | bit j of the k-th register is bit 8k + j of that number |
| FlashProtection.RegionSizeMeaning | drivers/fsl_flash.c:3489-3499 | a region has at least 1 KB, and above that the regions together are the flash but for less than one byte each |
| FlashProtection.RegionsCover | drivers/fsl_flash.c:3485-3499 | the regions reach to the end of the flash |
| FlashProtection.IsProtected | drivers/fsl_flash.c:1668-1855 | refused exactly for a misaligned or outside range; otherwise the answer quantifies over the regions the walk steps on, and an index leaves the tables exactly when one of these does not exist |
| FlashProtection.EvenlyDivided | drivers/fsl_flash.c:3485-3499 | if the flash divides by the region count, or regions have the least size, no range inside it does that |
| FlashProtection.EvenlyDividedIff | drivers/fsl_flash.c:3485-3499 | no range does if and only if that holds |
| FlashProtection.WholeFlashOutOfTables | drivers/fsl_flash.c:3485-3499 | otherwise the whole flash is such a range |
| FlashProtection.RemainderOutOfBounds | drivers/fsl_flash.c:3485-3499 | for example the last 8 of 33000 bytes in 32 regions |
| FlashProtection.StepsAgainstRegions | drivers/fsl_flash.c:1810-1836 | the walk steps on every region of the range, or misses just the last, exactly when the start lies further into its region than the last byte |
| FlashProtection.RightIffNotMissed | drivers/fsl_flash.c:1810-1855 | the answer agrees with quantifying over all regions that meet the range, whatever their bits, if and only if none is missed |
| FlashProtection.RegionAlignedIsRight | drivers/fsl_flash.c:1810-1855 | it agrees for every range that starts at a region |
| FlashProtection.MissedRegion | drivers/fsl_flash.c:1810-1855 | bits for which a range with a missed region is called unprotected though it is mixed |
| FlashSwap.IndicatorErasable | drivers/fsl_flash.c:2243-2248 | an address the swap checks accept gives an erase of exactly one sector that passes the erase checks |
| FlashSwap.SwapSystem.SwapControl | drivers/fsl_flash.c:2140-2182 | refused exactly for a misaligned address, one in the upper half or in the configuration area, each with its error code and without a command |
| FlashSwap.SwapSystem.Turn | drivers/fsl_flash.c:2191-2270 | a turn that goes round again raises the swap state's rank; it ends with success only in Complete (Disabled for the disable option) |
| FlashSwap.SwapSystem.Swap | drivers/fsl_flash.c:2185-2273 | terminates unless in the update state an accepted address is not the indicator's; success only in Complete, respectively Disabled; completion requested only from UpdateErased, update only from Ready with the matching address; only the indicator sector is erased; on a faultless device the answer is given for every first state, address and option |
| FlashSwap.SwapSystem.NeverEnds | drivers/fsl_flash.c:2243-2248 | in the update state with the address of another sector every turn asks for another, however many there have been |
| FlashEeprom.NextWidth | drivers/fsl_flash.c:1304-1328 | each access is the widest naturally aligned one that fits |
| FlashEeprom.FlexRam.EepromWrite | drivers/fsl_flash.c:1274-1352 | refused exactly for a range outside the FlexRAM; otherwise the memory is as after one plain write; it succeeds exactly when no byte is protected, else writes a prefix that ends at most one access before a protected byte |
| FlashEeprom.WroteMore | drivers/fsl_flash.c:1304-1340 | an access for the next bytes extends the plain write by exactly these |

## Left out

ENET

- The multi-ring (AVB) functions, which repeat the single-ring ones; IEEE 1588 timestamps and the enhanced descriptor form.
- EnetReceiveRuns.ReceiveCorrect: each driver call is atomic with respect to the DMA; a descriptor filled in the middle of a size scan is not covered.
- EnetReceive.RxHandle.ReadFrame: where the code copies beyond a buffer the model stops and says so.
- Address translation, cache maintenance and the RDAR/TDAR activation writes: no effect on descriptors.
- A non-last descriptor of length 0, which the hardware does not produce; every non-last piece fills its buffer.
- `ENET_GetRxErrBeforeReadFrame` and `ENET_GetTxErrAfterSendFrame`: counters read from one descriptor.
- MAC, SMI and MII register packing: single masked writes.

UART

- The overrun, framing, parity and idle-line branches of the interrupt handler: they discard data by design.
- UartReceive.UartHandle.ReceiveNonBlocking: `UART_TransferStopRingBuffer` and the user's buffer pointers are not modelled; bytes handed to the user are one log, `delivered`, in the order in which the driver stores them.
- UartReceive.UartHandle.HandleReceiveIRQ: a callback is the sequence of receive requests it makes; a callback that aborts or restarts the ring is not modelled.
- UartCriticalSection.CriticalSectionAdequate: stated for runs that mask RIE in a harmless state, the exact condition of CriticalSectionExact.
- UartReceiveRuns.ReceiveOrder: stated for runs whose overrun callbacks ask for at most what the ring holds, which is the exact condition for the order to hold.
- UartDirectRuns.DirectRequest: stated for runs in which nothing else is asked or aborted meanwhile; DirectConserves covers the others.
- Register read-modify-writes are atomic.
- UartBaud.UartRegisters.InitBaudRate: an SBR of 2^13 or more also spills into the upper bits of BDH; only the SBR field is modelled. The variant without fractional divider is not modelled.
- UartBaud.FractionalBaud: assumes that 2 * clock fits 32 bits and the integer divisor 16; outside it only the code's wrapped computation is stated.

MCG

- McgPll.CalcPllDiv: the device constants are parameters with the relations REF_MAX <= 2*REF_MIN, VDIV_BASE*REF_MAX <= (VDIV_BASE+32)*REF_MIN, desired frequency below 256*REF_MIN, and bounds that fit the 8-bit and 32-bit variables.
- McgPll.Pll.EnablePll0: the PLL is assumed to lock; the size of the PRDIV field, a power of two above PRDIV_MAX, is a parameter.
- McgModes.Mcg.SetFbeMode: claims nothing about DRS and DMX32, since the code computes a new C4 (line 1444) and never writes it.
- Each status field eventually follows its control field, which is what the wait loops wait for; FLL and oscillator delays are not modelled.
- The PLL's crystal dividers are plain settings inside the mode switch; the search and the round trip cover their values.
- Clock monitors, trimming, and frequency getters other than `CLOCK_GetPll0Freq`.

Flash

- FlexNVM, secondary flash and execute-only segments, whose address conversion adds a constant bit.
- The FCCOB byte packing, RAM-resident command code and cache clearing; a command takes effect or fails without effect.
- start + length is assumed not to wrap in 32 bits; command alignments are powers of two, so their masks are remainders.
- FlashErase.PhrasesExact: that a block holds fewer than 2^16 phrases is assumed of the device, as are flash sizes up to 8 MB.
- FlashDevice.Device.CommandSequence: a command outside the flash is taken to be refused.
- FlashProgram.ProgramSectionCall: FlexRAM contents beyond the copied bytes.
- FlashProtection.IsProtected: where the code reads beyond its tables the model stops and says so.
- FlashSwap.SwapSystem.Swap: assumes program flash at address 0, as the code's own comparison does; the reported state after a change may be that before or after it. Block status fields are not modelled.
- FlashSwap.SwapSystem.SwapCommand: the device's reaction to each control, taken from the states the driver expects.
- `FLASH_VerifyProgram`, `FLASH_ReadResource`, partitioning and security calls: range checks and one command each.

ADC, DAC, GPIO, PORT, SIM, SMC and PIT drivers, board setup and `source/`: single register writes and configuration calls.
