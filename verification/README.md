# Previous: a verified model of its device cores

Previous emulates a NeXT workstation. This project models the parts of it that carry the most
state, and proves what they are for:

- the Reed-Solomon product code that protects magneto-optical sectors (`src/rs.c`);
- the cycle-event scheduler and the loop that drains it (`src/cycInt.c`, `src/m68000.c`);
- the DMA burst buffer of the SCSI channel with its floppy client, and memory-to-memory DMA
  (`src/dma.c`, `src/floppy.c`);
- the command register, resets and FIFO of the SCSI controller (`src/esp.c`);
- the sector matching of the magneto-optical formatter (`src/mo.c`);
- the clean-up of path names (`src/file.c`).

Code that changes state in place is modelled by classes and methods over arrays and fields, each
proved against a specification; the specification's own properties are lemmas. Guest memory, disk
images and device streams are arrays or sequences. Bytes are the integers 0 to 255.

`dafny verify dfyconfig.toml` checks everything.

## The files

| file | content |
|---|---|
| `Bytes`, `GF256`, `Tables`, `Poly` | bytes, the field with polynomial 0x11d, the literal `t_exp` and `t_log`, polynomials |
| `Codeword`, `KeyEquation`, `BerlekampRuns`, `ErrorAlgebra`, `Decoder` | the table-driven remainder, Berlekamp-Massey, where its runs end, the decoder of one string as a function |
| `Corrections`, `TwoErrors`, `Outcomes`, `Shortfalls`, `Product` | what is corrected: one error, two errors exactly, what each return value means for any string, what is not corrected, the product code |
| `Sector` | `rs.c` itself, in place on the 1296-byte buffer |
| `Scheduler`, `SchedulerRuns`, `CycInt` | the scheduler's steps as functions, whole runs against absolute deadlines, the class with its drain loop |
| `Dma`, `Floppy`, `MemToMem` | the SCSI channel, the floppy controller, memory-to-memory DMA |
| `Esp`, `MagnetoOptical`, `PathName` | the SCSI controller, the magneto-optical formatter, path names |

## Where the code falls short of what one would expect

Each of these is proved, with the exact condition where there is one.

- A pair of wrong symbols with equal error values is not found (except for one value for each pair
  of positions), and a pair is not undone when a sum of logarithms that is kept in a byte exceeds
  255, although 2 is returned (`TwoErrors`, `Shortfalls`).
- Return value 1 can leave a string that is no codeword; it is one exactly when the first three
  syndromes are in geometric progression and the first is not zero (`Outcomes.OneIsRight`,
  `Shortfalls.FourTakenForOne`).
- Cycles that pass while no CPU event is active are counted against the event armed by cycles next
  (`SchedulerRuns.IdleCyclesCountTwice`, `Scheduler.ArmedOnTime`).
- `CycInt_Reset` keeps the pending function; the scheduler is coherent afterwards only if there was
  none (`Scheduler.ResetCoherent`). Otherwise its handler is called at once, with nothing armed
  (`SchedulerRuns.ResetCallsUnarmed`).
- Flushing a residue of one to three bytes takes the count of held bytes below zero
  (`Dma.EspDma.FlushBuffer`), and so does a turbo flush of any residue that is not whole longs into
  a channel with room for more (`Dma.EspDma.TurboFlush`).
- A DMA transfer command given outside the data phases never ends: its handler arms itself again
  and again, and every further command waits, until a reset (`Esp.Chip.Transfer`, `Esp.Chip.Drive`).
- A chip reset issued with nothing waiting stays in the command register: every write but a NOP
  only repeats the reset (`Esp.Chip.CommandWrite`, `Esp.Chip.Drive`).
- A magneto-optical write whose first sector is under the head at once never takes place
  (`MagnetoOptical.Formatter.OperateWrite`, `MagnetoOptical.Formatter.WriteTooSoon`); the code's
  comment asks for this sector to mismatch.
- A relative name whose copy outgrows the buffer on the way ends with a NUL stored behind it
  (`PathName.MakeAbsoluteName`, `PathName.FitsTogether`).

## Model

| member | source | states |
|---|---|---|
| GF256.ExpAdd | src/rs.c:18-20 | powers of the generator 2 multiply by adding exponents |
| GF256.MulComm | src/rs.c:18-20 | multiplication in the field with polynomial 0x11d is commutative |
| GF256.MulAssoc | src/rs.c:18-20 | and associative |
| GF256.MulXorLeft | src/rs.c:18-20 | and distributes over addition |
| Tables.TExpIsExp | src/rs.c:58-107 | every entry of t_exp, all 768, is that power of 2 |
| Tables.TLogIsLog | src/rs.c:109-126 | t_log of a nonzero byte is below 255 and the exponent of 2 that gives it |
| Tables.TLogOfExp | src/rs.c:58-126 | t_log undoes powers below 255, none of which is zero |
| Tables.MulByLogs | src/rs.c:204-206 | adding logarithms and looking the sum up multiplies nonzero bytes |
| Tables.DivByLogs | src/rs.c:241-257 | adding the complement of a logarithm divides by a nonzero byte |
| Tables.MulNonzero | src/rs.c:18-20 | the product of nonzero bytes is nonzero |
| Poly.ManyRootsZero | src/rs.c:18-20 | a polynomial with as many distinct roots as coefficients is zero |
| Poly.Division | src/rs.c:18-23 | p(v) = (v-u) q(v) + p(u) for the quotient q of p by a linear factor |
| Codeword.GeneratorRoots | src/rs.c:18-23 | x^4+15x^3+54x^2+120x+64, behind t_rem, vanishes at 1, 2, 4 and 8 |
| Codeword.RemStepValue | src/rs.c:134-140 | one turn of the remainder loop multiplies by x and adds a symbol, at each of the four roots |
| Codeword.RemainderValue | src/rs.c:128-142 | the remainder and the string have the same values at the four roots |
| Codeword.FastCheckIsSlowCheck | src/rs.c:153-163 | the stored parity equals the table-driven remainder exactly when the string is zero at all four roots |
| Codeword.EncodeIsTheCodeword | src/rs.c:144-151 | encoding gives the one codeword with the same 32 data symbols |
| KeyEquation.KeyEquationStep | src/rs.c:201-261 | one step, by either method, keeps both key equations at the next order, and sigma[0] = omega[0] = 1 |
| KeyEquation.KeyEquationAlways | src/rs.c:181-261 | after every step l, for any syndromes, (1+S)sigma = omega and (1+S)tau = gamma + x^l modulo x^(l+1) |
| BerlekampRuns.LinearRun | src/rs.c:200-261 | when the third and fourth discrepancies of the linear solution vanish, the run ends with that solution |
| BerlekampRuns.QuadraticRun | src/rs.c:200-261 | otherwise, with a nonzero first syndrome, it ends with locator and evaluator of degree at most two |
| BerlekampRuns.ZeroSumRun | src/rs.c:200-261 | how the run goes when the first syndrome is zero, where step 3 may take method b with d at 2 |
| ErrorAlgebra.UniqueLocator | src/rs.c:264-290 | syndromes of two errors determine the two coefficients of the locator |
| Decoder.FirstRootIsFirst | src/rs.c:275-284 | the root search stops at the first root, or at 256 |
| Corrections.OneError | src/rs.c:153-333 | for every codeword, every one of the 36 positions and every nonzero error value, the decoder returns 1 and the codeword |
| TwoErrors.ErrorValueExact | src/rs.c:296-312 | the computed error value is the true one exactly when the stored sum does not wrap |
| TwoErrors.DifferentValuesLocate | src/rs.c:181-294 | two errors with different values end in sigma = (1+X1 x)(1+X2 x), and both positions are found |
| TwoErrors.TwoErrorsExact | src/rs.c:153-316 | two wrong symbols: 2 is returned exactly when the values differ or coincide in one way, -1 and no change otherwise; each symbol is restored exactly when its sum does not wrap |
| TwoErrors.TwoErrorsUndone | src/rs.c:153-316 | two wrong symbols are undone if and only if they are found and neither sum wraps |
| Outcomes.DecodeOutcome | src/rs.c:153-333 | for any 36 bytes: 0 exactly for codewords, 1 exactly when the final locator is linear with its root at one of the 36 positions, 2 exactly when it is the locator of two positions, -1 otherwise; 0 and -1 leave the string as it was |
| Outcomes.DecodeChanges | src/rs.c:286-333 | 1 adds the first syndrome to the one symbol located, 2 adds the two error values to the two symbols located, and nothing else changes |
| Outcomes.OneIsRight | src/rs.c:318-329 | for any 36 bytes, 1 leaves a codeword if and only if the first syndrome is not zero and its product with the third is the square of the second |
| Shortfalls.CoincidenceIsOneValue | src/rs.c:209-211 | at any two positions exactly one equal error value is found all the same |
| Shortfalls.EqualErrorsNotFound | src/rs.c:209-211 | on every codeword, errors of value 1 in the last two positions give -1 |
| Shortfalls.WrappedSumNotRestored | src/rs.c:296-303 | on every codeword, error 0x51 next to another error returns 2 without restoring the codeword |
| Shortfalls.FourTakenForOne | src/rs.c:318-329 | on every codeword, four given errors in the last four symbols return 1 and leave a string that is no codeword |
| Product.CheckColumns | src/rs.c:343-346 | when the rows and the 32 data columns are codewords, so are the four check columns |
| Product.OneOffDecodes | src/rs.c:153-333 | a string with at most one wrong symbol is restored, with a non-negative count |
| Product.ProductDecodes | src/rs.c:349-374 | an encoded sector whose rows are repairable but for one arbitrary row decodes to its data with a non-negative count |
| Product.BurstDecodes | src/rs.c:349-374 | the same for at most one wrong byte in every row but one, and anything at all in that one |
| Product.EncodedDecodes | src/rs.c:335-374 | an undamaged encoded sector decodes with count 0 to its data |
| Product.EncodedIsUnique | src/rs.c:335-347 | the encoded sector is determined by its data |
| Product.SectorExact | src/rs.c:349-374 | for any sector, and the buffer as the 36 row decodings leave it: -1 if and only if one of the 32 data columns then has a decoding of -1, with the columns up to and with the first such decoded in place; otherwise the count is the sum over the 36 rows, a -1 counting 0, and the 32 columns, and each data byte is that of its decoded column |
| Sector.EccBlock | src/rs.c:128-142 | the remainder loop computes the specified remainder |
| Sector.RsEncodeString | src/rs.c:144-151 | writes exactly the string's four parity cells, with the encoded string |
| Sector.Syndrome | src/rs.c:168-179 | the syndrome loop evaluates the string at the four roots through the tables |
| Sector.Delta | src/rs.c:202-206 | the discrepancy loop computes the coefficient of the product |
| Sector.UpdateA | src/rs.c:212-232 | method a, in place on the four arrays |
| Sector.UpdateB | src/rs.c:241-259 | method b, in place and backwards |
| Sector.BerlekampMassey | src/rs.c:181-261 | the four arrays end as the specified run |
| Sector.RootSearch | src/rs.c:275-284 | the search loop finds the first root |
| Sector.ErrorAt | src/rs.c:296-303 | the error value with its byte-sized intermediate sum |
| Sector.RsDecodeString | src/rs.c:153-333 | returns and leaves what the decoder function says, and changes no cell outside the string |
| Sector.RsEncode | src/rs.c:335-347 | leaves a sector whose 36 rows and 36 columns are codewords, with the old first 1024 bytes as data, 32 at the beginning of each row of 36, despite the overlapping moves |
| Sector.RsDecode | src/rs.c:349-374 | fails if and only if some data column of the buffer after the row pass cannot be decoded, and otherwise returns the number of corrected symbols and leaves the bytes of the decoded columns; the whole buffer is that of the sector decoder |
| Sector.EncodeThenDecode | src/rs.c:335-374 | encoding a sector in place and decoding it returns 0, with the first 1024 bytes as they were |
| Scheduler.BestIsLeast | src/cycInt.c:110-126 | the selected event is the armed CPU event with the least time, the lowest number on ties |
| Scheduler.SetNewCoherent | src/cycInt.c:110-126 | after selecting, with no cycles left over, the pending time is the least remaining time of all CPU events |
| Scheduler.UpdateKeepsDeadlines | src/cycInt.c:132-141 | folding in the elapsed cycles moves no deadline and touches no microsecond event |
| Scheduler.TickCoherent | src/includes/m68000.h:150-163 | a tick keeps the pending copy in agreement with the table, and its countdown right, whatever is active |
| Scheduler.AcknowledgeCoherent | src/cycInt.c:218-228 | acknowledging makes the pending time the least remaining one, whatever it was before |
| Scheduler.RemoveCoherent | src/cycInt.c:316-326 | so does removing any event |
| Scheduler.ArmCyclesCoherent | src/cycInt.c:234-271 | arming any event by cycles keeps the pending copy in agreement with the table, and its countdown right if and only if an event was active or no cycles were left over |
| Scheduler.ArmUsCoherent | src/cycInt.c:278-296 | the same for arming by microseconds outside real-time mode; in real-time mode the countdown is always right |
| Scheduler.ResetCoherent | src/cycInt.c:86-102 | a reset leaves a coherent scheduler if and only if no function was pending, at time 0 with no cycles left over |
| Scheduler.ArmedOnTime | src/cycInt.c:261-270 | an event is due as many cycles from now as asked if and only if an event was active or no cycles were left over |
| Scheduler.ArmedUsOnTime | src/cycInt.c:278-296 | outside real-time mode an event armed on time for so many microseconds is that many times the cycles of one microsecond away: the quotient is the number of microseconds and the remainder 0 |
| Scheduler.LongerByCycles | src/cycInt.c:278-296 | and b microseconds more put it off by b times the cycles of one |
| Scheduler.ArmedRealTime | src/cycInt.c:278-296 | in real-time mode it is due so many microseconds after the host's time now, by the real-time value if that is positive and by the other if not |
| Scheduler.ArmedUsCyclesOnTime | src/cycInt.c:302-311 | the form that always counts cycles takes the real-time value in real-time mode if it is positive, and the other in every other case |
| Scheduler.TickKeepsDeadline | src/includes/m68000.h:150-163 | main counter plus time minus elapsed cycles of every event stays the same over a tick |
| Scheduler.ArmCyclesKeepsDeadline | src/cycInt.c:234-271 | arming one event leaves the deadline of every other CPU event |
| Scheduler.AcknowledgeKeepsDeadline | src/cycInt.c:218-228 | acknowledging one event leaves the deadline of every other CPU event |
| SchedulerRuns.StepCoherent | src/cycInt.c:86-326 | over all operations: the countdown stays right if and only if the operation is not an arming by cycles with cycles left over and no event active |
| SchedulerRuns.StepRefines | src/cycInt.c:86-326 | a step does to the table of absolute deadlines what a simple scheduler does, if and only if it is on time in this sense |
| SchedulerRuns.RunRefines | src/cycInt.c:86-326 | so does every run in which each arming by cycles is on time, whatever the interleaving of ticks, armings, removals and deliveries |
| SchedulerRuns.RunCoherent | src/cycInt.c:86-326 | the countdown is right throughout a run if and only if each arming by cycles is on time |
| SchedulerRuns.DeadlineStays | src/cycInt.c:86-326 | main counter plus time minus elapsed cycles of an armed CPU event is constant over any run, on time or not, until the event is delivered, removed or armed again |
| SchedulerRuns.FireIsRight | src/cycInt.c:110-126 | what is delivered is the earliest CPU event of the agenda, past its deadline, the lowest number on ties, or else a microsecond event of the agenda past its time |
| SchedulerRuns.UsNotEarly | src/cycInt.c:147-160 | over any run, a microsecond event is pending only after a tick of the run at a host time past its own |
| SchedulerRuns.RunFiresRight | src/cycInt.c:86-326 | over any run from a clean start in which each arming by cycles is on time: whenever a handler is due to be called, its CPU event is the earliest and not early, or its microsecond event was seen past its time by a tick of the run |
| SchedulerRuns.DueIsRipe | src/cycInt.c:110-126 | an event past its deadline makes the pending slot ripe |
| SchedulerRuns.TickFindsUs | src/cycInt.c:147-160 | in real-time mode the next check makes the first microsecond event that is due pending, also when its slot was overwritten before |
| SchedulerRuns.UsFoundInTime | src/cycInt.c:147-160 | a microsecond event that stays armed past its time is presented, or a lower one that is due as well, by the next tick once more cycles have passed than the check counter showed, whatever came in between |
| SchedulerRuns.TickCounts | src/includes/m68000.h:150-163 | the check counter counts down by the cycles, starts again at a hundred microseconds' worth when a check finds nothing, and stays when one does; outside real-time mode no check presents anything |
| SchedulerRuns.UsCheckBounded | src/includes/m68000.h:150-163 | over any run it never exceeds a hundred microseconds' worth of cycles |
| SchedulerRuns.UsFoundWithin | src/includes/m68000.h:150-163 | after any run, a microsecond event that stays armed past its time is presented, or a lower one that is due as well, by the next tick once a hundred microseconds' worth of cycles have passed |
| SchedulerRuns.DeliveredInOrder | src/cycInt.c:86-326 | over any run in which each arming by cycles is on time the CPU events are delivered in the order of their deadlines |
| SchedulerRuns.AtMostOnce | src/cycInt.c:86-326 | over any run at all an event is delivered no more often than it was armed |
| SchedulerRuns.IdleCyclesCountTwice | src/cycInt.c:261-270 | a run on which an event comes too early, after cycles passed while no CPU event was active |
| SchedulerRuns.ResetCallsUnarmed | src/cycInt.c:86-102 | after a reset with a function pending its handler is due at once, although nothing is armed |
| CycleInterrupts.CycInt.AddRelativeInterruptCycles | src/cycInt.c:234-271 | the method computes the specified step |
| CycleInterrupts.CycInt.AddRelativeInterruptUs | src/cycInt.c:278-296 | the method computes the specified step, whose delay is given by `Scheduler.ArmedUsOnTime` and `Scheduler.ArmedRealTime` |
| CycleInterrupts.CycInt.AddCycles | src/includes/m68000.h:150-163 | the method computes the specified tick |
| CycleInterrupts.CycInt.SetNewInterruptUs | src/cycInt.c:147-160 | the method computes the specified check and says whether an event was due |
| CycleInterrupts.DeviceOpQuiet | src/m68000.c:544-557 | device handlers that acknowledge themselves and do not arm the event-loop event cannot bring it back |
| CycleInterrupts.DeviceOpServed | src/m68000.c:556 | what a handler arms after acknowledging is on time and keeps the scheduler coherent, as no cycles pass inside it |
| CycleInterrupts.EventLoopServed | src/m68000.c:546-550 | serving the event-loop event leaves it not pending again |
| CycleInterrupts.CycInt.CallHandler | src/m68000.c:556 | a handler call is one delivery and then the handler's own operations, and leaves a coherent scheduler, whatever it found |
| CycleInterrupts.RunConcat | src/m68000.c:544-557 | runs of the scheduler compose |
| CycleInterrupts.DrainPending | src/m68000.c:544-557 | for arbitrary handlers of that kind, and from any state, the loop ends, with at most 32 handler calls and at most one service of the event loop; what it does is a run of the scheduler in which a handler is called only when its pending time is used up, and the first call leaves the scheduler coherent |
| Dma.EspDma.Interrupt | src/dma.c:377-397 | at the limit: complete, and the next buffer when chained, otherwise disabled; nothing elsewhere; the interrupt is raised exactly at the limit, and stays raised |
| Dma.EspDma.Control | src/dma.c:179-243 | the command bits, and an emptied buffer when asked for |
| Dma.EspDma.InitWrite | src/dma.c:347-373 | the pointer is set and the buffer is empty, starting at the offset of the pointer in a burst |
| Dma.EspDma.WriteMemory | src/dma.c:403-472 | the bytes taken from the device are the bytes given to memory and then those still in the buffer, memory changes only between the old and the new pointer, the loop ends at the device's or the channel's end, the interrupt is raised exactly when the pointer reaches the limit of an enabled channel, and the JIT's copy stays equal to memory |
| Dma.EspDma.FlushBuffer | src/dma.c:474-504 | one long goes out; the buffer's count stays right if and only if it held none or at least four bytes; the interrupt is raised exactly when the pointer is or comes to be at the limit |
| Dma.EspDma.TurboFlush | src/dma.c:1172-1207 | the residue goes out, or as many longs of it as the channel takes; the buffer's count stays right if and only if the residue was whole longs or the channel has no room for more than it; the interrupt is raised exactly when the limit is at most a burst ahead; the JIT's copy stays equal to memory in any case |
| Dma.EspDma.Perform | src/dma.c:403-504 | one write, flush or turbo flush on a channel and a device set up anew: the buffer's count stays right if and only if it is a write, or a flush that finds none or at least four bytes or a full channel, or a turbo flush that finds whole longs or room for no more than it holds; all held bytes go out even when it does not |
| Dma.EspDma.ReadMemory | src/dma.c:506-578 | the bytes read ahead from memory are the bytes given to the device and then those in the buffer; the interrupt is raised exactly when the pointer reaches the limit of an enabled channel |
| Dma.EspDma.Session | src/dma.c:403-504 | over any sequence of such calls, with residues left between them, up to and with the first that breaks the count: nothing is lost, doubled or reordered between the devices and memory, memory is what the stores made leave, each write takes all that is offered unless its channel is full, and each call keeps the count right exactly under the condition of a single call |
| Dma.EspDma.SessionOut | src/dma.c:506-578 | over any sequence of calls from memory, each to a device with a request of its own: the devices receive what was read in its order, whatever was left in the buffer between the calls, and each gets all it asks for unless its channel ends first |
| Floppy.LogicalInjective | src/floppy.c:356-371 | different cylinder, head and sector give different image sectors |
| Floppy.LogicalInRange | src/floppy.c:356-371 | all of them are on the disk |
| Floppy.LogicalOnto | src/floppy.c:356-371 | every image sector is one of them |
| Floppy.LogicalOrder | src/floppy.c:356-371 | one comes before another on the image if and only if its cylinder is lower, or its head on the same cylinder, or its sector on the same track |
| Floppy.TracksFollow | src/floppy.c:356-371 | the image begins with cylinder 0, head 0, sector 1; after the last sector of head 0 comes the first of head 1, and then that of the next cylinder's head 0 |
| Floppy.KnownGeometry | src/floppy.c:349-359 | the three known sizes are exactly 160 tracks |
| Floppy.WholeSector | src/dma.c:423-461 | a whole sector offered to an empty buffer and a channel with room goes through and leaves the buffer empty |
| Floppy.FetchedSector | src/dma.c:525-562 | a device asking for a sector gets the next one, and the buffer is left empty or with one burst read ahead |
| Floppy.Controller.Command | src/floppy.c:485-594 | a command is accepted exactly when track, block size, data rate, protection and first sector are right |
| Floppy.Controller.ReadSector | src/floppy.c:962-989 | the sector's bytes are taken from the image, and a sector beyond the track ends the transfer |
| Floppy.Controller.WriteSector | src/floppy.c:991-1019 | the sector's bytes go to the image and nowhere else |
| Floppy.Controller.Handler | src/floppy.c:1059-1132 | one call per sector read, two per sector written, one interrupt when it does not re-arm itself, and an overrun when the channel is off |
| Floppy.Controller.ReadTrack | src/floppy.c:485-537 | a READ of sectors s to e moves exactly that slice of the image to memory, with one interrupt |
| Floppy.Controller.WriteTrack | src/floppy.c:539-594 | a WRITE of sectors s to e moves exactly that stretch of memory to the image, with one interrupt |
| Floppy.Controller.ReadTracks | src/floppy.c:485-537 | READs of any number of whole tracks, head after head and cylinder after cylinder, bring one contiguous stretch of the image to one stretch of memory |
| Floppy.Controller.WriteTracks | src/floppy.c:539-594 | WRITEs of them bring one stretch of memory to one contiguous stretch of the image |
| Floppy.Controller.WriteThenRead | src/floppy.c:485-594 | writing memory to the disk and reading it back elsewhere copies it, and changes nothing else |
| MemToMem.Mover.WriteMemory | src/dma.c:926-967 | one step of the handler, as a step of the copy |
| MemToMem.Mover.Run | src/dma.c:901-967 | the whole transfer: destination byte i is source byte i while the source lasts and then the last burst repeated, both channels end complete and disabled as their limits are reached, in one handler call per burst and one more |
| Esp.OrderStarted | src/esp.c:392-416 | starting a command at once keeps the order of commands |
| Esp.OrderQueued | src/esp.c:396-410 | so does queueing one, also over another |
| Esp.WithinShorter | src/esp.c:418-424 | a dropped command leaves the rest in order |
| Esp.Roles | src/esp.c:440-453 | which commands fit which role of the chip: resets, flush and NOP all of them, selections a disconnected chip, transfers, status, messages and padding an initiator |
| Esp.Chip.FifoRead | src/esp.c:353-369 | takes the oldest byte, or 0 from an empty FIFO |
| Esp.Chip.FifoWrite | src/esp.c:371-381 | adds a byte, or replaces the newest one and flags it when full |
| Esp.Chip.FifoClear | src/esp.c:383-389 | the FIFO is empty |
| Esp.Chip.CommandWrite | src/esp.c:392-557 | what each write starts, queues or turns away; a chip reset sticks if and only if nothing was waiting; a DMA transfer leaves only the transfer handler armed; and for an idle chip what each command does by its number: 0x42 takes the identify message and up to 12 bytes after it from the front of the FIFO, 0x41 the bytes alone, both leave an initiator with the causes of a selection or, when nobody answers, a disconnected chip with that cause; a command that does not fit the role is illegal |
| Esp.Chip.FinishCommand | src/esp.c:426-434 | ends a command and starts the waiting one, which does what its number says, and which ends the recursion |
| Esp.Chip.StartCommand | src/esp.c:436-557 | starts one command, twice only for a chip reset over a waiting command, and does what its number says if it fits the role; it terminates because each re-entry uses up the waiting flag |
| Esp.Chip.ResetHard | src/esp.c:628-642 | what a chip reset leaves |
| Esp.Chip.BusReset | src/esp.c:664-676 | what a bus reset leaves, with and without its interrupt |
| Esp.Chip.ReadIntStatus | src/esp.c:613-623 | reading the interrupt status ends the command and starts the waiting one, which does what its number says |
| Esp.Chip.IoHandler | src/esp.c:800-834 | in a data phase a turn arms the interrupt exactly when the count is used up or the phase changes; in any other phase it changes nothing and arms itself again |
| Esp.Chip.Transfer | src/esp.c:774-834 | over any number of turns a transfer's interrupt is armed if and only if it began in a data phase and some turn uses up the count or changes the phase; otherwise it goes on |
| Esp.Chip.Select | src/esp.c:687-742 | the disk gets its message and command block from the front of the FIFO, and the chip is an initiator in the phase of the disk's reply; when nobody answers it is disconnected, with the FIFO as it was |
| Esp.Chip.TransferPad | src/esp.c:838-862 | padding moves as many bytes as the count and the data phase allow, and reports which ended it |
| Esp.Chip.CommandComplete | src/esp.c:866-888 | the status byte goes to the FIFO, and the message byte after it if the disk goes on to that phase, with the causes that tell the two apart |
| Esp.Chip.Drive | src/esp.c:392-660 | over any run of register accesses, interrupts and transfer turns: a command waits only behind one in progress, commands start in the order written and no more often, all commands written are taken unless a chip reset is among them, a command in progress has an interrupt raised or armed or a transfer turn to come, a stuck reset is the only thing started until a NOP, and a transfer outside the data phases is in progress until a reset |
| MagnetoOptical.Formatter.MatchId | src/mo.c:646-678 | when two addresses match, and what the sector timer does when they do not |
| MagnetoOptical.Formatter.SectorDone | src/mo.c:628-642 | the next address, the count, and one interrupt at zero |
| MagnetoOptical.Formatter.SetCount | src/mo.c:319-325 | a count of 0 stands for 256 |
| MagnetoOptical.Formatter.Spiral | src/mo.c:1593-1614 | each of the two drives moves on by one sector if it is spiraling and not seeking, the selected one is acted on, and the other's disk stays as it is |
| MagnetoOptical.Formatter.Act | src/mo.c:1046-1096 | one sector is read, verified, erased or written, and no other is touched |
| MagnetoOptical.Formatter.Io | src/mo.c:681-744 | a mode with any head but its own stops the emulator: the read head for a read, the write head for a write, the erase head for an erase, the verify head for a verify; a sector not wanted goes by, and the one wanted is acted on |
| MagnetoOptical.Formatter.Operate | src/mo.c:628-744 | a read, verify or erase of n sectors does exactly n consecutive sectors, without gap or repeat, and raises one completion |
| MagnetoOptical.Formatter.OperateWrite | src/mo.c:628-744 | a write of n sectors does exactly n consecutive sectors with one completion if and only if the timer allows for the search and a sector goes by before the first one; otherwise nothing is written, and with the timer on one timeout ends it |
| MagnetoOptical.Formatter.SearchInVain | src/mo.c:661-677 | with the timer on, a sector beyond its reach or behind the head ends in one timeout with nothing done |
| MagnetoOptical.Formatter.SearchForever | src/mo.c:661-677 | with the timer off, a sector behind the head is never found |
| MagnetoOptical.Formatter.WriteAll | src/mo.c:703-718 | a write puts the encoded sectors on consecutive sectors, with one completion |
| MagnetoOptical.Formatter.WriteTooSoon | src/mo.c:707-718 | a write that finds its first sector at once lets it go by, and is then behind the head |
| PathName.CleanIsPlain | src/file.c:675-768 | a clean name is absolute and has no "." and no ".." component |
| PathName.CleanTwice | src/file.c:675-768 | cleaning a clean name changes nothing |
| PathName.CleanFixed | src/file.c:675-768 | a name is left as it is if and only if none of its components is "." or ".." |
| PathName.DotDotTakes | src/file.c:719-738 | ".." takes away the component before it: p/c/../s is cleaned to what p/s is, for every component c but the dot ones |
| PathName.DotDotEnds | src/file.c:719-738 | also at the end of a name |
| PathName.DotDotAtRoot | src/file.c:719-738 | at the root it takes nothing |
| PathName.DotIsNothing | src/file.c:709-718 | "." is left out: p/./s is cleaned to what p/s is, and p/. to what p is |
| PathName.JoinSplit | src/file.c:675-768 | joining the components of a name gives the name back |
| PathName.SplitJoin | src/file.c:675-768 | splitting a joined name gives its components back |
| PathName.RelativeToClean | src/file.c:695-705 | a relative name means what it means after the clean working directory |
| PathName.AddSlash | src/file.c:55-70 | a separator is added in place unless there is one |
| PathName.SlashOnce | src/file.c:55-70 | the name with its separator is the name or one character longer, ends with one unless it is empty, and gets no second one |
| PathName.IsRoot | src/file.c:96-119 | a name is absolute when it begins with a separator |
| PathName.PopLast | src/file.c:722-738 | taking the last component out of the buffer, or nothing at the root |
| PathName.CopyPart | src/file.c:752-761 | copying up to and with the next separator, or until the buffer is full |
| PathName.Component | src/file.c:709-763 | each turn of the loop does to the buffer what one component does to a stack, or fills the buffer exactly when the component does not fit |
| PathName.FitsTogether | src/file.c:675-768 | every absolute name fits, and every relative one that fits together with the directory |
| PathName.MakeAbsoluteName | src/file.c:675-768 | the name becomes the fold of its components over a stack, "." dropped, ".." popping and staying at the root, if and only if each component in its turn fits the buffer |

## Left out

- Codeword.TRem: the entries of `t_rem` are given by their formula, the multiples of the generator's lower coefficients; its 256 literals are not repeated, while those of `t_exp` and `t_log` are.
- Product.ProductDecodes: that the data come back is not claimed for damage beyond one arbitrary row, and a non-negative count is not claimed to mean that the sector is right; what is returned and left for any sector at all is in `Product.SectorExact`.
- Scheduler.Tick: times and cycle counts are unbounded integers; their 64-bit wrap-around is not modelled, and host time is an arbitrary input.
- CycleInterrupts.DrainPending: the stop flag changes only at the end of a handler call; the tracing, probes and the interrupt-line recomputation around the loop are left out.
- Dma.EspDma.WriteMemory: bus errors and misaligned channels, which abort, are excluded; the SCSI disk is a stream of bytes that is on offer while its data phase lasts; the status toggle of the buffer is left out.
- Dma.EspDma.Session: ends before a turbo flush whose longs would reach beyond the 16 bytes of the buffer, and after a call that has broken the count; the buffer is not emptied by the driver in between, and all calls are in one direction.
- Dma.EspDma.TurboFlush: a residue whose longs would reach beyond the 16 bytes of the buffer is excluded, as there the code reads what lies behind the array.
- Floppy.Controller.ReadTrack: the channel is burst-aligned, unchained and large enough; the second drive, the status bytes, seek times, FORMAT and the other commands are left out, and a read or write outside the image leaves both sides as they were.
- Floppy.Controller.Command: an end sector below the start sector is accepted as the code accepts it; what the transfer then does is left to the handler's contract.
- MemToMem.Mover.Run: the ranges are disjoint, burst-sized, unchained and not empty; this path does not notify the JIT, and no copy of memory is kept for it.
- Esp.Chip.Device: the disk is a few fields (does it answer, the phase and the amount of data of its reply, what is left of its data phase, where its status leads); paths that call abort() set a flag after which nothing more happens; delays, and register fields that only hold values, are left out.
- Esp.Chip.IoHandler: how many bytes the channel moves and the phase it leaves are inputs.
- MagnetoOptical.Formatter.Act: the ECC unit's own states and its DMA are left out; what it has encoded is an input and what it is to decode a list of sectors.
- MagnetoOptical.Formatter.Operate: no drive command comes in between, the sector increment is 1 and full addresses are compared; tracks stay in the range the image has.
- PathName.MakeAbsoluteName: where the code would store behind its own buffer the method ends and leaves the name as it was. Drive prefixes of other systems, and a failing getcwd or malloc, are left out.
- The Ethernet, sound, printer, DSP and video channels, the other registers, and everything that only shows, configures or logs.
