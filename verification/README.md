# DhruvaOS boot, allocator, analysis and upload: a verified model

This project models six parts of DhruvaOS, and proves what they are for:

- **The A/B boot loader** (`boot/stage0`): the 512-byte slot-state record and its CRC-32, the choice between
  its two copies, attempt counting and automatic fallback, the write-back that a power cut may spoil, and
  the load, hash and jump. A card is a map from block numbers to blocks; a boot is one step. The loader is
  a class that works on its buffers in place and is proved against functions of the card, and whole-run
  properties are proved of those functions.
- **The streaming SHA-256** (`boot/stage0/sha256.c`) against FIPS 180-4, and the **FIFO loops** of
  `boot/stage0/sdread.c` against a card that moves at its own pace.
- **The host tool** `test/kernel_slot_layout.py`, and how the cards it seeds boot.
- **The response-time analysis** `test/schedulability_analysis.py`: the fixed point, and its meaning for
  every run of a unit-step preemptive fixed-priority scheduler.
- **The bump allocator** of `boot/rpi1/runtime_stubs.c`: as a sequential class, and as interleaved memory
  accesses of any number of tasks, with the two interrupts that can switch them (the timer tick, an FIQ, and
  the serial line, an IRQ) and the masking of each.
- **The upload drivers** `test/kernel_upload.py` and `test/kernel_upload_resumable.py`, against a board and
  a serial line that may do anything.

Layout of the files: `Options`; `ResponseTime`, `Scheduler`, `CriticalInstant`, `SynchronousRelease`
(analysis); `Crc32`, `Crc32Known`, `CrcPolynomial`, `LittleEndian`, `SlotRecord`, `Sha256Spec`,
`Sha256Constants`, `Sha256Known`, `Sha256`, `BootPolicy`, `PingPong`, `Stage0`, `SlotTool` (boot); `SdFifo`; `Heap`,
`Preemption`, `Uninterrupted`, `TickRace` (allocator); `PacedSend`, `ChunkedUpload` (upload).
`dafny verify dfyconfig.toml` checks all of them.

Conventions. Bytes are `bv8`; CRC and SHA words are `bv32`; 32-bit counters are integers whose wrap-around
is written out. What a program meets (unreadable blocks, the fate of a write, replies, short writes, the
pace of a card, the scheduler) is a parameter or a nondeterministic choice. Dafny's `hide` statement keeps
definitions folded where a proof does not need them.

Where code and comment disagree, the code is modelled. The comment at `boot/stage0/stage0_main.c:396-399`
says a clean reboot is reported once; lines 402-403 write the reason back, and `CleanRebootStays` says what
happens instead. The comment at `boot/rpi1/runtime_stubs.c:283-286` says masking the IRQ around the
bookkeeping is enough; the tick is an FIQ (`kernel/kernel_main.vani:6159-6177`, `boot/fiq_entry.S:375-393`),
and `TickRace` says when it is enough. The comment at lines 240-242 places the heap in a section it has left
(`boot/rpi1/link.ld:30-91`); the model puts it anywhere.

Where a promise does not hold for all inputs there is a lemma with the exact condition: the largest generation,
the largest boot limit, an unreadable newer copy, a deadline beyond the period, two tasks of one priority, a
seed cut short, a negative chunk count, a tick inside the allocator, a stack size near 2^32, an arming count of
2^32 or more.

## Model

| member | source | states |
|---|---|---|
| ResponseTime.MakeTask | test/schedulability_analysis.py:76-86 | a task is accepted exactly when its cost and period are positive, its blocking is not negative and its cost fits its deadline, which defaults to the period |
| ResponseTime.ResponseTimeOf | test/schedulability_analysis.py:127-139 | the loop terminates for every real-valued task and returns the least time that covers its own demand if that is within the deadline, and nothing exactly otherwise |
| ResponseTime.ResponseTimeAnalysis | test/schedulability_analysis.py:104-140 | each task is analysed against exactly the tasks of strictly smaller priority number; the table maps each name to the report of the last task of that name |
| ResponseTime.VerdictUnique | test/schedulability_analysis.py:104-140 | the verdict on a task is determined |
| ResponseTime.Pass | test/schedulability_analysis.py:127-139 | one pass never overshoots a covering time, never decreases, and changes nothing unless some release count went up |
| ResponseTime.VerdictMonotone | test/schedulability_analysis.py:104-140 | higher costs or blocking, or shorter periods or deadlines, never lower a response time and never turn a rejection into an acceptance |
| ResponseTime.AnalysisMonotone | test/schedulability_analysis.py:104-140 | the same for whole task sets |
| ResponseTime.VerdictScales | test/schedulability_analysis.py:104-140 | with all times in another unit the verdict is the same in that unit, so a set of fractional times is decided by a whole-number set |
| Scheduler.PreemptiveNeverBlocks | test/schedulability_analysis.py:104-121 | under the preemptive policy no less urgent task ever runs while work of a level is pending, if no other task has its priority, so zero blocking is right for it |
| Scheduler.RunExists | test/schedulability_analysis.py:104-121 | every release pattern has a run of every length that idles for any given time and is preemptive from then on |
| Scheduler.WindowDemand | test/schedulability_analysis.py:131 | in any window any legal release pattern of a task asks for at most the ceiling term |
| Scheduler.LevelDemand | test/schedulability_analysis.py:131 | and all more urgent tasks together for at most the interference sum |
| Scheduler.InterferenceIsWhole | test/schedulability_analysis.py:131 | on whole-number task sets the real-valued interference is the integer one |
| CriticalInstant.WindowsSuffice | test/schedulability_analysis.py:104-121 | if every window of q jobs has room by the time the q-th is due, every job is finished within r of its release in every run that blocks the task for at most b |
| CriticalInstant.FinitelyManyWindows | test/schedulability_analysis.py:104-121 | the windows up to one that ends by the next release decide all of them |
| CriticalInstant.ResponseTimeBound | test/schedulability_analysis.py:104-140 | a reported response time within the period bounds every job in every run: any releases a period apart, any execution times up to the worst case, any scheduling that blocks the task for at most its blocking term |
| CriticalInstant.PreemptiveResponseTimeBound | test/schedulability_analysis.py:104-140 | in particular in every run of the preemptive policy, for a task whose priority is its own |
| SynchronousRelease.AnalysisIsExact | test/schedulability_analysis.py:126-140 | under synchronous release, with the whole blocking term at the start, the first job finishes exactly at the reported time, and the task is rejected exactly when that job misses its deadline |
| SynchronousRelease.BoundHoldsExactly | test/schedulability_analysis.py:104-140 | a number bounds every job in every preemptive run if and only if all windows fit with the tasks of the same priority counted as more urgent |
| SynchronousRelease.UniqueBoundExactly | test/schedulability_analysis.py:104-140 | for a task whose priority is its own: if and only if all its windows fit |
| SynchronousRelease.BlockedBoundExactly | test/schedulability_analysis.py:112-121 | a number bounds every job in every run that blocks the task for at most b, if and only if all its windows fit with that blocking |
| SynchronousRelease.DeadlineBeyondPeriod | test/schedulability_analysis.py:76-86 | with a deadline beyond the period the reported time can be wrong: a task set for which 5 is reported and is no bound |
| SynchronousRelease.EqualPriorities | test/schedulability_analysis.py:129 | with two tasks of one priority the reported time can be wrong: each is reported 5, and 5 is a bound for neither |
| Crc32.Crc32Bytes | boot/stage0/stage0_main.c:167-181 | the in-place loops compute the bit-by-bit CRC of the first bytes of the buffer; the next five rows say what that CRC is |
| CrcPolynomial.StepTimesX | boot/stage0/stage0_main.c:172-178 | one step of the inner loop multiplies the register, as a polynomial over GF(2), by x, and reduces it by the divisor x^32+x^26+...+x+1 of RFC 1952 |
| CrcPolynomial.RunCongruent | boot/stage0/stage0_main.c:167-181 | from any start, the register after n bytes is congruent to x^(8n) times the start plus x^32 times the polynomial of the bytes |
| CrcPolynomial.ReducedUnique | boot/stage0/stage0_main.c:167-181 | polynomials of degree below 32 that are congruent modulo the divisor are equal |
| CrcPolynomial.CrcIsRemainder | boot/stage0/stage0_main.c:167-181 | a polynomial is the CRC of a string, with the final inversion undone, if and only if it is the remainder of that division with a start of 32 ones |
| Crc32Known.CheckValue | boot/stage0/stage0_main.c:167-181 | the CRC of the string "123456789" is 0xCBF43926 |
| Crc32.TableAgrees | boot/stage0/stage0_main.c:167-181 | the bit-by-bit CRC is the table-driven CRC of section 8 of RFC 1952, on every string |
| Crc32Known.TableEntries | boot/stage0/stage0_main.c:172-178 | entries 1, 2, 128 and 255 of that table are those of RFC 1952 |
| Crc32.BurstDetected | boot/stage0/stage0_main.c:167-181 | two strings of equal length, however short, that differ only inside four consecutive bytes have different CRCs |
| Crc32.Residue | boot/stage0/stage0_main.c:167-181 | a string followed by its CRC leaves one and the same register value, and no other four bytes do |
| Crc32.ProtectedBurstDetected | boot/stage0/stage0_main.c:225-232 | so a burst is detected wherever it falls in a string and the CRC stored behind it |
| LittleEndian.ReadU32Le | boot/stage0/stage0_main.c:183-188 | the four bytes are read as a number, least significant first |
| LittleEndian.WriteU32Le | boot/stage0/stage0_main.c:190-195 | four bytes are written, and no other byte changes |
| LittleEndian.FromTo | boot/stage0/stage0_main.c:183-195 | reading undoes writing |
| LittleEndian.FromInjective | boot/stage0/stage0_main.c:183-195 | different bytes are different numbers |
| SlotRecord.RoundTrip | test/kernel_slot_layout.py:69-111 | every state survives packing and unpacking |
| SlotRecord.PackedBytes | test/kernel_slot_layout.py:69-83 | which bytes of a packed record hold which field, and that the rest are zero |
| SlotRecord.UnpacksWhenWellFormed | test/kernel_slot_layout.py:86-111 | a block unpacks exactly when it has the magic number and the CRC of its first 96 bytes |
| SlotRecord.PackedExactly | test/kernel_slot_layout.py:69-111 | a block is the packed form of a state if and only if it unpacks to it and its reserved bytes are zero |
| SlotRecord.BurstRejected | boot/stage0/stage0_main.c:225-232 | a valid record altered inside any four consecutive of its 100 bytes never parses |
| SlotRecord.ParseSlotState | boot/stage0/stage0_main.c:225-249 | the loader accepts the same blocks as the host tool, with the same fields |
| SlotRecord.BuildSlotState | boot/stage0/stage0_main.c:255-276 | the loader writes the same 512 bytes as the host tool |
| Sha256Constants.PrimesInOrder | boot/stage0/sha256.c:15-24 | the list the constants are taken from is the first 64 primes, in order and without gaps |
| Sha256Constants.ConstantsAreRoots | boot/stage0/sha256.c:15-24 | the t-th round constant is the first 32 bits of the fractional part of the cube root of the t-th prime, and the t-th word of the first hash value that of its square root |
| Sha256Known.PadExactly | boot/stage0/sha256.c:102-128 | the padded message is as few whole blocks as will do: the message, a one bit, zeros, and the length in bits, most significant byte first |
| Sha256Known.WordsOfBlock | boot/stage0/sha256.c:42-45 | the words of a block are its bytes in order, the first byte of each highest |
| Sha256Known.AbcDigest | boot/stage0/sha256.c:37-138 | the digest of "abc" is the one FIPS 180-4 gives |
| Sha256Stream.BuildSchedule | boot/stage0/sha256.c:37-52 | the schedule loops compute the message schedule of section 6.2.2 of FIPS 180-4 |
| Sha256Stream.RunRounds | boot/stage0/sha256.c:53-64 | the round loop computes the 64 rounds of section 6.2.2 (`Sha256Known.AbcDigest` and `Sha256Constants.ConstantsAreRoots` say which those are) |
| Sha256Stream.Sha256Ctx.constructor | boot/stage0/sha256.c:70-75 | a new context stands for the empty message |
| Sha256Stream.Sha256Ctx.Block | boot/stage0/sha256.c:37-68 | one block updates the hash value by the compression function |
| Sha256Stream.Sha256Ctx.Update | boot/stage0/sha256.c:77-100 | for every piece: the hash value is the fold over the whole blocks of everything absorbed so far, the buffer holds the rest, and the length is counted |
| Sha256Stream.SplitIrrelevant | boot/stage0/sha256.c:77-100 | contexts that absorbed the same message in any pieces are in the same state |
| Sha256Stream.Sha256Ctx.PadWithZeros | boot/stage0/sha256.c:110-117 | the zero-padding loop ends, by the measure (56 - buf_len) mod 64, with exactly the zeros the padding needs |
| Sha256Stream.Sha256Ctx.Finalize | boot/stage0/sha256.c:102-138 | the result is the FIPS 180-4 digest of everything absorbed; the pad bytes do not enter the encoded length |
| BootPolicy.FailedBoots | boot/stage0/stage0_main.c:358-389 | with both slots ready, after k boots without success the counter is (c0+k) mod (L+1) and the number of boots that changed the slot is (c0+k) div (L+1) |
| BootPolicy.BeyondLimit | boot/stage0/stage0_main.c:358-389 | a counter beyond the limit falls back at once, unless it is the largest number |
| BootPolicy.FallbackReached | boot/stage0/stage0_main.c:364-389 | the other slot is reached, sooner or later, if and only if it is ready and the limit is not the largest number |
| BootPolicy.NotReadyNeverSelected | boot/stage0/stage0_main.c:375-389 | a slot that is not ready is never selected automatically, over any run of boots and success marks |
| BootPolicy.ContentsKept | boot/stage0/stage0_main.c:358-410 | no run changes limits, preference, ready flags, lengths or digests |
| BootPolicy.GenerationAfter | boot/stage0/stage0_main.c:410 | every boot raises the generation by one, modulo 2^32 |
| BootPolicy.FailedBootReasons | boot/stage0/stage0_main.c:390-408 | the reasons reported by boots that never succeed, from any counter within the limit: power-on for the first boot in a slot, then hangs, then a fallback, and again, once every L+1 boots |
| BootPolicy.CounterExactly | boot/stage0/stage0_main.c:358-389 | from every record and over every run of boots and success marks, whatever is ready: the counter is the boots since the last mark or change of slots, modulo 2^32 |
| BootPolicy.BootExactly | boot/stage0/stage0_main.c:358-408 | the boot after any such run changes slots exactly if the other one is ready and the boots counted exceed the limit; it reports a fallback then, else a clean reboot that is still on record, else a hang exactly if no mark and no change of slots separates it from the boot before, else power-on |
| BootPolicy.OneSlotOnly | boot/stage0/stage0_main.c:375-408 | with the other slot not ready the counter after k boots is (c0+k) mod 2^32, beyond the limit too, and every boot after the first reports a hang until it wraps |
| BootPolicy.HealthyKeepsSlot | boot/stage0/stage0_main.c:358-389 | if never more than L boots in a row go without a success mark, the slot is kept and the counter is the number of boots since the last mark |
| BootPolicy.LeftExactly | boot/stage0/stage0_main.c:358-389 | a slot is left if and only if some stretch of more than L boots has no success mark |
| BootPolicy.CleanRebootStays | boot/stage0/stage0_main.c:396-408 | a clean reboot is reported by every later boot until a fallback, and never after one |
| PingPong.SelectRecord | boot/stage0/stage0_main.c:314-333 | the loader selects the same copy as the host tool, ties included, and the block it will write is the other one |
| PingPong.EveryStateHasACard | test/kernel_slot_layout.py:128-139 | every state is the selected record of some card, so the statements about cards with a record are about all states |
| PingPong.ChosenCopyKept | boot/stage0/stage0_main.c:309-333 | a write-back never touches the copy the boot was taken from |
| PingPong.BootAdvances | boot/stage0/stage0_main.c:309-418 | a boot either advances the selected record by one policy step or leaves it as it was, whatever became of its write |
| PingPong.RecordSurvives | boot/stage0/stage0_main.c:309-418 | from a card with a valid record there is a valid record after every sequence of boots, with any reads failing and any writes lost or torn |
| PingPong.RunsAdvance | boot/stage0/stage0_main.c:309-418 | while both copies can be read the card refines one record, advanced once by every landed write |
| PingPong.GenerationNeverFalls | boot/stage0/stage0_main.c:314-333 | the selected generation never falls, and grows if and only if the write landed and it was not the largest |
| PingPong.GenerationNeverFallsInRuns | boot/stage0/stage0_main.c:314-333 | nor does it fall over any run |
| PingPong.LargestGenerationStandsStill | boot/stage0/stage0_main.c:410-418 | at the largest generation no run counts an attempt or falls back |
| PingPong.UnreadableNewerCopyIsOverwritten | boot/stage0/stage0_main.c:309-333 | if the selected copy, either one, cannot be read, a landed write puts the advanced older record over it and the generation falls exactly when the copies were more than one apart; a lost write changes nothing and a torn one leaves the older record |
| PingPong.FailedBootsOnCard | boot/stage0/stage0_main.c:309-418 | the closed form of failed boots, counter and number of slot changes, for the record selected from the card, over any run in which k writes landed |
| PingPong.NotReadyNeverSelectedOnCard | boot/stage0/stage0_main.c:309-418 | if every valid copy has the same active slot and the other one not ready, that slot is selected after every run, and loaded at every boot, with any reads failing and any writes lost or torn |
| PingPong.NotReadyKeepsContentsOnCard | boot/stage0/stage0_main.c:309-418 | while both copies can be read, the selected record alone decides: if its other slot is not ready, its slot and contents are kept |
| Stage0.Loader.Advance | boot/stage0/stage0_main.c:358-410 | the field-by-field update is the policy step |
| Stage0.Loader.LoadBlocks | boot/stage0/stage0_main.c:464-486 | the load area holds exactly the slot's blocks in order, and exactly those blocks were read |
| Stage0.Loader.HashLoaded | boot/stage0/stage0_main.c:492-518 | hashing in pieces of 256 KiB gives the digest of one call over the whole string |
| Stage0.Loader.LoadAndJump | boot/stage0/stage0_main.c:420-592 | the loader jumps only if the length is in range and the digest of the bytes in the load area is the recorded one; otherwise it stops with the code of the first failing step |
| Stage0.Loader.Boot | boot/stage0/stage0_main.c:285-596 | a whole boot: its outcome and the card it leaves are functions of the card and of what failed; a jump has the selected slot's bytes in memory and read nothing but the records and that slot |
| Stage0.SlotRangesApart | boot/stage0/stage0_main.c:420-433 | the blocks of a slot never reach the records or the other slot |
| SlotTool.WrittenIsRead | test/kernel_slot_layout.py:209-213 | a string written from a block on is read back |
| SlotTool.SeedElsewhere | test/kernel_slot_layout.py:209-213 | a seed changes the two records and its own slot, and no other block |
| SlotTool.SeedTakesEffect | test/kernel_slot_layout.py:165-214 | afterwards both copies hold the new record and the slot holds the kernel |
| SlotTool.SeedBKeepsA | test/kernel_slot_layout.py:168-200 | seeding slot B keeps slot A's ready flag, length, digest and every block, and makes B active with count 0 |
| SlotTool.SeedThenBoot | test/kernel_slot_layout.py:165-214 | the first boot of a seeded card jumps to the seeded kernel, unless the kernel is empty |
| SlotTool.SeedAStaysOnA | test/kernel_slot_layout.py:201-208 | a card seeded for slot A never leaves it: every later boot that finds a record loads slot A, with any reads failing and any writes lost or torn |
| SlotTool.SeedAReports | boot/stage0/stage0_main.c:390-408 | a card seeded for slot A jumps with r0 = 0 at the first boot, and with r0 = 0x200 at every one after a landed boot without a success mark |
| SlotTool.SeedThenFallback | test/kernel_slot_layout.py:165-200 | a card seeded for slot B stays on B for as many landed boots as the limit in force, and the next one is back on A with count 0 |
| SlotTool.FallbackBootsA | boot/stage0/stage0_main.c:364-389 | and if slot A could be trusted before the seed, that boot jumps to it and reports an automatic fallback |
| SlotTool.SeedBothThenFallback | test/kernel_slot_layout.py:165-214 | a card seeded for A and then for B tries B three times, and the fourth boot jumps to A with r0 = 0x300 |
| SlotTool.CutSelects | test/kernel_slot_layout.py:209-215 | which record is selected after a seed of slot B that was cut short anywhere: the new one once it is on the card, the one before until then, and what copy B holds if copy A was torn |
| SlotTool.CutKeepsRecord | test/kernel_slot_layout.py:209-215 | a cut leaves a valid record if and only if it did not tear copy A while that held the only one; it never touches slot A |
| SlotTool.CutThenBoot | test/kernel_slot_layout.py:209-215 | the boot after the cut runs the seeded kernel once its record is on the card; before that, a record that boots slot A does so as it would have before the seed |
| SlotTool.Target.Seed | test/kernel_slot_layout.py:149-270 | the command's result and its effect on the target, error paths and too small devices included; the check after the write always passes on storage that keeps what is written |
| SlotTool.Target.Verify | test/kernel_slot_layout.py:293-315 | the command succeeds exactly when there is a valid record and every ready slot has its recorded digest |
| SlotTool.Target.SeededAPasses | test/kernel_slot_layout.py:293-315 | a card freshly seeded for slot A passes the check, whatever slot B holds |
| SlotTool.Target.SeededBPasses | test/kernel_slot_layout.py:293-315 | a card freshly seeded for slot B passes exactly if slot A, as it was before, has its recorded digest |
| SlotTool.Target.SeedAThenB | test/kernel_slot_layout.py:165-214 | after a seed of A every kernel that fits can be seeded into B, and the card then passes the check |
| SlotTool.Target.VerifyAgreesWithLoader | test/kernel_slot_layout.py:293-315 | on a full-size card the loader jumps exactly when the tool's test passes and the length is in range |
| SdFifo.DrainFifo | boot/stage0/sdread.c:574-594 | never takes from an empty FIFO; stores the first 128 words in order or gives up after exactly 20000001 waiting polls; never gives up on a card that keeps sending |
| SdFifo.FillFifo | boot/stage0/sdread.c:647-668 | never overfills the 16-deep FIFO; hands over exactly the 128 words in order or gives up after exactly 20000001 waiting polls; never gives up on a card that keeps taking |
| Heap.FitsExactly | boot/rpi1/runtime_stubs.c:459-460 | the 32-bit test is right if and only if the sum does not wrap around to an end inside the heap |
| Heap.FitsForSizes | boot/rpi1/runtime_stubs.c:459-460 | so it is right for every size that is not negative |
| Heap.PlaceShape | boot/rpi1/runtime_stubs.c:459-468 | an allocation begins at the next address aligned to 8, a guard page at the next one aligned to 4096 in absolute terms, and the stack directly behind it, for a heap array anywhere in memory |
| Heap.AllocationsDisjoint | boot/rpi1/runtime_stubs.c:431-547 | in every history allocations and guard pages are disjoint and inside the heap, guard pages are 4 KiB aligned in absolute address and lie directly below their stacks |
| Heap.HeapApartFromDomains | boot/rpi1/runtime_stubs.c:549-605 | a heap clear of the dedicated megabytes keeps every allocation and guard page clear of every task's own stacks |
| Heap.DomainsDisjoint | boot/rpi1/runtime_stubs.c:589-673 | stacks of different tasks never overlap |
| Heap.SvcAndUsr | boot/rpi1/runtime_stubs.c:644-673 | the two stacks of one task are disjoint if and only if the supervisor stack is at most 0x7F000 bytes |
| Heap.SvcTestRight | boot/rpi1/runtime_stubs.c:606-612 | the test refuses exactly the supervisor stacks that would leave the megabyte, if and only if the size is below 2^32 - 4096 |
| Heap.UsrTestRight | boot/rpi1/runtime_stubs.c:655-661 | the same for user stacks, below 2^32 - 0x81000 |
| Heap.LargestSizeAccepted | boot/rpi1/runtime_stubs.c:606-661 | both tests accept the size 2^32 - 1 |
| Heap.ArmFires | boot/rpi1/runtime_stubs.c:251-263 | after arming with N, and while nothing else halts the machine, a byte allocation fails exactly when it is number N mod 2^32 since, however many guarded ones lie between |
| Heap.FiresExactly | boot/rpi1/runtime_stubs.c:251-263 | so the N-th later byte allocation is the one that fails if and only if N < 2^32 |
| Heap.GrantedExactly | boot/rpi1/runtime_stubs.c:431-476 | a call with a size that is not negative and no fault due is granted exactly if there is aligned room behind the bump pointer, and is given the first room there is |
| Heap.BooksSound | boot/rpi1/runtime_stubs.c:467-468 | over every sequence of calls, refused ones among them, the bump pointer stays in the heap and the counter counts the granted calls |
| Heap.SizesNeverOverrun | boot/rpi1/runtime_stubs.c:459-460 | no sequence of sizes that are not negative makes the test wrap around |
| Heap.AnswersInOrder | boot/rpi1/runtime_stubs.c:431-547 | for any two granted calls of any sequence, the bytes of the earlier one end before the bytes and the guard page of the later one, and both lie in the heap |
| Heap.Allocator.Arm | boot/rpi1/runtime_stubs.c:417-425 | the countdown it leaves makes the N-th later byte allocation fail if and only if N < 2^32; zero and below disarm |
| Heap.Allocator.AllocBytes | boot/rpi1/runtime_stubs.c:431-476 | for every size: the answer and the books of the call, an injected fault before a lack of room; a granted region begins at the next aligned address behind the bump pointer, which moves to its end, and is zeroed; nothing else changes, and a call that halts changes nothing in memory |
| Heap.Allocator.AllocStackGuarded | boot/rpi1/runtime_stubs.c:517-547 | the same without the countdown, with the page directly below the stack made inaccessible |
| Heap.Allocator.AllocStackDomain | boot/rpi1/runtime_stubs.c:589-622 | for every size: a task's stack in its own megabyte above a guard page, zeroed, or a refusal, or an overrun exactly where the test wraps around; the shared heap and its guard page from index 15 on |
| Heap.Allocator.AllocUsrstackDomain | boot/rpi1/runtime_stubs.c:644-673 | the same for the user-mode stack in the upper half |
| Preemption.StepKeepsInv | boot/rpi1/runtime_stubs.c:431-547 | every step of every task, any interrupt included, keeps each call's own reservation and saved state, and every reservation in the heap |
| Preemption.RegionsInHeap | boot/rpi1/runtime_stubs.c:517-547 | in every run each reservation lies in the heap, each guard page is aligned and directly below its stack, every returned guarded stack has its guard page in place, and only guard pages are inaccessible |
| Preemption.MaskRestored | boot/rpi1/runtime_stubs.c:282-298 | in every run a call returns to its caller with both interrupt bits as they were at the call |
| Preemption.WritesStayInside | boot/rpi1/runtime_stubs.c:469-475 | in every run a call writes only its own reservation |
| Preemption.StepKeepsExclusive | boot/rpi1/runtime_stubs.c:431-547 | if no tick can land between masking and restoring, every step keeps the history a sequential one and every value read still current |
| Preemption.RegionsDisjoint | boot/rpi1/runtime_stubs.c:431-547 | then all allocations and guard pages are disjoint, and are those of the sequential allocator in the order of the reservations |
| Preemption.ReturnsZeroed | boot/rpi1/runtime_stubs.c:469-475 | then every region is all zero when its call returns |
| Preemption.CountIsExact | boot/rpi1/runtime_stubs.c:467-468 | then no update of the bump pointer or the counter is lost |
| Uninterrupted.SoloCall | boot/rpi1/runtime_stubs.c:431-547 | a call that is not interrupted ends and has done exactly what the sequential allocator does, or has halted its task with nothing handed out |
| TickRace.OverlappingRun | boot/rpi1/runtime_stubs.c:434 | a run in which the tick lands between the read and the write of the bump pointer, and two calls are given the same byte |
| TickRace.DisjointExactly | boot/rpi1/runtime_stubs.c:431-547 | the regions of every run are disjoint if and only if there is one task, or the allocator masks the FIQ too, or no call is made with the FIQ let through |
| TickRace.ZeroedExactly | boot/rpi1/runtime_stubs.c:469-475 | every region is zero on return in every run under exactly the same condition |
| TickRace.CountedExactly | boot/rpi1/runtime_stubs.c:467-468 | every run counts its allocations under exactly the same condition |
| TickRace.KernelAllocatorRaces | boot/context_switch.S:1806-1813 | with the mask the kernel uses, and calls from tasks that let the tick through, all three fail |
| TickRace.HaltStopsExactly | boot/rpi1/runtime_stubs.c:367-409 | a call that halts stops the machine if and only if there is one task, or the allocator masks the FIQ too, or the caller had masked it |
| PacedSend.Search | test/kernel_upload.py:66 | the leftmost ACK line from a position on |
| PacedSend.NoLineInside | test/kernel_upload.py:229-235 | no ACK line begins inside another, so a scan that jumps over lines misses none |
| PacedSend.PrintedLineRead | test/kernel_upload.py:66 | the line for any 32-bit number, printed with eight hexadecimal digits of either case anywhere in the buffer, is found and read as that number |
| PacedSend.ShellSession.SendRaw | test/kernel_upload.py:197-217 | whatever parts the writes take, all of the data is accepted in order, or a prefix of it before an error |
| PacedSend.ShellSession.WaitForAckAtLeast | test/kernel_upload.py:219-237 | true only for the first line that covers the length; every line before covered less and none was skipped; the scan never moves back |
| PacedSend.ShellSession.SendRawAckPaced | test/kernel_upload.py:239-284 | the bytes accepted but not covered by a seen ACK never exceed the window; what was accepted is a prefix of the data, and all of it on a normal return |
| ChunkedUpload.LayoutShape | test/kernel_upload_resumable.py:55-67 | chunks are whole blocks, the last one is not empty and not longer, and they end at the length of the image |
| ChunkedUpload.LayoutExactly | test/kernel_upload_resumable.py:61-67 | for a positive count, the chunk size is the least positive multiple of 512 with which the chunks cover the image, and the layout is refused if and only if that leaves nothing for the last chunk |
| ChunkedUpload.LeastChunkExists | test/kernel_upload_resumable.py:61-67 | there is such a chunk size for every image |
| ChunkedUpload.ChunksPartition | test/kernel_upload_resumable.py:55-67 | every byte of the image is in exactly one chunk, if and only if the count is positive |
| ChunkedUpload.NegativeCountAccepted | test/kernel_upload_resumable.py:61-67 | a negative count that the layout's test lets through |
| ChunkedUpload.ChunksJoin | test/kernel_upload_resumable.py:149-152 | the chunks put together again are the image |
| ChunkedUpload.TryChunk | test/kernel_upload_resumable.py:155-215 | at most the limit of attempts, and exactly that many before giving up; a chunk's true bytes are streamed only after GO for it, and its digest is verified only after they arrived; with an honest board done, all done and resync mean what they say |
| ChunkedUpload.Upload | test/kernel_upload_resumable.py:115-245 | ends for every sequence of replies; commits at most once, with the digest of the image, to an honest board only when it has confirmed every chunk; does commit when the board cooperates; and commits a new upload with no chunk sent exactly when the count is negative |

## Findings

| source | what happens | shown by |
|---|---|---|
| boot/rpi1/runtime_stubs.c:434, 520 | `cpsid i` leaves the FIQ tick enabled, so a task switch can land between the read and the write of the bump pointer or of the counter: two calls can be given the same bytes, a region can be returned dirty, and an allocation can go uncounted. Masking both interrupts, as the scheduler's own sections do (`boot/context_switch.S:1806-1813`), is enough. | `TickRace.KernelAllocatorRaces`, `TickRace.DisjointExactly` |
| boot/rpi1/runtime_stubs.c:384 | the out-of-memory halt masks the IRQ only; if the caller had the FIQ enabled, the next tick goes on with the other tasks. | `TickRace.HaltStopsExactly` |
| boot/rpi1/runtime_stubs.c:606, 655 | the size tests wrap around for sizes within 4096 (0x81000) bytes of 2^32 and accept them. | `Heap.LargestSizeAccepted` |
| boot/rpi1/runtime_stubs.c:423 | an arming count of 2^32 or more is truncated. | `Heap.FiresExactly` |
| test/schedulability_analysis.py:129 | tasks of equal priority are not counted as interference, so their reported times need not be bounds. | `SynchronousRelease.EqualPriorities` |
| test/kernel_slot_layout.py:212-213 | a seed of slot B cut while copy A is written leaves no record if copy A held the only one. | `SlotTool.CutKeepsRecord` |
| test/kernel_upload_resumable.py:149 | with a negative chunk count a new upload is committed with nothing sent. | `ChunkedUpload.Upload` |
| boot/stage0/stage0_main.c:402-403 | a clean reboot is reported by every boot until a fallback. | `BootPolicy.CleanRebootStays` |

## Left out

- CriticalInstant.ResponseTimeBound: one direction; the reported time may also be a bound when it exceeds the period, and `SynchronousRelease.BlockedBoundExactly` says exactly when.
- SynchronousRelease.AnalysisIsExact: for whole-number task sets, and a task whose priority is its own.
- ResponseTime.ResponseTimeOf: over the reals; floating-point rounding is not modelled.
- utilization_bound_ok (an irrational bound) and dhruvaos_demo_task_set_analysis (a report of measured numbers).
- Stage0.Loader.Boot: SD command sequencing, the watchdog, barriers, UART output and the mailbox; a block read succeeds or fails, a write lands, is lost, or leaves other contents.
- PingPong.BootAdvances: a torn write is taken to leave contents that do not parse; what the selection does with a torn write that happens to leave another valid record is not considered (`PingPong.RecordSurvives` holds for those too).
- kernel_slot_mark_boot_good and everything else in kernel_main.vani, including the board side of the upload: the source is not part of this model. A success mark is an event that sets the attempt counter to 0 (`BootPolicy.LeftExactly`); on the card, only boots without one are modelled.
- Sha256Constants.Prime: right for the 64 primes that are needed, and not beyond.
- Sha256Spec.Sha256: for messages of 2^61 bytes and more the length field is taken modulo 2^64, where the standard is silent.
- SlotTool.Target.Seed: how much of the kernel a write that raises leaves in its slot; cache flushing; digest and CRC library calls are taken to be FIPS 180-4 and RFC 1952.
- SlotTool.SeedAReports: for boots that can read both copies, and while the generation has room, as in `PingPong.LargestGenerationStandsStill`.
- SlotTool.SeedThenFallback: as in the source, the generation must have room for the boots considered, and a limit of 2^32-1 is never exceeded (`BootPolicy.FallbackReached`).
- SlotTool.CutThenBoot: writes reach the card in the order they are issued; a cache between the tool and the card may reorder them.
- Heap.AnswersInOrder: for sequences in which no call overruns, as none does with sizes that are not negative (`Heap.SizesNeverOverrun`).
- Heap.Allocator.AllocBytes: a call whose test wraps around is followed up to the zero loop that leaves the heap, and no further; a call that halts is one that does not return.
- Heap.Allocator.AllocStackDomain: the same index twice gives the same stack, as in the source, which never frees or reuses one.
- Preemption.Execute: installing a guard page is one step, and address translation is not modelled; sizes are not negative; an interrupt may switch to any task, whatever its priority and whether it sleeps.
- SdFifo.DrainFifo: nothing has been taken from the FIFO when the drain begins; the status checks after the loops are hardware.
- SdFifo.FillFifo: the FIFO is empty when the fill begins.
- PacedSend.ShellSession.SendRawAckPaced: a window of at least one byte; timeouts are a nondeterministic number of polls.
- ChunkedUpload.Upload: replies are given by the branch they lead to, not as text; serial set-up, logging and timing are not modelled.
- boot/rpi4/runtime_stubs_rpi4.c is the same allocator with another mask instruction; power, audit, log and smoke-test scripts are small or I/O.
