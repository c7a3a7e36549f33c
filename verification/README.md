# Verified models of the firmware's core algorithms

Each module models one component and proves what its callers rely on. Code that changes state is
modelled by classes and methods with loops, proved against functions on values; the laws are lemmas
about those functions and hold for all inputs and all runs.

| file | component |
|---|---|
| CxxGuards.dfy, GuardHistory.dfy | one-time construction guards (section 3.3.2 of the Itanium C++ ABI) as a step system over any number of tasks and guards, and the sequential guard it implements |
| TraceRing.dfy, DownBuffer.dfy | the application-trace ring buffer with early wrap, and its host-to-target client |
| OtaPlan.dfy, OtaWrite.dfy, OtaBoot.dfy | OTA image writing (lazy erase, 16-byte cache, failed writes) and boot slot selection under power loss |
| SplitArgv.dfy, SplitGrammar.dfy | the console's in-place command-line splitter, and a grammar of all lines |
| TaskOrder.dfy, TaskRepeats.dfy, TaskPulls.dfy, TaskOrderOnly.dfy | the dependency worklist of `idf.py`; which task object of a repeated command runs |
| SplitPaths.dfy | the search over all ways to split a string at its spaces |
| BitStream.dfy, BitScrambler.dfy, BitProgram.dfy | the BitScrambler assembler's encoder |
| DfuArchive.dfy | the DFU archive writer |
| Fnv1a.dfy | the frame checksum |
| Encoder.dfy | the knife encoder's angle unwrapping |
| Basics.dfy, LittleEndian.dfy, Arithmetic.dfy | shared definitions and division facts |

`dafny verify dfyconfig.toml` checks everything.

## What turned out different from the comments

- The wake-up promise at `cxx_guards.cpp:78-82` holds for all interleavings only with one task or one
  guard. `LostWakeup` gives the run that breaks it for any larger numbers, `NoLostWakeup` the case in
  which it holds. `LostOnlyIfStolen` names the step without which no run loses a wake-up.
- With encryption and sequential erase, the last padded block written by `esp_ota_end` can start in a
  sector that was never erased (`TailNotErased`: writes of 15 and 4096 bytes). `TailErasedIff` says
  exactly when, in terms of the sizes given.
- A BitScrambler label behind the eighth instruction resolves to 8, which the 3-bit target field
  cannot hold: the encoder sets a neighbouring opcode bit instead (`DecodeOpIff`).
- `trailing_bytes` of 8192 becomes 65536 bits and does not fit the 16-bit header field, so the packer
  raises an error (`InstsToBinary`).
- `idf.py:562-565` warns that only the first occurrence of a repeated command is executed. The
  dictionary at line 604 keeps the last one, so each pull as a dependency moves the last occurrence to
  the front and rotates the occurrences by one (`WhichRuns`). The warning is right when no command
  given before needs the repeated one (`UnneededRunsFirst`); `a b b` with `a` depending on `b` runs the
  second `b` (`SecondRuns`). How often a command is pulled can be read off the graph
  (`PullsAreParents`), and with two pulls the first of two occurrences runs again (`FirstRunsAgain`).
- The same loop never ends on a dependency cycle (`CycleNeverEnds`, `EndsIff`).
- `ALIGN_UP` is 32-bit arithmetic: for image sizes within one sector of 2^32 the up-front erase is
  empty and succeeds (`EraseCoversIff`, `HugeImageErasesNothing`).
- After a failed 16-byte block write the cache holds a whole block, and a retry can write it into a
  sector that was never erased, and report success (`RetryNotErased`); `AlwaysCoveredIff` says exactly
  when. A retry can also store bytes twice (`RetryStoresTwice`); `RetryIsRightIff` says for which
  cached bytes and sizes a retry is safe.
- The search for the next OTA sequence number wraps around at 32 bits. With an even slot count it can
  go on forever near 2^32 (`SearchEndsIff`; `SearchNeverEnds` with 16 slots, `TwelveSlotsNeverEnd`),
  with an odd one it always ends, but the slot selected may not boot (`SelectThenBootIff`,
  `BlankMarkerReached`).
- The bounds checks of the trace ring overflow for sizes near 2^32 (`ProduceOutOfBounds`,
  `ConsumeOutOfBounds`).
- An archive entry named like the CPIO trailer ends the archive early for a reader
  (`WalkRecoversIff`), and names above 64 bytes are cut in the index (`ReadRecordIff`).
- Selecting the slot that boots already rewrites the deciding sector, so a power loss between erase
  and write can change the boot partition in that one case (`CutIsHarmlessIff`).

## Model

| member | source | states |
|---|---|---|
| CxxGuards.StepInv | resources/esp-idf/components/cxx/cxx_guards.cpp:113-211 | every atomic step of every task keeps the whole invariant: mutual exclusion, holder and `pending`, one release per guard, waiter counter |
| CxxGuards.RunInv | resources/esp-idf/components/cxx/cxx_guards.cpp:66-211 | the invariant holds after every interleaving, by induction over the list of steps |
| CxxGuards.EveryInterleavingIsSafe | resources/esp-idf/components/cxx/cxx_guards.cpp:113-211 | for any number of tasks and guards and any interleaving: no assertion fails, `pending` iff exactly one holder, never ready and pending, at most one release, one task in the critical section, the wait routine ends with the mutex taken and its guard not pending, release and abort have given the guard up when they signal and return, ready behind release only, the counter equals the tasks inside the wait routine |
| GuardHistory.EveryRunIsSequential | resources/esp-idf/components/cxx/cxx_guards.cpp:113-211 | in every interleaving of any number of tasks and guards the calls take effect one at a time, each exactly once, as on a sequential guard: acquire returns 1 on a free guard only and 0 on a done one only, release makes it done, abort makes it free, and the guard bytes and the holder are those of that history |
| GuardHistory.TraceStep | resources/esp-idf/components/cxx/cxx_guards.cpp:66-211 | every atomic step keeps that correspondence of calls, history and guard bytes |
| CxxGuards.AbortRun | resources/esp-idf/components/cxx/cxx_guards.cpp:192-211 | an abort with no waiter gives the guard up as if it had never been acquired |
| CxxGuards.AbortedIsAcquiredAgain | resources/esp-idf/components/cxx/cxx_guards.cpp:142-168 | a run in which one task acquires and aborts, and another acquires the same guard with result 1 |
| CxxGuards.AcquireRun | resources/esp-idf/components/cxx/cxx_guards.cpp:113-168 | an acquire without contention, from call to return |
| CxxGuards.BlockRun | resources/esp-idf/components/cxx/cxx_guards.cpp:137-151 | an acquire of a pending guard, up to the wait on the semaphore |
| CxxGuards.ReloopRun | resources/esp-idf/components/cxx/cxx_guards.cpp:74-94 | a woken waiter whose guard is still pending uses up a token and waits again |
| CxxGuards.FinishRun | resources/esp-idf/components/cxx/cxx_guards.cpp:170-211 | a release or an abort, up to signalling exactly the tasks that wait |
| CxxGuards.FailsIff | resources/esp-idf/components/cxx/cxx_guards.cpp:74-207 | the states in which an assertion of the source fails, or the waiter counter would wrap around |
| CxxGuards.SemBounded | resources/esp-idf/components/cxx/cxx_guards.cpp:105-111 | the semaphore never exceeds its capacity; gives beyond are lost |
| CxxGuards.ReadyIsForever | resources/esp-idf/components/cxx/cxx_guards.cpp:179-182 | a ready guard stays ready in every continuation |
| CxxGuards.AcquireReturns | resources/esp-idf/components/cxx/cxx_guards.cpp:153-167 | acquire returns 0 only on a guard released exactly once, and 1 only to the single holder of a guard not yet initialised |
| CxxGuards.WakeStep | resources/esp-idf/components/cxx/cxx_guards.cpp:66-111 | each step keeps tokens plus owed gives at least the number of tasks blocked on a guard that is not pending, unless a waiter on another guard takes a token |
| CxxGuards.WakeRun | resources/esp-idf/components/cxx/cxx_guards.cpp:66-111 | the same over whole runs |
| CxxGuards.LostOnlyIfStolen | resources/esp-idf/components/cxx/cxx_guards.cpp:66-111 | for any numbers of tasks and guards and every run from the initial state: the promise for a guard fails only after a waiter on another guard took a token while this one was not pending |
| CxxGuards.NoLostWakeup | resources/esp-idf/components/cxx/cxx_guards.cpp:78-82 | the promise of the comment, for every run in which all waiters wait on one guard, from the initial state |
| CxxGuards.LostWakeup | resources/esp-idf/components/cxx/cxx_guards.cpp:74-94 | for any two or more tasks and guards, a run after which a ready guard has a blocked waiter, no token is left and neither task involved can move: a re-looping waiter took the token of another |
| CxxGuards.WakeupsSufficeWhen | resources/esp-idf/components/cxx/cxx_guards.cpp:78-82 | with one task or one guard the promise holds in all runs |
| CxxGuards.WakeupsSufficeIff | resources/esp-idf/components/cxx/cxx_guards.cpp:78-82 | the promise holds over all runs of n tasks and m guards iff n <= 1 or m <= 1 |
| TraceRing.ProduceIsPush | resources/esp-idf/components/app_trace/app_trace_util.c:89-129 | a granted region is in bounds, holds no unread byte, and filling it appends exactly those bytes to the queue, in all branches including early wrap; a refused call changes nothing |
| TraceRing.ProduceGrantsIff | resources/esp-idf/components/app_trace/app_trace_util.c:93-127 | a request is granted iff it fits behind the write position without making a full ring look empty, or in front of the read position |
| TraceRing.ProduceInBoundsIff | resources/esp-idf/components/app_trace/app_trace_util.c:93-121 | with 32-bit wrap-around of `wr + size`, a granted region is in bounds iff that sum does not overflow (or `rd` is ahead of `wr`) |
| TraceRing.ProduceOutOfBounds | resources/esp-idf/components/app_trace/app_trace_util.c:93-121 | an empty ring of 16 bytes with write position 8 grants a request of 2^32 - 4 bytes at position 8 |
| TraceRing.ConsumeIsPop | resources/esp-idf/components/app_trace/app_trace_util.c:131-155 | consume succeeds iff the bytes are there in one piece; the region is the queue's prefix, and restoring the full size loses nothing |
| TraceRing.ConsumeInBoundsIff | resources/esp-idf/components/app_trace/app_trace_util.c:134-144 | a granted consume stays inside the readable piece iff `rd + size` does not overflow |
| TraceRing.ConsumeOutOfBounds | resources/esp-idf/components/app_trace/app_trace_util.c:134-144 | a ring with four unread bytes hands out a region of 2^32 - 4 bytes |
| TraceRing.WriteSizeSuffices | resources/esp-idf/components/app_trace/app_trace_util.c:170-184 | any non-empty request up to the offered write size is granted at the write position, without early wrap |
| TraceRing.WriteSizeIsExact | resources/esp-idf/components/app_trace/app_trace_util.c:170-184 | a request is granted at the write position without shrinking the ring iff it is at most the offer |
| TraceRing.WriteSizeTotal | resources/esp-idf/components/app_trace/app_trace_util.c:170-184 | on an unshrunk ring the offer is zero iff only the one reserved byte is free, and never exceeds the free bytes |
| TraceRing.UnreadIff | resources/esp-idf/components/app_trace/app_trace_util.c:89-168 | the unread bytes are those whose change changes the queue |
| TraceRing.StepIs | resources/esp-idf/components/app_trace/app_trace_util.c:89-155 | one call by a client accepts all its bytes when a region is granted, and hands out the first bytes of the queue when they are there in one piece |
| TraceRing.StepIsFifo | resources/esp-idf/components/app_trace/app_trace_util.c:89-155 | one call by a client keeps: accepted bytes = handed-out bytes followed by unread bytes |
| TraceRing.RunNext | resources/esp-idf/components/app_trace/app_trace_util.c:89-155 | a run makes its calls one behind the other |
| TraceRing.RunIsFifo | resources/esp-idf/components/app_trace/app_trace_util.c:89-155 | over every run of produce and consume calls nothing is lost, repeated or reordered |
| TraceRing.RingBuffer.constructor | resources/esp-idf/components/app_trace/app_trace_membufs_proto.c:69-72 | a new ring over a buffer is well formed and empty |
| TraceRing.RingBuffer.ProduceRegion | resources/esp-idf/components/app_trace/app_trace_util.c:89-129 | the method that updates `wr`, `rd` and `cur_size` in place refines the value-level produce step |
| TraceRing.RingBuffer.Push | resources/esp-idf/components/app_trace/app_trace_util.c:89-129 | produce and fill: the contents grow by exactly the bytes, or nothing changes |
| TraceRing.RingBuffer.ConsumeRegion | resources/esp-idf/components/app_trace/app_trace_util.c:131-155 | refines the value-level consume step; hands out the first bytes of the contents and removes them, or changes nothing |
| DownBuffer.WritePiece | resources/esp-idf/components/app_trace/app_trace_membufs_proto.c:195-200 | a piece of at most the offered size is always granted (the `assert(false)` branch is dead), appended, and the ring stays unshrunk: early wrap is never taken |
| DownBuffer.ReadPiece | resources/esp-idf/components/app_trace/app_trace_membufs_proto.c:146-152 | a read of at most the offered size is always granted (the other `assert(false)` is dead) and removes the queue's prefix |
| DownBuffer.Offers | resources/esp-idf/components/app_trace/app_trace_membufs_proto.c:145-146 | the two size offers are zero exactly when nothing fits or nothing is there, and otherwise within bounds |
| DownBuffer.WriteBlock | resources/esp-idf/components/app_trace/app_trace_membufs_proto.c:179-205 | stores exactly the first min(size, capacity - 1 - unread) bytes of a host block, in order |
| DownBuffer.WaitRound | resources/esp-idf/components/app_trace/app_trace_membufs_proto.c:154-168 | one waiting round: a pending block that is swapped in is stored as above, a quiet host may use up the timeout, otherwise the queue is unchanged |
| DownBuffer.GetBytes | resources/esp-idf/components/app_trace/app_trace_membufs_proto.c:140-171 | a read returns the next bytes of everything delivered so far, min(wanted, readable piece) of them, so fewer than wanted only at the end of the queue or of the buffer; or nothing only on timeout (or when the listed events end) with the queue empty; at once when bytes are there |
| DownBuffer.ReadsAreStored | resources/esp-idf/components/app_trace/app_trace_membufs_proto.c:140-205 | for any sequence of blocks stored and reads: bytes handed out, then bytes unread = bytes unread at first, then bytes stored, in order |
| DownBuffer.Operate | resources/esp-idf/components/app_trace/app_trace_membufs_proto.c:140-205 | a swap at any time or a read with the swaps that happen while it waits is such a sequence; a read of a non-empty ring gets something |
| DownBuffer.Transfer | resources/esp-idf/components/app_trace/app_trace_membufs_proto.c:140-205 | over any list of swaps and reads, swaps into a ring that still holds bytes included, the readers together get exactly the bytes stored, in order, up to those still unread |
| OtaPlan.EraseCoversIff | resources/esp-idf/components/app_update/esp_ota_ops.c:189-197 | with 32-bit rounding, the up-front erase covers the image exactly when its size plus the sector size minus one stays below 2^32, outside the three special values |
| OtaPlan.HugeImageErasesNothing | resources/esp-idf/components/app_update/esp_ota_ops.c:195-197 | an image size of 0xFFFFF001 is accepted with nothing erased |
| OtaPlan.FullCacheSafeIff | resources/esp-idf/components/app_update/esp_ota_ops.c:314-367 | with a full block left in the cache by a failed write: the next write stays in the erased part iff it is not a write of whole blocks that ends, cached block left out, on the border of the last erased sector |
| OtaPlan.PlanWriteOkIff | resources/esp-idf/components/app_update/esp_ota_ops.c:314-381 | one successful write, from any counts that failures can leave, keeps everything in flash inside the erased part iff it is not such a write |
| OtaPlan.EventOkIff | resources/esp-idf/components/app_update/esp_ota_ops.c:314-381 | the same for every way a write can end: accepted, erase failed, refused, cached block lost, whole blocks lost |
| OtaPlan.AlwaysCoveredIff | resources/esp-idf/components/app_update/esp_ota_ops.c:314-381 | over every mix of successful and failed writes all bytes in flash lie in the erased part at all times iff no write of the run is such a write |
| OtaPlan.RetryNotErased | resources/esp-idf/components/app_update/esp_ota_ops.c:316-381 | writes of 4080 and 15 bytes, a write of 16 bytes that fails in its cached block, and its retry: 4112 bytes in flash, 4096 erased |
| OtaPlan.PlanRunOk | resources/esp-idf/components/app_update/esp_ota_ops.c:314-381 | over any run of successful writes the counts are well formed, less than a block is cached, and written plus cached bytes are the bytes given |
| OtaPlan.PlanWriteTight | resources/esp-idf/components/app_update/esp_ota_ops.c:316-324 | sequential erase never erases past the sector of the last byte given |
| OtaPlan.EraseSpanOk | resources/esp-idf/components/app_update/esp_ota_ops.c:316-324 | the erase starts at or behind the write offset, inside or right behind the erased part: no written byte is erased, no gap is left |
| OtaPlan.TailErasedIff | resources/esp-idf/components/app_update/esp_ota_ops.c:495-504 | the padded last block written by `esp_ota_end` lies in an erased sector iff nothing is cached, the flash offset is inside a sector, or the last write alone crossed the sector border |
| OtaPlan.TailNotErased | resources/esp-idf/components/app_update/esp_ota_ops.c:495-504 | writes of 15 and 4096 bytes, each accepted, give more bytes than were erased |
| OtaWrite.EraseImage | resources/esp-idf/components/app_update/esp_ota_ops.c:320-324 | erasing at or behind the write offset changes no written byte and marks the cells erased |
| OtaWrite.ProgramImage | resources/esp-idf/components/app_update/esp_ota_ops.c:345-380 | programming the next bytes of the stream only moves the write offset; a byte is right iff its cell was erased |
| OtaWrite.StoredIff | resources/esp-idf/components/app_update/esp_ota_ops.c:345-380 | the stream reads back from flash iff the erased part covers it |
| OtaWrite.TailStoredIff | resources/esp-idf/components/app_update/esp_ota_ops.c:495-504 | the same with the end of the stream in a padded block |
| OtaWrite.RetryIsRightIff | resources/esp-idf/components/app_update/esp_ota_ops.c:345-381 | however a write failed, which its result does not tell, a successful write of the same data leaves the right stream, iff there is no encryption, or the data do not fill the cached block, or no block is begun in the cache and the data are whole blocks |
| OtaWrite.RetryStoresTwice | resources/esp-idf/components/app_update/esp_ota_ops.c:350-367 | 4095 bytes given, a write of 16 bytes lost in its cached block, and its retry: 4112 bytes held, the first byte of the write twice |
| OtaWrite.OtaHandle.constructor | resources/esp-idf/components/app_update/esp_ota_ops.c:175-180 | a new handle has written and cached nothing and erases lazily iff sequential writes were asked for |
| OtaWrite.OtaHandle.Begin | resources/esp-idf/components/app_update/esp_ota_ops.c:189-201 | the up-front erase: nothing, the whole partition, or the image size in whole sectors with 32-bit wrap-around; on reliable flash it fails iff that does not fit |
| OtaWrite.OtaHandle.EraseAhead | resources/esp-idf/components/app_update/esp_ota_ops.c:314-328 | the lazy erase moves the end of the erased part to the end of the last sector the write offset plus size touches, or fails and changes nothing |
| OtaWrite.OtaHandle.WriteThrough | resources/esp-idf/components/app_update/esp_ota_ops.c:377-381 | without encryption: all bytes to flash and the stream grows by the data, or nothing changes |
| OtaWrite.OtaHandle.TopUp | resources/esp-idf/components/app_update/esp_ota_ops.c:350-367 | fills the cached block with min(16 - cached, size) bytes and writes it exactly when full, after which the cache is all 0xFF; on failure the full block stays cached |
| OtaWrite.OtaHandle.WriteBlocks | resources/esp-idf/components/app_update/esp_ota_ops.c:369-381 | whole blocks to flash, the remainder below 16 to the cache, the latter also when the blocks fail |
| OtaWrite.OtaHandle.WriteCached | resources/esp-idf/components/app_update/esp_ota_ops.c:345-381 | with encryption: flash up to `wrote_size` followed by the cached bytes is the old stream plus what each of the ways to end keeps of the data |
| OtaWrite.OtaHandle.WriteChunk | resources/esp-idf/components/app_update/esp_ota_ops.c:295-388 | a whole `esp_ota_write`, however it ends: the handle holds the old bytes and what that outcome keeps, counts are those of the outcome, all in erased flash unless the write is the risky one; on reliable flash it succeeds iff the write is empty, or stays in the partition and, when first, starts with the right bytes |
| OtaWrite.OtaHandle.End | resources/esp-idf/components/app_update/esp_ota_ops.c:478-524 | fails on an empty handle; writes the whole cached block, padding included, and nothing else; after a success the whole stream is in flash iff its cells were erased; on reliable flash, which takes whole 16-byte blocks only when encrypted, it succeeds iff verified, something is in flash, and the padded block fits |
| OtaWrite.Session | resources/esp-idf/components/app_update/esp_ota_ops.c:295-388 | any list of writes in any mix of successes and failures: the bytes held are the old ones and what each outcome keeps, and they are in erased flash when no write was risky |
| OtaWrite.ChunksOkIff | resources/esp-idf/components/app_update/esp_ota_ops.c:295-388 | all writes of an update are accepted iff the final counts stay in the partition and the first data starts with the right bytes |
| OtaWrite.AnnouncedErase | resources/esp-idf/components/app_update/esp_ota_ops.c:189-201 | a given image size erases up to the end of the sector of its last byte, and fits iff the size does, on a partition of whole sectors; near 2^32 nothing is erased |
| OtaWrite.FinalFits | resources/esp-idf/components/app_update/esp_ota_ops.c:189-524 | the counts at the end are acceptable iff the image holds at least one byte or cached block, fits the partition, and so does the size announced |
| OtaWrite.FinalCovers | resources/esp-idf/components/app_update/esp_ota_ops.c:189-524 | which images end inside the erased part, for each erase mode |
| OtaWrite.Update | resources/esp-idf/components/app_update/esp_ota_ops.c:141-524 | a whole update over unknown flash content, any chunks, both cache modes, all three erase modes, 32-bit sizes: on success the image reads back always when the size is unknown, up to the end of the last sector announced when it is given, always with lazy erase without encryption, and in general iff it ends inside the erased part; on reliable flash it succeeds iff the image verifies, starts with the bytes of its kind, holds something to put in flash and fits the partition, and so does the size announced |
| OtaWrite.HugeImageNotStored | resources/esp-idf/components/app_update/esp_ota_ops.c:189-201 | with 4096-byte sectors and an image size of 0xFFFFF001 the erased part is empty at the end of every update |
| OtaBoot.NextSeq | resources/esp-idf/components/app_update/esp_ota_ops.c:542-603 | the sequence number is at least the current one, less than one slot count ahead, and selects the slot |
| OtaBoot.NextSeqIsLeast | resources/esp-idf/components/app_update/esp_ota_ops.c:595-598 | no smaller number from the current one on selects the slot |
| OtaBoot.ComputeOtaSeq | resources/esp-idf/components/app_update/esp_ota_ops.c:557-603 | where the 32-bit search ends, the loop returns what it finds, with 0 for no slots |
| OtaBoot.SearchFindsNext | resources/esp-idf/components/app_update/esp_ota_ops.c:599-602 | the search finds the least number from the current one on that selects the slot, when that is below 2^32 |
| OtaBoot.SearchBootsIff | resources/esp-idf/components/app_update/esp_ota_ops.c:599-602 | the search ends on a number that selects the slot and is not below the current one iff there is one below 2^32; otherwise it wraps around |
| OtaBoot.SearchEndsIff | resources/esp-idf/components/app_update/esp_ota_ops.c:599-602 | for every slot count the search ends iff the current number is at most 2^32 - g + (slot + 1) mod g, where g is the greatest power of two that divides the slot count |
| OtaBoot.OddCountEnds | resources/esp-idf/components/app_update/esp_ota_ops.c:599-602 | with an odd number of slots it always ends |
| OtaBoot.SearchEndsOnSlotIff | resources/esp-idf/components/app_update/esp_ota_ops.c:599-602 | for a slot count that divides 2^32 it ends only on a number that selects the slot |
| OtaBoot.SearchNeverEnds | resources/esp-idf/components/app_update/esp_ota_ops.c:599-602 | sixteen slots, number 0xFFFFFFFE in use, slot 0 asked for: the search never ends |
| OtaBoot.TwelveSlotsNeverEnd | resources/esp-idf/components/app_update/esp_ota_ops.c:599-602 | twelve slots, number 0xFFFFFFFD in use, slot 3 asked for: the search never ends |
| OtaBoot.OtaData.RewriteOtaSeq | resources/esp-idf/components/app_update/esp_ota_ops.c:526-540 | erase then write of one sector, possibly cut; the other sector is untouched |
| OtaBoot.ActiveIsIntact | resources/esp-idf/components/bootloader_support/src/bootloader_common_loader.c:66-90 | the deciding entry is written, not marked bad and has the right checksum, and no other such entry has a greater number; none decides iff none is intact (`bootloader_common_select_otadata` at 144-168) |
| OtaBoot.DamagedIsIgnored | resources/esp-idf/components/bootloader_support/src/bootloader_common_loader.c:66-90 | whatever a damaged, bad or blank entry holds, the intact one decides what boots |
| OtaBoot.ZeroBootsBeforeOne | resources/esp-idf/components/app_update/esp_ota_ops.c:746-773 | number 0 wraps around to the slot of 0xFFFFFFFF |
| OtaBoot.OtaData.RewriteOtaData | resources/esp-idf/components/app_update/esp_ota_ops.c:639-673 | the in-place rewrite is the selection step on the two sectors, and refuses slots that do not exist without change |
| OtaBoot.TargetIs | resources/esp-idf/components/app_update/esp_ota_ops.c:654-671 | the new number selects the slot, is valid and above the current one, exactly unless counting on from the current number to the slot reaches the blank marker |
| OtaBoot.SelectThenBootIff | resources/esp-idf/components/app_update/esp_ota_ops.c:639-673 | selecting a slot and asking for the boot partition returns that slot iff it is in use, or no entry is valid, or the current number plus the steps round the slots stays below 0xFFFFFFFF |
| OtaBoot.BlankMarkerReached | resources/esp-idf/components/app_update/esp_ota_ops.c:639-673 | three slots, number 0xFFFFFFFD in use: selecting slot 2 succeeds and slot 0 still boots |
| OtaBoot.SwitchTarget | resources/esp-idf/components/app_update/esp_ota_ops.c:654-671 | a switch leaves the deciding sector alone and uses the least strictly greater matching number, less than one slot count ahead |
| OtaBoot.CutIsHarmlessIff | resources/esp-idf/components/app_update/esp_ota_ops.c:526-540 | power lost between erase and write boots the same partition as before iff the slot in use was not selected again, or the other entry names it too |
| OtaBoot.RequestDecides | resources/esp-idf/components/app_update/esp_ota_ops.c:746-773 | one request, completed or cut anywhere, moves the pair of what boots and what boots as fallback as the slots alone say |
| OtaBoot.RunBootsExpected | resources/esp-idf/components/app_update/esp_ota_ops.c:746-773 | over every run of selections from blank sectors, each completed or cut at any point, cut re-selections included, the partition that boots is the one the requests determine |
| OtaBoot.LastDoneBoots | resources/esp-idf/components/app_update/esp_ota_ops.c:746-773 | that is the last completed selection when no re-selection of the slot in use was cut behind its erase |
| SplitArgv.SplitOfJoin | resources/esp-idf/components/console/split_argv.c:49-95 | quoting with escapes, joining by spaces and tokenizing is the identity on any list of arguments, empty ones included |
| SplitArgv.PieceOfEscaped | resources/esp-idf/components/console/split_argv.c:66-84 | an escaped text up to the closing quote is read back, whatever follows |
| SplitArgv.TokensOfQuoted | resources/esp-idf/components/console/split_argv.c:50-74 | a quoted argument is one token, whatever follows |
| SplitArgv.JoinHasNoNul | resources/esp-idf/components/console/split_argv.c:42-46 | a line built from NUL-free arguments has no early terminator |
| SplitArgv.TokensHaveNoNul | resources/esp-idf/components/console/split_argv.c:42-46 | tokens of a NUL-free line are NUL-free, so each is one C string |
| SplitArgv.ContStep | resources/esp-idf/components/console/split_argv.c:49-95 | one character through the state machine moves along the reference tokenizer, in all five states |
| SplitArgv.Follow | resources/esp-idf/components/console/split_argv.c:42-101 | the arguments done plus the continuation of the rest are invariant under one loop round |
| SplitArgv.Finish | resources/esp-idf/components/console/split_argv.c:102-109 | what the code does behind the loop completes exactly the first `argv_size - 1` tokens |
| SplitArgv.PackedAt | resources/esp-idf/components/console/split_argv.c:26-31 | each `argv` entry starts behind the terminators of the entries before it and is a NUL-terminated string in the line: entries are in order and disjoint |
| SplitArgv.Feed | resources/esp-idf/components/console/split_argv.c:49-95 | the switch computes the specified transition and output character |
| SplitArgv.Advance | resources/esp-idf/components/console/split_argv.c:42-101 | one loop round overwrites the line in place: the output cursor gains at most one and stays behind the input cursor, bytes not yet read are untouched |
| SplitArgv.Scan | resources/esp-idf/components/console/split_argv.c:42-101 | the loop consumes the line up to its terminator or the argument limit, with done arguments packed in front |
| SplitArgv.Terminate | resources/esp-idf/components/console/split_argv.c:102-111 | terminates the last argument, adds it when there is room, and sets the NULL entry |
| SplitArgv.Split | resources/esp-idf/components/console/split_argv.c:33-112 | the in-place splitter returns exactly the first `argv_size - 1` tokens of the original line, packed at the front, and changes nothing behind the terminator or the NULL entry |
| SplitArgv.RoundTrip | resources/esp-idf/components/console/split_argv.c:33-112 | a line built by quoting comes back as the arguments it was built from when there are at most `argv_size - 1` |
| SplitGrammar.TokensOfLine | resources/esp-idf/components/console/split_argv.c:49-111 | what the splitter makes of a line, by the way it is written: arguments with or without quotes, any blanks between them, a backslash that keeps a space, quote or backslash and drops any other character, quotes not closed, a lone backslash at the end |
| SplitGrammar.ReadLine | resources/esp-idf/components/console/split_argv.c:49-111 | every line of bytes is written in that grammar |
| SplitGrammar.EveryLineIsWritten | resources/esp-idf/components/console/split_argv.c:33-112 | so the arguments of every line are the values of what is written |
| SplitGrammar.BareRoundTrip | resources/esp-idf/components/console/split_argv.c:33-112 | non-empty NUL-free arguments written without quotes, with space, quote and backslash behind a backslash and single spaces between them, come back unchanged |
| TaskOrder.ByName | resources/esp-idf/tools/idf.py:604 | the dictionary has exactly the names of the list and maps each to a task of that name |
| TaskRepeats.DictIsLast | resources/esp-idf/tools/idf.py:604 | of several tasks of a name it holds the last |
| TaskOrder.PullDependencies | resources/esp-idf/tools/idf.py:609-629 | keeps all listed tasks, adds only missing dependencies, and either all are done and nothing moved, or a wanted name that is not done is in front |
| TaskOrder.PullOrderDependencies | resources/esp-idf/tools/idf.py:632-635 | permutes the list; either nothing moved and every listed order dependency is done, or a missing one is in front |
| TaskOrder.RoundCases | resources/esp-idf/tools/idf.py:602-643 | a round is ready iff nothing was pulled, and then all dependencies are done; otherwise all tasks stay, only missing dependencies are added, and a missing one is in front |
| TaskOrder.RoundCovered | resources/esp-idf/tools/idf.py:602-643 | every round keeps: tasks run once each after their dependencies and requested order dependencies, inside the closure, with the objects requested |
| TaskOrder.RoundProgress | resources/esp-idf/tools/idf.py:602-643 | for acyclic commands every round lowers the measure: names not seen, list length, rank of the head |
| TaskOrder.DoRound | resources/esp-idf/tools/idf.py:602-643 | the body of the loop is one round and keeps the order and coverage invariants |
| TaskOrder.RunIsClosure | resources/esp-idf/tools/idf.py:600-643 | at the end the tasks run are exactly the dependency closure of the requested names |
| TaskOrder.RunsOut | resources/esp-idf/tools/idf.py:602-643 | without cycles some number of rounds empties the list |
| TaskOrder.EndsOnlyIfAcyclic | resources/esp-idf/tools/idf.py:602-643 | if some number of rounds empties the list, dependencies on the closure, and order dependencies on requested names, have a rank |
| TaskOrder.EndsIff | resources/esp-idf/tools/idf.py:602-643 | the loop ends iff there is such a rank, when order dependencies inside the closure are on requested names |
| TaskOrderOnly.OrderCycleEnds | resources/esp-idf/tools/idf.py:632-635 | `a c`, whose added tasks `x` and `y` are each to run after the other: never listed together, and the loop ends |
| TaskOrderOnly.OrderCycleNeverEnds | resources/esp-idf/tools/idf.py:632-635 | `a`, which adds `x` and `y` at once: the loop never ends, with no cycle through requested names |
| TaskOrder.CycleNeverEnds | resources/esp-idf/tools/idf.py:602-643 | two commands that depend on each other: the loop never ends |
| TaskOrder.ExecuteTasks | resources/esp-idf/tools/idf.py:600-660 | for acyclic commands the loop ends; each task of the closure runs once, after all its dependencies and after every requested order dependency; a requested name runs a requested task object |
| TaskRepeats.RoundIsStep | resources/esp-idf/tools/idf.py:602-643 | a round on task objects is a step on the list of distinct names |
| TaskRepeats.RoundRotates | resources/esp-idf/tools/idf.py:604-635 | a pull of a name rotates its objects, last to front; every other round leaves them as they are until one runs |
| TaskRepeats.MachineEnds | resources/esp-idf/tools/idf.py:602-643 | the steps on names end when the rounds do |
| TaskRepeats.WhichRuns | resources/esp-idf/tools/idf.py:600-643 | for every command list whose loop ends: of the objects given for a name the one as many places from the end, counted round, as the name was pulled; the first when it never was |
| TaskPulls.ZeroPullsIff | resources/esp-idf/tools/idf.py:602-643 | a requested name is never pulled iff no name requested before it reaches it through dependencies and requested order dependencies |
| TaskPulls.UnneededRunsFirst | resources/esp-idf/tools/idf.py:559-565 | the warning's promise, that the first occurrence is executed, whenever no name requested before it reaches the name |
| TaskPulls.PullsAreParents | resources/esp-idf/tools/idf.py:602-643 | the pulls of a name are its parents on one path of the graph, from the first requested name that needs it, each time to the last child that needs it, when order-only dependencies that need it were requested |
| TaskOrderOnly.AddedOrderPulls | resources/esp-idf/tools/idf.py:602-643 | `a b b` with an order-only dependency that was not requested: one parent on that path, two pulls, and the first `b` runs |
| TaskPulls.FirstTrailExists | resources/esp-idf/tools/idf.py:602-643 | when the loop ends there is such a path |
| TaskPulls.RepeatedNameRuns | resources/esp-idf/tools/idf.py:559-565 | which object of a repeated name runs, from the command list and the graph alone, under the same condition |
| TaskPulls.FirstOrLastRunsIff | resources/esp-idf/tools/idf.py:559-565 | under the same condition, of k objects the first runs iff the parents on that path are a multiple of k, the last iff they are one more |
| TaskPulls.SecondRuns | resources/esp-idf/tools/idf.py:559-565 | `a b b` where `a` depends on `b` runs the second `b`, against the warning |
| TaskPulls.FirstRunsAgain | resources/esp-idf/tools/idf.py:559-565 | `a b b` where `a` depends on `b` and `c`, and `c` on `b`, runs the first `b`: it is pulled twice |
| SplitPaths.SplitJoins | resources/esp-idf/tools/split_paths_by_spaces.py:148 | splitting at single spaces gives space-free parts that join back |
| SplitPaths.ChooseJoins | resources/esp-idf/tools/split_paths_by_spaces.py:184-211 | every mask gives a list that joins back to the source |
| SplitPaths.MaskOfChoose | resources/esp-idf/tools/split_paths_by_spaces.py:145-151 | the mask can be read off the list: different masks give different lists |
| SplitPaths.ChooseMaskOf | resources/esp-idf/tools/split_paths_by_spaces.py:145-151 | every non-empty list that joins back to the source arises from a mask below 2^spaces |
| SplitPaths.ReadingIffMask | resources/esp-idf/tools/split_paths_by_spaces.py:141-155 | the readings of a source and the masks correspond one to one |
| SplitPaths.GlueStep | resources/esp-idf/tools/split_paths_by_spaces.py:200-211 | one loop round of `selective_join` keeps the pending join |
| SplitPaths.SelectiveJoin | resources/esp-idf/tools/split_paths_by_spaces.py:184-211 | the loop computes the choice of the mask |
| SplitPaths.Search | resources/esp-idf/tools/split_paths_by_spaces.py:151-155 | the search collects exactly the accepted masks in order |
| SplitPaths.Judge | resources/esp-idf/tools/split_paths_by_spaces.py:157-181 | one, none or several candidates become success, no way, ambiguous, and mean one, no, several readings |
| SplitPaths.TrimmedOnce | resources/esp-idf/tools/split_paths_by_spaces.py:131-139 | a source has one form without spaces at its ends |
| SplitPaths.NonEmptyPicked | resources/esp-idf/tools/split_paths_by_spaces.py:153 | the paths kept are those of the list that are not empty, in order, each once |
| SplitPaths.PickedJoins | resources/esp-idf/tools/split_paths_by_spaces.py:153 | when the source has single spaces the paths kept join back to it |
| SplitPaths.SplitPathsBySpaces | resources/esp-idf/tools/split_paths_by_spaces.py:120-181 | sound and complete over the trimmed source: success with the non-empty paths of the only reading, in order, which join back to the source when its spaces are single; and a failure tells no reading from more than one |
| BitStream.ValueOfField | resources/esp-idf/tools/bsasm.py:819-830 | a field is read back modulo its width, negative values in two's complement |
| BitStream.ShiftIn | resources/esp-idf/tools/bsasm.py:822-824 | shifting the partial byte right and setting bit 7 appends a bit |
| BitStream.ContentPush | resources/esp-idf/tools/bsasm.py:821-830 | one round appends one bit, also across a byte border |
| BitStream.ReadBack | resources/esp-idf/tools/bsasm.py:807-837 | each field of any list of `add_bits` calls is found at the sum of the widths before it |
| BitStream.BitsOfAt | resources/esp-idf/tools/bsasm.py:807-830 | bit i of byte k is bit 8 k + i of the stream |
| BitStream.Stream.AddBit | resources/esp-idf/tools/bsasm.py:822-830 | the contents grow by exactly the bit |
| BitStream.Stream.AddBits | resources/esp-idf/tools/bsasm.py:819-830 | the contents grow by the field, least significant bit first |
| BitStream.Stream.SizeIsBits | resources/esp-idf/tools/bsasm.py:835-837 | the reported size is the number of bits |
| BitScrambler.OrDisjoint | resources/esp-idf/tools/bsasm.py:931-944 | or-ing parts without common bits adds them |
| BitScrambler.OpcodeIsWord | resources/esp-idf/tools/bsasm.py:924-944 | the or-ed opcode of every operation is its weighted sum of fields, for targets below 8 |
| BitScrambler.DecodeOpIff | resources/esp-idf/tools/bsasm.py:937-946 | the 26-bit opcode decodes to the operation meant iff the jump target is below 8; a label behind an eighth instruction resolves to 8 |
| BitScrambler.WideTargetIsLost | resources/esp-idf/tools/bsasm.py:937-946 | no 26-bit word means a jump to a target of 8 or more |
| BitScrambler.FindFlags | resources/esp-idf/tools/bsasm.py:899-914 | the nested pairwise checks fail iff no setting of the three shared bits serves all inputs; otherwise the bits found serve every input and the condition source at once and are clear where none asks for them |
| BitScrambler.EncodeWord | resources/esp-idf/tools/bsasm.py:915-961 | every instruction takes exactly 36 bytes holding its fields in order; the 257-bit error never fires |
| BitScrambler.EncodeInst | resources/esp-idf/tools/bsasm.py:890-961 | an instruction is refused iff no setting of the three shared bits serves all its lines and, for a conditional jump, its condition; otherwise its 36 bytes hold its fields with bits that serve all of these and are set only where every such choice sets them |
| BitScrambler.LowIsLow | resources/esp-idf/tools/bsasm.py:917-922 | unused lines select the input called low |
| BitScrambler.SplitWordReads | resources/esp-idf/tools/bsasm.py:915-961 | all fields of an instruction are read back at their places; only the opcode can lose bits |
| BitScrambler.DecodeEncodedIff | resources/esp-idf/tools/bsasm.py:890-961 | decoding gives back all 32 selections (fixed-low on unused lines), widths and shared bits, and the operation iff its target is below 8; no operation means adding zero to both counter halves |
| LittleEndian.GetOfPut | resources/esp-idf/tools/bsasm.py:963-964 | a packed number is read back modulo its width |
| BitProgram.CellAt | resources/esp-idf/tools/bsasm.py:846-865 | table entry j is at its place, modulo the table width |
| BitProgram.PadLut | resources/esp-idf/tools/bsasm.py:848-860 | the table is padded with fewer zeros than one word takes |
| BitProgram.PackBytes | resources/esp-idf/tools/bsasm.py:851-856 | 32-bit words of four 8-bit entries hold the same bytes as the entries |
| BitProgram.PackHalves | resources/esp-idf/tools/bsasm.py:860-863 | 32-bit words of two 16-bit entries hold the same bytes as the entries |
| BitProgram.PackLut | resources/esp-idf/tools/bsasm.py:846-865 | for all widths the words unpack to the zero-padded table |
| BitProgram.HeaderRead | resources/esp-idf/tools/bsasm.py:876-888 | versions, header length, counts, table width as a power of two bytes, and flags are read back from the 12 header bytes |
| BitProgram.ConcatAt | resources/esp-idf/tools/bsasm.py:961 | instruction k is found at byte 36 k |
| BitProgram.EncodeAll | resources/esp-idf/tools/bsasm.py:890-961 | all instructions are encoded, or the first that cannot be served stops the run |
| BitProgram.InstsToBinary | resources/esp-idf/tools/bsasm.py:841-966 | a program is refused for more than eight instructions, for a table of 65536 words or 8192 trailing bytes (the 16-bit fields overflow), or for clashing inputs, and for nothing else; the file is header, 36-byte codes, padded table |
| BitProgram.FileReadsBack | resources/esp-idf/tools/bsasm.py:890-966 | every instruction of an assembled file is decoded from its place to its selections, widths and operation, with bits that serve all its inputs; the table follows the last |
| DfuArchive.HexRoundTrip | resources/esp-idf/tools/mkdfu.py:61-62 | a number below 16^k is read back from k hexadecimal digits |
| DfuArchive.FieldReadsIff | resources/esp-idf/tools/mkdfu.py:61-62 | an 8-byte header field, the first eight hexadecimal digits, is read back iff the number is below 2^32 |
| DfuArchive.HeaderFields | resources/esp-idf/tools/mkdfu.py:58-82 | magic, file size and name size are found in the 110-byte header, each size iff it is below 2^32 |
| DfuArchive.HeaderRest | resources/esp-idf/tools/mkdfu.py:58-82 | the other fields: mode 0100644 in an entry, one link in the trailer, all else zero |
| DfuArchive.ReadBack | resources/esp-idf/tools/mkdfu.py:226-229 | an entry with sizes below 2^32 is read back by its own lengths and 4-byte padding, whatever follows |
| DfuArchive.WalkFinds | resources/esp-idf/tools/mkdfu.py:213-233 | walking an archive finds the items up to the first that bears the trailer's name |
| DfuArchive.WalkRecoversIff | resources/esp-idf/tools/mkdfu.py:191-211 | walking recovers all items in order and ends at the trailer iff no item is named `TRAILER!!!` |
| DfuArchive.PartsJoin | resources/esp-idf/tools/mkdfu.py:172-189 | the chunks of a file concatenate to it; all but the last have the part size and none is empty |
| DfuArchive.PartNameIs | resources/esp-idf/tools/mkdfu.py:187 | the first part bears the name of the file, part k that name, a point and k in decimal |
| DfuArchive.PartNamesDiffer | resources/esp-idf/tools/mkdfu.py:187 | the parts of a file have different names |
| DfuArchive.FileRecovered | resources/esp-idf/tools/mkdfu.py:184-189 | the data of the entries made from one file concatenate to the file |
| DfuArchive.InfoAt | resources/esp-idf/tools/mkdfu.py:184-189 | part k is indexed at the base address plus the bytes before it, under the name of part k |
| DfuArchive.ItemAt | resources/esp-idf/tools/mkdfu.py:184-189 | entry k of a file has the name of part k and its bytes |
| DfuArchive.ReadRecordIff | resources/esp-idf/tools/mkdfu.py:194 | an index record is read back iff the name fits 64 bytes and has no zero byte |
| DfuArchive.RecordAt | resources/esp-idf/tools/mkdfu.py:194 | record k of the index file is at byte 88 k |
| DfuArchive.EntriesAreArchive | resources/esp-idf/tools/mkdfu.py:201-202 | the joined entries with the trailer are the archive of the items |
| DfuArchive.SealedShape | resources/esp-idf/tools/mkdfu.py:201-211 | the file starts with the archive, is filled with zeros to a multiple of 10240, and ends in 16 bytes: device, product, vendor and format numbers, the signature, its own length and the inverted CRC of all bytes before |
| DfuArchive.IndexComesFirstIff | resources/esp-idf/tools/mkdfu.py:191-199 | walking the file finds the index file first and then all items in order iff no item is named like the trailer |
| DfuArchive.PackIndex | resources/esp-idf/tools/mkdfu.py:194 | the index packs iff all addresses and flags fit 32 bits |
| DfuArchive.FlashParamsRead | resources/esp-idf/tools/mkdfu.py:158-168 | the eight words of the parameter record: zero three times, chip size, 64 kB blocks, 4 kB sectors, 256-byte pages, status mask |
| DfuArchive.NamesAndFlags | resources/esp-idf/tools/mkdfu.py:34-115 | magic, trailer and file names letter by letter, and the three flags of the parameter record |
| DfuArchive.DfuWriter.AddFlashEntry | resources/esp-idf/tools/mkdfu.py:213-224 | one item and its index record are appended |
| DfuArchive.DfuWriter.AddFile | resources/esp-idf/tools/mkdfu.py:172-189 | the reading loop appends exactly the parts of the file, each at its own address |
| DfuArchive.DfuWriter.AddFlashParams | resources/esp-idf/tools/mkdfu.py:149-170 | the 32-byte parameter record is appended at address 0 with its three flags |
| DfuArchive.DfuWriter.Finish | resources/esp-idf/tools/mkdfu.py:191-211 | a file is written iff index and product number fit their fields, and it is the sealed archive of the index file and all items |
| DfuArchive.WriteArchive | resources/esp-idf/tools/mkdfu.py:236-243 | a whole archive from a list of files: walking the output finds the index, the parameters and the file parts in index order iff no name is the trailer's |
| Fnv1a.Checksum | firmware/esp32s3-idf/src/util/hash.rs:2-9 | the loop computes the fold of the step over the bytes |
| Fnv1a.KnownValues | firmware/esp32s3-idf/src/util/hash.rs:2-9 | the published checksums of the empty text, "a" and "b" |
| Fnv1a.StepIsBijective | firmware/esp32s3-idf/src/util/hash.rs:5-6 | each step has an inverse on 32-bit states (899433627 inverts the prime) |
| Fnv1a.FoldSeparatesStates | firmware/esp32s3-idf/src/util/hash.rs:5-7 | the same bytes take different states to different states |
| Fnv1a.ShortTearShowsIff | firmware/esp32s3-idf/src/util/hash.rs:2-9 | two equal-length buffers that differ only inside three neighbouring bytes have equal checksums iff they are equal |
| Fnv1a.OneByteTearShows | firmware/esp32s3-idf/src/util/hash.rs:2-9 | buffers that differ in exactly one byte have different checksums |
| Fnv1a.FourByteTearCanHide | firmware/esp32s3-idf/src/util/hash.rs:2-9 | two buffers that differ in four neighbouring bytes with one checksum: three is the limit |
| Encoder.MoveIsSeenIff | firmware/messenger_mouse/src/encoder.rs:62-74 | a move changes the count by the true displacement iff it is below half a turn, or exactly half a turn inside one turn |
| Encoder.CountIsPosition | firmware/messenger_mouse/src/encoder.rs:77-79 | the count is the position in 32-bit arithmetic, and the position itself when that fits |
| Encoder.StepTracks | firmware/messenger_mouse/src/encoder.rs:62-74 | one reading after a move below half a turn stands for the new position |
| Encoder.SlowIff | firmware/messenger_mouse/src/encoder.rs:62-74 | the runs meant are those in which every single move is below half a turn |
| Encoder.RunTracks | firmware/messenger_mouse/src/encoder.rs:62-74 | the same over runs of any length and any number of turns either way |
| Encoder.FirstReadingIff | firmware/messenger_mouse/src/encoder.rs:57-74 | the first reading after homing counts as the one number in (-8192, 8192] that shows this reading |
| Encoder.HomedRunTracks | firmware/messenger_mouse/src/encoder.rs:57-79 | after homing the count is that number plus the true displacement since |
| Encoder.EncoderData.Update | firmware/messenger_mouse/src/encoder.rs:62-74 | the method updates angle and turns as the step function says |
| Encoder.EncoderData.AbsoluteCount | firmware/messenger_mouse/src/encoder.rs:77-79 | the count is the 32-bit position, for every true position that the data stand for |
| Encoder.LostHomeKeepsCounting | firmware/messenger_mouse/src/encoder.rs:114-121 | over every run of readings, homings and losses of home: the data count the readings since the last homing, also while home is lost, and the state is valid iff the last homing or loss was a homing |
| Encoder.EncoderState.OnHomed | firmware/messenger_mouse/src/encoder.rs:114-117 | the method is the homing step of those runs |

## Left out

- Guards before the scheduler has started and `static_init_prepare`: start-up plumbing; the mutex and semaphore exist in every modelled state.
- Guards as methods: a blocking call has no sequential meaning, so the two loops are steps of the transition system. Tasks in the wake-up results number at most the semaphore's capacity INT_MAX.
- Liveness of the guards under a fair scheduler.
- Up-buffer, block swap and flush of `app_trace_membufs_proto.c`: the two host blocks add only size bookkeeping; a swap enters the model as an event that delivers a block or fails.
- The waiting loop of the down buffer ends with the listed events, where the original would wait on.
- OTA handle list lookup, argument and partition checks, `esp_ota_resume`, `esp_ota_write_with_offset`, `esp_ota_set_final_partition` and the final copy; image verification is a boolean parameter. Bytes written stay below 2^32, and the sector size is a multiple of 16, for up-front erases a power of two below 2^32, as on the supported chips.
- Failed flash accesses: a failed erase or write is modelled as changing nothing; half-done ones are left out. Flash with encryption refuses writes that are not whole 16-byte blocks; partitions that are not readable or writable are left out.
- Boot selection: the CRC and the default partition search are abstract, `seq_label` is ignored, selecting the factory partition and rollback states other than those a selection writes are not modelled. Interrupted writes other than between erase and write are not modelled.
- SplitArgv.Split: asks for `argv_size` of at least 1 and a terminated line, as the original does of its callers; with 0 the limit wraps around.
- Task callbacks, option propagation and printing of `idf.py`. Task names are canonical.
- TaskOrder.EndsIff: asks that order-only dependencies inside the closure are on requested names; without that, an order-only cycle may be met or not, depending on which names happen to be listed (`OrderCycleEnds`, `OrderCycleNeverEnds`). `EndsOnlyIfAcyclic` needs no such condition, and `RunsOut` counts every order-only dependency inside the closure.
- TaskPulls.PullsAreParents: asks that order-only dependencies that need the repeated name are on requested names, without which the count differs (`AddedOrderPulls`); `WhichRuns` and `ZeroPullsIff` need no such condition.
- OtaBoot.RunBootsExpected: covers runs short enough for the sequence number not to reach the blank marker; `SelectThenBootIff` says what happens there.
- OtaBoot.ComputeOtaSeq: asks that the search ends; `SearchBootsIff` and `SearchEndsIff` say when it does.
- Warnings and messages of `split_paths_by_spaces.py`; the existence test is a parameter.
- Text parsing of the BitScrambler assembler (`bsasm_parse`, `parse_input`) and its range checks on operands: parsed instructions are the input.
- MD5 and CRC32 are function parameters of the DFU writer; argument parsing, sorting by address and file access are left out, and addresses are not negative.
- Encoder arithmetic wraps at 32 bits, as in a release build; a debug build would panic there. Positions in millimetres and the approximate equality use floating point and are left out, as is communication error handling.
- Camera frame hand-off, the networking, storage and motor drivers, and the command-line tools around the modelled functions: peripheral plumbing.
