# Verified models of the PW-Sat2 flight software

PW-Sat2 is the on-board software of a small satellite. This project models the parts of it that keep memory, stored
data, programs and protocols right, and proves what they are for. The Dafny files follow the program's components:

- `Words.dfy`: machine words as natural numbers, with the bitwise operators of C and their meaning bit by bit.
- `Heap.dfy`: the first-fit coalescing heap. The methods walk and relink block headers in a map from addresses; a ghost
  sequence of blocks tiles the heap, and the laws of the heap are lemmas about such tilings.
- `Ecc.dfy`, `Nand.dfy`: the Hamming code of NAND pages, and the geometry, slices and chunk loops of the driver above it.
- `Experiments.dfy`: the experiment controller as a transition system of a background task, the mission loop and
  commanders.
- `Redundancy.dfy`, `Flash.dfy`, `BootTable.dfy`, `ProgramScrubber.dfy`, `BootloaderScrubber.dfy`: voting over copies,
  a NOR flash that only clears bits when programmed, and the two scrubbers under upsets and power loss.
- `BootSettings.dfy`, `Boot.dfy`, `ProgramBoot.dfy`: the settings in FRAM, the choice, loading and recovery of what is
  booted, and that what scrubbing keeps is what is booted.
- `BitWriter.dfy`, `Downlink.dfy`, `Crc.dfy`: bit-packed serialisation, downlink headers and their ground-side inverse,
  and the CRC-16 in its shift-and-fold, table-driven and polynomial forms. The generator is that of ITU-T V.41, section 2,
  with initial value 0.
- `Comms.dfy`, `Photo.dfy`, `Adcs.dfy`, `Xmodem.dfy`: the telecommand ring, the photo buffers, the attitude control
  coordinator and the XMODEM receiver of the bootloader.

`dafny verify dfyconfig.toml` checks the whole project.

Code that changes state is modelled by classes and methods with the fields, loops and branches of the source; a
specification function or a ghost history says what each method does, and the laws are proved about those. Threads and
interrupts are transition systems whose steps are the atomic calls of the source. What the surroundings decide (locks,
clock readings, answers of devices and cameras, how much a file system takes, which bytes arrive, when the power fails)
is a parameter; only what a failed or interrupted write leaves behind, and memory before it is written, is arbitrary.

## What turned out not to hold

- `Boot.BoundedRecovery`: ten unconfirmed boots lead to safe mode, except when the stored counter is one behind the last
  confirmed one. The unsigned difference is then 2^32 - 1, counts as "ten boots not confirmed", and wraps to 0 when that
  boot is counted. The theorem states the exact condition; `Boot.EscapeArises` gives settings that meet it.
  `Boot.TwelveBootsSuffice` is the bound that holds without any condition.
- `Nand.ChunkRoundTrip`: the page driver takes a stored code word of all ones for a blank page and skips the correction
  (`libs/storage/nand.cpp:228`). Such a code word also belongs to real data (`Nand.BlankCodeWordArises`), so a flip in
  such a page is handed out uncorrected. The theorem says exactly when the data comes back.
- `Nand.PartitionsExactly`: slices partition an operation exactly when the page count fits 16 bits and the sizes do not
  overflow the signed difference; operations within a chunk always do. `Nand.OverflowArises` is an operation that does
  not.
- `Nand.ChunksFillBlocks`: chunks stay within their blocks exactly when the pages of a block are a multiple of the pages of
  a chunk; otherwise the first chunk of the second block already starts in the block before it (`Nand.MisfitArises`).
- `Experiments.SnapshotConsistent`: the 32-bit iteration counter returns to 0 after 2^32 iterations, so "counter 0 means
  no iteration result" holds exactly until then.
- `Boot.MaskChecksAgree`: a mask may be accepted when it is set and yet never boot, or the reverse, because one check
  ignores the two upper bits and the other counts them. The condition is exact; `Boot.MaskChecksDiffer` gives a mask of
  either kind.
- `Boot.EndlessExactly`: the loader does not end for voted lengths above 0xFFFFF000, which the 32-bit offset never reaches;
  for every other length it does. `Boot.EndlessLoadArises` is a flash that leads there: the valid mark is programmed even
  when programming the length failed (`libs/obc/communication/telecommands/program_upload.cpp:251-253`).
- `ProgramBoot.BootableExactly`: the program that three slots vote for survives every tolerable run, but the marks of the
  slots are compared one by one, so slots may be refused although they vote for a valid entry. They are accepted exactly
  when at most one mark is wrong; `ProgramBoot.MarksLostArises` is a run after which two are.
- `ProgramScrubber.SurvivesPowerLoss`: with three copies a power loss during a scrub can lose a program that a completed
  scrub would have repaired. It is safe exactly when the other two slots were right in that window at that time
  (`ProgramScrubber.PowerLossBreaks` is an input for which they were not).
- `Xmodem.LostAnswerBlocks`: the receiver refuses a block it already has instead of acknowledging it again, so a transfer
  whose acknowledgement is lost stays safe but never completes. `Xmodem.CanComplete` is the exact condition and
  `Xmodem.LevelWhenAnswered` says when it holds; `Xmodem.LostAnswerArises` is a transfer that loses it.
- `BootloaderScrubber.Scrubber.GetStatus`: the bootloader scrubber reports an iterations count that its code never
  increments, so it is right exactly until the first completed scrub (`BootloaderScrubber.Scrubber.MiscountArises`).

## Model

| member | source | states |
|---|---|---|
| Heap.Allocator.Malloc | unit_tests/base/heap.c:69-200 | Refused requests and requests no free block holds return NULL and change nothing; any other takes the front of the lowest-address block that fits. With the invariant kept the headers, the free count and the minimum-ever count are those of all requests served so far, and nothing is written inside a live block |
| Heap.Allocator.FindBlock | unit_tests/base/heap.c:116-130 | The walk stops at the first block of the list that is large enough, or at the end marker |
| Heap.Allocator.Free | unit_tests/base/heap.c:203-246 | Freeing a live pointer releases its block and joins it with its free neighbours; NULL and headers without the allocated bit change nothing; the minimum-ever count stays, and nothing is written inside a live block |
| Heap.Allocator.HeapInit | unit_tests/base/heap.c:267-312 | One free block covers the aligned heap up to pxEnd, and the free and minimum-ever counts are its size |
| Heap.Allocator.InsertBlockIntoFreeList | unit_tests/base/heap.c:315-373 | The header writes turn the linked free list into the list with the block inserted in address order and joined with the neighbours it touches |
| Heap.RunsKeepTiling | unit_tests/base/heap.c:69-246 | Over any sequence of requests and frees the blocks tile the heap exactly, no two free neighbours exist, and live plus free bytes stay the size of the heap |
| Heap.LeastFreeOverPrefixes | unit_tests/base/heap.c:166-170 | The minimum-ever count that the allocator keeps over a run is the least free count after any prefix of the requests, and one prefix attains it |
| Heap.ReleaseIsInsert | unit_tests/base/heap.c:221-234 | Coalescing in the tiling is exactly insertion with joining in the free list, and no other live block changes |
| Heap.ReleaseKeepsTiling | unit_tests/base/heap.c:315-373 | Freeing keeps an exact tiling without free neighbours |
| Heap.CarveKeepsTiling | unit_tests/base/heap.c:136-178 | Splitting or taking a block keeps an exact tiling without free neighbours |
| Heap.CarveTakesBytes | unit_tests/base/heap.c:142-164 | The free count drops by exactly the size of the block handed out |
| Heap.AllocTakes | unit_tests/base/heap.c:100-164 | A request granted from the lowest block that fits takes exactly its adjusted size from the start of that block, or the whole block if at most 16 bytes would be left; the rest stays free directly behind it, no other block changes, and the free count falls by as much |
| Heap.NextRequestFits | unit_tests/base/heap.c:142-158 | In a fresh heap the next request is served from directly behind the first |
| Heap.ReleaseReturnsBytes | unit_tests/base/heap.c:231-233 | The free count grows by exactly the size of the block freed |
| Heap.GrantedExactly | unit_tests/base/heap.c:90-134 | For every tiling: NULL exactly when the request is refused or no single free block holds the adjusted size; otherwise the lowest-address such block serves it |
| Heap.GrantedAligned | unit_tests/base/heap.c:100-110 | Granted pointers are aligned and the adjusted size is the least aligned size with room for the header |
| Heap.FirstFitInList | unit_tests/base/heap.c:120-134 | The first fit on the linked list is the lowest-address fit of the tiling |
| Heap.CoalescedTilingUnique | unit_tests/base/heap.c:315-373 | The live blocks alone determine a coalesced tiling, so the free list does not depend on how the heap got there |
| Heap.DisposeUndoesAlloc | unit_tests/base/heap.c:69-246 | Freeing the pointer just returned restores the identical tiling, hence free list and free count |
| Heap.ReleaseOrderIrrelevant | unit_tests/base/heap.c:203-246 | Freeing the same pointers in any two orders leaves the same heap |
| Heap.ReleaseEverything | unit_tests/base/heap.c:203-246 | Freeing every live block, in any order, restores the single initial block |
| Ecc.EccCalc | libs/base/ecc.cpp:46-93 | The incremental parity loops compute the code word: bit 2j + v is the exclusive-or of all data bits whose address bit j is v |
| Ecc.EccWordUnique | libs/base/ecc.cpp:46-93 | Every buffer has exactly one code word |
| Ecc.EccCorrect | libs/base/ecc.cpp:3-44 | The decoder returns the verdict and leaves the data that the syndrome prescribes |
| Ecc.NoErrorFound | libs/base/ecc.cpp:9-12 | Without a flip the verdict is NoError and nothing changes |
| Ecc.SingleDataErrorCorrected | libs/base/ecc.cpp:14-28 | Any single flipped data bit of any buffer of power-of-two length up to 512 is Corrected and the buffer restored exactly |
| Ecc.SingleEccErrorRecognised | libs/base/ecc.cpp:30-41 | A single flipped code bit is Corrupted and the data is untouched |
| Ecc.DoubleDataErrorDetected | libs/base/ecc.cpp:9-43 | Any two flipped data bits are NotCorrected and the data is untouched |
| Ecc.DoubleEccErrorDetected | libs/base/ecc.cpp:9-43 | Any two flipped code bits are NotCorrected and the data is untouched |
| Ecc.MixedErrorDetected | libs/base/ecc.cpp:9-43 | One flipped data bit with one flipped code bit is NotCorrected and the data is untouched |
| Ecc.FlipParityUpTo | libs/base/ecc.cpp:61-92 | A flipped bit changes, for each address bit, exactly the parity of its own half |
| Ecc.DecodedAddress | libs/base/ecc.cpp:16-24 | The shuffled syndrome bits spell the byte and bit number of the flipped bit |
| Ecc.DecoderTests | libs/base/ecc.cpp:9-20 | The mask test of the decoder holds exactly when one of each pair of parities disagrees |
| Nand.ChunksFillBlocks | libs/storage/nand_calculator.cpp:4-19 | With the calculated sizes every chunk of every block lies within the block that an erasure clears exactly when whole chunks fill a block |
| Nand.MisfitArises | libs/storage/nand_calculator.cpp:4-19 | A concrete geometry, with its sizes calculated, whose first chunk of block 1 starts in block 0 |
| Nand.ChunkInBlock | libs/storage/nand_calculator.cpp:4-19 | Then the chunks of a block follow each other from its start without gap or overlap |
| Nand.PartitionsExactly | libs/storage/nand_calculator.cpp:21-89 | The slices of pages 0 to the affected page count partition the data and the spare range, in order and without gap or overlap, exactly when no size or count overflows its C type |
| Nand.ChunksRepresentable | libs/storage/nand_calculator.cpp:21-89 | Operations within one chunk of any geometry never overflow, so they always partition |
| Nand.ReadChunk | libs/storage/nand_driver.cpp:10-73 | The read loop returns what the pages and the status of each single device call prescribe: bytes, verdict and the page at which it stops |
| Nand.ReadsWell | libs/storage/nand_driver.cpp:34-72 | A read succeeds exactly when no page call fails, no page is unrepairable and no spare call fails, and then reports FIXED exactly when a page was repaired |
| Nand.FirstUnreadable | libs/storage/nand_driver.cpp:41-72 | The first page that cannot be read makes the read fail: with UNFIXED if its data cannot be repaired, else with the fixes so far |
| Nand.DamagedPageUnfixed | libs/storage/nand_driver.cpp:49-52 | A page with one flipped code bit or two flipped bits of any kind, and no blank code word, makes the read fail with UNFIXED unless an earlier call or its own fails |
| Nand.DamagedOutcome | libs/storage/nand.cpp:228-246 | Such a page is answered with CHECKSUM_CORRUPTED or ERROR_NOT_CORRECTED and its bytes as they were read |
| Nand.WriteChunk | libs/storage/nand_driver.cpp:75-123 | The write loop programs each page with its own parts of data and spare and touches no other page; it fails exactly when a call does, at the first such page, with the pages before it written and those after it untouched |
| Nand.ReadStored | libs/storage/nand_driver.cpp:34-72 | Reading a stored chunk succeeds, hands out the recovered bytes and the spare, and reports FIXED exactly when some page was repaired |
| Nand.HandedOutExactly | libs/storage/nand.cpp:222-247 | The bytes handed out are the original ones exactly when no flipped page carries the code word that reads as blank |
| Nand.ChunkRoundTrip | libs/storage/nand_driver.cpp:10-123 | After WriteChunk and at most one data-bit flip per page ReadChunk returns OK with the spare as written, and with the data as written exactly when no flipped page has the all-ones code word; FIXED exactly when some page was repaired |
| Nand.UndamagedRoundTrip | libs/storage/nand_driver.cpp:10-123 | Without an upset the data and spare written are read back exactly, with no fix reported, whatever the code words |
| Nand.BlankCodeWordArises | libs/storage/nand.cpp:228-231 | A concrete page whose own code word is all ones: a flip in it is read as OK and handed out uncorrected |
| Nand.OverflowArises | libs/storage/nand_calculator.cpp:21-47 | A concrete operation whose page count is truncated to 0, so that its slices do not partition it |
| Experiments.RunKeepsInvariant | libs/experiments/experiments.cpp:43-210 | Every step of every thread, in every interleaving, keeps the invariant behind the four laws below |
| Experiments.NoLostWakeup | libs/experiments/experiments.cpp:117-153 | In every run a waiting background task has the notification requested, the iteration started or the abort bit set, or the mission loop between consuming and setting; a started wakeup comes from a set after the clear of that iteration |
| Experiments.WokenByMissionLoop | libs/experiments/experiments.cpp:188-195 | Whatever else happens, two calls of NotifyLoopIterationStart let a waiting task go on |
| Experiments.StopOncePerStart | libs/experiments/experiments.cpp:97-159 | In every run Stop is called exactly once after each successful Start, before anything else starts, and never after a failed one |
| Experiments.CallsFollow | libs/experiments/experiments.cpp:100-156 | In every run a Finished or Failure result is followed by Stop with that result; any other by the next iteration of the same experiment, after WaitForNextCycle only once 'started' was set, or by Stop with Failure after an abort |
| Experiments.WaitsWhenAsked | libs/experiments/experiments.cpp:116-153 | The task waits only after an iteration that returned WaitForNextCycle and stops only for a final result or an abort; the record shows the last result; only known experiments run |
| Experiments.NotifiesWhenAsked | libs/experiments/experiments.cpp:143-195 | In every run the mission loop sets 'started' at most once for each notification that was requested |
| Experiments.StartsRequested | libs/experiments/experiments.cpp:176-186 | A start queues the experiment requested last, in place of any queued before, and clears the request |
| Experiments.AbortStopsSoon | libs/experiments/experiments.cpp:116-153 | At most one further iteration begins after an abort is set during a run |
| Experiments.SnapshotConsistent | libs/experiments/experiments.cpp:197-210 | In every locked snapshot the counter is 0 for no iteration result exactly when the 32-bit counter has not wrapped to 0, and a positive counter implies a successful start |
| Experiments.CounterWraps | libs/experiments/experiments.cpp:131-135 | A run of the requested experiment with any number of iterations, so that the wrap of the counter is reachable |
| Redundancy.Correct3Majority | libs/base/Include/redundancy.hpp:40-44 | Every bit of the three-way formula is the majority of the three bits |
| Redundancy.Correct5Majority | libs/base/Include/redundancy.hpp:56-61 | Every bit of the ten-term five-way formula is the majority of the five bits |
| Redundancy.Correct3Bytes | libs/base/Include/redundancy.hpp:40-44 | Voting on words votes on each of their bytes |
| Redundancy.CorrectBuffer | libs/base/redundancy.cpp:69-101 | Accepts exactly equal lengths that are multiples of four and aligned buffers; then the output is the bytewise vote, otherwise it is unchanged |
| Redundancy.CorrectBufferInPlace | libs/base/redundancy.cpp:5-32 | The same, with the first buffer voted on and overwritten in place |
| Redundancy.CorrectBuffer5 | libs/base/redundancy.cpp:34-67 | The same for five buffers |
| ProgramScrubber.DecodeSlotsMask | libs/scrubber/program.cpp:17-35 | The first three slots of a mask in ascending order, missing ones 0 |
| BootTable.ThreeSlots | libs/scrubber/program.cpp:17-35 | A mask of three slots is decoded to exactly those slots |
| ProgramScrubber.Scrubber.ScrubSlots | libs/scrubber/program.cpp:49-117 | Completed with the lock, the window of each slot becomes the vote of the three, nothing else changes, the offset moves on cyclically and the counters count; without the lock nothing changes; stopped by a power loss, the slots before the current one hold the vote, those after it what they held and only the window of the current one is arbitrary |
| ProgramScrubber.WrongCounts | libs/scrubber/program.cpp:80-103 | The number added to the corrected slots is that of the three windows that are not the vote |
| ProgramScrubber.ImageSurvives | libs/scrubber/program.cpp:49-117 | Over any run of scrubs and upsets in which, between two visits to a window, each bit position is upset in at most one slot, the three slots vote for the original program |
| ProgramScrubber.SurvivesPowerLoss | libs/scrubber/program.cpp:92-108 | After a power loss while a slot is rewritten the three vote for the image, whatever the slot holds, exactly when the window was right in the other two at that time |
| ProgramScrubber.PowerLossBreaks | libs/scrubber/program.cpp:92-108 | Two upsets in different slots that a completed scrub repairs and an interrupted one may turn into a wrong vote |
| ProgramScrubber.FullPassRepairs | libs/scrubber/program.cpp:100-107 | From any offset, as many upset-free successful scrubs as there are windows make all three slots equal to the original |
| ProgramScrubber.PassCleans | libs/scrubber/program.cpp:100-107 | After n successful scrubs the n windows after the starting offset hold no upset bit |
| BootloaderScrubber.Scrubber.Scrub | libs/scrubber/bootloader.cpp:27-98 | Stopped at any flash command it leaves the copies before the current one repaired, those after it untouched and the current one arbitrary; the MCU area changes only once all copies hold the image, and then its sectors before the current one hold the image and those after it are as they were; completed, all five copies and the MCU area are the voted image and both counters count; without the lock memory and counters stay; the iterations count never changes |
| BootloaderScrubber.WrongCopiesCount | libs/scrubber/bootloader.cpp:54-73 | The number added to the corrected copies is that of the five copies that are not the vote |
| BootloaderScrubber.WrongSectorsCount | libs/scrubber/bootloader.cpp:79-95 | The number added to the corrected MCU pages is that of the sectors that are not the image |
| BootloaderScrubber.Scrubber.GetStatus | libs/scrubber/bootloader.cpp:100-104 | The reported number of iterations is the number of completed scrubs exactly as long as there was none |
| BootloaderScrubber.Scrubber.MiscountArises | libs/scrubber/bootloader.cpp:27-104 | After one completed scrub the report still says none |
| BootloaderScrubber.Scrubber.ScrubRepeatedly | libs/obc/scrubbing/scrubbing.cpp:59-96 | After any number of completed scrubs the iterations count is still what it was, 0 |
| BootloaderScrubber.VoteRecovers | libs/scrubber/bootloader.cpp:58-60 | If one copy holds anything, those before it the image and no bit is wrong in two of the later ones, the five still vote for the image |
| BootloaderScrubber.SurvivesExactly | libs/scrubber/bootloader.cpp:58-85 | However a scrub is interrupted the five copies vote for the image exactly when they do so now and behind every wrong copy no bit is wrong in two copies |
| BootloaderScrubber.OneWrongSurvives | libs/scrubber/bootloader.cpp:58-60 | That is so when no bit is wrong in two copies |
| BootloaderScrubber.InterruptedScrubs | libs/scrubber/bootloader.cpp:72-85 | It stays so over any number of scrubs each interrupted anywhere, with upsets between them that leave it so |
| BootloaderScrubber.CompletedAfterInterruptions | libs/scrubber/bootloader.cpp:40-95 | A scrub that completes after any such run leaves the original image in all five copies |
| Flash.Device.Rewrite | libs/drivers/program_flash/Include/program_flash/flash_driver.hpp:151-168 | Erasing and programming a sector leaves exactly the data in it and nothing else changed, although programming only clears bits |
| Flash.ProgrammingClears | libs/drivers/program_flash/Include/program_flash/flash_driver.hpp:151-168 | Programming a cell only clears bits |
| BootSettings.DoubleWordRoundTrip | libs/boot_settings/settings.cpp:103-125 | A 32-bit field is read back as it was written |
| BootSettings.Settings.SetBootSlots | libs/boot_settings/settings.cpp:77-81 | Only the slots field changes; success is reported exactly when the getter will return the value |
| BootSettings.Settings.SetFailsafeBootSlots | libs/boot_settings/settings.cpp:97-101 | Only the failsafe field changes; success is reported exactly when the getter will return the value |
| BootSettings.Settings.SetBootCounter | libs/boot_settings/settings.cpp:116-125 | Only the counter field changes; success is reported exactly when the getter will return the value |
| BootSettings.Settings.MarkAsValid | libs/boot_settings/settings.cpp:127-133 | Only the magic number changes and is then right |
| BootSettings.Settings.ConfirmBoot | libs/boot_settings/settings.cpp:145-157 | The last confirmed counter becomes the boot counter, or 0 without the magic number, and no other field changes |
| BootSettings.Settings.Erase | libs/boot_settings/settings.cpp:159-165 | Afterwards the getters answer with their defaults |
| Boot.BoundedRecovery | boot/boot.cpp:177-315 | For any marks in each boot, unconfirmed boots reach safe mode by boot number max(0, 10 - d) + 2, with d the unsigned difference of the counters, exactly when d is not 2^32 - 1 with both next boots counting from a different, valid failsafe below the counter top |
| Boot.TwelveBootsSuffice | boot/boot.cpp:177-315 | From any settings without the upper slot, the escape included, safe mode is booted within twelve unconfirmed boots |
| Boot.EscapeArises | boot/boot.cpp:191-216 | Concrete settings for which the bound fails |
| Boot.BootApproaches | boot/boot.cpp:177-315 | Every boot that is not into safe mode leaves fewer boots, unless the difference of the counters wraps |
| Boot.SafeModeAbsorbs | boot/boot.cpp:181-184 | Stored safe mode stays stored and is booted in every later boot |
| Boot.ConfirmedBootsKeepSlots | boot/boot.cpp:296-308 | With each boot confirmed and valid slots the n-th boot boots the same slots while counter + n is below the top and safe mode when it reaches it |
| Boot.BootsWhatIsStored | boot/boot.cpp:248-314 | Only safe mode, upper or slots that are bootable are booted, and they are the ones stored |
| Boot.FallsBack | boot/boot.cpp:276-295 | Primary slots that are not bootable give way to the failsafe ones, stored and booted when these are bootable; only otherwise it is safe mode; the boot is not counted |
| Boot.BootableMeans | boot/boot.cpp:218-240 | Slots are bootable when three bits are set and at least two of the three slots are marked valid |
| Boot.UpperBoots | boot/boot.cpp:270-275 | The upper slot is booted and counted whatever the marks |
| Boot.SafeModeBoots | boot/boot.cpp:248-269 | Without the magic number, or with safe mode stored, safe mode is booted and nothing changes |
| Boot.TenUnconfirmed | boot/boot.cpp:196-215 | After ten unconfirmed boots the failsafe slots are stored and booted if they differ and are bootable, else safe mode, with the reason and the counter |
| Boot.FailsafeArises | boot/boot.cpp:276-286 | Concrete settings and marks for which the failsafe slots are booted |
| Boot.MaskChecksAgree | libs/boot_settings/settings.cpp:167-181 | When a mask may be set and when it may boot agree exactly if neither upper bit is set, or the slot bits make three neither alone nor with the upper bits |
| Boot.MaskChecksDiffer | libs/boot_settings/settings.cpp:167-181 | A mask that may be set and never boots, and one that is refused and could boot |
| Boot.ToSlotNumbers | boot/boot.cpp:142-161 | The first three of the six slot bits in ascending order, missing ones 0 |
| Boot.Bootloader.IsBootSlotsValid | boot/boot.cpp:218-240 | True exactly for three-bit masks whose slots are mostly marked valid |
| Boot.Bootloader.ResolveFailedBoot | boot/boot.cpp:177-216 | The slots after ten unconfirmed boots, with the reason |
| Boot.Bootloader.LoadApplicationTMR | boot/boot.cpp:84-140 | Every address of the internal flash that a page of the voted length belongs to, in 32-bit arithmetic, gets the voted byte and no other changes; the loop ends exactly when its guard fails at some turn |
| Boot.EndlessExactly | boot/boot.cpp:114-114 | The guard holds at every turn, the 32-bit offset wrapping around, exactly for lengths above 0xFFFFF000 |
| Boot.LaterRoundsWriteNothing | boot/boot.cpp:114-135 | After a whole round every page compared is right, so an endless loop writes nothing more |
| Boot.EndlessLoadArises | boot/boot.cpp:84-140 | Entries marked valid whose length was never programmed are chosen for booting and loading them never ends |
| Boot.ProgramInPlace | boot/boot.cpp:114-135 | A program that stays below the top of the address space lies at the base of the application, and the rest of the flash is as it was |
| Boot.PagesHold | boot/boot.cpp:114-114 | The pages loaded hold the length and are no more than needed |
| Boot.Bootloader.ProceedWithBooting | boot/boot.cpp:248-315 | Settings, booted slots, reason, address and loaded program agree with the decision the laws above are about, for every content of settings and flash |
| ProgramBoot.LoadsOriginal | boot/boot.cpp:84-140 | Loading three slots after any run of scrubs and tolerable upsets loads the original program over its original length |
| ProgramBoot.LengthVoted | boot/boot.cpp:92-94 | The length the bootloader votes for is that of the program the three slots vote for |
| ProgramBoot.ContentVoted | boot/boot.cpp:114-122 | Every byte of content it votes for is that of the program the three slots vote for |
| ProgramBoot.BootableExactly | boot/boot.cpp:218-240 | Slots may boot exactly when at most one of their marks is wrong, whatever the marks vote for |
| ProgramBoot.MarksLostArises | boot/boot.cpp:218-240 | Two tolerable upsets after which the slots vote for the original entry, with its mark, and are refused |
| BitWriter.Writer.UpdateStatus | libs/base/BitWriter.cpp:55-60 | Success and validity mean: valid so far, length within its limit, and room in the buffer |
| BitWriter.Writer.PutWord | libs/base/BitWriter.cpp:106-125 | The low bits of the value follow those already written; bytes before and after are untouched |
| BitWriter.Writer.WriteWord | libs/base/BitWriter.cpp:127-140 | Appends exactly the low bits of the value, or fails and changes no data |
| BitWriter.Writer.WriteDoubleWord | libs/base/BitWriter.cpp:142-159 | The same in two chunks |
| BitWriter.Writer.WriteQuadWord | libs/base/BitWriter.cpp:161-190 | The same in up to four chunks |
| BitWriter.Writer.WriteSpan | libs/base/BitWriter.cpp:82-104 | Appends the bits of the span whether it takes the copying or the bitwise path, or fails and changes no data |
| BitWriter.Writer.Capture | libs/base/Include/base/BitWriter.hpp:362-370 | The captured bytes carry exactly the bits written, with zeros up to the end of the last byte; nothing once a write failed |
| BitWriter.WritesConcatenate | libs/base/BitWriter.cpp:55-190 | For every sequence of writes the stream is the concatenation of those before the first refused one, and nothing after it is written |
| BitWriter.WritesBits | libs/base/BitWriter.cpp:55-190 | A write of at most 16, 32 or 64 bits or of a span succeeds exactly when none failed before and its bits fit, and appends them in order |
| BitWriter.CombinedBits | libs/base/BitWriter.cpp:108-109 | Masking, shifting and adding puts the value's bits exactly after those held by the byte |
| Downlink.DownlinkFrame.constructor | libs/telecommunication/downlink.cpp:15-22 | The 24 header bits are 6 bits of APID and 18 bits of sequence number and the rest of the frame is zero |
| Downlink.HeaderRoundTrip | integration_tests/devices/comm.py:29-42 | The ground recovers APID and sequence number, modulo 64 and 2^18, and the payload, whatever follows the header |
| Crc.CrcIsRemainder | libs/base/crc.cpp:47-60 | The CRC is a remainder of the message times x^16 divided by x^16 + x^12 + x^5 + 1 |
| Crc.RemainderUnique | libs/base/crc.cpp:47-60 | A division by the generator has only one remainder, so the CRC is the remainder |
| Crc.FoldIsNext | libs/base/crc.cpp:53-57 | The five shift-and-fold statements are eight steps of the bitwise division |
| Crc.CrcOfSpan | libs/base/crc.cpp:47-60 | The span overload computes the CRC of every buffer |
| Crc.CrcOfRange | libs/base/crc.cpp:31-45 | The range overload computes the CRC of the range, and 0 for an empty or inverted one |
| Crc.TableRight | integration_tests/crc.py:1-34 | Each of the 256 entries is what eight division steps make of its index |
| Crc.TableStepIsNext | integration_tests/crc.py:38-40 | A table step equals a shift-and-fold step |
| Crc.CalcCrc | integration_tests/crc.py:37-41 | The table form continues any CRC and agrees with the on-board form from 0 |
| Crc.CrcLinear | libs/base/crc.cpp:47-60 | On messages of one length the CRC of the exclusive-or is the exclusive-or of the CRCs |
| Crc.AppendedCrc | libs/base/crc.cpp:47-60 | Two appended bytes make the CRC 0 exactly when they are the CRC, high byte first |
| Crc.BurstDetected | libs/base/crc.cpp:47-60 | Any error within sixteen consecutive bits changes the CRC, at any message length |
| Comms.RunKeepsInvariant | sample/comms.c:236-358 | With interrupts between any two statements every command stays in its own slot until it is completed and the indices follow the number of commands |
| Comms.RefinesFifo | sample/comms.c:236-440 | Every step is an offer to, or a removal from, a queue of four, or none: bytes with bit 7 clear are exactly those offered, and an offer is refused exactly when four are pending |
| Comms.DispatchedInOrder | sample/comms.c:253-354 | In every run what was handed over is a prefix of what was accepted, each command comes from the head of the queue, and when the loop finds nothing to do all was handed over |
| Comms.PendingKept | sample/comms.c:413-437 | No step changes the slot of a pending or executing command before it is completed |
| Comms.AcceptedUnlessFour | sample/comms.c:810-831 | A command is refused exactly when four are pending |
| Comms.ReplyMeansEmpty | sample/comms.c:148-154 | The telemetry reply that all telecommands are processed is right |
| Comms.ResetsExactly | sample/comms.c:256-276 | In every run the loop goes on after every command but 'r', which is the last one handed over |
| Comms.CountReported | sample/comms.c:353-353 | Between two commands the reported count is that of the commands handed over, in 16 bits |
| Comms.TelecommandsProcessed | sample/comms.c:148-154 | The reply is the conjunction of the four flags |
| Comms.Device.UartHandler | sample/comms.c:383-467 | The handler makes the step of the transition system |
| Comms.Device.CanHandler | sample/comms.c:782-837 | The handler makes the step of the transition system |
| Comms.Device.ProcessTcmd | sample/comms.c:236-358 | With the given interrupts after each of its statements the loop is exactly that run of the transition system, hands back the interrupts not yet due, and ends with every accepted command handed over, unless it was a reset |
| Comms.Device.Init | sample/comms.c:67-99 | All slots are free and the indices 0 |
| Photo.LatestDecides | libs/photo/photo_service.cpp:145-195 | What a buffer holds is decided by the last event about it, whatever happened to others |
| Photo.UntouchedIsEmpty | libs/photo/photo_service.cpp:189-195 | A buffer that nothing happened to is empty |
| Photo.DownloadConsistent | libs/photo/photo_service.cpp:161-186 | A download keeps occupied buffers disjoint, within the used space and with their bytes |
| Photo.SavedAsDownloaded | libs/photo/photo_service.cpp:145-251 | In any run of commands a file holds the first photo the camera sent in answer to the latest download into the saved buffer, or the marker when all three answers failed, as far as the file system took it |
| Photo.WholePhotoSaved | libs/photo/photo_service.cpp:145-251 | A photo that fits the free space and the file is in the file byte for byte; after three failed answers the file holds the word Failed |
| Photo.EmptyWordSaved | libs/photo/photo_service.cpp:226-236 | A buffer without a download gives a file with the word Empty |
| Photo.SavedAsEmpty | libs/photo/photo_service.cpp:189-231 | Saved after a reset without a download in between, or from the start, a buffer gives the marker for an empty one |
| Photo.FileOfLastWriter | libs/photo/photo_service.cpp:197-251 | A file holds what the last command that opened it wrote, whatever other commands did before and after |
| Photo.PhotoService.Download | libs/photo/photo_service.cpp:145-187 | The first of three answers of the camera that is a photo becomes the content, and no further request overwrites the free space; when all fail the last error is returned and the buffer is failed; no other buffer changes what it shows |
| Photo.PhotoService.ResetBuffers | libs/photo/photo_service.cpp:189-195 | All buffers are empty and all space free, and the files stay |
| Photo.PhotoService.Save | libs/photo/photo_service.cpp:197-251 | The file gets the bytes of the latest download, or the marker for none or a failed one, as far as the file system takes them; it is emptied even for an identifier out of range; the result does not depend on how much was written |
| Photo.PhotoService.TaskProc | libs/photo/photo_service.cpp:378-426 | For every command sequence and all answers of camera and file system, free space, events and files are those of the commands in turn, which the laws above are about |
| Adcs.AdcsCoordinator.SwitchMode | libs/adcs/AdcsCoordinator.cpp:94-162 | Returns exactly the new mode and whether it changed, and leaves the state the transition function says |
| Adcs.EntersExactly | libs/adcs/AdcsCoordinator.cpp:94-162 | The requested mode is reached exactly when the current processor stops if it has to, the disabled mode is left only by a stop, and the processor asked for is free and starts; otherwise the coordinator stops if it left a processor and stays if not; exactly these processors are enabled afterwards |
| Adcs.DisabledLeftByStop | libs/adcs/AdcsCoordinator.cpp:119-127 | The disabled mode is left exactly by a request to stop |
| Adcs.DisabledStays | libs/adcs/AdcsCoordinator.cpp:119-127 | Over any requests without a stop nothing changes in the disabled mode |
| Adcs.OnlyRequestedIsEnabled | libs/adcs/AdcsCoordinator.cpp:129-152 | A switch enables at most the processor asked for, only when it is not blocked, and never from the disabled mode |
| Adcs.BlockedIsNeverEnabled | libs/adcs/AdcsCoordinator.cpp:135-139 | A blocked processor is enabled by no sequence of requests |
| Adcs.SwitchKeepsOnlyCurrent | libs/adcs/AdcsCoordinator.cpp:94-162 | While disabling succeeds exactly the processor of the current mode is enabled |
| Adcs.FailedDisableLingers | libs/adcs/AdcsCoordinator.cpp:107-112 | A failed disable breaks that exactly when a processor was to be left |
| Adcs.KthRun | libs/adcs/AdcsCoordinator.cpp:164-218 | In the loop, after any turns, the k-th run since the last change of mode is of that mode and starts no earlier than the first scheduled time plus k waits |
| Adcs.LoopInTime | libs/adcs/AdcsCoordinator.cpp:164-218 | Over any turns every run of the loop is on time, and the timeout in use never lets the next one start early |
| Adcs.TimeoutRuns | libs/adcs/AdcsCoordinator.cpp:188-210 | A turn whose wait runs out makes the current processor run, so requests and runs are not lost |
| Adcs.RequestServed | libs/adcs/AdcsCoordinator.cpp:184-208 | After any turns a request is served in its turn, and a processor whose mode is entered runs at once |
| Adcs.WaitsUntilDue | libs/adcs/AdcsCoordinator.cpp:194-216 | A turn waits exactly until the next run is due, or for a request outside the processor modes; a run moves the due time on by one wait |
| Adcs.LoopKeepsOnlyCurrent | libs/adcs/AdcsCoordinator.cpp:164-218 | Over any turns with cooperative processors only the processor of the current mode is enabled |
| Adcs.AdcsCoordinator.Loop | libs/adcs/AdcsCoordinator.cpp:175-218 | For every sequence of requests, delays, clock readings and processor answers the state, the timeout, the schedule, the clock and the log of runs and changes are those of the loop function that the laws above are about |
| Adcs.AdcsCoordinator.SetBlockMode | libs/adcs/AdcsCoordinator.cpp:225-245 | Exactly the named mode becomes blocked or free, modes without a processor stay blocked, and nothing else changes |
| Xmodem.VerifyPacketChecksum | boot/xmodem.cpp:50-76 | Accepts exactly a complementary number pair that matches the expected number and a CRC that matches the data |
| Xmodem.BurstRefused | boot/xmodem.cpp:67-74 | An error burst of at most sixteen bits in data and CRC does not get past the check |
| Xmodem.NumberDamaged | boot/xmodem.cpp:55-65 | A packet in which only the number or only its complement is damaged is refused |
| Xmodem.Receiver.Upload | boot/xmodem.cpp:85-211 | For every byte stream the entry holds the accepted payloads in order, the answers and the returned length are as specified, and other entries are untouched by an image that fits |
| Xmodem.EndedLength | boot/xmodem.cpp:210-210 | A transfer ended by EOT returns the length of the image, modulo 2^32 |
| Xmodem.IntactPacket | boot/xmodem.cpp:55-65 | An intact packet passes the check exactly when its block is the next one, also when packet numbers wrap at 256 |
| Xmodem.BlocksTaken | boot/xmodem.cpp:117-208 | Whatever is damaged, repeated or unanswered the receiver takes the blocks in order, each once |
| Xmodem.AnswersTaken | boot/xmodem.cpp:167-207 | Each packet gets one answer, an acknowledgement exactly if the receiver took it |
| Xmodem.ImageIsPrefix | boot/xmodem.cpp:117-208 | At any time the image is a prefix of the padded file |
| Xmodem.ImageIsFile | boot/xmodem.cpp:126-132 | When the sender has seen every block acknowledged and sends EOT the image is the file and its length is returned |
| Xmodem.LostAnswerBlocks | boot/xmodem.cpp:61-65 | Once an acknowledgement is lost the transfer never gets on |
| Xmodem.CanComplete | boot/xmodem.cpp:61-65 | A transfer can still complete exactly when the receiver is not ahead of the sender |
| Xmodem.LevelWhenAnswered | boot/xmodem.cpp:117-208 | The receiver is not ahead after some rounds exactly when every packet it accepted was answered |
| Xmodem.LostAnswerArises | boot/xmodem.cpp:117-208 | A concrete round with a lost answer after which no rounds complete the transfer |

## Left out

- Register, GPIO, UART, EBI, DMA, I2C and SPI access: hardware; replaced by devices with erase, program, read and receive operations.
- Terminal commands, logging, telemetry formatting, the ground-side user interface, emulator and mock devices: user interface or thin wrappers.
- FreeRTOS and YAFFS internals: only the visible meaning of event groups, queues, locks and driver calls is modelled.
- Failures of single flash commands: the scrubbers and the loader ignore the status of erase and program commands, so the devices of the model carry them out; power loss during a scrub is modelled.
- The safe mode copies and their EEPROM page sequence, in the scrubber and in the upload: they repeat the bootloader scrubber and the nominal upload with a hardware write sequence.
- The I2C handlers of the telecommand ring: they claim a slot long before they flag it, so the ring is restricted to UART and CAN; the error branch of the loop, which only they can cause, is unreachable here.
- A reset command: the run of the ring model ends with it, since the processor restarts.
- Comms.Device.CanHandler: does not model the copying of parameters, because no telecommand has a length above 0.
- Heap.Allocator.Free: the assertions of the source about the header are not modelled as traps; a header that fails them changes nothing, as in a build without assertions.
- Boot.Bootloader.LoadApplicationTMR: does not model bus faults; what is read past the external flash is a parameter and stays the same during the load, and pages past the internal flash are neither compared nor programmed, because the flash controller refuses addresses outside the flash.
- Photo.PhotoService.Receive: the packets in which the camera sends a photo are not modelled; an answer is the bytes written to the free space and the photo or the error that is reported.
- Camera power, selection, photo taking, sleeping and idle flags of the photo service, and requests racing with them: commands are executed one at a time by the task, as the queue delivers them.
- Adcs.AdcsCoordinator.Loop: does not model the length of the queue or requests lost when it is full; the requests that are popped are given.
- Xmodem.ImageIsFile: packets damaged in their first byte are not among those considered, because the receiver takes that byte for an end or a cancellation.
- The initial retransmission of the start byte of an upload: only one is counted among the answers.
- Boot.BoundedRecovery: settings changed by telecommands between boots are not part of a run; slots and failsafe other than upper are assumed, as the recovery does not touch the upper slot.
- Error counters, time services, state serialisers and the logger endpoint list: only easy members next to the above.
