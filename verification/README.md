# RAMpage, modelled and verified

RAMpage tests the memory of a running machine: it claims free page frames from the kernel's buddy allocator through
the device `/dev/phys_mem`, maps them, runs memtester on them, and poisons the frames that fail. This project models
that chain in Dafny and proves what it is for: in every block the scheduler submits, exactly the claimed frames that
really are faulty are poisoned.

`dafny verify dfyconfig.toml` checks everything. The modules follow the program, bottom up:

| module | models |
|---|---|
| `Arith`, `FaultModel` | division facts; a page of memory with a decode map (which cell an address reaches) and stuck bits |
| `MemTests`, `PatternFamilies`, `Memtester` | the tests of memtester as loops over the page's words, and the run over the pages of a batch |
| `Report`, `MemtesterWrapper` | the report memtester writes, its parser, and the wrapper's checks on report and exit code |
| `Buddy`, `Kernel` | free blocks and the zone's free lists, counters, reference counts and poison marks |
| `Records`, `Claiming`, `Session`, `Physmem` | the records and their bytes, a batch of requests, the session of the device, and its client |
| `World` | many sessions on one pool, with every critical section of the request split into single-frame steps |
| `BatchTest`, `History`, `Scheduling` | one block from claiming to poisoning, a series of blocks, and the walk of the slow scheduler |
| `LocalRange`, `Reporting` | the choice of the local range, and the ranges written over the serial line |

## How to read the model

* A `MemoryPage` has `decode`, a map from word index to cell, and per cell a mask of stuck bits with their values. A page
  is `Healthy` when no two words reach the same cell and no reached cell has a stuck bit. Both kinds of fault may
  occur together. All words are 64-bit bit-vectors.
* A chained assignment writes the computed value to both halves; the volatile object is not read again, which section
  6.5.16 of ISO/IEC 9899:2011 permits.
* A free block is known by its first frame, which alone carries the buddy mark; the `Zone` class also keeps the lists,
  counts and the zone counter, and its validity ties them together and to the number of free frames.
* The kernel outside the module appears as contracts: `mm_buddy_expand` adds the upper half of each split,
  `is_free_buddy_page` finds a frame anywhere in a free block, `__free_pages` returns the last reference to the free
  blocks (and may keep a poisoned frame back), `remap_pfn_range` may refuse a page.
* What the outside world decides is a parameter: interruptions, failing allocations and copies, random words, clocks,
  the frame at which mapping fails, how the calls around the tests end, and whether the time limit is reached.
* Objects the program updates in place are classes (`Zone`, `PhysMemSession`, `Device`, `Wrapper`, `SlowScheduler`,
  `PrintSchedulerReporting`, `MemoryPage`); methods with loops are proved against functions of the state before.

## What the code does differently from what one would expect

* `prep_new_page` can refuse a frame (`check_new_page`), and `claim_free_buddy_page` ignores that: the frame is claimed
  with reference count 0, and on release it takes the "NOT freeing" branch and is lost. The model calls these frames
  unclean. `World.NotFreeingOnlyUnclean` and `World.UncleanReached` prove that the branch is reached for exactly them.
* For the same reason a request that fails part-way does not always restore the free frames. `Claiming.RestoredExactly`
  proves that it does if and only if no frame taken meanwhile is unclean, or poisoned and kept back by the kernel;
  `Claiming.NotRestoredExample` gives inputs on which it does not.
* `handle_mark_page_poison` marks any frame number it is given; the check that the session holds the frame is disabled.
  `BatchTest.BadAreHeld` shows that the scheduler only marks frames it holds.
* The MAPPED case of `phys_mem_release` leaves the state alone, so the loop ends only because a file with a live mapping
  is not released; `PhysMemRelease` is proved for a session without mappings.
* While a mapping lives, the array of records can change: another mmap of the same session that the kernel refuses sets
  the not-mappable mark. `World.MappedArrayStable` proves that an array changes exactly at such a step and in nothing
  but the mark, `World.MappedArrayStableInRun` that over a run only marks accumulate, and `World.SecondMmapMarks` gives
  runs in which it happens.
* `SlowScheduler.run` divides by the number of frames, so an empty range ends in an error, not in an empty walk.
* With a negative number of frames per portion the walk may break with a block pending; `Scheduling.Run` states an
  input on which it does (time is up at the first frame, which is eligible). Coverage and pacing are
  proved for portions of zero (the whole range) and more, and coverage of a completed walk for all.
* Coverage is stated for the records as they were before the walk: results of earlier blocks never change what is
  eligible later, because a block only touches frames already visited.

## Model

| member | source | states |
|---|---|---|
| Buddy.ClaimTakesOne | rampage/module/page_claiming/free_buddy_page_claiming.c:147-168 | a claim removes exactly the claimed frame from the free frames; all the rest of the split block stays free |
| Buddy.ClaimSplits | rampage/module/page_claiming/free_buddy_page_claiming.c:147-168 | the blocks after a claim are the other blocks as they were and, for every order i below the claimed block's, one of order i that starts 2^i behind the claimed frame |
| Buddy.ClaimWellFormed | rampage/module/page_claiming/free_buddy_page_claiming.c:147-168 | blocks stay aligned, of a listed order, inside memory and disjoint |
| Buddy.ClaimMovesHeads | rampage/module/page_claiming/free_buddy_page_claiming.c:147-168 | after a claim a frame's block is the one it had, or starts after the claimed frame |
| Buddy.RangeClaims | rampage/module/page_claiming/page_claiming.c:203-304 | trying every frame from `a` on in order claims frame x exactly when its free block, before the request, started at `a` or later |
| Buddy.WholeBlockClaimed | rampage/module/page_claiming/page_claiming.c:203-304 | a whole free block inside the interval is claimed completely, although only its head was claimable at first |
| Buddy.IsFreeBuddyPageIffFree | rampage/module/page_claiming/free_buddy_page_claiming.c:71-75 | the kernel's search over orders finds a block exactly when the frame lies in some free block |
| Buddy.WeightedUpdate | rampage/module/page_claiming/free_buddy_page_claiming.c:161-166 | one block more or fewer in the list of an order changes the weighted count by 2^order |
| Kernel.Zone.RemoveBlock | rampage/module/page_claiming/free_buddy_page_claiming.c:153-161 | unlinking a block keeps lists, marks and counts consistent and lowers the weighted count by the block's size |
| Kernel.Zone.MmBuddyExpand | rampage/module/page_claiming/free_buddy_page_claiming.c:164 | the split leaves exactly one new block of every smaller order i, 2^i behind the head, and all other blocks as they were; the weighted count grows by the block's size less one |
| Kernel.Zone.ClaimFreeBuddyPage | rampage/module/page_claiming/free_buddy_page_claiming.c:120-281 | succeeds exactly for heads of free blocks; the block is split as the kernel splits it; all lists and counts stay right and agree with the number of free frames; the weighted count and the zone counter both fall by exactly 1; the frame gets reference count 1 exactly if its page structure is clean |
| Kernel.Zone.DoTryClaimFreeBuddyPage | rampage/module/page_claiming/free_buddy_page_claiming.c:43-84 | the page-count and free-page guards together let through exactly the heads of free blocks |
| Kernel.Zone.FreePages | rampage/module/main.c:55-63 | giving back the last reference makes the frame free again exactly if it is not poisoned and kept back, and otherwise retires it |
| Claiming.MyPageIsSystemRam | rampage/module/page_claiming/page_claiming.c:24-42 | true exactly when one System RAM resource contains every byte of the frame |
| Claiming.ClaimedOnce | rampage/module/page_claiming/page_claiming.c:203-304 | no frame is claimed twice in a batch, even if it is requested twice |
| Claiming.RequestsTake | rampage/module/page_claiming/page_claiming.c:203-304 | a batch takes exactly the claimed frames out of the free frames and changes nothing else |
| Claiming.RecordedComplete | rampage/module/page_claiming/page_claiming.c:266-297 | a fully served array is complete: k-th page at offset k pages, no frame twice, held frames are those taken |
| Claiming.RecordTells | rampage/module/page_claiming/page_claiming.c:223-297 | what a record says of a frame that is not System RAM, of one claimed, and of one that could not be claimed |
| Claiming.HeldIsTaking | rampage/module/page_claiming/page_claiming.c:203-304 | at any point of the batch the array holds exactly what was taken so far |
| Claiming.AscendingClaims | rampage/module/page_claiming/page_claiming.c:203-304 | an ascending request of usable frames claims frame a+i exactly when its block before the request started at `a` or later |
| Claiming.AscendingHeld | rampage/module/page_claiming/page_claiming.c:203-304 | the frames the session then holds are exactly those of the interval |
| Claiming.ReleaseOne | rampage/module/main.c:45-70 | each turn of the release loop gives one more frame back, lost or free as its marks say, and disturbs no other |
| Claiming.ReleasedClean | rampage/module/main.c:45-70 | clean frames without a poison mark all become free again, and none is lost |
| Claiming.TakeThenRelease | rampage/module/page_claiming/page_claiming.c:312-319 | taking and giving back restores the reference counts and exactly the free frames that are not lost; the lost ones, unclean or poisoned and kept back, are retired |
| Claiming.RestoredExactly | rampage/module/page_claiming/page_claiming.c:312-319 | a request that fails part-way restores the free frames if and only if no frame taken meanwhile is unclean, or poisoned and kept back |
| Claiming.NotRestored | rampage/module/page_claiming/page_claiming.c:312-319 | a request that claims a lost frame and then fails leaves that frame, free before, retired |
| Claiming.NotRestoredExample | rampage/module/page_claiming/page_claiming.c:312-319 | the smallest such inputs: one free frame, unclean in one case, poisoned and kept back in the other |
| Claiming.NthOf | rampage/module/page_claiming/page_claiming.c:266-272 | page index and record determine each other |
| Claiming.MarkedComplete | rampage/module/mmap_phys.c:74-81 | the not-mappable mark leaves a complete array complete, its offsets and its frames the same |
| Claiming.MarkTwice | rampage/module/mmap_phys.c:78-79 | setting the mark again changes nothing, and setting it changes a record exactly if it was not set |
| Claiming.MarkIs | rampage/module/include/phys_mem.h:34 | the mark is bit 20, set beside the claiming source |
| Records.RecordRoundTrip | rampage/userspace/physmem/physmem.py:66-79 | decoding the 56 bytes of a record gives the record back |
| Records.RecordAt | rampage/module/file_operations.c:115-137 | bytes 56i to 56i+55 of the device are record i |
| Records.EncodedBytes | rampage/module/include/phys_mem.h:47-59 | byte i of a number is its quotient by 256^i modulo 256: lowest byte first |
| Records.RecordLayout | rampage/module/include/phys_mem.h:42-59 | the fields of a record in their order, eight bytes each |
| Session.PhysMemSession.constructor | rampage/module/file_operations.c:21-46 | a new session is open and holds nothing |
| Session.PhysMemSession.FreePageStati | rampage/module/main.c:39-77 | every held frame is given back or dropped; exactly the unclean and the poisoned and kept back ones do not become free; the array is gone |
| Session.PhysMemSession.TryClaimFreeBuddyPage | rampage/module/page_claiming/free_buddy_page_claiming.c:86-118 | succeeds exactly when the source is allowed and the frame heads a free block, and otherwise changes nothing |
| Session.PhysMemSession.ServeRequest | rampage/module/page_claiming/page_claiming.c:218-303 | the chain of claim methods claims exactly when the frame is usable, the source allowed and the frame heads a free block; the record says so |
| Session.PhysMemSession.ServeBatch | rampage/module/page_claiming/page_claiming.c:203-304 | the loop serves requests up to the first that cannot be copied in, packing successes into consecutive offsets |
| Session.PhysMemSession.HandleRequestPages | rampage/module/page_claiming/page_claiming.c:150-320 | an earlier configuration is given back; then the batch is served completely and the session configured, or the session is open with no array and the frames taken are given back, all but the lost ones free again; other states are refused without effect |
| Session.PhysMemSession.HandleMarkPagePoison | rampage/module/page_claiming/page_claiming.c:100-148 | marks the frame exactly in the states configured and mapped |
| Session.PhysMemSession.AssembleVma | rampage/module/mmap_phys.c:51-87 | page k of the mapping is the k-th claimed frame; it fails exactly when the kernel refuses a claimed page, and then marks that record and changes no other |
| Session.PhysMemSession.FileMmapConfigured | rampage/module/mmap_phys.c:89-136 | succeeds exactly in the right states, for a fitting length and mappable pages, and then counts one more mapping; a refused page is marked; nothing else ever changes |
| Session.RoundsUp | rampage/module/mmap_phys.c:16-17 | the rounding gives the least number of whole pages that is not less |
| Session.HandlersAre | rampage/module/file_operations.c:304-340 | reading, seeking and mapping are handled exactly in configured and mapped, requests exactly in open and configured |
| Session.PhysMemSession.VmaOpen | rampage/module/mmap_phys.c:19-30 | one more mapping, session mapped |
| Session.PhysMemSession.VmaClose | rampage/module/mmap_phys.c:32-44 | one mapping fewer, session configured again exactly after the last |
| Session.PhysMemSession.FileReadConfigured | rampage/module/file_operations.c:97-147 | a read returns the array's bytes at the position, cut at its end, and advances by as much; if they cannot be copied out it fails without moving |
| Session.PhysMemSession.FileLlseekConfigured | rampage/module/file_operations.c:245-302 | a seek goes where base and offset say, exactly when that is not negative and the state allows it |
| Session.PhysMemSession.PhysMemRelease | rampage/module/file_operations.c:48-95 | from every valid state without a live mapping the loop ends, with the session closed and every held frame given back |
| World.StepKeeps | rampage/module/file_operations.c:304-360 | every step of every caller, including handlers picked earlier on a stale state and calls interrupted at the semaphore, keeps the frame and session invariants and neither loses nor creates a frame |
| World.FramesConserved | rampage/module/page_claiming/page_claiming.c:182-320 | over every run of any number of sessions the free, retired and held frames are disjoint and together constant |
| World.NotFreeingOnlyUnclean | rampage/module/main.c:55-68 | a held frame has reference count 1, or 0 exactly if it is unclean |
| World.UncleanReached | rampage/module/main.c:55-68 | for every unclean frame that can be claimed there is a run whose last step takes the "NOT freeing" branch and leaves the frame retired |
| World.SettledWhenUnlocked | rampage/module/page_claiming/page_claiming.c:159-190 | with the semaphore free: mapped iff mappings live, open or closed without an array, configured or mapped with a complete one, never configuring |
| World.MappedArrayStable | rampage/module/mmap_phys.c:19-44 | while a mapping lives, a step of any caller changes the array exactly if it is another mmap of the session refused at a record without the mark, and then it sets that mark and changes nothing else |
| World.MappedArrayStableInRun | rampage/module/mmap_phys.c:19-44 | over every stretch of a run with a mapping alive, each record is as it was, or marked, and marked exactly if some step of the stretch marks it |
| World.SecondMmapMarks | rampage/module/mmap_phys.c:74-81 | for every claimable frame there is a run in which a second mmap changes the array of a mapped session |
| World.UndisturbedRequest | rampage/module/page_claiming/page_claiming.c:203-304 | without other callers in between, the single steps of a request are the batch as the session serves it |
| World.UndisturbedRelease | rampage/module/main.c:45-70 | without other callers in between, the single steps that give frames back are the release loop as the session runs it |
| Physmem.Device.Configure | rampage/userspace/physmem/physmem.py:115-140 | the request is refused without effect exactly outside open and configured or when interrupted; otherwise earlier frames are given back and the array on the device answers it, or, if it fails part-way, the frames taken are given back |
| Physmem.Device.ReadConfiguration | rampage/userspace/physmem/physmem.py:142-163 | reading record by record to the end gives exactly the session's array, unless a record cannot be copied out |
| Physmem.Device.MarkPfnBad | rampage/userspace/physmem/physmem.py:108-113 | succeeds exactly in configured, since the dispatcher has no ioctl in mapped |
| Physmem.Device.Mmap | rampage/userspace/physmem/physmem.py:165-171 | maps the claimed frames in order, exactly when the session allows it and the kernel refuses none; otherwise at most a mark changes |
| FaultModel.MemoryPage.Write | memtester-master/tests.c:86 | after a store every word that shares the cell reads as the value with its stuck bits forced, and every other word reads as before |
| FaultModel.StickBits | memtester-master/tests.c:56 | stuck bits read as they are stuck, all others as stored |
| FaultModel.MergeBits | memtester-master/tests.c:486-488 | a narrow store changes the bits of its piece and no others |
| FaultModel.FlipBit | memtester-master/tests.c:94 | an injection flips the lowest bit |
| MemTests.AddressRound | memtester-master/tests.c:82-119 | one round passes exactly when every reached cell holds its own last value and no flip landed |
| MemTests.TestStuckAddress | memtester-master/tests.c:75-122 | returns 0 if and only if the decode map is injective, no reached cell has a stuck bit, and no injection is aimed at the page |
| MemTests.ExpectedDiffers | memtester-master/tests.c:86 | word alignment separates an address from a complemented address |
| MemTests.AddressesAre | memtester-master/tests.c:83-88 | the words lie eight bytes apart from the base on |
| MemTests.CompareRegions | memtester-master/tests.c:48-73 | 0 if and only if the halves read equal word by word |
| MemTests.PatternTest | memtester-master/tests.c:124-136 | with nothing flipped, and whichever words share cells, a test of rounds returns 0 if and only if in every round every word reads like its twin, each after the last value that reached its cell; with flips, for words with cells of their own, if and only if the flipped and stuck values agree |
| MemTests.SourceIs | memtester-master/tests.c:263-265 | what stays in a word is the value of the last column that reaches its cell |
| MemTests.HealthyRounds | memtester-master/tests.c:250-464 | on a healthy page a pattern test fails exactly when an injection of its kind hits the page |
| MemTests.CombineTest | memtester-master/tests.c:138-236 | where no two words share a cell, a combining test returns 0 if and only if both halves yield the same results, after the flips |
| PatternFamilies.XorIs | memtester-master/tests.c:144-147 | exclusive or, by the bits of which exactly one operand has them |
| PatternFamilies.SubIs | memtester-master/tests.c:166-169 | subtraction modulo 2^64 |
| PatternFamilies.MulIs | memtester-master/tests.c:179-182 | multiplication modulo 2^64 |
| PatternFamilies.DivIs | memtester-master/tests.c:192-198 | division, by 1 if the random value is 0 |
| PatternFamilies.OrIs | memtester-master/tests.c:208-211 | or, as the complement of what both operands lack |
| PatternFamilies.AndIs | memtester-master/tests.c:231-234 | and, as the complement of what either operand lacks |
| MemTests.HealthyCombines | memtester-master/tests.c:138-236 | on a healthy page with equal halves it fails exactly when an injection of its kind hits the page, and otherwise leaves the halves equal |
| MemTests.NarrowTest | memtester-master/tests.c:466-539 | on a healthy page the narrow writes compose to the whole words: the test fails exactly when an injection of its kind hits the page |
| MemTests.MasksCover | memtester-master/tests.c:486-488 | the byte and half-word stores together cover every bit of a word |
| MemTests.MasksAre | memtester-master/tests.c:484-529 | the pieces are the eight bytes, or the four pairs of bytes, from the lowest up |
| PatternFamilies.SeparatesIffBothValues | memtester-master/tests.c:250-402 | a family of patterns tells any two different stuck-bit maps apart if and only if it gives every bit both values |
| PatternFamilies.ComplementFamilies | memtester-master/tests.c:250-339 | Solid Bits, Checkerboard, Block Sequential and Bit Flip give every bit of every word both values |
| PatternFamilies.WalkingFamilies | memtester-master/tests.c:341-402 | Walking Zeroes and Walking Ones give every bit of every word both values |
| PatternFamilies.AlternatingValues | memtester-master/tests.c:250-316 | Solid Bits and Checkerboard write their two values in turn, over columns and rounds |
| PatternFamilies.BitFlipValues | memtester-master/tests.c:445-454 | Bit Flip writes a bit and its complement in turn, eight rounds for each bit |
| PatternFamilies.WalkingValues | memtester-master/tests.c:348-394 | the walking tests go up over all bits and down again, in both polarities |
| PatternFamilies.BytesAre | memtester-master/tests.c:330 | Block Sequential's word has its byte in all eight places |
| PatternFamilies.BlocksAre | memtester-master/tests.c:325-331 | in round j Block Sequential writes the byte j |
| PatternFamilies.BitsAre | memtester-master/tests.c:354 | the walking bit starts at bit 0 and moves up by one |
| PatternFamilies.IncrementValues | memtester-master/tests.c:242-246 | Sequential Increment starts at the random value and rises by one |
| PatternFamilies.SeparatingDetects | memtester-master/tests.c:250-402 | where no two words share a cell and with injection off, agreement in all rounds is equivalent to identical stuck-bit maps of the two halves |
| PatternFamilies.SharedDetects | memtester-master/tests.c:250-402 | for any decode map and with injection off, each of these tests passes if and only if every word and its twin have the same stuck bits and, where an alternating test leaves complements in their cells, these are stuck in every bit |
| Memtester.RunTest | memtester-master/memtester.c:50-69 | for every entry of the table: on a page without shared cells it passes exactly if what it compares agrees; on a healthy page with equal halves it fails exactly under an injection of its kind; Solid Bits, Checkerboard, Block Sequential, Bit Flip and the walking tests pass, with nothing flipped, exactly when every word passes together with its twin, which without shared cells means that the halves have the same stuck bits |
| Memtester.TableIs | memtester-master/memtester.c:50-69 | which test stands where, with how many rounds, and which injection kind it reacts to |
| Memtester.TestPage | memtester-master/memtester.c:185-211 | the address test fails exactly on an unhealthy or injected page; whatever it says, the other tests run: without shared cells they fail exactly if some selected test does, provided the first selected one writes the page; on any page each separating test finds every word that does not pass with its twin; on a healthy page, with an empty mask, they fail exactly under injection |
| Memtester.InjectedPage | memtester-master/memtester.c:177-178 | an injection of kind 1 to 7 reaches exactly the page it is aimed at, and each kind has its test |
| Memtester.ExitCodes | memtester-master/memtester.c:194-232 | the exit code is in {0, 2, 4, 6} exactly when no surrounding call fails, and 0 exactly when nothing failed at all |
| Memtester.RunRampagePages | memtester-master/memtester.c:157-234 | no unhealthy page is left out of the report; with an empty mask it lists exactly the unhealthy pages and the one aimed at, and under any mask whose first test writes the page exactly those that fail the address test or a selected test; exit code and report agree, and the bit of the table's tests is set by every page on which one of them fails |
| Memtester.InjectionLocated | memtester-master/memtester.c:177-218 | on fault-free memory the bad pages are the one aimed at or none; the exit code is 2 for kind 1, 4 for kinds 2 to 7 |
| Memtester.UnlikeHalvesExit | memtester-master/memtester.c:190-208 | without mask and injection a page whose halves have different stuck bits is bad and the exit code is 6 |
| Report.ParseResult | rampage/userspace/tester/memtester_wrapper.py:61-80 | accepts exactly the well-formed reports for the page count and returns their pages in ascending order |
| Report.RoundTrip | rampage/userspace/tester/memtester_wrapper.py:61-80 | parsing the printed report gives back the bad pages, sorted, for every page count and every set |
| Report.PrefixSafe | rampage/userspace/tester/memtester_wrapper.py:62-80 | a truncated report is either rejected or read as the complete one |
| Report.NumberOfDecimal | memtester-master/memtester.c:214 | reading a printed number gives the number back |
| Report.PrintExample | memtester-master/memtester.c:179-220 | the text of a small report, letter by letter |
| Report.DecimalExample | memtester-master/memtester.c:214 | numbers are printed highest digit first |
| MemtesterWrapper.Wrapper.RunMemtester | rampage/userspace/tester/memtester_wrapper.py:134-141 | the child makes and drops its own mapping and leaves the session mapped by the parent only, even when a signal ends it; its result tells about the claimed frames exactly when every call went through and no signal came |
| MemtesterWrapper.Wrapper.ReadVerdict | rampage/userspace/tester/memtester_wrapper.py:142-160 | the consistency check passes exactly when every call around the tests succeeded and memtester was not killed |
| MemtesterWrapper.Wrapper.Test | rampage/userspace/tester/memtester_wrapper.py:83-160 | the wrapper succeeds exactly when every call around the tests does, and then returns the offsets of the failing pages in ascending order; it takes a valid injection type from the state file and otherwise keeps its own |
| BatchTest.CollectClaimed | rampage/userspace/scheduling/slow/slow_scheduler.py:170-190 | on a complete array none of the checks for match, alignment, duplicates and gaps fails; page index to claimed record is a bijection |
| BatchTest.PagesOfOffsets | rampage/userspace/scheduling/slow/slow_scheduler.py:196-209 | the tester's offsets pass the check and give back the failing pages |
| BatchTest.TestedNext | rampage/userspace/scheduling/slow/slow_scheduler.py:211-238 | each result updates the record of the frame it is about and no other |
| BatchTest.BadAreHeld | rampage/userspace/scheduling/slow/slow_scheduler.py:222-226 | every poisoned frame is one the session holds when it is poisoned, whatever the tests did to the array |
| BatchTest.BadOnce | rampage/userspace/scheduling/slow/slow_scheduler.py:222-227 | no frame is poisoned or reported twice in a block |
| BatchTest.AllReported | rampage/userspace/scheduling/slow/slow_scheduler.py:211-240 | every claimed frame is reported, as good or as bad |
| BatchTest.ExactlyTheFaulty | rampage/userspace/scheduling/slow/slow_scheduler.py:162-240 | without injection and mask the bad frames are exactly the claimed frames that are faulty |
| BatchTest.ExactlyTheHealthy | rampage/userspace/scheduling/slow/slow_scheduler.py:162-240 | and the good frames are exactly the claimed frames that are healthy |
| BatchTest.FaultyOfInterval | rampage/userspace/scheduling/slow/slow_scheduler.py:162-240 | for an ascending interval they are exactly the faulty frames whose free block, before the request, started in it |
| BatchTest.IntervalHeld | rampage/userspace/scheduling/slow/slow_scheduler.py:162-190 | a block for an ascending interval of System RAM frames, free buddy pages allowed, holds exactly the frames of the interval whose free block, before the requests, started in it |
| BatchTest.IntervalFaulty | rampage/userspace/scheduling/slow/slow_scheduler.py:162-240 | and if every call goes through, without mask and injection, exactly the faulty ones of these are bad |
| BatchTest.SlowScheduler.ClaimPfns | rampage/userspace/scheduling/slow/slow_scheduler.py:251-263 | succeeds exactly when the device serves the request and the records can be read, and then returns the device's complete array, record i about a request for the i-th frame from the allowed sources; an interrupted or refused request changes nothing |
| BatchTest.SlowScheduler.RunTests | rampage/userspace/scheduling/slow/slow_scheduler.py:193-209 | whatever the tests end with, the session is configured again without mappings, and its array is unchanged but for the mark on a record whose page the kernel refused; the pages returned are those the tester told about |
| BatchTest.SlowScheduler.RecordResults | rampage/userspace/scheduling/slow/slow_scheduler.py:211-238 | no poison call is refused; exactly the frames of failing pages are poisoned; a bad frame's error count rises by one modulo 2^32 and its failure time is set, a good frame's count is 0 and its success time is set, the other time stays, cost and method come from the record; all others keep their results |
| BatchTest.SlowScheduler.TestFramesAndRecordResult | rampage/userspace/scheduling/slow/slow_scheduler.py:162-240 | a block succeeds exactly when every call around it does, and then poisons every faulty claimed frame and, without mask, exactly the faulty or injected ones; without mask and injection the poisoned frames grow by exactly the faulty claimed ones, each once; on failure nothing is poisoned and no record changes; the log gains the block as it happened |
| Scheduling.EligibleAre | rampage/userspace/scheduling/slow/slow_scheduler.py:152-160 | the eligible list contains exactly the visited frames with flag bits 20 and 32 clear whose last success is older than the limit |
| Scheduling.EligibleAscending | rampage/userspace/scheduling/slow/slow_scheduler.py:99-106 | no frame is submitted twice in a walk |
| Scheduling.ExtendBlock | rampage/userspace/scheduling/slow/slow_scheduler.py:102-106 | appending or skipping keeps neighbours at most 512 frames apart |
| Scheduling.LookedAt | rampage/userspace/scheduling/slow/slow_scheduler.py:99-106 | eligibility by the current records is eligibility by the records before the walk |
| Scheduling.Submitted | rampage/userspace/scheduling/slow/slow_scheduler.py:108-117 | submitting a block that is full, fills the portion, is followed by a gap or ends the range keeps coverage, pacing and shape of the walk |
| Scheduling.Visited | rampage/userspace/scheduling/slow/slow_scheduler.py:119-148 | a rest comes exactly after a full portion, and then no block is pending |
| Scheduling.Submit | rampage/userspace/scheduling/slow/slow_scheduler.py:113-117 | the pending block is claimed, tested and recorded on the device as the log entry it adds says; it succeeds exactly when every call does; no other frame's results change |
| Scheduling.Run | rampage/userspace/scheduling/slow/slow_scheduler.py:72-150 | the blocks, joined, are exactly the eligible frames of the visited prefix, all of the range unless time was up; at most 512 frames a block; exactly the portion between two rests; nothing pending at a rest, and no rest once time is up. No two neighbouring blocks could have been one: the first is full, or ends a portion, or the next frame is more than 512 away. Each block is one entry of the log, each entry starts where the one before ended, and none meets a refusing state. The walk succeeds exactly when the range is not empty and every call of every block does. Exactly the bad frames of the blocks are poisoned, each once; in a quiet run these are the faulty among the claimed, and the good ones are the healthy |
| History.Effects | rampage/userspace/scheduling/slow/slow_scheduler.py:113-117 | over a series of blocks exactly the bad frames of those that went through are poisoned and reported bad, the good ones reported good |
| History.NeverRefused | rampage/userspace/scheduling/slow/slow_scheduler.py:113-117 | starting open or configured, every block of a series starts open or configured |
| History.Counts | rampage/userspace/scheduling/slow/slow_scheduler.py:115 | the number of claimed frames is the number of frames reported, good or bad |
| History.BadAreFaulty | rampage/userspace/scheduling/slow/slow_scheduler.py:162-240 | without mask and injection, the bad frames of a series are the union of the faulty frames of its blocks, and the good ones the healthy claimed frames |
| History.ClaimedAre | rampage/userspace/scheduling/slow/slow_scheduler.py:162-240 | the claimed frames of a series are those held by a block that went through, the faulty ones those among them with faulty memory |
| History.BadOnceInAll | rampage/userspace/scheduling/slow/slow_scheduler.py:222-227 | if the submitted frames ascend, no frame is poisoned twice in the whole series |
| History.FinalResults | rampage/userspace/scheduling/slow/slow_scheduler.py:211-238 | the result a block gives a frame is, at the end of an ascending series, its result from its record at the start, field by field |
| History.OthersKeepResults | rampage/userspace/scheduling/slow/slow_scheduler.py:211-238 | frames submitted in no block keep their results |
| LocalRange.WholeFramesAre | rampage/userspace/main.py:80-83 | the rounded bounds enclose exactly the frames that lie wholly in the range and below the frame count |
| LocalRange.SelectLocalPfnRange | rampage/userspace/main.py:55-100 | fails exactly when no range has a whole frame or the budget is below a page; otherwise takes the beginning of the first range with the most whole frames, as many as the budget allows |
| Reporting.SortedSorts | rampage/userspace/main.py:178 | the sorted list is ascending and has every frame as often as before |
| Reporting.FramesAre | rampage/userspace/main.py:185-197 | a range stands for the frames from its first to its last, in order |
| Reporting.Compress | rampage/userspace/main.py:180-197 | expanding the written ranges gives back the list exactly, repeated frames included, and no two neighbouring ranges could be joined |
| Reporting.PrintSchedulerReporting.ReportFrameTested | rampage/userspace/main.py:148-154 | with a serial line every reported frame is written or waits to be, as often as it was reported |
| Reporting.PrintSchedulerReporting.PrintStats | rampage/userspace/main.py:177-201 | one line more, whose ranges expand to the collected frames in ascending order; the collection is emptied |

## Left out

- Kernel internals behind contracts: `mm_buddy_expand`, merging in `__free_pages` (a returned frame is a block of its own here; only the set of free frames matters), `is_free_buddy_page`, page tables, memory cgroups, zone locks and compound pages.
- Other users of the buddy allocator: between the steps of the model no one else allocates or frees.
- The gap between releasing the semaphore in mmap and counting the mapping (rampage/module/mmap_phys.c:130-131): taken as one step, which the session invariant needs.
- Integer overflow of sizes in the module: the number of records and the file positions are unbounded. A null page structure for a valid frame number does not occur.
- The argument checks of the ioctl entry (magic, version, access), and the other claim methods, which are not compiled or switched off; hotplug-claimed frames are skipped on release as in the code but never arise.
- SlowScheduler.RecordResults: the time of the last claiming attempt is not stated, because unclaimed records report frame 0 and touch that frame's time. Time stands still while one record is processed.
- Memtester.TestPage: under a mask whose first selected test combines what the page holds, nothing is claimed about false alarms, since the halves hold different addresses then. The wrapper and the scheduler claim exactness for the empty mask only. That no unhealthy page is missed is claimed for every mask.
- MemTests.CombineTest: what the combining tests make of words that share a cell is not stated; the address test, which always runs first, finds every such page.
- MemTests.PatternTest: flips of words that share a cell are not followed; and the exact values of Bit Spread, which shifts beyond the word, are an arbitrary pattern common to both halves; so are the random words.
- Cross-page aliasing: the decode map stays inside a page, because memtester tests one page at a time.
- Physmem.Device.MarkPfnBad: a signal at a call other than the request. The scheduler is the only user of its session while its child is not running, so these calls do not wait for the semaphore; the handlers' contracts cover the case.
- World.UndisturbedRequest: that a whole request or release is a run of the model with many sessions is stated for its two loops; their ends, opening, mapping and unmapping share their definitions with the session.
- MemtesterWrapper.Wrapper.Test: the log file, temporary file and process handling are reduced to whether the calls succeed and whether a signal ends memtester.
- Report.ParseResult: digits and white space are those of ASCII, and line ends those of Python's `splitlines`.
- LocalRange.SelectLocalPfnRange: the text of a line of the memory map is taken as already split and converted; lines that do not convert are skipped lines.
- Reporting.Compress: the hexadecimal text of the ranges.
- Scheduling.Run: for a negative portion no pacing is claimed, and coverage only when the walk is completed; flags and counts of pages are read once per visit, and wall-clock arithmetic is a flag.
- Option parsing, the malloc and mlock loop of memtester's main, progress output, logging, statistics, injection state files, stress scripts and build files.
