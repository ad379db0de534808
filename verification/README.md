# Verified model of JanusRT

JanusRT is a small real-time kernel that runs beside Linux on a reserved CPU. This
project models its core in Dafny and proves what the code promises:

- **Allocator** (`Ram`, `Blocks`, `Links`, `Layout`, `Raw`, `Growth`, `Short`, `FreeStores`,
  `ShortFree`, `Soundness`, `Alloc`, `Runs`, `Traces`): the offset-linked best-fit allocator, on
  bytes. Headers and payloads share one byte sequence; ghost state names the blocks and both lists.
  Every call is also a function on bytes (`RawInit`, `RawTake`, `RawAligned`, `RawFree`,
  `RawExtend`, `RawMove`), store by store as in the source, and the methods leave exactly those
  bytes. `pfreeNull` selects the shipped `pfree` (false) or one that returns NULL on 0 as its field
  comment says (true). The methods cover both forms; rows below that hold for one form only, or of
  layouts whatever the lists say, are marked. `FreeSound` is the exact condition under which the
  shipped `free` finds the previous free block right: a free block lies below, or none above.
  "Fits no blocks" means that memory holds the two lists of no sequence of blocks at all that fill
  the arena with at least a used header (12 bytes) each.
- **Heap** (`Heap`): the 4-ary min-heap, in place on its array, refining a multiset.
- **Scheduler and timer** (`Places`, `Records`, `Sched`, `Lifetimes`, `Timer`): process table, free stack, ready and
  waiting heaps, running process and one-shot timer, with every kernel entry as a method.
  A kernel panic sets `panicked`, after which nothing runs. `Lifetimes` follows processes over whole runs.
- **Page tables** (`Bits`, `PageFormat`, `Tree`, `Teardown`, `Mmu`, `PageWalk`): descriptors
  with the source's masks, the four-level tree, mapping, teardown and the printing walker. Table
  pages come from and go back to the byte-level allocator.
- **Mailbox** (`Mailbox`, `MailboxUnlocked`): the ring as a state machine of single shared
  memory accesses by any number of producers and the one consumer.
- **Windows** (`Windows`, `WindowsRace`): the physical windows the kernel module hands out, the
  requests it sends for programs in them, and calls that run at the same time.
- **Formatting** (`Printf`, `Conversions`, `Vsnprintf`, `FormatText`): integer, character and string
  output, what text each directive stands for, and how a format is read.

Where the code and its comments differ, the model follows the code:

- `pfree` returns the block itself when `prev_free` is 0, although the field's comment says
  NULL. `free` then corrupts the lists exactly when a free block lies above and none below.
- A split that leaves a piece smaller than a free header (requests below 8 bytes, alignment gaps
  below 20, growth by less than 20) makes its stores on overlapping headers; the model makes
  the same stores and says what they leave. A used block of 16 to 19 bytes can be right; its
  `free` then writes over the header after it.
- `heap_decrease_key` on a slot that a pop has left behind climbs into the heap and can replace
  an entry.
- `rtcore_mmap` reads and advances its cursor without a lock.
- `use_block` writes the `prev_free` word of the header that would start at `end`. The model
  keeps a word there, and the frame conditions exempt it.
- `vsnprintf` with a buffer of one byte does not write the NUL, and the flags for a plus or a space
  put one before unsigned numbers too.
- `spawn` does not check its allocation; `exit` of such a process panics in `free`.

The clock, the outcome of memory allocations in the scheduler and `remap_pfn_range` are arbitrary.

## Model

| member | source | states |
|---|---|---|
| `Heap.RootIsLeast` | rtprog/heap.c:5-34 | heap order makes the root's key least in the whole heap |
| `Heap.MinHeap.SiftUp` | rtprog/heap.c:24-34 | from a slot in the heap, restores heap order and positions, keeping the entries; from a slot off the heap, exactly what climbing in replaces |
| `Heap.MinHeap.SiftDown` | rtprog/heap.c:36-61 | the same below the slot |
| `Heap.MinHeap.Push` | rtprog/heap.c:72-84 | adds exactly the pair; fails exactly when full, changing nothing |
| `Heap.MinHeap.Pop` | rtprog/heap.c:87-106 | removes an entry no greater than any; none exactly when empty |
| `Heap.MinHeap.Peek` | rtprog/heap.c:107-115 | returns such an entry without removing it |
| `Heap.MinHeap.DecreaseKey` | rtprog/heap.c:124-135 | for every slot: in the heap, replaces exactly that entry's key; no effect when not lower or marked; a slot a pop has left behind climbs, with the exact resulting entries |
| `Heap.MinHeap.IncreaseKey` | rtprog/heap.c:138-149 | for every slot: in the heap, replaces exactly that entry's key; no effect off the heap or when not higher |
| `Heap.StaleChange` | rtprog/heap.c:124-135 | lowering a slot left behind changes the queue exactly when the climb reaches a heap slot: the new key is below every slot it meets on the way up to one |
| `Heap.StaleSlotEvicts` | rtprog/heap.c:72-135 | a concrete run of pushes, a pop and such a lowering that loses one entry and doubles another |
| `Heap.MinHeap.Drain` | rtprog/heap.c:87-106 | popping until empty returns exactly the entries, in order of key |
| `Heap.DrainConserves` | rtprog/heap.c:87-106 | used by `Drain`: a run of pops neither loses nor invents an entry |
| `Heap.DrainIsSorted` | rtprog/heap.c:87-106 | used by `Drain`: a run of pops returns keys in order and leaves only keys at least as large |
| `Alloc.Allocator.constructor` | rtprog/alloc.c:28-38 | the arena is one free block, both lists are in order, the bytes are those of the five stores, no other is written |
| `Alloc.Allocator.Split` | rtprog/alloc.c:83-104 | cuts a free block in two, in the tiling and in both lists, by exactly the source's stores, touching no live payload |
| `Alloc.Allocator.UseBlock` | rtprog/alloc.c:106-122 | takes a block off the free list by exactly the source's stores, touching no live payload |
| `Alloc.Allocator.FindBest` | rtprog/alloc.c:130-139 | the search along the free list finds the smallest sufficient block, the lowest of that size |
| `Alloc.Allocator.Malloc` | rtprog/alloc.c:124-152 | NULL exactly when no free block holds the request and a used header, otherwise the best fit, with exactly the bytes of the source's stores; `intact` exactly when every block keeps room for a free header: then invariant, live payloads and outside memory are kept; for a shorter piece the lists are right if and only if `CarvesRight` (for the first free block: 16 bytes or more), and fit no blocks below that |
| `Alloc.Allocator.AlignedAlloc` | rtprog/alloc.c:153-200 | NULL exactly when no free block holds an aligned payload; otherwise exactly the block of `IsAlignedPick` (`PickOfList`), and exactly the bytes of the stores; when gap and piece can hold headers, an aligned payload is handed out and the same kept; without a gap, a short piece is right exactly when `CarvesRight` |
| `Layout.PickOfList` | rtprog/alloc.c:167-181 | which block the aligned search ends with, by position and size alone: no free block after it has room past the next aligned address even if its own payload is aligned (is roomy); of the last roomy block and the aligned blocks after it that hold the request, it is the smallest, and the lowest of that size |
| `Alloc.Allocator.Free` | rtprog/alloc.c:201-266 | both forms: panics exactly on a pointer that is not a live payload; otherwise exactly the bytes of `RawFree`, and the block is freed and merged with both free neighbours if `FreeSound`, and if not, the memory left fits no blocks |
| `Alloc.Allocator.FreeShort` | rtprog/alloc.c:201-266 | both forms, where used blocks may be as short as 16 bytes: panics exactly on a free block; otherwise, where `FreeSound`, the lists are right if and only if `FreesRight`, and where not, the memory fits no blocks |
| `ShortFree.FreeExact` | rtprog/alloc.c:215-265 | both forms, on bytes: the same of `RawFree`; `FreesRight` is: the block holds a free header, or nothing or a free block follows, or the word written over the next header happens to be right |
| `ShortFree.FreeSpares` | rtprog/alloc.c:215-265 | both forms: such a `free` changes no other live payload and nothing outside the arena |
| `ShortFree.ShortUndone` | rtprog/alloc.c:124-266 | both forms: freeing the short block that `alloc` just cut off restores the arena if and only if NULL on 0 is used or a free block lies below; otherwise the memory fits no blocks |
| `Alloc.Allocator.Realloc` | rtprog/alloc.c:268-312 | both forms: grows in place exactly when the next block is free and large enough, else moves, else NULL, with exactly the bytes of the stores; in place the lists are right exactly when `GrowsFine`; a move is sound exactly when its `free` is, else the memory fits no blocks; the old payload survives, other payloads are kept |
| `Alloc.Allocator.GrowInPlace` | rtprog/alloc.c:292-304 | for every size: the lists of the grown layout are there if and only if the growth takes the whole neighbour, or at least 20 bytes, or 16 to 19 when the neighbour is the first free block or its overlaid word happens to be right |
| `Growth.GrowthWorks` | rtprog/alloc.c:292-304 | on bytes: growth by 16 to 19 under that condition leaves both lists of the grown layout |
| `Growth.GrowthBroken` | rtprog/alloc.c:292-304 | on bytes: otherwise the grown layout is not there |
| `Growth.ImageIsLists` | rtprog/alloc.c:10-22 | the ghost fields of the allocator and the words read one by one say the same |
| `Short.SmallCarveBroken` | rtprog/alloc.c:144-151 | on bytes: cutting less than 16 bytes off the first free block leaves memory that fits no blocks |
| `Short.CarveExact` | rtprog/alloc.c:144-151 | on bytes: after cutting less than 20 bytes off any free block the lists are right if and only if at least 16 were cut and the block was the first free one, or its overlaid word happens to be right |
| `Short.LostWord` | rtprog/alloc.c:106-122 | cutting 16 bytes off a block that is not the first free one adds 16 to the last word of the live block below |
| `Growth.JoinThreads` | rtprog/alloc.c:299-303 | joining the piece cut off to the block below turns the lists of the carved layout into those of the grown one |
| `Alloc.Allocator.WritePayload` | rtprog/alloc.c:309 | writing inside a live payload disturbs neither list nor any other payload |
| `Runs.AllocFree` | rtprog/alloc.c:124-266 | both forms, for every length: where the lists are right after `alloc(len)`, `free` restores the arena exactly, if and only if NULL on 0 is used, a free block lies below, or nothing is left above; if not, the memory fits no blocks; the bytes are those of the two calls |
| `Runs.AlignedAllocFree` | rtprog/alloc.c:158-266 | both forms: the same for `aligned_alloc` where gap and piece can hold headers; a gap left in front makes it sound |
| `Runs.FreshShort` | rtprog/alloc.c:28-152 | in every fresh arena, on bytes: `alloc` of 4 to 7 bytes that splits leaves right lists with a short used block, of 0 to 3 bytes memory that fits no blocks |
| `Runs.FreshShortFreed` | rtprog/alloc.c:28-266 | both forms: freeing that block gives the fresh arena with NULL on 0, and memory that fits no blocks in the shipped form |
| `Runs.FreshGapOfFour` | rtprog/alloc.c:28-200 | in every fresh arena, on bytes: an aligned request with a gap of 4 leaves memory that fits no blocks |
| `Runs.FreeAll` | rtprog/alloc.c:201-266 | both forms, in memory: freeing every live block in a given order leaves one free block with NULL on 0, and in the shipped form if and only if `AllSound`; otherwise the memory fits no blocks |
| `Traces.Step` | rtprog/alloc.c:124-312 | both forms: which block a call acts on (best fit, aligned pick, block of the pointer), the exact bytes, layout and pointers it leaves, and that the lists stay right with room for free headers if and only if the call does not stop the run |
| `Traces.Run` | rtprog/alloc.c:28-312 | both forms: every run of the four calls from a fresh arena is such a sequence of steps up to the first that stops it; with nothing held the arena is as new; with NULL on 0 no `free` and no moving `realloc` stops it |
| `Traces.FirstFreeBreaksLists` | rtprog/alloc.c:45-48 | shipped form: every run that allocates once in a fresh arena, splitting it, and frees again stops at the `free`, with memory that fits no blocks |
| `Soundness.AllocThenFree` | rtprog/alloc.c:124-266 | shipped form: freeing what `alloc` returned is sound if and only if a free block lies below, or the block was not split and none lies above |
| `Soundness.AlignedThenFree` | rtprog/alloc.c:158-266 | shipped form: the same for `aligned_alloc` |
| `Soundness.FreeAllSound` | rtprog/alloc.c:201-266 | shipped form: freeing every live block in a given order is sound throughout if and only if there is none, the lowest block is free, or all are used and the lowest goes first |
| `Soundness.LayoutByLive` | rtprog/alloc.c:248-265 | a legal layout is determined by its live blocks |
| `Layout.FirstFreeUnsound` | rtprog/alloc.c:229-247 | the same case as a layout: unsound with the shipped `pfree`, sound with NULL on 0 |
| `Layout.CarveLegal` | rtprog/alloc.c:144-149 | layouts: handing out bytes of a free block leaves a legal layout if and only if no piece is smaller than a header |
| `Layout.CarveAfterLegal` | rtprog/alloc.c:186-197 | layouts: the same with an alignment gap in front: if and only if gap, block and rest can hold headers |
| `Layout.GrowLegal` | rtprog/alloc.c:292-303 | layouts: growing in place by any size keeps the layout legal |
| `Layout.GrownElems` | rtprog/alloc.c:292-304 | layouts: growing in place gives the block exactly the size asked for, and leaves the rest of its neighbour free, unless too little would be left: then it takes all; no other block changes |
| `Layout.SmallPiecesIllegal` | rtprog/alloc.c:124-200 | layouts: `alloc(0)` and an alignment gap of 4 are concrete requests outside those conditions |
| `Layout.ReleaseLegal` | rtprog/alloc.c:248-265 | layouts, that is, `free` where it is sound: freeing leaves blocks tiling the arena with no two free neighbours |
| `Layout.ReleaseUndoesCarve` | rtprog/alloc.c:124-266 | layouts, that is, where `free` is sound (`AllocThenFree`): freeing what `alloc` just returned restores the block sequence exactly |
| `Layout.ReleaseUndoesCarveAfter` | rtprog/alloc.c:158-266 | the same for `aligned_alloc` (`AlignedThenFree`) |
| `Layout.CarveLive` | rtprog/alloc.c:144-151 | `alloc` adds exactly one live block |
| `Layout.CarveElems` | rtprog/alloc.c:144-149 | layouts: `alloc` hands out exactly the bytes asked for and leaves the rest free, unless too little would be left: then the whole block; no other block changes |
| `Layout.ReleaseLive` | rtprog/alloc.c:201-266 | layouts, that is, where `free` is sound: it removes exactly one live block |
| `Layout.ReleaseElems` | rtprog/alloc.c:248-265 | layouts: freeing joins the block with the free neighbour on either side, with exactly their sizes; no other block changes |
| `Layout.LiveDisjoint` | rtprog/alloc.c:20-22 | live payloads lie inside the arena and do not overlap |
| `Layout.FreeingAllRestoresArena` | rtprog/alloc.c:201-266 | NULL on 0, or the shipped form where `FreeAllSound` says so: freeing every live block, in any order, leaves one free block of the arena's size |
| `Layout.RunsStayLegal` | rtprog/alloc.c:28-312 | layouts: every run of operations that leave no small piece keeps exact tiling and full coalescing, and with nothing live the arena is as new; `Traces.Run` ties this to memory in both forms |
| `Links.HeadPointsBack` | rtprog/alloc.c:17 | memory whose first free block has a non-zero back distance fits no blocks |
| `Places.StackHasRoom` | rtprog/sched.c:38-42 | while a process is being moved, the free stack has room for it |
| `Places.DispatchInv` | rtprog/sched.c:252-267 | dispatching a ready process leaves each process in one place, the old one in hand |
| `Places.DispatchEarliest` | rtprog/sched.c:252-267 | dispatching a least entry puts the earliest deadline on the core |
| `Places.PreemptInv` | rtprog/sched.c:282-294 | preemption keeps each process in exactly one place |
| `Places.PreemptEarliest` | rtprog/sched.c:282-294 | preempting for a strictly earlier deadline leaves the earliest on the core |
| `Places.ParkedInv` | rtprog/syscall.c:21-28 | a process that starts to wait is in the waiting heap under its wake-up time, and nothing else moves |
| `Records.PreemptTagged` | rtprog/sched.c:282-294 | preemption leaves every tag right for its place: running, waiting, and ready or still waiting in the ready heap |
| `Records.RanNext` | rtprog/sched.c:269-295 | switches add up: after any number, each record is the same but for its tag, the process that ran is marked ready, the one that runs running and is due strictly earlier |
| `Sched.Scheduler.constructor` | rtprog/sched.h:51-70 | every slot free and unused, heaps empty, the kernel process running |
| `Sched.Scheduler.NewProc` | rtprog/sched.c:48-103 | panics exactly when no slot is free; otherwise takes one off the stack; its record gets the deadline, the memory and the ready tag, and nothing else in the table changes |
| `Sched.Scheduler.FreeProc` | rtprog/sched.c:32-45 | the slot goes back on the stack, which cannot overflow; its record changes in its tag only and no other record does; panics exactly on a bad pid or NULL memory |
| `Sched.Scheduler.ReadyProc` | rtprog/sched.c:105-115 | pushes the process under its effective deadline; panics exactly on a bad pid or a full heap |
| `Sched.Scheduler.WaitProc` | rtprog/sched.c:117-128 | pushes the process under its wake-up time; panics exactly on a bad pid or a full heap |
| `Sched.Scheduler.Yield` | rtprog/sched.c:252-267 | the earliest ready process, or the kernel when none is, runs; that process is marked running, and nothing else in the table changes |
| `Sched.Scheduler.Reschedule` | rtprog/sched.c:269-295 | afterwards no ready process is due before the running one, the kernel runs only if none is ready, and no process is lost; a process gives way only to one due strictly earlier; then the two tags change, and nothing else in the table does |
| `Sched.Scheduler.WaitUntil` | rtprog/syscall.c:13-37 | the caller joins the waiting heap; its record changes in its wake-up time and tag only, that of the process that runs next in its tag, and no other record at all; partition, tags, earliest-deadline order and timer kept; panics exactly for the kernel or a full heap |
| `Sched.Scheduler.Exit` | rtprog/syscall.c:41-52 | the caller's slot becomes free; its record and that of the process that runs next change in their tags only, and no other record at all; the same kept; panics exactly for the kernel or NULL memory |
| `Sched.Scheduler.Spawn` | rtprog/syscall.c:53-81 | one free slot becomes a process with the given deadline and memory, which runs at once if it is due strictly earlier; besides, only the two tags of such a switch change in the table; the same kept; panics exactly without a slot or with a full ready heap |
| `Sched.Scheduler.ScheduleReq` | rtprog/rtprog.c:156-191 | the same with deadline 0, and a panic on NULL memory |
| `Sched.Scheduler.IpcSched` | rtprog/rtprog.c:194-205 | serves the first three requests at most, each by its own process with its memory and deadline 0; every other record changes in its tag at most, as switches do; panics exactly when one of them has no memory, no slot or no room |
| `Sched.Scheduler.WakeOne` | rtprog/rtprog.c:218-233 | takes a least wake-up time; a process not yet due goes back, with room always there, and the timer is armed for it; a due one becomes ready, and runs at once if it is due strictly earlier; only the two tags of such a switch change in the table |
| `Sched.Scheduler.TimerFn` | rtprog/rtprog.c:207-243 | terminates; exactly the processes due at its last reading of the counter, taken during the call, leave the waiting heap; every record is as before but for its tag, and the tags are those of the switches (`Ran`); everything kept; it panics if and only if more are due by then than the ready heap and the core have room for |
| `Sched.Scheduler.TimerSchedule` | rtprog/timer.c:90-106 | the compare value for the deadline with 64-bit wrap-around, timer on |
| `Sched.Scheduler.Step` | rtprog/syscall.c:83-116 | every kernel entry panics exactly when `Panics` says, per event, and otherwise keeps the whole invariant, moves exactly the processes it is for and writes exactly the records `Entered` says |
| `Sched.Scheduler.Run` | rtprog/rtprog.c:81-133 | every run of kernel entries goes through views related entry by entry, each of them sound, up to the first that panics, which is the first that `Panics`; it keeps: each pid in exactly one place, keys equal to records, unused exactly the free ones, every tag right for its place, earliest deadline running, timer on exactly while a process waits and armed for the least wake-up time |
| `Lifetimes.Lives` | rtprog/sched.c:252-295 | over every run, a process that stays live keeps the deadline and the memory it had |
| `Lifetimes.CreatedBy` | rtprog/sched.c:48-103 | over every run, a live process in a slot that was free at first was created by one definite entry, since when it has been live, and has the deadline and memory of that `spawn` or request |
| `Lifetimes.WaitsSince` | rtprog/syscall.c:13-37 | over every run, a waiting process is waiting since it called `wait_until` with the time it is waiting for |
| `Lifetimes.NotWokenEarly` | rtprog/rtprog.c:207-243 | over every run, a process stops waiting only in a timer interrupt that read a counter at or past its wake-up time |
| `Lifetimes.EarliestCreatedRuns` | rtprog/sched.c:269-295 | over every run from an empty system, the running process was created with a deadline no later than that of any ready one, and the kernel runs only with none ready |
| `Timer.ArmsAtDeadline` | rtprog/timer.c:90-97 | armed at the deadline, or one tick ahead when it has passed, if and only if the two lie within 2^63 ticks |
| `Timer.TicksExact` | rtprog/timer.c:19-48 | no step overflows and the result is the quotient rounded half up, for a frequency and result in range |
| `Timer.FromTicksExact` | rtprog/timer.c:50-78 | the same for the way back, rounded down |
| `Timer.ConversionsMonotone` | rtprog/timer.c:19-78 | both conversions, on 64-bit words in the range of `TicksExact`, keep order |
| `Timer.TickRoundTrip` | rtprog/timer.c:19-64 | ticks to time and back is the same tick if and only if at most half a unit was cut off; always for a frequency up to half the unit |
| `Timer.TimeRoundTrip` | rtprog/timer.c:35-78 | time to ticks and back is the same or one less, and which one, for a frequency above half the unit |
| `Timer.NsRoundTrip` | rtprog/timer.c:19-64 | on 64-bit words: the same tick for every counter up to 500 MHz |
| `Timer.UsRoundTrip` | rtprog/timer.c:35-78 | on 64-bit words: the same microsecond or one less above 500 kHz |
| `Timer.SkipForward` | rtprog/timer.c:183-188 | the first deadline of the period after now |
| `PageFormat.IdxIs` | rtprog/mmu.c:91-94 | the index at a level is a base-512 digit of the address |
| `PageFormat.TableRoundTrip` | rtprog/mmu.c:96-121 | a table descriptor is valid, of table kind, and leads back to its table |
| `PageFormat.PageRoundTrip` | rtprog/mmu.c:101-104 | a page descriptor is a leaf at level 3, leads back to its frame and carries exactly its attributes, for any attributes off the address field |
| `PageFormat.PresetAttrs` | rtprog/mmu.h:66-80 | the three attribute presets are such attributes, bit for bit: global or not, accessed, shareability, permission, memory type, and who may execute |
| `PageFormat.KindIs` | rtprog/mmu.c:331-348 | the descriptor kind by its two low bits |
| `PageFormat.OutAddrIs` | rtprog/mmu.c:350-362 | the output address is bits 12 to 35 |
| `Tree.KeyNamesPage` | rtprog/mmu.c:91-94 | two 48-bit addresses have the same four indices if and only if they are on the same page |
| `Tree.GrowTree` | rtprog/mmu.c:110-121 | linking an empty table below an empty slot keeps the tree, its sharing-freedom and its links |
| `Tree.WriteLeaf` | rtprog/mmu.c:143 | writing a page descriptor keeps the tree |
| `Tree.TranslateIs` | rtprog/mmu.c:331-362 | walking the tables level by level finds exactly the leaf descriptor of the page: its frame and its attribute bits |
| `Mmu.Mmu.PtAllocPage` | rtprog/mmu.c:16-29 | both forms: a new, aligned, zeroed page, carved out of the allocator's layout; panics exactly when no free block holds one; the lists break only when the gap in front is smaller than a header; the layout is as before in both cases |
| `Mmu.Mmu.EnsureNext` | rtprog/mmu.c:110-121 | the table below a slot, made if missing; no translation changes; stops only with no block left for a page, or at a page whose gap is too small, and what is built by then is a tree whose tables are exactly the pages taken |
| `Mmu.Mmu.MapPage` | rtprog/mmu.c:134-144 | exactly the page of `va` changes, to the descriptor of `pa`; memory outside the tree is untouched; stops only with no block left for a page, or at a page whose gap is too small, and what is built by then is a tree whose tables are exactly the pages taken |
| `Mmu.Mmu.MapRangePages` | rtprog/mmu.c:157-167 | every address in the rounded range leads to the consecutive frames with exactly the attribute bits given, every other address where it did with those it had; stops only with no block left for a page, or at a page whose gap is too small, and what is built by then is a tree whose tables are exactly the pages taken |
| `Mmu.CongruentRange` | rtprog/mmu.c:157-167 | with `va` and `pa` equal within the page, each address goes to `pa` plus its offset, with the attributes given |
| `Mmu.Mmu.BuildProcessMap` | rtprog/mmu.c:193-215 | where every 48-bit address of a process leads and with which attribute bits, exactly; stops only with no block left for a page, or at a page whose gap is too small, and what is built by then is a tree whose tables are exactly the pages taken |
| `Mmu.ProcessAccess` | rtprog/mmu.c:193-215 | per address of a process map: not global exactly in its low window outside the UART, device and not executable at EL1 exactly in the UART; never executable or accessible at EL0 |
| `Mmu.Mmu.MapGic` | rtprog/mmu.c:173-185 | the distributor and all redistributor frames lead to themselves as devices, the rest where it did; stops only with no block left for a page, or at a page whose gap is too small, and what is built by then is a tree whose tables are exactly the pages taken |
| `Mmu.Mmu.BuildKernelMap` | rtprog/mmu.c:219-226 | the identity on code, memory, UART and GIC, and nothing else, each with its attribute bits; stops only with no block left for a page, or at a page whose gap is too small, and what is built by then is a tree whose tables are exactly the pages taken |
| `Mmu.KernelAccess` | rtprog/mmu.c:219-226 | per address of the kernel map: all global; device and not executable exactly for UART and GIC; never executable or accessible at EL0 |
| `Mmu.Mmu.ProcMapCreate` | rtprog/mmu.c:232-240 | every table page of the map is newly allocated, and the map is the process map; stops only with no block left for a page, or at a page whose gap is too small |
| `Mmu.Mmu.KernMapCreate` | rtprog/mmu.c:242-251 | the same for the kernel map; stops only with no block left for a page, or at a page whose gap is too small |
| `Mmu.Mmu.FreeTableLevel` | rtprog/mmu.c:254-281 | both forms: completes if and only if every table's `free`, in the order of the walk, is sound; then exactly the pages of the subtree are freed, each once and while allocated; if not, the memory fits no blocks |
| `Mmu.Mmu.FreePage` | rtprog/mmu.c:280 | both forms: panics exactly on a page that is not allocated; sound exactly when `free` is |
| `Teardown.OrderPages` | rtprog/mmu.c:254-281 | the order of the walk lists exactly the tables at or below a table |
| `Mmu.Mmu.PtRootFree` | rtprog/mmu.c:283-288 | both forms: completes if and only if every `free` of the walk is sound; then exactly the allocations outside the tree are live, unchanged |
| `Mmu.Mmu.CreateDestroy` | rtprog/mmu.c:301-309 | both forms: creating and destroying a map restores the allocator's layout block for block and all other memory; building stops only with no block left for a page, or at a page whose gap is too small; once built, destroying fails if and only if some table's `free` is unsound, never with NULL on 0, nor in the shipped form when the lowest block was free and cannot hold a page at its start |
| `Mmu.FreshLowestStays` | shared/memory_layout.h:39 | shipped form: a fresh arena at the heap's alignment is such a case |
| `PageWalk.Dumper.RunVisit` | rtprog/mmu.c:390-403 | the runs stand for the pages visited, in order, and no run continues the one before |
| `PageWalk.Dumper.WalkLevel` | rtprog/mmu.c:528-559 | appends exactly what the table maps |
| `PageWalk.Dumper.DumpMap` | rtprog/mmu.c:562-574 | the printed runs stand for the listing of the map and cannot be merged |
| `PageWalk.ListingAscends` | rtprog/mmu.c:528-559 | the walk meets pages in strictly ascending order |
| `PageWalk.ListingExact` | rtprog/mmu.c:528-559 | a page is listed with a frame if and only if the table walk translates it there |
| `PageWalk.DumpIsMap` | rtprog/mmu.c:528-574 | a page is among the printed runs with a frame if and only if the map translates it there |
| `Mailbox.InitInv` | kernelmod/rtmain.c:392-397 | the ring starts out consistent |
| `Mailbox.TestFlagInv` | kernelmod/rtmain.c:223-238 | leaving the spin loop means the slot's last ticket has been cleared |
| `Mailbox.CopyWordInv` | kernelmod/rtmain.c:240-241 | copying into a claimed slot touches no published record |
| `Mailbox.SetFlagInv` | kernelmod/rtmain.c:243-244 | publishing makes exactly the next ticket readable |
| `Mailbox.ReadWordInv` | rtprog/rtprog.c:146 | what is read so far is a prefix of one record |
| `Mailbox.ClearFlagInv` | rtprog/rtprog.c:148 | clearing hands exactly one slot back |
| `Mailbox.StepInv` | kernelmod/rtmain.c:215-247 | every access of every producer and of the consumer keeps the ring invariant |
| `Mailbox.RunInv` | kernelmod/rtmain.c:312-316 | so does every interleaving |
| `Mailbox.TiedRun` | kernelmod/rtmain.c:303-316 | every run ties its tickets to calls: the call whose record each carries, and for each caller that waits the call it waits with |
| `Mailbox.PoppedAreFirstPublished` | rtprog/rtprog.c:135-151 | under every interleaving, with wrap-around of the 32-bit tickets: each ticket belongs to one call, whose record it carries, no two to the same; the records popped are those of the first calls published, in the order their tickets were drawn, each whole and once; a producer's own in the order of its calls; every call has its ticket or its caller still waits with its record |
| `Mailbox.NothingLeft` | rtprog/rtprog.c:135-151 | when no push is under way and a poll finds nothing, every claimed record has been popped |
| `Mailbox.HistoriesGrow` | kernelmod/rtmain.c:206-213 | however a run goes on, the ticket order and the records popped so far stay as they are |
| `MailboxUnlocked.PushAlone` | kernelmod/rtmain.c:215-247 | a push with an empty slot, left alone, stores its record, flags the slot and changes nothing else |
| `MailboxUnlocked.PopAlone` | rtprog/rtprog.c:135-151 | a pop with a flagged slot, left alone, returns the record, clears the flag and advances |
| `MailboxUnlocked.MutexNeeded` | kernelmod/rtmain.c:312-316 | without the mutex, 4097 producers make the consumer receive the last record first |
| `Windows.WindowsDisjoint` | kernelmod/rtmain.c:333-391 | windows are page-aligned, disjoint and inside the code region |
| `Windows.Driver.Mmap` | kernelmod/rtmain.c:333-391 | the next window, recorded for the descriptor, or the exact error, which changes nothing |
| `Windows.Driver.SchedProg` | kernelmod/rtmain.c:252-310 | the exact answer for every descriptor and address; on success the request starts as far into the descriptor's window as the address into its mapping and ends with it; the region check never fails |
| `Windows.Driver.Run` | kernelmod/rtmain.c:321-391 | every sequence of calls goes through states related call by call, each with its windows apart and every request inside its own |
| `Windows.LowWindowInside` | rtprog/mmu.c:193-203 | the low window of a request's process map reaches only frames of its window, aligned entry or not |
| `Windows.NoSharedFrame` | rtprog/mmu.c:193-215 | process maps of requests in different windows share no low-window frame |
| `Windows.RunKeepsApart` | kernelmod/rtmain.c:252-391 | at every point of every such run, requests for different windows share no low-window frame |
| `Windows.HistoryGrows` | kernelmod/rtmain.c:252-391 | along such a run, windows and requests are only added |
| `Windows.ReachesWhen` | rtprog/mmu.c:193-215 | the whole map of a request in one window reaches another if and only if that one starts below the end of the kernel part |
| `Windows.ZeroIsEntry` | rtprog/sched.c:72 | address 0 leads to the entry point if and only if the entry is on a page boundary |
| `WindowsRace.SerialWindowsApart` | kernelmod/rtmain.c:333-391 | step by step: calls that do not overlap in time get disjoint windows inside the region |
| `WindowsRace.PairApart` | kernelmod/rtmain.c:345-380 | two calls that got windows get disjoint ones if and only if one placed its window after the other had finished; otherwise both start at the same address |
| `WindowsRace.RaceSharesWindow` | kernelmod/rtmain.c:345-380 | two calls that overlap in time get the same window |
| `Printf.Out.Putc` | rtprog/libc/snprintf.c:28-33 | the text grows by one character; the buffer holds as much as fits |
| `Printf.Out.WriteN` | rtprog/libc/snprintf.c:35-41 | the text grows by the string |
| `Printf.Out.Pad` | rtprog/libc/snprintf.c:110-115 | the text grows by the padding |
| `Printf.Out.Terminate` | rtprog/libc/snprintf.c:43-52 | the buffer holds the text cut to its capacity, then NUL, and nothing else changed; no NUL without capacity |
| `Printf.UtoaRev` | rtprog/libc/snprintf.c:86-108 | the numeral in reverse, at most 22 of the 64 places |
| `Printf.NumeralReads` | rtprog/libc/snprintf.c:86-108 | numerals in any base from 2 to 16 read back |
| `Printf.EmitInt` | rtprog/libc/snprintf.c:117-174 | puts out the formatted integer, which `IntTextShows` describes |
| `Printf.IntLength` | rtprog/libc/snprintf.c:138-157 | its length is the larger of the width and of sign, prefix and the larger of digits and precision |
| `Printf.IntReads` | rtprog/libc/snprintf.c:117-174 | reading it back gives sign and magnitude, for all flags, widths and precisions |
| `Conversions.IntTextShows` | rtprog/libc/snprintf.c:117-174 | what that is: spaces up to the width on one side, sign and prefix, then digits that spell the number in the base and case given, at least as many as the precision (1 without one, or what zero padding fills), with a zero in front only to reach that |
| `Conversions.ShowsOnce` | rtprog/libc/snprintf.c:117-174 | such a description leaves one text only |
| `Vsnprintf.ParseFlags` | rtprog/libc/snprintf.c:534-546 | stops at the first character that is no flag, having set exactly the flags met |
| `Vsnprintf.ParseNumber` | rtprog/libc/snprintf.c:558-569 | stops at the first character that is no digit; the value is that of the digits in base 10 |
| `Vsnprintf.ParseDirective` | rtprog/libc/snprintf.c:644-682 | cuts a directive into the runs of its flags, width, precision and length, each with its meaning |
| `Vsnprintf.EmitDirective` | rtprog/libc/snprintf.c:684-782 | puts out the text that `Means` gives the directive, and says how many arguments it took |
| `Vsnprintf.ConvertedInt` | rtprog/libc/snprintf.c:586-757 | `d`, `i` and `u` show the argument in base 10, `o` in 8, `x`, `X` and `p` in 16, upper case for `X` only; the argument is what is left of it in the type of the length modifier, signed for `d` and `i`; reading the text back gives its sign and magnitude |
| `Vsnprintf.ConvertedMeans` | rtprog/libc/snprintf.c:684-782 | the text of every directive covered: integers as above, `c` the character and `s` the string cut to the precision, with spaces before or, with the minus flag, after it, `%` itself, and others literally |
| `Vsnprintf.MeansOnce` | rtprog/libc/snprintf.c:684-782 | a directive stands for one text only |
| `Vsnprintf.StandsOnce` | rtprog/libc/snprintf.c:616-788 | a sequence of literals and directives stands for one text only |
| `Vsnprintf.CStrLen` | rtprog/libc/snprintf.c:54-63 | the characters before the first NUL |
| `Vsnprintf.Vsnprintf` | rtprog/libc/snprintf.c:616-788 | returns the length of the text that the pieces of the format up to its NUL stand for (`Stands`), whatever the buffer size; two bytes or more receive the text cut to fit and a NUL, and nothing after it changes; fewer are left alone |
| `FormatText.FormatReads` | rtprog/libc/snprintf.c:616-682 | every format written out of literals and directives reads back as the same pieces |
| `FormatText.FormatEnds` | rtprog/libc/snprintf.c:630 | a format written out of pieces is read as far as the first NUL among its literals |
| `FormatText.Snprintf` | rtprog/libc/snprintf.c:790-798 | on a format written out of pieces: the text that exactly the pieces before the first NUL stand for, cut to fit and terminated; its length is returned whatever the buffer size |

## Left out

- Malloc: where the lists are wrong after a short cut off a block that is not the first free one, other blocks than those of the cut might fit the bytes; the same for lengths whose header makes `size_t` wrap to less than 8.
- AlignedAlloc: for a gap too small for a header it says which bytes are left, not whether some blocks fit them (`FreshGapOfFour` settles one family); and the sizes do not wrap around 64 bits.
- Realloc: growth only, as the source intends, and no wrap-around of the size; where an in-place growth is wrong, the grown layout is not there, while some other layout might be.
- Free: a pointer inside the arena is the payload of some block; other interior pointers are not modelled. The coalescing loop, which runs once or twice, is written out as two rounds.
- Arena sizes are such that every distance fits its 32-bit field.
- PtAllocPage: table contents are kept as a map from pages to descriptors beside the allocator's bytes; that stores inside a page leave the lists alone is `WritePayload`.
- FreePage: a page address inside the arena is the payload of some block, as for Free.
- FreeShort: the same condition on the pointer as for Free; the calls other than `free` are not modelled on layouts with a short block.
- Traces.Run: `realloc` calls that would shrink a block are passed over, and the run stops where a block becomes too short for a free header, although the lists may be right there.
- SerialWindowsApart: accesses are sequentially consistent.
- Spawn: the request's memory is a number that is 0 for NULL; the call into the allocator and the map creation are not composed with it. The same holds for ScheduleReq, FreeProc and Exit.
- IpcSched: takes the requests that have arrived as a sequence, not from the ring.
- SwitchTo: a context switch changes `curr` and `pid` only; registers, TTBR0 and ASIDs are left out.
- Reschedule: the fall-through of `sched` on an empty ready heap, which no caller reaches, is excluded by its precondition.
- MapRangePages: addresses are within the 48-bit virtual and 36-bit physical spaces the source configures.
- WalkLevel: a table address outside memory reads as an empty table.
- StepInv: accesses are sequentially consistent; weak memory ordering is left out, and so is the `try_only` mode, which nothing uses.
- Eventual delivery through the mailbox: three records are taken per edge-triggered interrupt, so it does not follow from the code.
- Vsnprintf: `*`, `%n` and floating-point conversions are left out, and widths and precisions that overflow an `int`; a missing argument reads as 0.
- Assembly, UART, GIC and PSCI code, cache and TLB maintenance, syndrome decoding, the loader and the demo application: hardware access or no unbounded behaviour.
- `heap_iter`, `dump_alloc`, `dump_sched` and `dump_mem`: printing only.
