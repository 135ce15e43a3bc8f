# The kernel's in-memory machinery, verified

A Dafny model of a small single-processor x86-64 kernel: its physical page allocator, four-level
page tables, heap, task table and scheduler, context switch, lock and interrupt flag, text
terminal and key buffer. Code that changes things in place is modelled by classes and arrays whose
methods follow it branch by branch and loop by loop; each method is proved against a specification
function or abstract value, and what the kernel relies on is proved about those, for every input,
every reachable state and every run.

`dafny verify dfyconfig.toml` checks the whole project.

## Layout

- Page allocator: `PageBitmap` (bits and bytes), `PhysicalPages` (start-up, allocation, release).
- Page tables: `Words` (64-bit words as naturals), `PageTree` (tables as a tree and the mapping it
  stands for), `TableNeeds` (which tables a run of pages lacks), `AddressSpace` (the code that edits
  and walks them).
- Heap: `HeapBlocks` (the row of blocks), `HeapOrders` (freeing in any order), `HeapHeaders` (the linked
  headers in memory), `HeapPages` (the pages underneath), `KernelHeap` (the allocator).
- Tasks: `TaskTables` (each entry point as a function on the table), `TaskSafety` (the invariant),
  `TaskRuns` (interleavings, bounded waiting, sleeping), `TimeSlices` (slices, yields, charged ticks),
  `ExitCodes` (delivery of exit codes), `Wakeups` (how long a sleep lasts and how soon a woken task
  runs), `Scheduler` (the table in place).
- Everything together: `Ownership` (one owner for each page), `Kernel` (all requests over one state),
  `Startup` (from the boot loader to any run of requests).
- Machine code: `ContextSwitch` (pushes and pops on registers and stack), `ContextRuns` (what survives
  over runs), `Interrupts` (lock and interrupt flag, instruction by instruction), `Simulation` (the
  steps of the task table are steps of both).
- Terminal: `TextGrid` (the abstract screen), `Framebuffer` (pixels that refine it).
- Keyboard: `KeyBuffers` (the ring buffer and its interrupt-time producer).

## What the proofs found

- The two stack pages of a task are adjacent only if the page after the lowest free one is free
  (`Scheduler.StackContiguous`). Since an exit gives back the base page only, the next task then gets
  a stack with a hole (`Scheduler.HoleAfterRelease`, `Kernel.Machine.ExitThenSpawn`,
  `Startup.HoleAfterStart`); stack use is safe only inside the page under `stack_top`,
  and that is how `ContextRuns` bounds it.
- `terminate` gives back `stack_base` only, so each exit loses one page for good
  (`Kernel.Machine.Conservation` counts it).
- A run of heap blocks freed in ascending order does not merge, contrary to the comment at
  `src/shell/simple_shell.rs:192`; freed in descending order it does; in general a block is merged
  into the one before it exactly if it was freed first (`HeapOrders.OrderDecides`).
- Start-up of the page allocator takes address 0 for "not found". The boot protocol rules out the
  maps for which that matters (`PhysicalPages.BitmapPlaceUnderProtocol`, `PhysicalPages.PlaceAtZeroIsLost`).
- A mapped page reads back exactly if its frame is below 2^52 (`PageTree.MapReadsBack`).
- In a build without overflow checks `align_up` returns 0 above 2^64 - 16, growth adds too little for
  requests a little below that, and `sleep_ms` waits too short for products of 2^64 or more
  (`KernelHeap.AlignUpWraps`, `KernelHeap.GrowthWraps`, `TaskTables.SleepWraps`).
- New tasks, and tasks coming back from `yield_cpu` or `sleep_ms`, run with interrupts off until
  something executes `sti` (`Interrupts.StartsMasked`, `Interrupts.FlagRises`), so the bounds
  of `TaskRuns` are in delivered ticks.
- With a single text row, `backspace` does not undo a character that filled it
  (`TextGrid.BackspaceUndoesPutc`).

## Assumptions

- Slot 0 is the idle task, which only halts: it takes no yield, sleep, wait or exit step.
- Memory map: usable entries share no byte with each other (Memory Map Feature of the Limine Boot
  Protocol). `init_pmm` is modelled without this too; only the counts need it, and so does `Kernel.Boot`.
- Page tables: the path that is mapped, unmapped or translated meets no large-page entry (section 5.3
  of the AMD64 Architecture Programmer's Manual, Volume 2), because the code would take that for a
  table; large pages may hang anywhere else. One fixed root, and the boot loader's tables form an
  unshared tree that uses no free page. The heap's window from HEAP_START on and the local APIC's page
  meet no large page.
- `HEADER_SIZE` is any positive multiple of 8. Memory in which the heap never wrote a header does not
  hold the used magic where `kfree` looks for one.
- Context switching: running code writes no stack word outside its own stack or above the innermost
  interrupt frame on it, and a handler returns with the stack pointer it was given. That live stacks
  share no word is proved (`Kernel.Machine.StackWordsApart`, `Kernel.Machine.IdleStackApart`).
- Stacks have room: an interrupt, a switch or an exit happens only with space for its words above the
  bottom of the stack page.
- The handler of an interrupt does not write its `InterruptFrame`. The dispatcher of vector 128 does, to
  return a value in `rax`, so that vector is outside `InterruptIsTransparent`.
- Glyph bits, screen geometry (at least one cell, width at most the pitch) and the memory map are
  parameters.

## Model

| member | source | states |
|---|---|---|
| `PhysicalPages.Pmm.InitPmm` | src/memory/pmm.rs:41-131 | Start-up tracks the fewest pages that reach to the end of every entry, in the fewest bytes with a bit for each; it frees a page exactly if it lies wholly in a usable entry, starts at or above 1 MiB and shares no byte with the bitmap; both counters end at the number of those pages; it panics exactly when the map is empty or no place for the bitmap is found |
| `PhysicalPages.MemoryMeasured` | src/memory/pmm.rs:47-58 | `n` pages suffice exactly if every entry ends within them, and `n` bytes exactly if every entry ends within 8 pages for each byte |
| `PhysicalPages.FreedIsAdmitted` | src/memory/pmm.rs:59-120 | What the page-wise test around the bitmap lets through is every page that shares no byte with it |
| `PhysicalPages.RoomForBitmap` | src/memory/pmm.rs:66-72 | An entry is chosen exactly if it is usable and some page boundary in it leaves room for the bitmap; the place is the first boundary |
| `PhysicalPages.BitmapPlaceFound` | src/memory/pmm.rs:61-80 | The bitmap lies on the first page boundary, wholly inside, of the first usable entry that can hold it; start-up takes address 0 for "not found", so it fails exactly when no entry can hold the bitmap or the first that can starts at 0 |
| `PhysicalPages.BitmapPlaceUnderProtocol` | src/memory/pmm.rs:61-80 | With no usable entry at 0, as the boot protocol promises, the search fails exactly when no entry can hold the bitmap |
| `PhysicalPages.PlaceAtZeroIsLost` | src/memory/pmm.rs:61-80 | A map outside the protocol that has room for the bitmap at 0, and for which the search fails |
| `PhysicalPages.Pmm.FindBitmapPlace` | src/memory/pmm.rs:61-74 | The scan returns the place that `BitmapPlaceFound` is about |
| `PhysicalPages.Pmm.FreeRegion` | src/memory/pmm.rs:96-130 | One region's loop adds exactly that region's allowed whole pages to the free set, and counts each once because usable entries are separate |
| `PhysicalPages.WholePages` | src/memory/pmm.rs:104-105 | Rounding the start up and the end down gives exactly the pages wholly inside an entry |
| `PhysicalPages.NotYetFreed` | src/memory/pmm.rs:96-130 | With separate entries no page is freed, and so counted, twice |
| `PhysicalPages.Pmm.AllocPage` | src/memory/pmm.rs:133-152 | Takes the lowest free page, changes that page's bit only, and fails exactly when no page is free, changing nothing; the count stays the number of free pages |
| `PhysicalPages.Pmm.FreePage` | src/memory/pmm.rs:154-181 | Panics exactly on a misaligned, out-of-range or already free page, changing nothing; else that page alone becomes free |
| `PhysicalPages.Pmm.SetUsed` | src/memory/pmm.rs:17-24 | Exactly one page leaves the free set; bits past the last page stay set |
| `PhysicalPages.Pmm.SetFree` | src/memory/pmm.rs:26-33 | Exactly one page joins the free set; bits past the last page stay set |
| `PhysicalPages.Pmm.IsUsed` | src/memory/pmm.rs:35-39 | A page reads as used exactly when it is not in the free set |
| `PhysicalPages.Pmm.FindFree` | src/memory/pmm.rs:133-147 | The byte scan ends at the lowest free page, or there is none; the test against the number of pages never stops it |
| `PageBitmap.ScanByte` | src/memory/pmm.rs:133-147 | The trailing ones of the first byte that is not full locate the lowest free page |
| `PageBitmap.MarkUsedAt` | src/memory/pmm.rs:17-24 | Setting a page's bit changes no other page's |
| `PageBitmap.MarkFreeAt` | src/memory/pmm.rs:26-33 | Clearing a page's bit changes no other page's |
| `PageBitmap.MaskIsShift` | src/memory/pmm.rs:17-39 | The bit of page `p` is number `p % 8`, counted from the lowest |
| `PageBitmap.TakeThenRelease` | src/memory/pmm.rs:133-181 | Releasing a page right after taking it restores every byte of the bitmap |
| `Words.AddressIsMiddleBits` | src/memory/vmm.rs:9 | The address mask keeps bits 12 to 51 |
| `Words.EntryReadsBack` | src/memory/vmm.rs:95-96 | An entry made of an aligned frame address and flags clear of the mask is present and yields its frame back exactly if the frame is below 2^52 |
| `Words.EntryHasFlags` | src/memory/vmm.rs:95-96 | The stored word has all the flags; for an aligned frame below 2^52 and flags clear of the mask it is the frame plus the flags with bit 0, so no other bit is set |
| `Words.TableEntryWord` | src/memory/vmm.rs:65-67 | The word stored for a new table is its frame with the present and writable bits and no other |
| `Words.TableEntryIsSmall` | src/memory/vmm.rs:65-67 | The entry stored for a new table does not map a large page |
| `Words.FrameAndOffset` | src/memory/vmm.rs:117 | Or-ing the offset into a frame address is adding it |
| `PageTree.SameIndices` | src/memory/vmm.rs:121-128 | Two addresses have the same four indices exactly when they agree in bits 12 to 47 |
| `PageTree.WalkEndsAtFinal` | src/memory/vmm.rs:120-158 | The entry that decides about an address is where a processor's own walk ends, level by level with nine bits of the address each; the paths that meet a large page are those on which it ends above level 1 |
| `PageTree.NoLargeOnPath` | src/memory/vmm.rs:130-158 | On a path that meets no large page the code's test for presence tells tables from missing ones |
| `PageTree.ReachOnce` | src/memory/vmm.rs:56-71 | Tables are never shared: two paths that reach one table agree in all indices down to it |
| `PageTree.HangEffect` | src/memory/vmm.rs:62-68 | Hanging a zeroed frame into an absent entry keeps the tables an unshared tree, keeps every table that was reachable, and leaves every translation, by leaf or by large page, as it was |
| `PageTree.SetLeafView` | src/memory/vmm.rs:95-96 | Storing one leaf word changes the mapping of exactly one page, and no large page |
| `PageTree.SetLeafKeepsTree` | src/memory/vmm.rs:95-106 | Storing a leaf word keeps the tables an unshared tree |
| `AddressSpaces.AddressSpace.NextTableOrCreate` | src/memory/vmm.rs:56-71 | Through an entry that is not a large page's, returns the table behind it; takes a page only when the entry is absent, which then is that page's address plus the present and writable bits; fails only when there is none, changes no translation, and makes just that one table reachable |
| `AddressSpaces.AddressSpace.MapPage` | src/memory/vmm.rs:82-99 | On a path that meets no large page, succeeds exactly when both addresses are aligned and there are as many free pages as tables missing; takes just those pages and fills just those places; afterwards the mapping is the old one with this page replaced, by a present entry with all the flags, and with `phys` and no other bit when both fit |
| `AddressSpaces.AddressSpace.UnmapPage` | src/memory/vmm.rs:101-110 | On a path that meets no large page, succeeds exactly on an aligned address and removes that page alone from the mapping |
| `AddressSpaces.AddressSpace.GetPhysAddr` | src/memory/vmm.rs:112-118 | On a path that meets no large page, returns the translation that the mapping defines |
| `AddressSpaces.AddressSpace.WalkExisting` | src/memory/vmm.rs:130-158 | On such a path, finds the leaf table exactly when all three upper entries are present |
| `PageTree.MapReadsBack` | src/memory/vmm.rs:82-118 | After mapping, every offset of the page reads back its physical address exactly if the frame is below 2^52 (flags clear of the mask) |
| `PageTree.OtherPagesUntouched` | src/memory/vmm.rs:82-118 | After mapping or unmapping, every address that differs in bits 12 to 47 translates as before, those under large pages included |
| `PageTree.UnmapReadsBack` | src/memory/vmm.rs:101-118 | After unmapping, no address of the page translates |
| `TableNeeds.SamePlace` | src/memory/vmm.rs:56-71 | Whether a table is there depends on the indices above it alone |
| `TableNeeds.ReachPlace` | src/memory/vmm.rs:56-71 | Two paths reach one table through one entry exactly if they agree in those indices |
| `TableNeeds.MissingCount` | src/memory/vmm.rs:91-94 | A page lacks none, one, two or three tables, by the first level that is missing |
| `TableNeeds.FillNext` | src/memory/heap.rs:30-39 | The next page of a run lacks exactly the tables that the pages before it did not need too |
| `HeapBlocks.TilesFill` | src/memory/heap.rs:41-208 | Headers and payloads of the row of blocks add up to the size of the heap |
| `HeapBlocks.Ordered` | src/memory/heap.rs:41-208 | Following the list visits strictly increasing addresses; blocks before end at or before this one and blocks behind start at or after its end |
| `HeapBlocks.BlocksDisjoint` | src/memory/heap.rs:41-208 | No two blocks, headers included, share a byte |
| `HeapBlocks.TakeTiles` | src/memory/heap.rs:86-101 | Taking a fitting block, split or whole, keeps the blocks tiling the heap |
| `HeapBlocks.TakeSplits` | src/memory/heap.rs:87-104 | With at most a header and 16 bytes to spare the block is handed out whole; else it is cut to the size needed and all of the rest but a header stays free behind it |
| `HeapBlocks.ReleaseTiles` | src/memory/heap.rs:164-167 | Freeing and forward merging keeps the blocks tiling the heap; no address is compared, and none needs to be |
| `HeapBlocks.GrowTiles` | src/memory/heap.rs:123-139 | The block added by growth continues the row |
| `HeapBlocks.TakeUsed` | src/memory/heap.rs:86-104 | Taking adds one used block and keeps every other one's address and size |
| `HeapBlocks.ReleaseUsed` | src/memory/heap.rs:164-167 | Freeing removes one used block and keeps every other one's address and size |
| `HeapBlocks.TakeThenRelease` | src/memory/heap.rs:86-167 | Freeing what was just allocated restores the row, except that a block handed out whole in front of a free one becomes one block with it |
| `HeapBlocks.DescendingMerges` | src/memory/heap.rs:143-208 | A run of adjacent used blocks freed in descending order becomes one free block over the whole run (and over a free block behind it) |
| `HeapBlocks.RunCovers` | src/memory/heap.rs:195-208 | That block covers the run and the headers in it exactly |
| `HeapBlocks.AscendingMergesLast` | src/shell/simple_shell.rs:189-193 | Freed in ascending order, the blocks of a run do not merge with each other, whatever the comment there expects; only the last one merges with a free block behind |
| `HeapBlocks.AscendingMergesOne` | src/memory/heap.rs:143-208 | An ascending run ends as the one block that the descending one becomes exactly if it is a run of one |
| `HeapOrders.RowRelease` | src/memory/heap.rs:195-208 | Freeing one more block merges it with a free block behind it and changes nothing else, whatever was merged before |
| `HeapOrders.AnyOrder` | src/memory/heap.rs:143-208 | After freeing used blocks in any order, each has been merged with the one behind it exactly if that one was free at the start or was freed before it |
| `HeapOrders.OrderDecides` | src/memory/heap.rs:143-208 | Of two adjacent used blocks that are both freed, the second ends inside the first exactly if it was freed first |
| `HeapHeaders.TakeLinked` | src/memory/heap.rs:86-104 | The stores of allocation turn the linked headers of one row of blocks into those of the next, used flags and magics in agreement |
| `HeapHeaders.ReleaseLinked` | src/memory/heap.rs:164-207 | So do the stores of freeing and merging |
| `HeapHeaders.GrowLinked` | src/memory/heap.rs:124-137 | So do the stores of growth |
| `HeapHeaders.UsedMagic` | src/memory/heap.rs:150-162 | A header whose magic is not the free one belongs to a used block, stale headers included |
| `HeapPages.MapFreshPages` | src/memory/heap.rs:30-39 | Each page of the run gets a page of its own from the allocator, mapped once; the allocator loses just those and the new tables; it panics exactly when the pages and the tables missing over the whole run outnumber the free pages |
| `HeapPages.HeapByteTranslates` | src/memory/heap.rs:30-39 | Every byte of the heap translates to its own page's byte |
| `HeapPages.HeapPageIsWritable` | src/memory/heap.rs:30-39 | Every page of the heap is present, writable and not executable, with no other bit but its frame |
| `KernelHeap.ExtraPagesSuffice` | src/memory/heap.rs:114-115 | The page count of growth, though rounded down, leaves room for more than the request and a header |
| `KernelHeap.GrowthIsTight` | src/memory/heap.rs:114-115 | Growth adds more than the request and a header, and at most a page and 15 bytes more than they need |
| `KernelHeap.GrownFits` | src/memory/heap.rs:108-139 | The block that growth adds is the one first fit then picks |
| `KernelHeap.FirstFitTakesFirst` | src/memory/heap.rs:76-106 | First fit ends at the first free block of at least the size needed, one of exactly that size included, and finds none only if there is none |
| `KernelHeap.AlignUpWraps` | src/memory/heap.rs:26-28 | Without overflow checks the rounded size covers the request exactly up to 2^64 - 16 |
| `KernelHeap.GrowthWraps` | src/memory/heap.rs:112-121 | Without overflow checks growth adds enough exactly if no sum of `expand_heap` overflows, so not for requests of 2^64 - 4096 either |
| `KernelHeap.AllocationIsSafe` | src/memory/heap.rs:67-110 | One new used block with a payload of at least the request and at most HEADER_SIZE + 2 * ALIGN - 1 more; all other used blocks unchanged; the blocks tile the heap |
| `KernelHeap.Heap.KmallocInit` | src/memory/heap.rs:41-65 | Panics exactly when called twice, misaligned, too small, overflowing or short of pages; else one free block spans the page-rounded heap |
| `KernelHeap.Heap.Kmalloc` | src/memory/heap.rs:67-110 | If a free block is as large as the request rounded up to 16, returns the payload of the first such block and takes no page; else that of a new one, after one expansion (its recursion is bounded by whether a block fits); succeeds exactly when a block fits or the heap can grow for the request, with no sum overflowing, the maximum kept and a free page for each page and each missing table; every page of the heap is then writable and not executable |
| `KernelHeap.Heap.FindFit` | src/memory/heap.rs:76-106 | The walk ends at the first free block of at least the size needed, that very size included, or at null exactly if there is none; the corruption check never fires |
| `KernelHeap.Heap.TakeBlock` | src/memory/heap.rs:86-104 | The header stores for the chosen block give the row with that block taken |
| `KernelHeap.Heap.ExpandHeap` | src/memory/heap.rs:112-141 | Adds one free block larger than needed at the end, backed by fresh pages, within the maximum size; succeeds exactly under the condition in the row above |
| `KernelHeap.Heap.LinkNewBlock` | src/memory/heap.rs:124-137 | The walk ends at the last block and links the new one behind it |
| `KernelHeap.Heap.Kfree` | src/memory/heap.rs:143-169 | Panics exactly before initialisation, when the subtraction underflows, or when no used magic lies below the pointer, changing nothing; else exactly the block of that pointer is released |
| `KernelHeap.Heap.Coalesce` | src/memory/heap.rs:195-208 | Absorbs the next header if it is free, and nothing else |
| `TaskSafety.InitialInv` | src/multitask/task.rs:230-241 | The table after `init_tasks` meets the invariant |
| `TaskSafety.ScheduleEffect` | src/multitask/scheduler.rs:35-88 | The not-found fallback is unreachable: `schedule` makes the nearest Ready slot the one Running slot; a Blocked or Terminated task never becomes Running |
| `TaskSafety.ScheduleInv` | src/multitask/scheduler.rs:35-88 | Whatever entered `schedule`, exactly CURRENT is Running afterwards and the rest of the invariant holds |
| `TaskSafety.TickInv` | src/multitask/scheduler.rs:90-104 | A tick keeps the invariant |
| `TaskSafety.YieldInv` | src/multitask/scheduler.rs:106-116 | So does a yield |
| `TaskSafety.SleepInv` | src/multitask/scheduler.rs:118-128 | So does a sleep |
| `TaskSafety.ExitInv` | src/multitask/scheduler.rs:130-150 | So does an exit, which never returns into the dead task |
| `TaskSafety.WaitInv` | src/multitask/scheduler.rs:152-178 | So does a turn of `wait_for`: a Blocked task sleeps or waits on a live one, never neither or both |
| `TaskSafety.CreateInv` | src/multitask/task.rs:118-165 | So does the creation of a task, whose pid is new |
| `TaskTables.DistanceGoesRound` | src/multitask/scheduler.rs:46-56 | Nearest is meant round the table: just so many steps of one slot, the last to the first, lead from one to the other |
| `TimeSlices.EarlyTick` | src/multitask/scheduler.rs:90-104 | The first two ticks of a slice keep the running task |
| `TimeSlices.ThirdTick` | src/multitask/scheduler.rs:90-104 | The third hands over to the nearest task that is Ready or that this very tick wakes, if there is one |
| `TimeSlices.SliceHolds` | src/multitask/scheduler.rs:90-104 | Over any run, a task that makes no call that gives up the processor keeps it until its third tick |
| `TimeSlices.YieldGivesWay` | src/multitask/scheduler.rs:106-116 | A task that yields stays Ready and always gives way to another, the nearest Ready one |
| `TimeSlices.CreateEffect` | src/multitask/task.rs:118-165 | A new task takes the first Empty slot and the next pid, and changes no other slot |
| `TimeSlices.TicksAreCharged` | src/multitask/scheduler.rs:95-97 | Over any run, the tick count of a slot in use grows by exactly the ticks that came while it was current |
| `TaskRuns.RunInv` | src/multitask/scheduler.rs:35-178 | The invariant holds in every state of every run |
| `TaskRuns.GettingNearer` | src/multitask/scheduler.rs:35-104 | Each call of `schedule` and each tick bring a Ready slot nearer, by the measure 3 * d + 2 - TICKS_ON_CURRENT |
| `TaskRuns.BoundedWaiting` | src/multitask/scheduler.rs:35-104 | A Ready slot at distance d runs within d calls of `schedule` and within 3 * d, at most 93, ticks, whatever else happens |
| `TaskRuns.SleepIsExact` | src/multitask/scheduler.rs:90-128 | A sleeper sleeps until its tick, or the next one if that has passed, and is awake right after it |
| `Wakeups.SleepLasts` | src/multitask/scheduler.rs:90-128 | Over any run, a task that calls `sleep_ms(ms)` with the tick count read in the same step is Blocked until max(1, ms / 10) ticks have come and can run right after the last of them |
| `TaskTables.SleepLength` | src/multitask/scheduler.rs:118-120 | The wake-up tick is one tick ahead for less than 10 ms, and as many ticks as there are whole 10 ms otherwise |
| `TaskRuns.AtomicSleepAsksAhead` | src/multitask/scheduler.rs:118-128 | If the tick count is read in the same step, the tick asked for lies ahead, so that is the one it wakes at |
| `TaskRuns.NobodyOversleeps` | src/multitask/task.rs:199-214 | Right after a tick no Blocked task has a wake-up time that has come |
| `ExitCodes.HistoryAgrees` | src/multitask/scheduler.rs:130-178 | In every run from start-up, table and history agree: exited and unreaped tasks, and only they, still hold their code |
| `ExitCodes.ExitCodesDelivered` | src/multitask/scheduler.rs:130-178 | A `wait_for` collects a code exactly when the task exited and nobody collected it yet; the code is the one its exit gave; later ones get -1, even after slot reuse |
| `ExitCodes.WaiterWokenByExit` | src/multitask/scheduler.rs:130-146 | A waiter goes on exactly when the task it waits for exits, and then has that task's code |
| `Wakeups.SleeperRunsInTime` | src/multitask/scheduler.rs:90-104 | A sleeper runs within 93 ticks after the tick that wakes it |
| `Wakeups.WaiterRunsInTime` | src/multitask/scheduler.rs:130-150 | A waiter runs within 31 calls of `schedule`, and within 93 ticks, after the exit it waits for |
| `Scheduler.StackContiguous` | src/multitask/task.rs:121-128 | The two stack pages are adjacent exactly when the page after the lowest free one is free |
| `Scheduler.HoleAfterRelease` | src/multitask/task.rs:216-228 | When a stack without a hole has its base page given back as the lowest free one, the next stack gets that base page and a top page that is not the next one |
| `Scheduler.TaskTable.constructor` | src/multitask/task.rs:230-241 | The table starts with the idle task alone, Running in slot 0 |
| `Scheduler.TaskTable.AllocSlot` | src/multitask/task.rs:75-84 | Returns the first Empty slot, if any |
| `Scheduler.TaskTable.FindPidSlot` | src/multitask/task.rs:179-189 | Returns the first non-Empty slot with the pid, if any |
| `Scheduler.TaskTable.RunScheduler` | src/multitask/scheduler.rs:35-74 | In place, the table becomes the one `ScheduleEffect` describes |
| `Scheduler.TaskTable.WakeSleepingTasks` | src/multitask/task.rs:199-214 | Exactly the sleepers whose time has come become Ready |
| `Scheduler.TaskTable.OnTick` | src/multitask/scheduler.rs:90-104 | In place, one tick of the run model |
| `Scheduler.TaskTable.YieldCpu` | src/multitask/scheduler.rs:106-116 | In place, one yield of the run model |
| `Scheduler.TaskTable.SleepMs` | src/multitask/scheduler.rs:118-128 | Panics exactly when its product or sum overflows, changing nothing; else one sleep of the run model in place, with a wake-up tick one tick after the one read for less than 10 ms and as many whole ticks of 10 ms as `ms` has otherwise |
| `TaskTables.SleepWraps` | src/multitask/scheduler.rs:119-119 | Without overflow checks the wait is the one asked for exactly if the product does not overflow |
| `Scheduler.TaskTable.ExitCurrent` | src/multitask/scheduler.rs:130-150 | In place, one exit of the run model; it panics exactly if `free_page` does |
| `Scheduler.TaskTable.TerminateCurrent` | src/multitask/task.rs:216-228 | Waiters of this pid and no others wake with the code; the base page alone is given back |
| `Scheduler.TaskTable.WaitForTurn` | src/multitask/scheduler.rs:152-178 | In place, one turn of the loop: -1, the code, or blocked |
| `Scheduler.TaskTable.NewKernelTask` | src/multitask/task.rs:118-165 | Succeeds exactly with an Empty slot and two free pages, and takes the two lowest; otherwise table, bitmap and free set are unchanged |
| `Ownership.StackPageCount` | src/multitask/task.rs:118-128 | Live tasks' stack pages are all different, two for each |
| `Ownership.PagesConserved` | src/memory/pmm.rs:133-181 | If every page has one owner, the counts add up |
| `Ownership.AfterExit` | src/multitask/task.rs:216-228 | An exit frees one stack page and loses the other |
| `Ownership.AfterSpawn` | src/multitask/task.rs:118-165 | A creation moves two free pages to a new stack |
| `Ownership.AfterGrowth` | src/memory/heap.rs:30-39 | Growth of the heap moves free pages to heap and tables |
| `Kernel.Machine.Conservation` | src/multitask/task.rs:216-228 | FREE_COUNT + heap pages + created tables + 2 * live tasks (idle excepted) + tasks ever exited = USABLE_PAGE |
| `Kernel.Boot` | src/memory/pmm.rs:41-131 | `init_pmm` and the empty heap and task table: it fails exactly when `init_pmm` does, and leaves a new machine in its first state, whose usable pages are exactly those that must be freed |
| `Startup.StartKernel` | src/main.rs:87-125 | Start-up to the switching on of interrupts panics exactly if `init_pmm` does, or the first heap is smaller than a header, or it frees fewer pages than the 256 of the first heap and the tables missing over them and above the local APIC's page; the machine it leaves is valid and new, with the local APIC mapped uncached at its own address |
| `Startup.StartAndServe` | src/main.rs:87-139 | After start-up any sequence of requests that does not panic is answered from the initial table on; every page handed out lies wholly in a usable entry of the map, at or above 1 MiB, and shares no byte with the bitmap, and the page counts add up to the number of pages start-up freed |
| `Startup.HoleAfterStart` | src/multitask/task.rs:118-228 | From the state start-up leaves, with two lowest free pages next to each other: creation, three ticks, exit and creation give a stack with a hole |
| `Kernel.Machine.OnlyUsable` | src/memory/pmm.rs:133-152 | No page that start-up did not free is ever free, under the heap, a table, or a stack |
| `Kernel.Machine.OnlyMemory` | src/memory/pmm.rs:85-130 | Every page handed out lies wholly in a usable entry of the map, at or above 1 MiB, and shares no byte with the bitmap |
| `Kernel.StartsFreeIsFromMap` | src/memory/pmm.rs:57-130 | The pages that the scans free are those the map admits next to the shortest bitmap with a bit for each page, of which there is one length |
| `Kernel.Machine.Kmalloc` | src/memory/heap.rs:67-110 | Keeps every usable page with exactly one owner, and succeeds exactly as `Heap.Kmalloc` does; after growth all heap pages are writable and not executable |
| `Kernel.Machine.KmallocInit` | src/memory/heap.rs:41-65 | Likewise, on HEAP_START, with the exact condition for its panics and exactly the places of the missing tables filled |
| `Kernel.Machine.MapDevice` | src/interrupt/pic.rs:66-73 | Likewise for a page outside the heap: it succeeds exactly when aligned and with a free page for each missing table, and maps that page alone |
| `Kernel.Machine.Kfree` | src/memory/heap.rs:143-169 | Likewise, with the panics of `Heap.Kfree`; else it frees the used block with that payload, and nothing if there is none |
| `Kernel.Machine.Spawn` | src/multitask/task.rs:118-165 | Likewise; the two lowest free pages become the new stack, and a failure changes nothing |
| `Kernel.Machine.ExitTask` | src/multitask/scheduler.rs:130-150 | Likewise, and the assertions in `free_page` never fire; the base page of the stack comes back and its top page is lost |
| `Kernel.Machine.ExitThenSpawn` | src/multitask/task.rs:118-228 | A task whose stack had no hole exits, a task is created, and that one's stack has a hole |
| `Kernel.Machine.TimerTick` | src/multitask/scheduler.rs:90-104 | A tick moves no page and no stack |
| `Kernel.Machine.Serve` | src/multitask/scheduler.rs:35-178 | Any sequence of allocations, releases, mappings, ticks, creations, exits, yields, sleeps and waits that does not panic is answered request by request, each as its entry point says; all component invariants hold after it and the page counts add up; the request that panics is one for memory, or a sleep whose wake-up time overflows |
| `Kernel.Machine.StackWordsApart` | src/multitask/task.rs:121-128 | Live tasks other than the idle one have no stack word in common |
| `Kernel.Machine.NewStackApart` | src/multitask/task.rs:121-128 | Neither does the stack of the task created next |
| `Kernel.Machine.IdleStackApart` | src/multitask/task.rs:230-241 | Nor does the idle task's stack, on whichever pages outside the usable ones it lies |
| `ContextSwitch.Processor.SaveContext` | src/multitask/scheduler.rs:14-21 | The pushes leave the seven words, in frame order, below the stack pointer, and the slot records it |
| `ContextSwitch.Processor.LoadContext` | src/multitask/scheduler.rs:22-32 | The pops take the seven words of the next task from above its saved stack pointer |
| `ContextSwitch.Processor.SwitchTo` | src/multitask/scheduler.rs:10-34 | The whole effect on registers, memory and saved stack pointers, as the runs below use it |
| `ContextSwitch.Processor.SetupInitialStack` | src/multitask/task.rs:88-116 | The words of a new stack are those of a saved context with zeroed registers and the entry point as return address |
| `ContextSwitch.Processor.EnterHandler` | src/interrupt/idt.rs:109-174 | Delivery, stub and pushes leave, ending at the 16-byte boundary at or below the interrupted stack pointer, r15 down to rax, the vector, 0 and the interrupted rip, cs, rflags, rsp and ss; the handler gets the address of the first of these in rdi, and interrupts are off |
| `ContextSwitch.Processor.LeaveHandler` | src/interrupt/idt.rs:175-181 | The pops and `iretq` read every register from the field of that frame that holds it |
| `ContextRuns.StepInv` | src/multitask/scheduler.rs:10-34 | Stacks stay disjoint, and each stack pointer, current or saved, stays on its own stack below the interrupt frames on it |
| `ContextRuns.StackFrozen` | src/multitask/scheduler.rs:10-34 | No step writes a suspended task's stack, nor the part of the running one that an interrupt has suspended |
| `ContextRuns.SwitchIsTransparent` | src/multitask/scheduler.rs:10-34 | Over any run, a task that is resumed sees `switch_to` return with its stack pointer, callee-saved registers, return address and stack as they were |
| `ContextRuns.SwitchLeavesContext` | src/multitask/scheduler.rs:10-22 | A task switched out leaves, at its saved stack pointer, r15, r14, r13, r12, rbx, rbp and its return address |
| `ContextRuns.NewTaskStarts` | src/multitask/task.rs:88-116 | Over any run, the first switch to a new task lands on its entry point with an empty stack |
| `ContextRuns.InterruptIsTransparent` | src/interrupt/idt.rs:168-184 | Over any run, with any task switches and nested interrupts inside, the return from an interrupt restores all registers, flags and the stack of the interrupted code |
| `ContextRuns.HandlerFindsFrame` | src/interrupt/idt.rs:167-187 | In every reachable state, an interrupt adds one frame to the running task's stack, and rdi holds the address of that innermost frame with all the interrupted code had in its registers |
| `Simulation.Simulates` | src/multitask/scheduler.rs:35-178 | Every step of the task table is one that the model of the machine code can take: switches, exits and creations go to live tasks and free stacks, and the two models then agree again |
| `Simulation.PlacesKept` | src/multitask/scheduler.rs:35-178 | That step keeps each stack on the pages that the machine says it has |
| `Simulation.SpawnHasRoom` | src/multitask/task.rs:118-128 | The next stack's words are in no stack in use, the idle task's included |
| `Simulation.StartMirrors` | src/multitask/task.rs:230-241 | At the start the two models agree |
| `Interrupts.StepInv` | src/multitask/spinlock.rs:17-54 | One instruction, interrupt or creation at a time: outside a task's own code the interrupt flag and the guard's copy of it are clear |
| `Interrupts.LockProtocol` | src/multitask/scheduler.rs:35-86 | The lock is held only with interrupts off, so a tick never meets it held and `acquire` never spins; no tick falls between the update of CURRENT and `switch_to` |
| `Interrupts.RunInv` | src/multitask/scheduler.rs:35-178 | That holds in every state of every run |
| `Interrupts.BootInv` | src/main.rs:116-126 | The state in which start-up turns interrupts on meets the invariant |
| `Simulation.PickIsEnabled` | src/multitask/scheduler.rs:42-72 | The task that `schedule` picks is one that the instruction model lets it choose: not a dead one, and not the one that is exiting |
| `Simulation.StartAgrees` | src/multitask/task.rs:230-241 | At the start table and instruction model agree on who is alive |
| `Interrupts.FlagRises` | src/multitask/scheduler.rs:106-178 | With interrupts off, `sti` and the return from a tick are exactly the actions that turn them on |
| `Interrupts.MaskedUntilSti` | src/multitask/scheduler.rs:106-128 | Over any run they stay off, and no interrupt is delivered, exactly as long as there is no `sti` and no return from a tick |
| `Interrupts.StartsMasked` | src/multitask/scheduler.rs:69-86 | A new task starts with interrupts off; the flags constant is not used |
| `Interrupts.Spinlock.Acquire` | src/multitask/spinlock.rs:17-25 | A free lock is taken with interrupts off and the old flag is returned; a held one is not, however often the loop turns |
| `Interrupts.Spinlock.Drop` | src/multitask/spinlock.rs:34-39 | The lock is free again and the flag restored |
| `Interrupts.AcquireSteps` | src/multitask/spinlock.rs:17-25 | The instructions of `acquire` on a free lock do to the state what `Acquired` says, which `Spinlock.Acquire` does too |
| `Interrupts.CriticalSection` | src/multitask/scheduler.rs:37-84 | From `acquire` on a free lock to the drop of the guard the lock is held with interrupts off while CURRENT changes; before `switch_to` it is free and the flag what it was |
| `Interrupts.HeldLockSpins` | src/multitask/spinlock.rs:20-22 | On a held lock, and only then, the loop changes nothing |
| `Interrupts.DropSteps` | src/multitask/spinlock.rs:34-39 | The instructions of dropping the guard do what `Dropped` says, which `Spinlock.Drop` does too, before `switch_to` |
| `Framebuffer.OffsetInjective` | src/ui/terminal.rs:80-102 | No two dots of the text area share a pixel |
| `Framebuffer.ScrolledRenders` | src/ui/terminal.rs:115-125 | Moving the pixels up one text row is moving the grid up one row |
| `Framebuffer.Terminal.constructor` | src/ui/terminal.rs:45-78 | A new terminal shows an empty grid |
| `Framebuffer.Terminal.DrawGlyph` | src/ui/terminal.rs:86-102 | Lit dots of the cell get the foreground, unlit ones the background, every other dot of the text area stays; so the pixels show the old grid with this cell drawn |
| `Framebuffer.Terminal.EraseGlyph` | src/ui/terminal.rs:104-113 | All dots of the cell get the background and every other dot stays; so the pixels show the old grid with this cell blank |
| `Framebuffer.Terminal.Scroll` | src/ui/terminal.rs:115-125 | The overlapping copy and fill show the grid one row up with an empty last row |
| `Framebuffer.Terminal.ClearAll` | src/ui/terminal.rs:127-137 | Every pixel is background; the grid shown is empty, cursor at the origin |
| `Framebuffer.Terminal.EraseLast` | src/ui/terminal.rs:139-149 | `backspace` in place, on pixels and cursor |
| `Framebuffer.Terminal.PutChar` | src/ui/terminal.rs:151-178 | `putc` in place, on pixels and cursor, with wrap and scroll |
| `Framebuffer.Terminal.Perform` | src/ui/terminal.rs:127-189 | After any sequence of calls every pixel of the text area is the rendering of the grid the same calls make of the abstract screen, and the cursor is on it |
| `TextGrid.PutcFits` | src/ui/terminal.rs:151-178 | The cursor stays in range |
| `TextGrid.NewlineMoves` | src/ui/terminal.rs:151-178 | A newline goes to the start of the next row, on the last row by moving every row up and blanking the last |
| `TextGrid.ReturnMoves` | src/ui/terminal.rs:157-159 | A carriage return goes to the start of the row and changes nothing else |
| `TextGrid.PrintMoves` | src/ui/terminal.rs:160-178 | Any other character changes the cell at the cursor alone, shown as itself from 32 to 127 and as a question mark otherwise, and moves on one place, from the last place of a row like a newline |
| `TextGrid.BackspaceMoves` | src/ui/terminal.rs:139-149 | A backspace moves one place back across rows and blanks that cell alone; at the origin it does nothing |
| `TextGrid.BackspaceUndoesPutc` | src/ui/terminal.rs:139-178 | `backspace` right after a printable `putc` erases that character's cell and returns to it, across wrap and scroll, exactly if there are two rows or the character did not fill the only one |
| `KeyBuffers.RingPush` | src/device/keyboard.rs:82-88 | A push appends to the ring's contents, or the ring holds 255 bytes |
| `KeyBuffers.RingPop` | src/device/keyboard.rs:90-98 | Moving the tail drops the oldest byte |
| `KeyBuffers.KeyBuffer.Push` | src/device/keyboard.rs:82-88 | The newest byte is appended, or dropped when 255 are waiting |
| `KeyBuffers.KeyBuffer.Pop` | src/device/keyboard.rs:90-98 | The oldest byte comes out |
| `KeyBuffers.KeyBuffer.IsEmpty` | src/device/keyboard.rs:100-102 | True exactly when nothing waits |
| `KeyBuffers.KeyBuffer.PopInterrupted` | src/device/keyboard.rs:90-98 | With any pushes between any two field accesses, `pop` behaves as if it ran at once |
| `KeyBuffers.AcceptAllTakes` | src/device/keyboard.rs:82-88 | Of many bytes the oldest are taken, as many as fit |
| `KeyBuffers.KeyBuffer.Run` | src/device/keyboard.rs:82-98 | Over any run of pushes and interrupted pops on the ring, the bytes handed out and then those held are the bytes accepted, in order |
| `KeyBuffers.FirstInFirstOut` | src/device/keyboard.rs:82-98 | What such a run accepts comes out in order, none lost or doubled |

## Left out

- Port I/O and device set-up: hardware effects; ticks and bytes arrive as steps.
- Exception printing, panic output, dumps and serial log lines: output only.
- CR3 changes, `invlpg` and TLB behaviour, large pages and further address spaces: the code has one root and handles none of them.
- End-of-interrupt timing and real time: bounds are in delivered ticks.
- System calls, gate encoding and scancode tables: thin or table lookups.
- Shell, demo tasks, number printing and parsing: user interface.
- Font file and boot protocol parsing: external data.
- Payload contents: headers are the only memory of the heap that is modelled, so writes of a task that overrun its block, or that imitate a header, are not covered.
- Task names and the saved stack pointer are not in `TaskTables`; the latter is in `ContextSwitch`.
- KernelHeap.Heap.Kmalloc: additions that overflow 64 bits end in a panic, as in a build with overflow checks; what the sums give in a build without them is `AlignUpWraps` and `GrowthWraps`.
- KernelHeap.Heap.KmallocInit: likewise for its sums, checked here before the pages are mapped, although the last one comes after that in the code.
- HeapHeaders.UsedMagic: headers are kept by address, so one stored 8 bytes behind a stale one does not overwrite part of it as it would in memory; this bears only on what lies below a pointer that is not a payload.
- KernelHeap.Heap.Kfree: does not cover memory that holds the used magic where the heap never wrote a header, because the code would then corrupt the list.
- Scheduler.TaskTable.SleepMs: likewise panics on overflow; a build without checks is `SleepWraps`.
- Scheduler.TaskTable.WaitForTurn: the loop of `wait_for` is modelled turn by turn, because it gives up the processor inside each turn.
- Scheduler.TaskTable.NewKernelTask: taken as one step, although the code can be interrupted in the middle of it.
- Kernel.Machine.Serve: takes heap, page-table and page-allocator calls as one step each, although nothing in `kmalloc`, `kfree`, `map_page` or `alloc_page` turns interrupts off.
- Startup.StartKernel: stops where interrupts are switched on; the three creations after that are requests like any other, and the panic when one of them fails is not modelled.
- Scheduler.TaskTable.OnTick: the 64-bit tick counters and, in creation, the 32-bit pid counter are taken not to overflow.
- PhysicalPages.Pmm.InitPmm: sums of base and length are unbounded; the bitmap is an array of its own instead of the bytes at `BITMAP_PTR`.
- ContextRuns.InterruptIsTransparent: does not cover vector 128, whose dispatcher writes `rax` in the frame.
- ContextRuns.SwitchIsTransparent: addresses count 8-byte words, and memory other than stacks is not part of the state.
- ContextSwitch.Processor.EnterHandler: covers the vectors without a processor-pushed error code; the handlers of the others never return.
- Interrupts.Spinlock.Acquire: bounds the turns of a loop that on a held lock goes on for ever, which `LockProtocol` shows it never meets; spurious failure of the weak compare-exchange does not occur on this processor.
