/** The memory and task components together: page ownership along every sequence of calls. */
module Kernel {
  import opened Wrappers
  import opened Words
  import opened PageTree
  import opened PhysicalPages
  import opened TableNeeds
  import opened AddressSpaces
  import opened HeapBlocks
  import opened HeapHeaders
  import opened HeapPages
  import opened KernelHeap
  import opened TaskTables
  import opened TaskSafety
  import opened TaskRuns
  import opened Scheduler
  import opened Ownership
  import ContextRuns
  import ContextSwitch

  /** Giving back a page that is no table makes no table free. */
  lemma TablesTakenAfterRelease(boot: set<int>, shape: Shape, created: set<nat>, free: set<nat>, page: nat)
    requires TablesAreTaken(boot, shape, created, free) && page * PAGE_SIZE !in boot && page !in created
    ensures TablesAreTaken(boot, shape, created, free + {page})
  {
  }

  lemma TablesTakenAfterTake(boot: set<int>, shape: Shape, created: set<nat>, free: set<nat>, less: set<nat>)
    requires TablesAreTaken(boot, shape, created, free) && less <= free
    ensures TablesAreTaken(boot, shape, created, less)
  {
  }

  const HEAP_PAGES: nat := HEAP_MAX_SIZE / PAGE_SIZE

  /** Only a request for memory or a sleep whose wake-up time overflows can panic. */
  predicate MayPanic(request: Request) {
    || request.Allocate? || request.Free? || request.MapPageAt?
    || (request.SleepFor? && !SleepFits(request.readAt, request.ms))
  }

  /** The tables that the first pages of the heap need. */
  ghost function FirstTables(frames: Frames, root: nat, sizeBytes: nat): set<Place> {
    MissingOverRun(frames, root, HEAP_START, PagesFor(sizeBytes))
  }

  /** The stack words of a task whose top stack page is `page`, as `ContextRuns` counts them. */
  function StackWords(page: nat): ContextRuns.Stack {
    ContextRuns.Stack.Stack(page * ContextSwitch.STACK_PAGE_WORDS,
                            page * ContextSwitch.STACK_PAGE_WORDS + ContextSwitch.STACK_PAGE_WORDS, [])
  }

  /** Where start-up puts the bitmap, and how many bytes it has. */
  ghost function BitmapAt(entries: seq<MemmapEntry>): nat { BitmapPlace(entries, BitmapLength(entries)) }

  ghost function BitmapLength(entries: seq<MemmapEntry>): nat { BitmapBytes(TotalPages(HighestEnd(entries))) }

  /** The page is one that the scans of start-up free. */
  ghost predicate StartsFree(entries: seq<MemmapEntry>, page: nat) {
    ShouldFree(entries, |entries|, BitmapAt(entries),
               BitmapAt(entries) + BitmapPages(BitmapLength(entries)) * PAGE_SIZE, page)
  }

  /** The page lies wholly in a usable entry of the map, at or above 1 MiB, and has no byte in common
      with any bitmap that starts where start-up puts it and is the shortest with a bit for each page. */
  ghost predicate FromMap(entries: seq<MemmapEntry>, page: nat) {
    forall length: nat :: Shortest(entries, length) ==> Admitted(entries, BitmapAt(entries), length, page)
  }

  /** `length` bytes have a bit for each page up to the end of every entry, and no fewer do. */
  ghost predicate Shortest(entries: seq<MemmapEntry>, length: nat) {
    Covers(entries, 8 * length) && forall n: nat :: n < length ==> !Covers(entries, 8 * n)
  }

  /** There is one such length, the one start-up gives the bitmap; and the pages its scans free are
      exactly those that the map admits. */
  lemma StartsFreeIsFromMap(entries: seq<MemmapEntry>, page: nat)
    ensures forall length: nat :: Shortest(entries, length) <==> length == BitmapLength(entries)
    ensures StartsFree(entries, page) <==> FromMap(entries, page)
  {
    hide ShouldFree, Admitted, Covers, BitmapBytes, BitmapPages, BitmapPlace, TotalPages, HighestEnd;
    var bytes := BitmapLength(entries);
    forall n: nat
      ensures bytes <= n <==> Covers(entries, 8 * n)
    {
      MemoryMeasured(entries, n);
    }
    forall length: nat
      ensures Shortest(entries, length) <==> length == bytes
    {
      assert Covers(entries, 8 * bytes);
      assert Covers(entries, 8 * length) <==> bytes <= length;
    }
    PlaceIsAligned(entries, bytes);
    FreedIsAdmitted(entries, BitmapAt(entries), bytes, page);
  }

  /** What tasks and the timer ask of the kernel. */
  datatype Request =
    | Allocate(size: nat)
    | Free(ptr: nat, stray: BlockHeader)
    | NewTask
    | TickArrives(tick: nat)
    | ExitWith(code: int)
    | YieldNow
    | SleepFor(readAt: nat, ms: nat)
    | WaitFor(pid: nat)
    | MapPageAt(virt: nat, phys: nat, flags: nat)

  /** What requests can change, the memory behind addresses aside. */
  datatype Snapshot = Snapshot(
    table: Table, blocks: seq<Block>, heapEnd: nat, heapPages: nat, free: set<nat>, frames: Frames)

  /** The used block whose payload is at `ptr` was freed; without one, nothing was. */
  ghost predicate FreedAt(before: seq<Block>, after: seq<Block>, h: nat, ptr: nat) {
    var addr := ptr - h;
    if exists k :: 0 <= k < |before| && before[k].used && before[k].addr == addr
    then exists k :: 0 <= k < |before| && ReleasedAt(before, after, h, k, addr)
    else after == before
  }

  /** A new task was created on the two lowest free pages; without these or a slot, none was. */
  ghost predicate SpawnedOn(a: Snapshot, b: Snapshot, hhdm: nat)
    requires a.table.Shape()
  {
    if FreeSlot(a.table.tasks, 0).Some? && |a.free| >= 2 then
      exists p0: nat, p1: nat ::
        && TwoLowest(a.free, p0, p1)
        && b == a.(free := a.free - {p0, p1},
                   table := Create(a.table, p0 * PAGE_SIZE, p1 * PAGE_SIZE + PAGE_SIZE + hhdm))
    else b == a
  }

  class Machine {
    const pmm: Pmm
    const vm: AddressSpace
    const heap: Heap
    const tasks: TaskTable
    const hhdm: nat
    ghost const usable: set<nat>      // the pages start-up freed
    ghost const bootStack: set<nat>   // the pages under the idle task's stack
    ghost var lost: set<int>       // top stack pages of exited tasks
    ghost var exits: nat           // tasks that ever exited

    ghost function Stacks(): Stacks
      reads this, tasks, tasks.tasks
    {
      StacksOf(tasks.tasks[..], hhdm)
    }

    ghost function Owned(): Owners
      reads this, pmm, vm, heap, tasks, tasks.tasks
    {
      Owners(pmm.free, vm.created, PageSet(heap.pages), StacksOf(tasks.tasks[..], hhdm), lost)
    }

    ghost predicate Tasks()
      reads this, pmm, tasks, tasks.tasks
    {
      && tasks.Valid() && tasks.Apart(pmm)
      && Inv(tasks.View()) && GoodStacks(tasks.tasks[..], hhdm, pmm.totalPages)
    }

    ghost predicate Valid()
      reads this, pmm, pmm.bitmap, vm, heap, tasks, tasks.tasks
    {
      && heap.Valid(pmm, vm) && Window()
      && Tasks()
      && Partition(usable, Owned()) && |lost| == exits
      && pmm.usablePages == |usable| && usable !! bootStack
      && (forall n :: n in usable ==> n * PAGE_SIZE !in vm.boot)
    }

    ghost function Now(): Snapshot
      reads this, pmm, vm, heap, tasks, tasks.tasks
    {
      Snapshot(tasks.View(), heap.blocks, heap.end, |heap.pages|, pmm.free, vm.frames)
    }

    /** What a request that did not panic has done. Requests that only a task can make are passed over
        while the idle task runs, and so is the mapping of a heap page or of one under a large page. */
    ghost predicate Answered(request: Request, a: Snapshot, b: Snapshot) {
      && a.table.Shape()
      && var task := a.table.current != 0;
      match request
      case Allocate(size) =>
        if size < WORD_LIMIT then
          && b.table == a.table && b.blocks == Allocated(a.blocks, heap.h, a.heapEnd, AlignUp(size))
          && b.heapEnd == EndAfter(a.blocks, heap.h, a.heapEnd, AlignUp(size))
        else b == a
      case Free(ptr, _) => b == a.(blocks := b.blocks) && FreedAt(a.blocks, b.blocks, heap.h, ptr)
      case NewTask => SpawnedOn(a, b, hhdm)
      case TickArrives(tick) => b == if tick > 0 then a.(table := Tick(a.table, tick)) else a
      case ExitWith(code) =>
        b == if task then a.(table := Exit(a.table, code), free := a.free + {a.table.Current().stackBase / PAGE_SIZE})
             else a
      case YieldNow => b == if task then a.(table := Yield(a.table)) else a
      case SleepFor(readAt, ms) => b == if task then a.(table := Sleep(a.table, WakeTick(readAt, ms))) else a
      case WaitFor(pid) => b == if task then a.(table := Wait(a.table, pid)) else a
      case MapPageAt(virt, phys, flags) =>
        if OutsideRun(virt, HEAP_START, a.heapPages) && !MeetsLarge(a.frames, vm.root, SplitIndices(virt)) then
          && b == a.(frames := b.frames, free := b.free)
          && Remapped(a.frames, b.frames, vm.root, virt, Some(Entry(phys, flags)))
        else b == a
    }

    /** The heap starts at HEAP_START, and the addresses it may grow over meet no large page. */
    ghost predicate Window()
      reads vm, heap
    {
      && (heap.inited ==> heap.start == HEAP_START)
      && ClearRun(vm.frames, vm.root, HEAP_START, HEAP_PAGES)
    }

    /** The kernel right after start-up of the page allocator. */
    constructor (pmm: Pmm, vm: AddressSpace, heap: Heap, tasks: TaskTable, hhdm: nat, ghost bootStack: set<nat>)
      requires heap.Valid(pmm, vm) && !heap.inited && heap.pages == [] && vm.created == {}
      requires tasks.Valid() && tasks.Apart(pmm) && tasks.View() == INITIAL_TABLE
      requires pmm.usablePages == pmm.freeCount && pmm.free !! bootStack
      requires forall n :: n in pmm.free ==> n * PAGE_SIZE !in vm.boot
      requires ClearRun(vm.frames, vm.root, HEAP_START, HEAP_PAGES)
      ensures Valid() && usable == pmm.free && exits == 0 && this.bootStack == bootStack
      ensures this.pmm == pmm && this.vm == vm && this.heap == heap && this.tasks == tasks && this.hhdm == hhdm
    {
      this.pmm, this.vm, this.heap, this.tasks, this.hhdm := pmm, vm, heap, tasks, hhdm;
      usable, lost, exits, this.bootStack := pmm.free, {}, 0, bootStack;
      new;
      InitialInv();
      InitialStacks(hhdm, pmm.totalPages);
    }

    static lemma InitialStacks(hhdm: nat, totalPages: nat)
      ensures StacksOf(INITIAL_TABLE.tasks, hhdm) == map[] && PagesOf(map[]) == {}
      ensures GoodStacks(INITIAL_TABLE.tasks, hhdm, totalPages)
    {
    }

    /** FREE_COUNT, the heap's pages, the created tables, two pages for each live task but the idle
        one, and one for each task that ever exited add up to USABLE_PAGE. */
    lemma Conservation()
      requires Valid()
      ensures pmm.freeCount + |heap.pages| + |vm.created| + 2 * |Stacks()| + exits == pmm.usablePages
    {
      PagesConserved(usable, Owned());
      PageSetSize(heap.pages);
    }

    /** The page is free, or it was handed out: to the heap, for a table, for a stack, or for one of
        which it is the lost half. */
    ghost predicate InHand(page: int)
      reads this, pmm, vm, heap, tasks, tasks.tasks
    {
      page in pmm.free || page in vm.created || page in PageSet(heap.pages) || page in PagesOf(Stacks()) || page in lost
    }

    /** No page but those that start-up freed is ever handed out. */
    lemma OnlyUsable(page: int)
      requires Valid() && InHand(page)
      ensures page in usable
    {
      hide heap.Valid, Tasks, Window, StacksOf, PagesOf, PageSet;
    }

    /** So every page in use lies wholly in a usable entry of the memory map, at or above 1 MiB, and
        shares no byte with the bitmap. */
    lemma OnlyMemory(entries: seq<MemmapEntry>, page: nat)
      requires Valid() && InHand(page) && forall p: nat :: p in usable <==> StartsFree(entries, p)
      ensures FromMap(entries, page)
    {
      hide Valid, InHand, StartsFree, FromMap;
      OnlyUsable(page);
      StartsFreeIsFromMap(entries, page);
    }

    /** The memory context switching relies on: no two live tasks have a stack word in common. */
    lemma StackWordsApart(i: int, j: int)
      requires Valid() && i != j && i in StacksOf(tasks.tasks[..], hhdm) && j in StacksOf(tasks.tasks[..], hhdm)
      ensures var stacks := StacksOf(tasks.tasks[..], hhdm);
        && stacks[i].1 >= 0 && stacks[j].1 >= 0
        && ContextRuns.Apart(StackWords(stacks[i].1), StackWords(stacks[j].1))
    {
      hide heap.Valid, Tasks, Window, StacksOf, StackWords, Partition, ContextRuns.Apart;
      TopPages(usable, Owned(), i);
      TopPages(usable, Owned(), j);
      PagesApart(Owned().stacks[i].1, Owned().stacks[j].1);
    }

    /** And the stack that the next task would get shares none with theirs. */
    lemma NewStackApart(p0: nat, p1: nat, i: int)
      requires Valid() && TwoLowest(pmm.free, p0, p1) && i in StacksOf(tasks.tasks[..], hhdm)
      ensures var stacks := StacksOf(tasks.tasks[..], hhdm);
        stacks[i].1 >= 0 && ContextRuns.Apart(StackWords(p1), StackWords(stacks[i].1))
    {
      hide heap.Valid, Tasks, Window, StacksOf, StackWords, Partition, ContextRuns.Apart;
      TopPages(usable, Owned(), i);
      PagesApart(p1, Owned().stacks[i].1);
    }

    static lemma TopPages(usable: set<nat>, o: Owners, i: int)
      requires Partition(usable, o) && i in o.stacks
      ensures o.stacks[i].1 in usable && o.stacks[i].1 !in o.free
      ensures forall j :: j in o.stacks && j != i ==> o.stacks[j].1 != o.stacks[i].1
    {
      assert o.stacks[i].1 in PagesOf(o.stacks);
    }

    /** The idle task's stack, on pages of its own, shares no word with them either. */
    lemma IdleStackApart(p: nat, i: int)
      requires Valid() && p in bootStack && i in StacksOf(tasks.tasks[..], hhdm)
      ensures var stacks := StacksOf(tasks.tasks[..], hhdm);
        stacks[i].1 >= 0 && ContextRuns.Apart(StackWords(p), StackWords(stacks[i].1))
      ensures forall p0, p1 :: TwoLowest(pmm.free, p0, p1) ==> ContextRuns.Apart(StackWords(p), StackWords(p1))
    {
      hide heap.Valid, Tasks, Window, StacksOf, StackWords, Partition, ContextRuns.Apart;
      TopPages(usable, Owned(), i);
      PagesApart(p, Owned().stacks[i].1);
      forall p0, p1 | TwoLowest(pmm.free, p0, p1)
        ensures ContextRuns.Apart(StackWords(p), StackWords(p1))
      {
        FreeIsUsable(usable, Owned(), p1);
        PagesApart(p, p1);
      }
    }

    static lemma FreeIsUsable(usable: set<nat>, o: Owners, p: nat)
      requires Partition(usable, o) && p in o.free
      ensures p in usable
    {
    }

    static lemma PagesApart(p: nat, q: nat)
      requires p != q
      ensures ContextRuns.Apart(StackWords(p), StackWords(q))
    {
    }

    /** `kmalloc`: whatever it takes goes from free to heap or to page tables. */
    method Kmalloc(size: nat) returns (r: Outcome<nat>)
      requires Valid() && size < WORD_LIMIT
      modifies heap, vm, pmm`freeCount, pmm`free, pmm.bitmap
      ensures r.Done? <==> (
        && old(heap.inited) && size > 0 && size + ALIGN - 1 < WORD_LIMIT
        && (HasFit(old(heap.blocks), AlignUp(size))
            || RoomToGrow(old(heap.end), AlignUp(size), heap.h,
                          TablesToGrow(old(vm.frames), vm.root, old(heap.end), AlignUp(size), heap.h),
                          |old(pmm.free)|)))
      ensures r.Done? ==> Valid() && heap.blocks == Allocated(old(heap.blocks), heap.h, old(heap.end), AlignUp(size))
      ensures r.Done? ==> heap.end == EndAfter(old(heap.blocks), heap.h, old(heap.end), AlignUp(size))
      ensures r.Done? && heap.end > old(heap.end) ==> heap.Writable(vm)
    {
      hide vm.Valid, Partition, PageSet, StacksOf, Inv, GoodStacks, TookPages, Allocated, FitIndex, RoomToGrow,
           TablesToGrow, ClearRun, SameLarge, GrowthIsClear, EndAfter, heap.Writable;
      ghost var owned, f0 := Owned(), vm.frames;
      ghost var added;
      if heap.inited {
        HeapGrowth(f0, vm.root, |heap.pages|, AlignUp(size), heap.h);
      }
      EndStays(heap.blocks, heap.h, heap.end, AlignUp(size));
      r, added := heap.Kmalloc(pmm, vm, size);
      if r.Done? {
        GrowthKeepsPartition(owned, old(heap.pages), vm.created, pmm.free, added);
        ClearRunKept(f0, vm.frames, vm.root, HEAP_START, HEAP_PAGES);
      }
    }

    static lemma EndStays(blocks: seq<Block>, h: nat, end: nat, needed: nat)
      ensures EndAfter(blocks, h, end, needed) >= end
    {
    }

    /** The pages of growth within the maximum lie in the window. */
    static lemma HeapGrowth(frames: Frames, root: nat, pages: nat, needed: nat, h: nat)
      requires ClearRun(frames, root, HEAP_START, HEAP_PAGES)
      ensures GrowthIsClear(frames, root, HEAP_START + pages * PAGE_SIZE, needed, h)
    {
      hide MeetsLarge, SplitIndices, ExtraBytes;
      var end, n := HEAP_START + pages * PAGE_SIZE, ExtraPages(needed, h);
      if end + ExtraBytes(needed, h) <= HEAP_START + HEAP_MAX_SIZE {
        ExtraPagesSuffice(needed, h);
        forall i | 0 <= i < n
          ensures ClearAt(frames, root, end, i)
        {
          assert ClearAt(frames, root, HEAP_START, pages + i);
          assert HEAP_START + (pages + i) * PAGE_SIZE == end + i * PAGE_SIZE;
        }
      }
    }

    /** `kmalloc_init`, as start-up calls it. */
    method KmallocInit(sizeBytes: nat) returns (r: Outcome<()>)
      requires Valid() && sizeBytes < WORD_LIMIT
      requires ClearRun(vm.frames, vm.root, HEAP_START, PagesFor(sizeBytes))
      modifies heap, vm, pmm`freeCount, pmm`free, pmm.bitmap
      ensures r.Done? <==> (
        && !old(heap.inited) && sizeBytes > heap.h + ALIGN
        && sizeBytes + PAGE_SIZE - 1 < WORD_LIMIT && HEAP_START + PagesFor(sizeBytes) * PAGE_SIZE < WORD_LIMIT
        && PagesFor(sizeBytes) + |FirstTables(old(vm.frames), vm.root, sizeBytes)| <= |old(pmm.free)|)
      ensures r.Done? ==>
        && Valid() && heap.inited && heap.end == HEAP_START + PagesFor(sizeBytes) * PAGE_SIZE
        && SameLarge(old(vm.frames), vm.frames, vm.root)
        && Filled(old(vm.frames), vm.frames, vm.root, FirstTables(old(vm.frames), vm.root, sizeBytes))
        && |old(pmm.free)| == |pmm.free| + PagesFor(sizeBytes) + |FirstTables(old(vm.frames), vm.root, sizeBytes)|
    {
      hide vm.Valid, Partition, PageSet, StacksOf, Inv, GoodStacks, TookPages, MissingOverRun, ClearRun,
           SameLarge, Filled;
      ghost var owned, f0 := Owned(), vm.frames;
      ghost var added;
      r, added := heap.KmallocInit(pmm, vm, HEAP_START, sizeBytes);
      if r.Done? {
        GrowthKeepsPartition(owned, old(heap.pages), vm.created, pmm.free, added);
        ClearRunKept(f0, vm.frames, vm.root, HEAP_START, HEAP_PAGES);
      }
    }

    /** `map_page` for a page outside the heap, on a path that meets no large page. */
    method MapDevice(virt: nat, phys: nat, flags: nat) returns (r: Outcome<()>)
      requires Valid() && OutsideRun(virt, HEAP_START, |heap.pages|)
      requires !MeetsLarge(vm.frames, vm.root, SplitIndices(virt))
      modifies vm, pmm`freeCount, pmm`free, pmm.bitmap
      ensures r.Done? <==> (
        && virt % PAGE_SIZE == 0 && phys % PAGE_SIZE == 0
        && |Missing(old(vm.frames), vm.root, SplitIndices(virt))| <= |old(pmm.free)|)
      ensures r.Done? ==>
        && Valid() && Remapped(old(vm.frames), vm.frames, vm.root, virt, Some(Entry(phys, flags)))
        && MapsTo(Lookup(vm.frames, vm.root, SplitIndices(virt)), phys, flags)
        && |old(pmm.free)| == |pmm.free| + |Missing(old(vm.frames), vm.root, SplitIndices(virt))|
    {
      hide vm.Valid, Partition, PageSet, StacksOf, Inv, GoodStacks, ClearRun, RunMapped, OutsideRun, OwnPages,
           Remapped, Missing, Completed, SplitIndices, MeetsLarge, Entry, Tiles, Linked, MapsTo;
      ghost var owned, f0 := Owned(), vm.frames;
      r := vm.MapPage(pmm, virt, phys, flags);
      if r.Done? {
        if |heap.pages| <= VIRTUAL_PAGES && heap.inited {
          RunStaysMapped(f0, vm.frames, vm.root, HEAP_START, heap.pages, virt, Entry(phys, flags));
        }
        NoPagesMapped(vm.frames, vm.root, heap.start, heap.pages);
        OwnPagesKept(heap.pages, old(vm.created), old(pmm.free), vm.created, pmm.free);
        ClearRunRemapped(f0, vm.frames, vm.root, virt, Entry(phys, flags), HEAP_START, HEAP_PAGES);
        TablesKeepPartition(owned, vm.created, pmm.free);
      }
    }

    static lemma NoPagesMapped(frames: Frames, root: nat, start: nat, pages: seq<nat>)
      ensures pages == [] ==> RunMapped(frames, root, start, pages)
    {
    }

    static lemma OwnPagesKept(pages: seq<nat>, c0: set<nat>, f0: set<nat>, c1: set<nat>, f1: set<nat>)
      requires OwnPages(pages, c0, f0)
      requires c0 <= c1 && c1 - c0 <= f0 && f1 == f0 - (c1 - c0)
      ensures OwnPages(pages, c1, f1)
    {
      hide PageSet, Distinct;
    }

    static lemma ClearRunRemapped(before: Frames, after: Frames, root: nat, virt: nat, word: nat, start: nat, n: nat)
      requires Remapped(before, after, root, virt, Some(word)) && ClearRun(before, root, start, n)
      ensures ClearRun(after, root, start, n)
    {
      hide SplitIndices, View, ClearRun;
      ClearRunKept(before, after, root, start, n);
    }

    lemma TablesKeepPartition(o: Owners, tables: set<nat>, free: set<nat>)
      requires Partition(usable, o)
      requires o.tables <= tables && tables - o.tables <= o.free && free == o.free - (tables - o.tables)
      ensures Partition(usable, o.(free := free, tables := tables))
    {
      hide Partition, PagesOf, StacksDisjoint;
      AfterGrowth(usable, o, tables, free, {});
      assert o.heap + {} == o.heap;
    }

    lemma GrowthKeepsPartition(o: Owners, pages: seq<nat>, tables: set<nat>, free: set<nat>, added: seq<nat>)
      requires Partition(usable, o) && o.heap == PageSet(pages)
      requires TookPages(o.tables, o.free, tables, free, added)
      ensures Partition(usable, o.(free := free, tables := tables, heap := PageSet(pages + added)))
    {
      hide Partition, PagesOf, StacksDisjoint, Distinct;
      AfterGrowth(usable, o, tables, free, PageSet(added));
      assert PageSet(pages + added) == PageSet(pages) + PageSet(added);
    }

    /** `kfree` moves no page. */
    method Kfree(ptr: nat, stray: BlockHeader) returns (r: Outcome<()>)
      requires Valid()
      requires ptr >= heap.h && ptr - heap.h !in heap.mem ==> stray.magic != MAGIC_USED
      modifies heap`mem, heap`blocks
      ensures Valid()
      ensures r.Abort? <==>
        ptr != 0 && (!heap.inited || ptr < heap.h || Below(old(heap.mem), ptr - heap.h, stray).magic != MAGIC_USED)
      ensures r.Done? ==> FreedAt(old(heap.blocks), heap.blocks, heap.h, ptr)
    {
      hide vm.Valid, Partition, PageSet, StacksOf, Inv, GoodStacks, ClearRun;
      r := heap.Kfree(pmm, vm, ptr, stray);
    }

    /** `new_kernel_task`. */
    method Spawn() returns (r: Option<nat>, ghost p0: nat, ghost p1: nat)
      requires Valid()
      modifies tasks`nextPid, tasks.tasks, pmm`freeCount, pmm`free, pmm.bitmap
      ensures Valid()
      ensures r.Some? <==> FreeSlot(old(tasks.tasks[..]), 0).Some? && |old(pmm.free)| >= 2
      ensures r.None? ==> tasks.View() == old(tasks.View()) && pmm.free == old(pmm.free)
      ensures r.Some? ==>
        && TwoLowest(old(pmm.free), p0, p1) && pmm.free == old(pmm.free) - {p0, p1}
        && tasks.View() == Create(old(tasks.View()), p0 * PAGE_SIZE, p1 * PAGE_SIZE + PAGE_SIZE + hhdm)
        && Stacks() == old(Stacks())[FreeSlot(old(tasks.tasks[..]), 0).value := (p0, p1)]
    {
      hide Pmm.Valid, Tree, RunMapped, heap.Rows, Window, TablesAreTaken, Partition, PageSet, StacksOf, Inv, GoodStacks,
           TwoLowest, FreeSlot, Create, OwnPages;
      ghost var owned, before := Owned(), tasks.View();
      FreeInRange(pmm);
      r, p0, p1 := tasks.NewKernelTask(pmm, hhdm);
      if r.Some? {
        LowestPages(owned.free, p0, p1);
        CreateInv(before, p0 * PAGE_SIZE, p1 * PAGE_SIZE + PAGE_SIZE + hhdm);
        CreateStacks(before, p0, p1, hhdm, pmm.totalPages);
        AfterSpawn(usable, owned, FreeSlot(before.tasks, 0).value, p0, p1);
        TablesTakenAfterTake(vm.boot, vm.shape, vm.created, old(pmm.free), pmm.free);
        FewerFree(heap.pages, vm.created, old(pmm.free), pmm.free);
      }
    }

    static lemma FreeInRange(pmm: Pmm)
      requires pmm.Valid()
      ensures forall p :: p in pmm.free ==> p < pmm.totalPages
    {
    }

    static lemma LowestPages(free: set<nat>, p0: nat, p1: nat)
      requires TwoLowest(free, p0, p1)
      ensures p0 in free && p1 in free && p0 != p1
    {
    }

    static lemma FewerFree(pages: seq<nat>, created: set<nat>, free: set<nat>, less: set<nat>)
      requires OwnPages(pages, created, free) && less <= free
      ensures OwnPages(pages, created, less)
    {
    }

    /** `exit` of the running task, which is not the idle task: the assertion in `free_page` never
        fires, and the task's top stack page is lost. */
    method ExitTask(code: int) returns (r: Outcome<()>)
      requires Valid() && tasks.current != 0
      modifies this`lost, this`exits, pmm`freeCount, pmm`free, pmm.bitmap
      modifies tasks`current, tasks`ticksOnCurrent, tasks.tasks
      ensures Valid()
      ensures r.Done? && exits == old(exits) + 1 && |pmm.free| == |old(pmm.free)| + 1
      ensures tasks.View() == Exit(old(tasks.View()), code)
      ensures var stacks, slot := old(Stacks()), old(tasks.current);
        && slot in stacks && Stacks() == stacks - {slot}
        && pmm.free == old(pmm.free) + {stacks[slot].0} && lost == old(lost) + {stacks[slot].1}
        && tasks.Valid() && stacks[slot].0 == old(tasks.View()).Current().stackBase / PAGE_SIZE
    {
      hide Pmm.Valid, Tree, RunMapped, heap.Rows, Window, TablesAreTaken, Partition, PageSet, StacksOf,
           GoodStacks, OwnPages, Exit;
      ghost var owned, before := Owned(), tasks.View();
      ghost var slot := before.current;
      ExitStacks(before, code, hhdm, pmm.totalPages);
      CurrentStack(before, hhdm, pmm.totalPages);
      ghost var (p0, p1) := owned.stacks[slot];
      AfterExit(usable, owned, slot);
      StackIsUsable(usable, owned, slot);
      r := tasks.ExitCurrent(pmm, code);
      lost, exits := lost + {p1}, exits + 1;
      ExitInv(before, code);
      TablesTakenAfterRelease(vm.boot, vm.shape, vm.created, old(pmm.free), p0);
      OneMoreFree(heap.pages, vm.created, old(pmm.free), p0);
    }

    /** A task whose stack has no hole exits, its base page below all free ones, and a task is created:
        that one's stack has a hole, because the top page of the first is lost. */
    method ExitThenSpawn(code: int) returns (r: Option<nat>)
      requires Valid() && tasks.current != 0 && tasks.current in Stacks()
      requires var (base, top) := Stacks()[tasks.current]; top == base + 1 && forall p :: p in pmm.free ==> base < p
      modifies this`lost, this`exits, pmm`freeCount, pmm`free, pmm.bitmap
      modifies tasks`current, tasks`ticksOnCurrent, tasks`nextPid, tasks.tasks
      ensures Valid()
      ensures r.Some? <==> FreeSlot(Exit(old(tasks.View()), code).tasks, 0).Some? && |old(pmm.free)| >= 1
      ensures r.Some? ==> exists slot :: (
        && slot in Stacks()
        && Stacks()[slot].0 == old(Stacks()[tasks.current]).0 && Stacks()[slot].1 > Stacks()[slot].0 + 1)
    {
      hide heap.Valid, Window, Tasks, Partition, StacksOf, Exit, Create, TwoLowest, FreeSlot;
      ghost var stacks, slot, free := Stacks(), tasks.current, pmm.free;
      StackNotFree(usable, Owned(), slot);
      var e := ExitTask(code);
      LostNotFree(usable, Owned(), stacks[slot].1);
      ghost var next := FreeSlot(tasks.tasks[..], 0);
      ghost var p0, p1;
      r, p0, p1 := Spawn();
      if r.Some? {
        HoleAfterRelease(free, stacks[slot].0, p0, p1);
        assert next.value in Stacks();
      }
    }

    static lemma StackNotFree(usable: set<nat>, o: Owners, slot: int)
      requires Partition(usable, o) && slot in o.stacks
      ensures o.stacks[slot].0 in usable && o.stacks[slot].0 !in o.free
    {
      assert o.stacks[slot].0 in PagesOf(o.stacks);
    }

    static lemma LostNotFree(usable: set<nat>, o: Owners, page: int)
      requires Partition(usable, o) && page in o.lost
      ensures page !in o.free
    {
    }

    static lemma CurrentStack(s: Table, hhdm: nat, totalPages: nat)
      requires Inv(s) && s.current != 0 && GoodStacks(s.tasks, hhdm, totalPages)
      ensures s.current in StacksOf(s.tasks, hhdm) && StacksOf(s.tasks, hhdm)[s.current].0 == BasePage(s.Current())
      ensures s.Current().stackBase % PAGE_SIZE == 0 && BasePage(s.Current()) < totalPages
    {
    }

    /** A live task's base page is usable, and nobody else's. */
    static lemma StackIsUsable(usable: set<nat>, o: Owners, slot: int)
      requires Partition(usable, o) && slot in o.stacks
      ensures o.stacks[slot].0 in usable && o.stacks[slot].0 !in o.tables && o.stacks[slot].0 !in o.heap
    {
      assert o.stacks[slot].0 in PagesOf(o.stacks);
    }

    static lemma OneMoreFree(pages: seq<nat>, created: set<nat>, free: set<nat>, page: nat)
      requires OwnPages(pages, created, free) && page !in PageSet(pages)
      ensures OwnPages(pages, created, free + {page})
    {
    }

    lemma StepKeepsTasks(before: Table, sys: System, e: Event)
      requires Inv(before) && sys.table == before && Enabled(sys, e) && !e.Spawned? && !e.Exited?
      ensures Inv(Apply(sys, e).table)
      ensures StacksOf(Apply(sys, e).table.tasks, hhdm) == StacksOf(before.tasks, hhdm)
      ensures GoodStacks(before.tasks, hhdm, pmm.totalPages) ==>
        GoodStacks(Apply(sys, e).table.tasks, hhdm, pmm.totalPages)
    {
      hide Apply, Settled, PidsDistinct, OthersNotRunning, IdleReady, GoodStacks, StacksOf;
      StepInv(sys, e);
      StepStacks(sys, e);
      SameStacksOf(before.tasks, Apply(sys, e).table.tasks, hhdm, pmm.totalPages);
    }

    /** The remaining entry points move no page. */
    method TimerTick(tick: nat)
      requires Valid() && tick > 0
      modifies tasks`current, tasks`ticksOnCurrent, tasks.tasks
      ensures Valid() && tasks.View() == Tick(old(tasks.View()), tick) && Stacks() == old(Stacks())
    {
      hide heap.Valid, Window, Partition, PageSet, StacksOf, Inv, GoodStacks, Tick;
      StepKeepsTasks(tasks.View(), System(tasks.View(), tick - 1), TickArrived);
      tasks.OnTick(tick);
    }

    method YieldTask()
      requires Valid() && tasks.current != 0
      modifies tasks`current, tasks`ticksOnCurrent, tasks.tasks
      ensures Valid() && tasks.View() == Yield(old(tasks.View()))
    {
      hide heap.Valid, Window, Partition, PageSet, StacksOf, Inv, GoodStacks, Yield;
      StepKeepsTasks(tasks.View(), System(tasks.View(), 0), Yielded);
      tasks.YieldCpu();
    }

    method SleepTask(readAt: nat, ms: nat) returns (r: Outcome<()>)
      requires Valid() && tasks.current != 0
      modifies tasks`current, tasks`ticksOnCurrent, tasks.tasks
      ensures Valid() && (r.Done? <==> SleepFits(readAt, ms))
      ensures tasks.View() == if r.Done? then Sleep(old(tasks.View()), WakeTick(readAt, ms)) else old(tasks.View())
    {
      hide heap.Valid, Window, Partition, PageSet, StacksOf, Inv, GoodStacks, Sleep, SleepFits;
      StepKeepsTasks(tasks.View(), System(tasks.View(), readAt), Slept(readAt, ms));
      r := tasks.SleepMs(readAt, ms);
    }

    method WaitTurn(pid: nat) returns (r: Option<int>)
      requires Valid() && tasks.current != 0
      modifies tasks`current, tasks`ticksOnCurrent, tasks.tasks
      ensures Valid() && tasks.View() == Wait(old(tasks.View()), pid)
    {
      hide heap.Valid, Window, Partition, PageSet, StacksOf, Inv, GoodStacks, Wait, WaitOutcome;
      StepKeepsTasks(tasks.View(), System(tasks.View(), 0), Waited(pid));
      r := tasks.WaitForTurn(pid);
    }

    /** Serves requests in order until one of them panics, and says which. A request that only a task
        can make is passed over while the idle task runs, and so are the release of a forged header and
        the mapping of a heap page or of one that meets a large page.
        After any such run every usable page has exactly one owner and the counts add up, and `states` is
        what each request made of the state before it. */
    method Serve(requests: seq<Request>) returns (panicked: bool, at: nat, ghost states: seq<Snapshot>)
      requires Valid()
      modifies this`lost, this`exits, heap, vm, pmm`freeCount, pmm`free, pmm.bitmap
      modifies tasks`current, tasks`ticksOnCurrent, tasks`nextPid, tasks.tasks
      ensures panicked ==> at < |requests| && MayPanic(requests[at])
      ensures !panicked ==> Valid()
      ensures !panicked ==>
        && |states| == |requests| + 1 && states[0] == old(Now()) && states[|requests|] == Now()
        && forall i :: 0 <= i < |requests| ==> Answered(requests[i], states[i], states[i + 1])
      ensures !panicked ==>
        pmm.freeCount + |heap.pages| + |vm.created| + 2 * |Stacks()| + exits == pmm.usablePages
    {
      hide Valid, StacksOf, Answered;
      states := [Now()];
      for i := 0 to |requests|
        invariant Valid() && |states| == i + 1 && states[0] == old(Now()) && states[i] == Now()
        invariant forall j :: 0 <= j < i ==> Answered(requests[j], states[j], states[j + 1])
      {
        var panic := ServeOne(requests[i]);
        if panic {
          return true, i, states;
        }
        states := states + [Now()];
      }
      Conservation();
      return false, |requests|, states;
    }

    method HeapPageCount() returns (n: nat)
      requires Valid()
      ensures n == |heap.pages|
    {
      hide vm.Valid, Partition, PageSet, StacksOf, Inv, GoodStacks, ClearRun, Tiles, Linked;
      n := if heap.inited then (heap.end - HEAP_START) / PAGE_SIZE else 0;
    }

    method ServeOne(request: Request) returns (panicked: bool)
      requires Valid()
      modifies this`lost, this`exits, heap, vm, pmm`freeCount, pmm`free, pmm.bitmap
      modifies tasks`current, tasks`ticksOnCurrent, tasks`nextPid, tasks.tasks
      ensures !panicked ==> Valid() && Answered(request, old(Now()), Now())
      ensures panicked ==> MayPanic(request)
    {
      hide Valid, StacksOf, Exit, Wait, Yield, Sleep, Tick, FreeSlot, Create, TwoLowest, Allocated, EndAfter, FreedAt,
           OutsideRun, MeetsLarge, SplitIndices, Remapped, Entry;
      TasksNow();
      panicked := false;
      match request {
        case Allocate(size) =>
          if size < WORD_LIMIT {
            var r := Kmalloc(size);
            panicked := r.Abort?;
          }
        case Free(ptr, stray) =>
          if ptr < heap.h || ptr - heap.h in heap.mem || stray.magic != MAGIC_USED {
            var r := Kfree(ptr, stray);
            panicked := r.Abort?;
          } else {
            NothingAt(ptr);
          }
        case MapPageAt(virt, phys, flags) =>
          var heapPages := HeapPageCount();
          if OutsideRun(virt, HEAP_START, heapPages) && !MeetsLarge(vm.frames, vm.root, SplitIndices(virt)) {
            var r := MapDevice(virt, phys, flags);
            panicked := r.Abort?;
          }
        case NewTask => var r, p0, p1 := Spawn();
        case TickArrives(tick) => if tick > 0 { TimerTick(tick); }
        case _ =>
          if tasks.current != 0 {
            panicked := ServeTask(request);
          }
      }
    }

    lemma TasksNow()
      requires Valid()
      ensures tasks.View().Shape() && tasks.Apart(pmm)
    {
      hide heap.Valid, Partition, PageSet, StacksOf, Inv, GoodStacks, ClearRun;
    }

    /** Every block has its header in memory. */
    lemma NothingAt(ptr: nat)
      requires Valid() && ptr >= heap.h && ptr - heap.h !in heap.mem
      ensures FreedAt(heap.blocks, heap.blocks, heap.h, ptr)
    {
      hide vm.Valid, Partition, PageSet, StacksOf, Inv, GoodStacks, ClearRun, Tiles, Linked, First;
      forall k | 0 <= k < |heap.blocks|
        ensures heap.blocks[k].addr in heap.mem
      {
        AtBlock(heap.mem, heap.blocks, heap.h, heap.start, heap.end, k);
      }
    }

    method ServeTask(request: Request) returns (panicked: bool)
      requires Valid() && tasks.current != 0
      modifies this`lost, this`exits, pmm`freeCount, pmm`free, pmm.bitmap
      modifies tasks`current, tasks`ticksOnCurrent, tasks.tasks
      requires !request.Allocate? && !request.Free? && !request.NewTask? && !request.TickArrives? && !request.MapPageAt?
      ensures Valid() && (panicked <==> request.SleepFor? && !SleepFits(request.readAt, request.ms))
      ensures !panicked ==> Answered(request, old(Now()), Now())
    {
      hide Valid, StacksOf, Exit, Wait, Yield, Sleep, Tick, SleepFits, WakeTick;
      TasksNow();
      panicked := false;
      match request {
        case ExitWith(code) =>
          var r := ExitTask(code);
          panicked := r.Abort?;
        case YieldNow => YieldTask();
        case SleepFor(readAt, ms) =>
          var r := SleepTask(readAt, ms);
          panicked := r.Abort?;
        case WaitFor(pid) => var r := WaitTurn(pid);
      }
    }
  }

  /** Start-up of the page allocator, with the heap still empty and the task table at its start, on the
      tables the boot loader left: the pages the machine then has to hand out are exactly those that
      `init_pmm` must free. */
  method Boot(entries: seq<MemmapEntry>, frames: Frames, root: nat, ghost shape: Shape, headerSize: nat, hhdm: nat,
              ghost bootStack: set<nat>)
    returns (r: Outcome<Machine>)
    requires Separate(entries) && TotalPages(HighestEnd(entries)) * PAGE_SIZE <= ADDR_LIMIT
    requires Tree(frames, root, shape) && ClearRun(frames, root, HEAP_START, HEAP_PAGES)
    requires headerSize > 0 && headerSize % 8 == 0
    requires forall p: nat :: StartsFree(entries, p) ==> p * PAGE_SIZE !in shape.level && p !in bootStack
    ensures r.Done? <==> HighestEnd(entries) > 0 && BitmapAt(entries) != 0
    ensures r.Done? ==> r.value.Valid() && forall p: nat :: p in r.value.usable <==> StartsFree(entries, p)
    ensures r.Done? ==> r.value.pmm.bitmap.Length == BitmapLength(entries)
    ensures r.Done? ==>
      var m := r.value;
      && fresh(m) && fresh(m.pmm) && fresh(m.pmm.bitmap) && fresh(m.vm) && fresh(m.heap)
      && fresh(m.tasks) && fresh(m.tasks.tasks)
      && m.pmm.free == m.usable && m.vm.frames == frames && m.vm.root == root
      && !m.heap.inited && m.heap.pages == [] && m.heap.h == headerSize
      && m.tasks.View() == INITIAL_TABLE && m.exits == 0
  {
    hide Separate, Tree, BitmapPlace, ShouldFree, Admitted, HighestEnd, ClearRun, Covers;
    var pmm := new Pmm();
    var place := pmm.InitPmm(entries);
    if place.Abort? {
      return Abort;
    }
    FreeAtStart(entries, place.value, pmm.bitmap.Length, pmm.free);
    var vm := new AddressSpace(pmm, frames, root, shape);
    var heap := new Heap(headerSize);
    var tasks := new TaskTable();
    EmptyHeap(pmm, vm, heap);
    var machine := new Machine(pmm, vm, heap, tasks, hhdm, bootStack);
    return Done(machine);
  }

  lemma FreeAtStart(entries: seq<MemmapEntry>, place: nat, length: nat, free: set<nat>)
    requires place == BitmapAt(entries) && place % 4096 == 0 && length == BitmapLength(entries)
    requires forall p: nat :: p in free <==> Admitted(entries, place, length, p)
    ensures forall p: nat :: p in free <==> StartsFree(entries, p)
  {
    hide ShouldFree, Admitted;
    SameFreed(entries, place, length);
  }

  lemma EmptyHeap(pmm: Pmm, vm: AddressSpace, heap: Heap)
    requires vm.Valid(pmm) && heap.Rows() && !heap.inited && heap.pages == []
    ensures heap.Valid(pmm, vm)
  {
  }
}
