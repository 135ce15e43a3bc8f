/** The kernel from its first instruction on: start-up, and then any run of requests. */
module Startup {
  import opened Wrappers
  import opened Words
  import opened PageTree
  import opened PhysicalPages
  import opened TableNeeds
  import opened AddressSpaces
  import opened HeapBlocks
  import opened HeapPages
  import opened KernelHeap
  import opened TaskTables
  import opened TaskSafety
  import opened Scheduler
  import opened Ownership
  import opened Kernel

  const FIRST_HEAP: nat := 0x10_0000
  const LAPIC_VIRT: nat := 0xffff_ffff_fee0_0000
  const DEVICE_FLAGS: nat := 0x13   // PTE_PRESENT | PTE_WRITABLE | PTE_NO_CACHE

  /** The register's value `& 0xFFFF_F000`. */
  function ApicPhys(register: nat): nat { register / 0x1000 % 0x10_0000 * 0x1000 }

  /** The page of the local APIC: below 4 GiB, and the one that bits 12 to 31 of the register name. */
  lemma ApicPage(register: nat)
    ensures ApicPhys(register) % 4096 == 0 && ApicPhys(register) < 0x1_0000_0000
    ensures register % 0x1_0000_0000 == ApicPhys(register) + register % 4096
  {
    var a := register / 0x1000;
    var b := a / 0x10_0000;
    assert register == a * 0x1000 + register % 0x1000 && a == b * 0x10_0000 + a % 0x10_0000;
    LowWord(register, b, a % 0x10_0000 * 0x1000 + register % 0x1000);
  }

  lemma LowWord(a: nat, high: nat, rest: nat)
    requires a == high * 0x1_0000_0000 + rest && rest < 0x1_0000_0000
    ensures a % 0x1_0000_0000 == rest
  {
  }

  /** The entry of that page is its address with the present, writable and cache-disable bits. */
  lemma ApicEntry(entry: Option<nat>, register: nat)
    requires MapsTo(entry, ApicPhys(register), DEVICE_FLAGS)
    ensures entry == Some(ApicPhys(register) + 0x13)
  {
    ApicPage(register);
    assert And(DEVICE_FLAGS, ADDR_MASK) == 0;
    assert Or(DEVICE_FLAGS, 1) == 0x13;
  }

  /** The pages that `init_pmm` frees. */
  ghost function StartPages(entries: seq<MemmapEntry>): set<nat> {
    set p: nat | p < TotalPages(HighestEnd(entries)) && StartsFree(entries, p)
  }

  /** The tables that start-up creates: for the first pages of the heap and for the local APIC. */
  ghost function StartTables(frames: Frames, root: nat): set<Place> {
    FirstTables(frames, root, FIRST_HEAP) + Missing(frames, root, SplitIndices(LAPIC_VIRT))
  }

  /** What the boot loader leaves: a memory map whose usable entries are separate; an unshared tree of
      tables, none in a page that is freed, with no large page where the heap and the local APIC are
      mapped; and a stack outside those pages. */
  ghost predicate Booted(entries: seq<MemmapEntry>, frames: Frames, root: nat, shape: Shape, bootStack: set<nat>) {
    && Separate(entries) && TotalPages(HighestEnd(entries)) * PAGE_SIZE <= ADDR_LIMIT
    && Tree(frames, root, shape) && ClearRun(frames, root, HEAP_START, HEAP_PAGES)
    && !MeetsLarge(frames, root, SplitIndices(LAPIC_VIRT))
    && forall p: nat :: StartsFree(entries, p) ==> p * PAGE_SIZE !in shape.level && p !in bootStack
  }

  /** `init_pmm` finds memory and a place for its bitmap, and it frees enough pages for the first heap
      and for every table that start-up creates. */
  ghost predicate CanStart(entries: seq<MemmapEntry>, frames: Frames, root: nat, headerSize: nat) {
    && HighestEnd(entries) > 0 && BitmapAt(entries) != 0
    && FIRST_HEAP > headerSize + ALIGN
    && PagesFor(FIRST_HEAP) + |StartTables(frames, root)| <= |StartPages(entries)|
  }

  /** No page past the end of memory is freed. */
  lemma StartPagesAll(entries: seq<MemmapEntry>, p: nat)
    ensures StartsFree(entries, p) <==> p in StartPages(entries)
  {
    if StartsFree(entries, p) {
      var i :| 0 <= i < |entries| && entries[i].HoldsPage(p);
      HighestEndBounds(entries, i);
    }
  }

  lemma SameStartPages(entries: seq<MemmapEntry>, usable: set<nat>)
    requires forall p: nat :: p in usable <==> StartsFree(entries, p)
    ensures usable == StartPages(entries)
  {
    hide StartsFree;
    forall p: nat
      ensures p in usable <==> p in StartPages(entries)
    {
      StartPagesAll(entries, p);
    }
  }

  /** After the heap's tables, the local APIC's page lacks those that it does not share with them. */
  lemma TablesAdd(before: Frames, after: Frames, root: nat)
    requires Filled(before, after, root, FirstTables(before, root, FIRST_HEAP))
    ensures |StartTables(before, root)|
      == |FirstTables(before, root, FIRST_HEAP)| + |Missing(after, root, SplitIndices(LAPIC_VIRT))|
  {
    hide FirstTables, Missing, Filled, SplitIndices;
    var first, more := FirstTables(before, root, FIRST_HEAP), Missing(before, root, SplitIndices(LAPIC_VIRT));
    NowMissing(before, after, root, SplitIndices(LAPIC_VIRT), first);
    assert first + more == first + (more - first);
  }

  lemma LapicIsNoHeapPage(n: nat)
    requires n <= HEAP_PAGES
    ensures OutsideRun(LAPIC_VIRT, HEAP_START, n) && LAPIC_VIRT % PAGE_SIZE == 0
  {
  }

  lemma FirstHeapIsClear(frames: Frames, root: nat)
    requires ClearRun(frames, root, HEAP_START, HEAP_PAGES)
    ensures PagesFor(FIRST_HEAP) == 256 && ClearRun(frames, root, HEAP_START, PagesFor(FIRST_HEAP))
  {
  }

  lemma StillNoLarge(before: Frames, after: Frames, root: nat, path: Path)
    requires SameLarge(before, after, root)
    ensures MeetsLarge(after, root, path) == MeetsLarge(before, root, path)
  {
    hide LargeAt;
  }

  /** Start-up until interrupts are switched on: the page allocator, the first heap, the page of the
      local APIC and the task table. It panics exactly if `CanStart` does not hold. */
  method StartKernel(entries: seq<MemmapEntry>, frames: Frames, root: nat, ghost shape: Shape, headerSize: nat,
                     hhdm: nat, apicRegister: nat, ghost bootStack: set<nat>)
    returns (r: Outcome<Machine>)
    requires Booted(entries, frames, root, shape, bootStack) && headerSize > 0 && headerSize % 8 == 0
    ensures r.Done? <==> CanStart(entries, frames, root, headerSize)
    ensures r.Done? ==>
      var m := r.value;
      && m.Valid() && m.usable == StartPages(entries)
      && fresh(m) && fresh(m.pmm) && fresh(m.pmm.bitmap) && fresh(m.vm) && fresh(m.heap)
      && fresh(m.tasks) && fresh(m.tasks.tasks)
      && m.heap.inited && m.heap.end == HEAP_START + FIRST_HEAP
      && m.tasks.View() == INITIAL_TABLE && m.exits == 0
      && Lookup(m.vm.frames, m.vm.root, SplitIndices(LAPIC_VIRT)) == Some(ApicPhys(apicRegister) + 0x13)
      && |m.pmm.free| + PagesFor(FIRST_HEAP) + |StartTables(frames, root)| == |StartPages(entries)|
  {
    hide Separate, Tree, ClearRun, MeetsLarge, StartsFree, StartPages, HighestEnd, BitmapPlace, StartTables,
         FirstTables, Missing, Filled, SameLarge, Remapped, OutsideRun, SplitIndices, Machine.Valid, MapsTo;
    r := Boot(entries, frames, root, shape, headerSize, hhdm, bootStack);
    if r.Abort? {
      return;
    }
    var m := r.value;
    SameStartPages(entries, m.usable);
    TasksApart(m);
    FirstHeapIsClear(frames, root);
    var heap := m.KmallocInit(FIRST_HEAP);
    if heap.Abort? {
      TooFewForHeap(frames, root);
      return Abort;
    }
    TablesAdd(frames, m.vm.frames, root);
    StillNoLarge(frames, m.vm.frames, root, SplitIndices(LAPIC_VIRT));
    HeapLength(m);
    LapicIsNoHeapPage(|m.heap.pages|);
    var device := m.MapDevice(LAPIC_VIRT, ApicPhys(apicRegister), DEVICE_FLAGS);
    if device.Abort? {
      return Abort;
    }
    ApicEntry(Lookup(m.vm.frames, m.vm.root, SplitIndices(LAPIC_VIRT)), apicRegister);
  }

  lemma TooFewForHeap(frames: Frames, root: nat)
    ensures |FirstTables(frames, root, FIRST_HEAP)| <= |StartTables(frames, root)|
  {
    hide FirstTables, Missing, SplitIndices;
    Grows(FirstTables(frames, root, FIRST_HEAP), Missing(frames, root, SplitIndices(LAPIC_VIRT)));
  }

  lemma TasksApart(m: Machine)
    requires m.Valid()
    ensures m.tasks.Apart(m.pmm)
  {
    hide m.heap.Valid, Partition, StacksOf, Inv, GoodStacks, ClearRun;
  }

  lemma HeapLength(m: Machine)
    requires m.Valid() && m.heap.inited && m.heap.end == HEAP_START + FIRST_HEAP
    ensures |m.heap.pages| == 256
  {
    hide m.vm.Valid, Partition, StacksOf, Inv, GoodStacks, ClearRun, Tiles, RunMapped;
  }

  /** The kernel from the boot loader on. Whatever requests follow, if none of them panics, then each is
      answered in turn; every page handed out is one that start-up freed, so it lies wholly in a usable
      entry at or above 1 MiB and shares no byte with the bitmap; and the page counts add up. */
  method StartAndServe(entries: seq<MemmapEntry>, frames: Frames, root: nat, ghost shape: Shape, headerSize: nat,
                       hhdm: nat, apicRegister: nat, ghost bootStack: set<nat>, requests: seq<Request>)
    returns (r: Outcome<Machine>, at: nat, ghost states: seq<Snapshot>)
    requires Booted(entries, frames, root, shape, bootStack) && headerSize > 0 && headerSize % 8 == 0
    ensures r.Abort? ==>
      !CanStart(entries, frames, root, headerSize) || (at < |requests| && MayPanic(requests[at]))
    ensures r.Done? ==> CanStart(entries, frames, root, headerSize) && r.value.Valid()
    ensures r.Done? ==>
      && |states| == |requests| + 1 && states[0].table == INITIAL_TABLE && states[|requests|] == r.value.Now()
      && forall i :: 0 <= i < |requests| ==> r.value.Answered(requests[i], states[i], states[i + 1])
    ensures r.Done? ==> forall page: nat :: r.value.InHand(page) ==> FromMap(entries, page)
    ensures r.Done? ==>
      var m := r.value;
      m.pmm.freeCount + |m.heap.pages| + |m.vm.created| + 2 * |m.Stacks()| + m.exits == |StartPages(entries)|
  {
    hide Booted, CanStart, StartPages, StartsFree, Machine.Valid, Machine.InHand, FromMap, MayPanic, Machine.Answered;
    at, states := 0, [];
    r := StartKernel(entries, frames, root, shape, headerSize, hhdm, apicRegister, bootStack);
    if r.Abort? {
      return;
    }
    var m := r.value;
    var panicked;
    panicked, at, states := m.Serve(requests);
    if panicked {
      return Abort, at, states;
    }
    UsableCount(m);
    forall p: nat
      ensures p in m.usable <==> StartsFree(entries, p)
    {
      StartPagesAll(entries, p);
    }
    forall page: nat | m.InHand(page)
      ensures FromMap(entries, page)
    {
      m.OnlyMemory(entries, page);
    }
  }

  lemma UsableCount(m: Machine)
    requires m.Valid()
    ensures m.pmm.usablePages == |m.usable|
  {
    hide m.heap.Valid, Partition, StacksOf, Inv, GoodStacks, ClearRun;
  }

  // ----- a stack with a hole -----

  lemma FreeSlotFound(tasks: seq<Task>, from: nat, i: nat)
    requires |tasks| == MAX_TASKS && from <= i < MAX_TASKS && tasks[i].state == Empty
    ensures FreeSlot(tasks, from).Some? && FreeSlot(tasks, from).value <= i
    decreases i - from
  {
    if tasks[from].state != Empty {
      FreeSlotFound(tasks, from + 1, i);
    }
  }

  lemma FirstTaskSlot()
    ensures FreeSlot(INITIAL_TABLE.tasks, 0) == Some(1)
  {
    FreeSlotFound(INITIAL_TABLE.tasks, 0, 1);
  }

  /** A tick that does not end the time slice of the idle task. */
  lemma QuietTick(s: Table, tick: nat)
    requires Inv(s) && tick > 0 && s.current == 0 && s.ticksOnCurrent + 1 < TIME_SLICE_TICKS
    requires s.tasks[1].state == Ready && s.tasks[2].state == Empty
    ensures var r := Tick(s, tick);
      && Inv(r) && r.current == 0 && r.ticksOnCurrent == s.ticksOnCurrent + 1
      && r.tasks[1].state == Ready && r.tasks[2].state == Empty
  {
    hide Schedule, Settled;
    TickInv(s, tick);
  }

  /** The tick that does, with a task Ready in slot 1: that one runs. */
  lemma SwitchingTick(s: Table, tick: nat)
    requires Inv(s) && tick > 0 && s.current == 0 && s.ticksOnCurrent + 1 == TIME_SLICE_TICKS
    requires s.tasks[1].state == Ready && s.tasks[2].state == Empty
    ensures Inv(Tick(s, tick)) && Tick(s, tick).current == 1 && Tick(s, tick).tasks[2].state == Empty
  {
    hide Schedule, Settled;
    TickInv(s, tick);
    TickPartsInv(s, tick);
    var c := Charged(s, tick).(ticksOnCurrent := 0);
    ScheduleEffect(c);
    assert c.tasks[1].state == Ready && Distance(0, 1) == 1;
    assert Tick(s, tick) == Schedule(c);
    OnlyNext(Tick(s, tick).current);
  }

  lemma OnlyNext(i: nat)
    requires i < MAX_TASKS
    ensures Distance(0, i) <= 1 ==> i == 1
  {
  }

  lemma ExitKeepsEmpty(s: Table, code: int)
    requires Inv(s) && s.current == 1 && s.tasks[2].state == Empty
    ensures Exit(s, code).tasks[2].state == Empty
  {
    hide Schedule, Settled;
    TerminateSchedulable(s, code);
    ScheduleEffect(Terminate(s, code));
  }

  lemma MachineTasks(m: Machine)
    requires m.Valid()
    ensures Inv(m.tasks.View())
  {
    hide m.heap.Valid, Partition, StacksOf, Inv, GoodStacks, ClearRun;
  }

  lemma FirstTask(free: set<nat>, lowest: nat, p0: nat, p1: nat, top: nat)
    requires lowest in free && lowest + 1 in free && (forall p :: p in free ==> lowest <= p)
    requires TwoLowest(free, p0, p1)
    ensures p0 == lowest && p1 == lowest + 1
    ensures var s := Create(INITIAL_TABLE, p0 * PAGE_SIZE, top);
      && Inv(s) && s.current == 0 && s.ticksOnCurrent == 0 && s.tasks[1].state == Ready && s.tasks[2].state == Empty
  {
    hide Settled;
    FirstTaskSlot();
    InitialInv();
    CreateInv(INITIAL_TABLE, p0 * PAGE_SIZE, top);
  }

  /** Right after start-up, with the two lowest free pages next to each other and one more: the first
      task gets a stack without a hole, the third tick switches to it, and once it has exited the next
      task gets a stack with one. */
  method HoleAfterStart(m: Machine, ghost lowest: nat) returns (r: Option<nat>)
    requires m.Valid() && m.tasks.View() == INITIAL_TABLE && |m.pmm.free| >= 3
    requires lowest in m.pmm.free && lowest + 1 in m.pmm.free && forall p :: p in m.pmm.free ==> lowest <= p
    modifies m`lost, m`exits, m.pmm`freeCount, m.pmm`free, m.pmm.bitmap
    modifies m.tasks`current, m.tasks`ticksOnCurrent, m.tasks`nextPid, m.tasks.tasks
    ensures m.Valid() && r.Some?
    ensures exists slot :: slot in m.Stacks() && m.Stacks()[slot].1 > m.Stacks()[slot].0 + 1
  {
    hide Machine.Valid, Machine.Stacks, Inv, Tick, Create, Exit, FreeSlot, TwoLowest;
    ghost var free := m.pmm.free;
    FirstTaskSlot();
    ghost var p0, p1;
    r, p0, p1 := m.Spawn();
    FirstTask(free, lowest, p0, p1, p1 * PAGE_SIZE + PAGE_SIZE + m.hhdm);
    QuietTick(m.tasks.View(), 1);
    m.TimerTick(1);
    QuietTick(m.tasks.View(), 2);
    m.TimerTick(2);
    SwitchingTick(m.tasks.View(), 3);
    m.TimerTick(3);
    ExitKeepsEmpty(m.tasks.View(), 0);
    FreeSlotFound(Exit(m.tasks.View(), 0).tasks, 0, 2);
    LowestTaken(free, lowest, m.pmm.free);
    r := m.ExitThenSpawn(0);
  }

  lemma LowestTaken(free: set<nat>, lowest: nat, rest: set<nat>)
    requires lowest in free && lowest + 1 in free && |free| >= 3 && forall p :: p in free ==> lowest <= p
    requires rest == free - {lowest, lowest + 1}
    ensures |rest| >= 1 && forall p :: p in rest ==> lowest < p
  {
    assert free == free - {lowest, lowest + 1} + {lowest, lowest + 1};
  }
}
