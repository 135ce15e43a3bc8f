/** Who owns each usable physical page. */
module Ownership {
  import opened PhysicalPages
  import opened TaskTables
  import opened TaskSafety
  import opened TaskRuns

  /** The two stack pages of each task that has a stack: the live ones other than the idle task. */
  type Stacks = map<int, (int, int)>

  function BasePage(t: Task): int { t.stackBase / PAGE_SIZE }
  function TopPage(t: Task, hhdm: nat): int { (t.stackTop - hhdm) / PAGE_SIZE - 1 }

  ghost function StacksOf(tasks: seq<Task>, hhdm: nat): Stacks {
    map i | 1 <= i < |tasks| && tasks[i].Live() :: (BasePage(tasks[i]), TopPage(tasks[i], hhdm))
  }

  ghost function PagesOf(stacks: Stacks): set<int> {
    (set i | i in stacks :: stacks[i].0) + (set i | i in stacks :: stacks[i].1)
  }

  /** Live tasks' stack pages are all different. */
  ghost predicate StacksDisjoint(stacks: Stacks) {
    && (forall i :: i in stacks ==> stacks[i].0 != stacks[i].1)
    && (forall i, j :: i in stacks && j in stacks && i != j ==>
          stacks[i].0 != stacks[j].0 && stacks[i].0 != stacks[j].1 && stacks[i].1 != stacks[j].1)
  }

  lemma SomeElement<T>(s: set<T>) returns (x: T)
    requires s != {}
    ensures x in s
  {
    x :| x in s;
  }

  /** Two pages per stack. */
  lemma {:induction false} StackPageCount(stacks: Stacks)
    requires StacksDisjoint(stacks)
    ensures |PagesOf(stacks)| == 2 * |stacks|
    decreases |stacks|
  {
    if |stacks| == 0 {
      assert PagesOf(stacks) == {};
    } else {
      var i := SomeElement(stacks.Keys);
      WithoutOne(stacks, i);
      StackPageCount(stacks - {i});
    }
  }

  lemma TwoMore(pages: set<int>, p0: int, p1: int)
    requires p0 != p1 && p0 !in pages && p1 !in pages
    ensures |pages + {p0, p1}| == |pages| + 2
    ensures pages + {p0, p1} - {p0, p1} == pages
  {
    assert pages + {p0, p1} == pages + {p0} + {p1};
  }

  /** Taking one stack away takes exactly its two pages away. */
  lemma WithoutOne(stacks: Stacks, i: int)
    requires StacksDisjoint(stacks) && i in stacks
    ensures StacksDisjoint(stacks - {i})
    ensures stacks[i].0 in PagesOf(stacks) && stacks[i].1 in PagesOf(stacks)
    ensures PagesOf(stacks - {i}) == PagesOf(stacks) - {stacks[i].0, stacks[i].1}
    ensures |stacks - {i}| == |stacks| - 1
    ensures |PagesOf(stacks)| == |PagesOf(stacks - {i})| + 2
  {
    var rest := stacks - {i};
    assert rest.Keys == stacks.Keys - {i};
    assert stacks[i].0 !in PagesOf(rest) && stacks[i].1 !in PagesOf(rest);
    WithOneMore(rest, i, stacks[i].0, stacks[i].1);
    assert rest[i := stacks[i]] == stacks;
    TwoMore(PagesOf(rest), stacks[i].0, stacks[i].1);
  }

  lemma WithOneMore(stacks: Stacks, i: int, p0: int, p1: int)
    requires StacksDisjoint(stacks) && i !in stacks && p0 != p1 && p0 !in PagesOf(stacks) && p1 !in PagesOf(stacks)
    ensures StacksDisjoint(stacks[i := (p0, p1)])
    ensures PagesOf(stacks[i := (p0, p1)]) == PagesOf(stacks) + {p0, p1}
  {
    var more := stacks[i := (p0, p1)];
    forall j | j in stacks
      ensures stacks[j].0 in PagesOf(stacks) && stacks[j].1 in PagesOf(stacks)
    {
    }
    forall p | p in PagesOf(stacks) + {p0, p1}
      ensures p in PagesOf(more)
    {
      assert more[i].0 == p0 && more[i].1 == p1;
      if p in PagesOf(stacks) {
        var j :| j in stacks && (stacks[j].0 == p || stacks[j].1 == p);
        assert more[j] == stacks[j];
      }
    }
  }

  /** Every usable page has exactly one owner: it is free, a page table, under the heap, a live
      task's stack page, or the top stack page of a task that has exited. */
  datatype Owners = Owners(free: set<int>, tables: set<int>, heap: set<int>, stacks: Stacks, lost: set<int>)

  ghost predicate Partition(usable: set<int>, o: Owners) {
    && usable == o.free + o.tables + o.heap + PagesOf(o.stacks) + o.lost
    && o.free !! o.tables !! o.heap !! PagesOf(o.stacks) !! o.lost
    && StacksDisjoint(o.stacks)
  }

  /** Conservation: the counts add up to USABLE_PAGE. */
  lemma PagesConserved(usable: set<int>, o: Owners)
    requires Partition(usable, o)
    ensures |o.free| + |o.tables| + |o.heap| + 2 * |o.stacks| + |o.lost| == |usable|
  {
    StackPageCount(o.stacks);
    var pages := PagesOf(o.stacks);
    assert |o.free + o.tables| == |o.free| + |o.tables|;
    assert |o.free + o.tables + o.heap| == |o.free| + |o.tables| + |o.heap|;
    assert |o.free + o.tables + o.heap + pages| == |o.free| + |o.tables| + |o.heap| + |pages|;
    assert |o.free + o.tables + o.heap + pages + o.lost| == |o.free| + |o.tables| + |o.heap| + |pages| + |o.lost|;
  }

  /** The heap grew: free pages became tables and heap pages. */
  lemma AfterGrowth(usable: set<int>, o: Owners, tables: set<int>, free: set<int>, added: set<int>)
    requires Partition(usable, o)
    requires o.tables <= tables && tables - o.tables <= o.free && added <= o.free && added !! tables
    requires free == o.free - (tables - o.tables) - added
    ensures Partition(usable, o.(free := free, tables := tables, heap := o.heap + added))
  {
  }

  /** A task was created on two free pages. */
  lemma AfterSpawn(usable: set<int>, o: Owners, slot: int, p0: int, p1: int)
    requires Partition(usable, o) && slot !in o.stacks && p0 in o.free && p1 in o.free && p0 != p1
    ensures Partition(usable, o.(free := o.free - {p0, p1}, stacks := o.stacks[slot := (p0, p1)]))
  {
    hide PagesOf, StacksDisjoint;
    WithOneMore(o.stacks, slot, p0, p1);
  }

  /** A task exited: its base page is free again, its top page is lost. */
  lemma AfterExit(usable: set<int>, o: Owners, slot: int)
    requires Partition(usable, o) && slot in o.stacks
    ensures var (p0, p1) := o.stacks[slot];
      && p0 !in o.free && p1 !in o.lost
      && Partition(usable, o.(free := o.free + {p0}, stacks := o.stacks - {slot}, lost := o.lost + {p1}))
  {
    hide PagesOf, StacksDisjoint;
    WithoutOne(o.stacks, slot);
    StackPagesDiffer(o.stacks, slot);
  }

  lemma StackPagesDiffer(stacks: Stacks, slot: int)
    requires StacksDisjoint(stacks) && slot in stacks
    ensures stacks[slot].0 != stacks[slot].1
  {
  }

  /** A table whose live tasks have whole stack pages inside tracked memory. */
  ghost predicate GoodStacks(tasks: seq<Task>, hhdm: nat, totalPages: nat) {
    forall i :: 1 <= i < |tasks| && tasks[i].Live() ==> GoodStack(tasks[i], hhdm, totalPages)
  }

  ghost predicate GoodStack(t: Task, hhdm: nat, totalPages: nat) {
    && t.stackBase % PAGE_SIZE == 0 && BasePage(t) < totalPages
    && t.stackTop >= hhdm + PAGE_SIZE && (t.stackTop - hhdm) % PAGE_SIZE == 0
  }

  /** Same live tasks with the same stacks. */
  ghost predicate SameStacks(before: seq<Task>, after: seq<Task>) {
    |after| == |before| && forall i :: 0 <= i < |before| ==> SameStack(before[i], after[i])
  }

  ghost predicate SameStack(t: Task, u: Task) {
    u.Live() == t.Live() && u.stackBase == t.stackBase && u.stackTop == t.stackTop
  }

  lemma SameStacksOf(before: seq<Task>, after: seq<Task>, hhdm: nat, totalPages: nat)
    requires SameStacks(before, after)
    ensures StacksOf(after, hhdm) == StacksOf(before, hhdm)
    ensures GoodStacks(before, hhdm, totalPages) ==> GoodStacks(after, hhdm, totalPages)
  {
    assert forall i :: 0 <= i < |before| ==> SameStack(before[i], after[i]);
  }

  lemma ScheduleStacks(s: Table)
    requires Schedulable(s)
    ensures SameStacks(s.tasks, Schedule(s).tasks)
  {
    hide Schedule, Settled;
    ScheduleEffect(s);
  }

  /** `exit` takes exactly the current task's stack out of use. */
  lemma ExitStacks(s: Table, code: int, hhdm: nat, totalPages: nat)
    requires Inv(s) && s.current != 0 && GoodStacks(s.tasks, hhdm, totalPages)
    ensures s.current in StacksOf(s.tasks, hhdm)
    ensures StacksOf(Exit(s, code).tasks, hhdm) == StacksOf(s.tasks, hhdm) - {s.current}
    ensures GoodStacks(Exit(s, code).tasks, hhdm, totalPages)
  {
    hide Schedule, Settled, Terminate, StacksOf, GoodStacks;
    TerminateSchedulable(s, code);
    TerminateStacks(s, code, hhdm, totalPages);
    ScheduleStacks(Terminate(s, code));
    SameStacksOf(Terminate(s, code).tasks, Exit(s, code).tasks, hhdm, totalPages);
  }

  lemma TerminateStacks(s: Table, code: int, hhdm: nat, totalPages: nat)
    requires Inv(s) && s.current != 0 && GoodStacks(s.tasks, hhdm, totalPages)
    ensures s.current in StacksOf(s.tasks, hhdm)
    ensures StacksOf(Terminate(s, code).tasks, hhdm) == StacksOf(s.tasks, hhdm) - {s.current}
    ensures GoodStacks(Terminate(s, code).tasks, hhdm, totalPages)
  {
    hide Settled, PidsDistinct, IdleReady;
    var t := Terminate(s, code);
    assert forall i :: 0 <= i < |s.tasks| && i != s.current ==> SameStack(s.tasks[i], t.tasks[i]);
  }

  lemma CreateStacks(s: Table, p0: nat, p1: nat, hhdm: nat, totalPages: nat)
    requires Inv(s) && FreeSlot(s.tasks, 0).Some? && GoodStacks(s.tasks, hhdm, totalPages) && p0 < totalPages
    ensures var r, slot := Create(s, p0 * PAGE_SIZE, p1 * PAGE_SIZE + PAGE_SIZE + hhdm), FreeSlot(s.tasks, 0).value;
      && slot !in StacksOf(s.tasks, hhdm)
      && StacksOf(r.tasks, hhdm) == StacksOf(s.tasks, hhdm)[slot := (p0, p1)]
      && GoodStacks(r.tasks, hhdm, totalPages)
  {
    hide Settled, FreeSlot;
    var slot := FreeSlot(s.tasks, 0).value;
    assert slot != 0;
    var r := Create(s, p0 * PAGE_SIZE, p1 * PAGE_SIZE + PAGE_SIZE + hhdm);
    assert BasePage(r.tasks[slot]) == p0 && TopPage(r.tasks[slot], hhdm) == p1;
  }

  /** Any step other than `exit` and task creation leaves all stacks as they are. */
  lemma StepStacks(sys: System, e: Event)
    requires Inv(sys.table) && Enabled(sys, e) && !e.Spawned? && !e.Exited?
    ensures SameStacks(sys.table.tasks, Apply(sys, e).table.tasks)
  {
    hide Apply, Schedule, Settled, FindPid;
    StepParts(sys, e);
    EnteredInv(sys, e);
    EnteredStacks(sys, e);
    if Schedules(sys, e) {
      ScheduleStacks(Entered(sys, e));
    }
  }

  lemma EnteredStacks(sys: System, e: Event)
    requires Inv(sys.table) && Enabled(sys, e) && !e.Spawned? && !e.Exited?
    ensures SameStacks(sys.table.tasks, Entered(sys, e).tasks)
  {
    hide Schedule, Settled, FindPid;
  }
}
