/** Every step of the task table is a step that the models of the machine code allow. */
module Simulation {
  import opened Wrappers
  import opened TaskTables
  import opened TaskSafety
  import opened TaskRuns
  import opened Scheduler
  import opened Ownership
  import opened Kernel
  import Code = ContextRuns
  import Words = ContextSwitch
  import Irq = Interrupts

  /** Same current task, and a stack for each live one. */
  ghost predicate Mirrors(s: Table, c: Code.System)
    requires s.Shape()
  {
    && Code.Inv(c) && |c.stacks| == MAX_TASKS && c.current == s.current
    && forall i :: 0 <= i < MAX_TASKS ==> (c.stacks[i].Stack? <==> s.tasks[i].Live())
  }

  /** The running task has room for the words of a switch. */
  ghost predicate RoomToSwitch(c: Code.System)
    requires Code.Inv(c)
  {
    c.stacks[c.current].base + Words.SWITCH_WORDS <= c.cpu.rsp
  }

  /** The words below `top` are in no stack. */
  ghost predicate RoomForStack(c: Code.System, top: nat) {
    && Words.STACK_PAGE_WORDS <= top <= |c.mem|
    && forall j :: 0 <= j < |c.stacks| ==>
      Code.Apart(Code.Stack.Stack(top - Words.STACK_PAGE_WORDS, top, []), c.stacks[j])
  }

  /** What an event of the task table makes the machine code do, if anything. */
  ghost function StepOf(sys: System, e: Event, top: nat, entry: int): Option<Code.Step>
    requires sys.table.Shape()
  {
    var next := Apply(sys, e).table.current;
    if e.Spawned? then
      match FreeSlot(sys.table.tasks, 0)
      case None => None
      case Some(slot) => Some(Code.Spawn(slot, top, entry))
    else if next == sys.table.current then None
    else if e.Exited? then Some(Code.Die(next))
    else Some(Code.Switch(next))
  }

  /** Which tasks are alive after an event. */
  ghost predicate LiveAfter(sys: System, e: Event, i: nat)
    requires sys.table.Shape() && i < MAX_TASKS
  {
    || (e.Spawned? && FreeSlot(sys.table.tasks, 0) == Some(i))
    || (sys.table.tasks[i].Live() && !(e.Exited? && i == sys.table.current))
  }

  lemma ScheduleKeepsLive(s: Table, i: nat)
    requires Schedulable(s) && i < MAX_TASKS
    ensures Schedule(s).tasks[i].Live() == s.tasks[i].Live()
  {
    hide Schedule, Settled;
    ScheduleEffect(s);
  }

  lemma EnteredLive(sys: System, e: Event, i: nat)
    requires Inv(sys.table) && Enabled(sys, e) && i < MAX_TASKS
    ensures Entered(sys, e).tasks[i].Live() <==> LiveAfter(sys, e, i)
  {
    hide Schedule, FindPid, Settled, PidsDistinct;
    if e.Exited? {
      assert WakeWaiter(sys.table.tasks[i], sys.table.Current().pid, e.code).Live() == sys.table.tasks[i].Live();
    }
  }

  lemma EventLive(sys: System, e: Event, i: nat)
    requires Inv(sys.table) && Enabled(sys, e) && i < MAX_TASKS
    ensures Apply(sys, e).table.tasks[i].Live() <==> LiveAfter(sys, e, i)
  {
    hide Apply, Schedule, Entered, Schedules, LiveAfter;
    StepParts(sys, e);
    EnteredInv(sys, e);
    EnteredLive(sys, e, i);
    if Schedules(sys, e) {
      ScheduleKeepsLive(Entered(sys, e), i);
    }
  }

  /** An event picks a task to run that is alive, and an exit picks another one. */
  lemma EventCurrent(sys: System, e: Event)
    requires Inv(sys.table) && Enabled(sys, e)
    ensures var s, r := sys.table, Apply(sys, e).table;
      && r.tasks[r.current].Live() && s.tasks[s.current].Live() && r.current < MAX_TASKS
      && (e.Exited? ==> r.current != s.current) && (e.Spawned? ==> r.current == s.current)
  {
    hide Schedule, Settled, FindPid;
    StepInv(sys, e);
    if e.Exited? {
      ExitInv(sys.table, e.code);
    }
  }

  /** The machine code can take the step of every event, and then mirrors the new table. */
  lemma Simulates(sys: System, e: Event, c: Code.System, top: nat, entry: int)
    requires sys.table.Shape() && Inv(sys.table) && Enabled(sys, e) && Mirrors(sys.table, c)
    requires if e.Spawned? then RoomForStack(c, top) else RoomToSwitch(c)
    ensures match StepOf(sys, e, top, entry)
      case None => Mirrors(Apply(sys, e).table, c)
      case Some(step) => Code.Enabled(c, step) && Mirrors(Apply(sys, e).table, Code.Apply(c, step))
  {
    hide Inv, Enabled, Apply, FreeSlot, Code.Inv, Code.StackOk, Words.Poke, Words.Switched;
    EventCurrent(sys, e);
    forall i | 0 <= i < MAX_TASKS
      ensures Apply(sys, e).table.tasks[i].Live() <==> LiveAfter(sys, e, i)
    {
      EventLive(sys, e, i);
    }
    InvShape(c);
    FreeIsDead(sys.table);
    var step := StepOf(sys, e, top, entry);
    if step.Some? {
      Code.StepInv(c, step.value);
    }
  }

  /** At the start only the idle task is alive, on a stack of its own. */
  lemma StartMirrors(c: Code.System)
    requires |c.stacks| == |c.rsps| == MAX_TASKS && c.current == 0
    requires var st := c.stacks[0];
      st.Stack? && st.traps == [] && st.base <= c.cpu.rsp <= st.top <= |c.mem|
    requires forall i :: 0 < i < MAX_TASKS ==> c.stacks[i].NoStack?
    ensures Mirrors(INITIAL_TABLE, c)
  {
    assert Code.StackOk(c, 0);
  }

  lemma InvShape(c: Code.System)
    requires Code.Inv(c)
    ensures c.Live(c.current) && |c.rsps| == |c.stacks|
  {
  }

  lemma FreeIsDead(s: Table)
    requires s.Shape()
    ensures var f := FreeSlot(s.tasks, 0); f.Some? ==> f.value < MAX_TASKS && !s.tasks[f.value].Live()
  {
  }

  // ----- where the stacks lie -----

  /** The stacks lie on the pages that `Machine` says; the idle task's on those of `boot`. */
  ghost predicate Places(stacks: Stacks, boot: set<nat>, c: Code.System) {
    && (forall i :: 0 < i < |c.stacks| && c.stacks[i].Stack? ==>
          i in stacks && stacks[i].1 >= 0 && SameWords(c.stacks[i], StackWords(stacks[i].1)))
    && (|c.stacks| > 0 && c.stacks[0].Stack? ==>
          && c.stacks[0].base < c.stacks[0].top
          && forall w :: c.stacks[0].base <= w < c.stacks[0].top ==> w / Words.STACK_PAGE_WORDS in boot)
  }

  predicate SameWords(a: Code.Stack, b: Code.Stack) {
    a.Stack? && b.Stack? && a.base == b.base && a.top == b.top
  }

  /** The pages that the next task would get as its stack hold no word of any stack in use: the room
      that `Simulates` asks for on a creation is always there. */
  lemma SpawnHasRoom(m: Machine, c: Code.System, p0: nat, p1: nat)
    requires m.Valid() && Places(m.Stacks(), m.bootStack, c) && TwoLowest(m.pmm.free, p0, p1)
    requires StackWords(p1).top <= |c.mem|
    ensures RoomForStack(c, StackWords(p1).top)
  {
    hide Machine.Valid, TwoLowest, Code.Apart;
    forall j | 0 <= j < |c.stacks|
      ensures Code.Apart(StackWords(p1), c.stacks[j])
    {
      if c.stacks[j].NoStack? {
        NoStackApart(StackWords(p1), c.stacks[j]);
      } else if j > 0 {
        m.NewStackApart(p0, p1, j);
        SameWordsApart(StackWords(p1), StackWords(m.Stacks()[j].1), c.stacks[j]);
      } else {
        FreshPage(m, p0, p1);
        ApartFromPages(c.stacks[0], p1, m.bootStack);
      }
    }
  }

  lemma NoStackApart(a: Code.Stack, b: Code.Stack)
    requires b.NoStack?
    ensures Code.Apart(a, b)
  {
  }

  lemma SameWordsApart(a: Code.Stack, b: Code.Stack, d: Code.Stack)
    requires Code.Apart(a, b) && SameWords(d, b)
    ensures Code.Apart(a, d)
  {
  }

  lemma FreshPage(m: Machine, p0: nat, p1: nat)
    requires m.Valid() && TwoLowest(m.pmm.free, p0, p1)
    ensures p1 !in m.bootStack
  {
    hide m.heap.Valid, Machine.Tasks, Machine.Window, StacksOf, PagesOf;
  }

  lemma ApartFromPages(st: Code.Stack, page: nat, boot: set<nat>)
    requires st.Stack? && st.base < st.top && page !in boot
    requires forall w :: st.base <= w < st.top ==> w / Words.STACK_PAGE_WORDS in boot
    ensures Code.Apart(StackWords(page), st)
  {
    var lo := page * Words.STACK_PAGE_WORDS;
    var w := if st.base < lo then lo else st.base;
    assert lo <= w < lo + Words.STACK_PAGE_WORDS ==> w / Words.STACK_PAGE_WORDS == page;
  }

  /** The pages of the stacks after an event, as the methods of `Machine` leave them. */
  function StacksAfter(stacks: Stacks, sys: System, e: Event, p0: int, p1: int): Stacks
    requires sys.table.Shape()
  {
    if e.Exited? then stacks - {sys.table.current}
    else if e.Spawned? && FreeSlot(sys.table.tasks, 0).Some? then stacks[FreeSlot(sys.table.tasks, 0).value := (p0, p1)]
    else stacks
  }

  /** The step that `Simulates` gives keeps the stacks on their pages. */
  lemma PlacesKept(stacks: Stacks, boot: set<nat>, sys: System, e: Event, c: Code.System, p0: nat, p1: nat, entry: int)
    requires sys.table.Shape() && Inv(sys.table) && Enabled(sys, e) && Mirrors(sys.table, c)
    requires if e.Spawned? then RoomForStack(c, StackWords(p1).top) else RoomToSwitch(c)
    requires Places(stacks, boot, c)
    ensures match StepOf(sys, e, StackWords(p1).top, entry)
      case None => Places(StacksAfter(stacks, sys, e, p0, p1), boot, c)
      case Some(step) =>
        Code.Enabled(c, step) && Places(StacksAfter(stacks, sys, e, p0, p1), boot, Code.Apply(c, step))
  {
    hide Inv, Enabled, Apply, FreeSlot, Code.Inv, Code.StackOk, Code.Apart, Words.Poke, Words.Switched;
    Simulates(sys, e, c, StackWords(p1).top, entry);
    EventCurrent(sys, e);
    IdleLives(sys.table);
    FreeIsDead(sys.table);
  }

  lemma IdleLives(s: Table)
    requires Inv(s)
    ensures s.tasks[0].Live()
  {
  }

  // ----- the scan and the lock -----

  /** Same current task, and the tasks that are gone are those that are not alive. */
  ghost predicate Agrees(s: Table, t: Irq.State)
    requires s.Shape()
  {
    && Irq.Inv(t) && |t.tasks| == MAX_TASKS && t.running == s.current
    && forall i :: 0 <= i < MAX_TASKS && i != t.running ==> (Irq.IsGone(t.tasks[i]) <==> !s.tasks[i].Live())
  }

  lemma StartAgrees()
    ensures var tasks := seq(MAX_TASKS, i => if i == 0 then [Irq.Own] else [Irq.Gone]);
      Agrees(INITIAL_TABLE, Irq.State(true, false, 0, 0, tasks))
  {
    Irq.BootInv(MAX_TASKS);
  }

  /** The task that `schedule` picks is one that the instruction model lets it choose: never a dead one,
      nor the one that is exiting. */
  lemma PickIsEnabled(s: Table, t: Irq.State)
    requires s.Shape() && Schedulable(s) && Agrees(s, t) && t.Top().Holding?
    requires t.Top().why.FromExit? ==> s.Current().state == Terminated
    ensures Irq.Enabled(t, Irq.Choose(Schedule(s).current))
  {
    hide Schedule, Settled, Irq.Running, Irq.OthersWait, Irq.CurrentOk;
    ScheduleEffect(s);
    var next := Schedule(s).current;
    assert next < MAX_TASKS;
    HolderIsNotGone(t);
  }

  lemma HolderIsNotGone(t: Irq.State)
    requires t.Shape() && t.Top().Holding?
    ensures !Irq.IsGone(t.tasks[t.running])
  {
  }
}
