/** Time slices, yields, new tasks and the charging of ticks, in the table's own terms. */
module TimeSlices {
  import opened Wrappers
  import opened TaskTables
  import opened TaskSafety
  import opened TaskRuns

  predicate CanRun(t: Task, tick: nat) {
    t.state == Ready || (t.state == Blocked && 0 < t.sleepUntil <= tick)
  }

  /** The first two ticks of a slice leave the running task where it is. */
  lemma EarlyTick(s: Table, tick: nat)
    requires Inv(s) && s.ticksOnCurrent < 2
    ensures Tick(s, tick).current == s.current && Tick(s, tick).ticksOnCurrent == s.ticksOnCurrent + 1
  {
    hide Schedule, Settled;
  }

  /** The third ends it: the nearest task that is Ready, or that this tick wakes, runs, and so another
      one if there is one. */
  lemma ThirdTick(s: Table, tick: nat)
    requires Inv(s) && s.ticksOnCurrent == 2
    ensures var r := Tick(s, tick);
      && r.ticksOnCurrent == 0
      && forall i :: 0 <= i < 32 && CanRun(s.tasks[i], tick) ==>
           r.current != s.current && Distance(s.current, r.current) <= Distance(s.current, i)
  {
    hide Schedule, Settled;
    TickPartsInv(s, tick);
    var c := Charged(s, tick).(ticksOnCurrent := 0);
    ScheduleEffect(c);
    forall i | 0 <= i < 32 && CanRun(s.tasks[i], tick)
      ensures c.tasks[i].state == Ready && Distance(s.current, i) < Distance(s.current, s.current)
    {
    }
  }

  /** A task that neither yields, sleeps, waits nor exits keeps the processor until its third tick. */
  lemma {:induction false} SliceHolds(start: System, events: seq<Event>, k: nat)
    requires IsRun(start, events) && k <= |events| && start.table.Shape()
    requires forall j :: 0 <= j < k ==> events[j].TickArrived? || events[j].Spawned?
    requires start.table.ticksOnCurrent + CountTicks(events, k) < 3
    ensures var s := StateAt(start, events, k).table;
      s.current == start.table.current && s.ticksOnCurrent == start.table.ticksOnCurrent + CountTicks(events, k)
  {
    hide Apply, Inv, Enabled, StateAt, IsRun;
    FirstState(start, events);
    if k > 0 {
      SliceHolds(start, events, k - 1);
      NextState(start, events, k - 1);
      QuietStep(StateAt(start, events, k - 1), events[k - 1]);
    }
  }

  lemma QuietStep(sys: System, e: Event)
    requires Inv(sys.table) && (e.Spawned? || (e.TickArrived? && sys.table.ticksOnCurrent < 2))
    ensures var r := Apply(sys, e).table;
      r.current == sys.table.current && r.ticksOnCurrent == sys.table.ticksOnCurrent + if e.TickArrived? then 1 else 0
  {
    hide Tick, FreeSlot;
    if e.TickArrived? {
      EarlyTick(sys.table, sys.tick + 1);
    }
  }

  /** A task that yields gives way to the nearest Ready task; there always is one, and the one that
      yields stays Ready. */
  lemma YieldGivesWay(s: Table)
    requires Inv(s) && s.current != 0
    ensures var r := Yield(s);
      && r.current != s.current && r.tasks[s.current].state == Ready && s.tasks[r.current].state == Ready
      && (forall i :: 0 <= i < 32 && s.tasks[i].state == Ready ==>
            Distance(s.current, r.current) <= Distance(s.current, i))
      && (forall i :: 0 <= i < 32 && i != s.current && i != r.current ==> r.tasks[i] == s.tasks[i])
  {
    hide Schedule, Settled;
    YieldSchedulable(s);
    ScheduleEffect(s.WithState(s.current, Ready));
    assert s.tasks[0].state == Ready && Distance(s.current, 0) < Distance(s.current, s.current);
  }

  lemma YieldSchedulable(s: Table)
    requires Inv(s)
    ensures Schedulable(s.WithState(s.current, Ready))
  {
    assert Settled(s.tasks, s.Current());
    ReplaceCurrent(s, s.Current().(state := Ready));
  }

  /** A new task takes the first Empty slot and the next pid; nothing else changes. With no Empty slot
      nothing does. */
  lemma CreateEffect(s: Table, base: nat, top: nat, slot: nat)
    requires s.Shape() && slot < 32 && s.tasks[slot].state == Empty
    requires forall i :: 0 <= i < slot ==> s.tasks[i].state != Empty
    ensures var r := Create(s, base, top);
      && r.nextPid == s.nextPid + 1 && r.current == s.current && r.ticksOnCurrent == s.ticksOnCurrent
      && r.tasks == s.tasks[slot := Task(Ready, s.nextPid, base, top, 0, 0, None, 0)]
  {
    hide FreeSlot;
    FreeSlotIsFirst(s.tasks, 0, slot);
  }

  lemma {:induction false} FreeSlotIsFirst(tasks: seq<Task>, from: nat, slot: nat)
    requires from <= slot < |tasks| && tasks[slot].state == Empty
    requires forall i :: from <= i < slot ==> tasks[i].state != Empty
    ensures FreeSlot(tasks, from) == Some(slot)
    decreases slot - from
  {
    if from < slot {
      FreeSlotIsFirst(tasks, from + 1, slot);
    }
  }

  lemma NoSlotNoChange(s: Table, base: nat, top: nat)
    requires s.Shape() && forall i :: 0 <= i < 32 ==> s.tasks[i].state != Empty
    ensures Create(s, base, top) == s
  {
    hide FreeSlot;
  }

  // ----- charging -----

  /** How many of the first `k` events are ticks that come while slot `i` is current. */
  function OwnTicks(start: System, events: seq<Event>, i: nat, k: nat): nat
    requires start.table.Shape() && k <= |events|
  {
    if k == 0 then 0
    else
      OwnTicks(start, events, i, k - 1)
      + if events[k - 1].TickArrived? && StateAt(start, events, k - 1).table.current == i then 1 else 0
  }

  lemma StepCharges(sys: System, e: Event, i: nat)
    requires Inv(sys.table) && Enabled(sys, e) && i < 32 && sys.table.tasks[i].state != Empty
    ensures Apply(sys, e).table.tasks[i].ticksRun ==
      sys.table.tasks[i].ticksRun + if e.TickArrived? && sys.table.current == i then 1 else 0
  {
    hide Apply, Entered, Schedule, Schedules, Settled;
    StepParts(sys, e);
    EnteredCharges(sys, e, i);
    ScheduleKeepsTasks(Entered(sys, e), i);
  }

  lemma EnteredCharges(sys: System, e: Event, i: nat)
    requires Inv(sys.table) && Enabled(sys, e) && i < 32 && sys.table.tasks[i].state != Empty
    ensures Entered(sys, e).tasks[i].ticksRun ==
      sys.table.tasks[i].ticksRun + if e.TickArrived? && sys.table.current == i then 1 else 0
  {
    hide Schedule, Settled, FreeSlot, FindPid;
  }

  /** Every tick is charged to the task it finds running, and to no other: over a run, the count of a
      slot that stays in use grows by exactly the ticks that came while it was current. */
  lemma {:induction false} TicksAreCharged(start: System, events: seq<Event>, i: nat, k: nat)
    requires IsRun(start, events) && start.table.Shape() && k <= |events| && i < 32
    requires forall j :: 0 <= j < k ==> StateAt(start, events, j).table.tasks[i].state != Empty
    ensures StateAt(start, events, k).table.tasks[i].ticksRun ==
      start.table.tasks[i].ticksRun + OwnTicks(start, events, i, k)
  {
    hide Apply, Inv, Enabled, StateAt, IsRun;
    FirstState(start, events);
    if k > 0 {
      TicksAreCharged(start, events, i, k - 1);
      NextState(start, events, k - 1);
      StepCharges(StateAt(start, events, k - 1), events[k - 1], i);
    }
  }
}
