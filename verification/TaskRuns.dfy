/** Runs of the kernel: any interleaving of ticks and task steps, and what holds along them. */
module TaskRuns {
  import opened Wrappers
  import opened TaskTables
  import opened TaskSafety

  /** The table and the timer's tick count. */
  datatype System = System(table: Table, tick: nat)

  /** What can happen next. A sleep carries the tick count it read before interrupts were off. */
  datatype Event =
    | Spawned(stackBase: nat, stackTop: nat)
    | TickArrived
    | Yielded
    | Slept(readAt: nat, ms: nat)
    | Exited(code: int)
    | Waited(pid: nat)

  /** The idle task only halts, so it takes no step of its own but the ticks it is interrupted by. */
  predicate Enabled(sys: System, e: Event) {
    match e
    case Spawned(_, _) => true
    case TickArrived => true
    case Slept(readAt, _) => sys.table.current != 0 && readAt <= sys.tick
    case _ => sys.table.current != 0
  }

  function Apply(sys: System, e: Event): (r: System)
    requires sys.table.Shape()
    ensures r.table.Shape()
    ensures r.tick == if e.TickArrived? then sys.tick + 1 else sys.tick
  {
    match e
    case Spawned(base, top) => System(Create(sys.table, base, top), sys.tick)
    case TickArrived => System(Tick(sys.table, sys.tick + 1), sys.tick + 1)
    case Yielded => System(Yield(sys.table), sys.tick)
    case Slept(readAt, ms) => System(Sleep(sys.table, WakeTick(readAt, ms)), sys.tick)
    case Exited(code) => System(Exit(sys.table, code), sys.tick)
    case Waited(pid) => System(Wait(sys.table, pid), sys.tick)
  }

  /** The state after the first `k` events. */
  function StateAt(start: System, events: seq<Event>, k: nat): (r: System)
    requires start.table.Shape() && k <= |events|
    ensures r.table.Shape()
  {
    if k == 0 then start else Apply(StateAt(start, events, k - 1), events[k - 1])
  }

  /** Every event is one that can happen. */
  ghost predicate IsRun(start: System, events: seq<Event>) {
    Inv(start.table) && forall k :: 0 <= k < |events| ==> Enabled(StateAt(start, events, k), events[k])
  }

  // ----- one step -----

  /** Does this event call `schedule`? */
  function Schedules(sys: System, e: Event): bool
    requires sys.table.Shape()
  {
    match e
    case Spawned(_, _) => false
    case TickArrived => sys.table.ticksOnCurrent + 1 >= TIME_SLICE_TICKS
    case Waited(pid) => WaitOutcome(sys.table, pid).MustWait?
    case _ => true
  }

  /** The table when `schedule` is entered, or at the end of a step that does not call it. */
  function Entered(sys: System, e: Event): (r: Table)
    requires sys.table.Shape()
    ensures r.Shape()
  {
    var s := sys.table;
    match e
    case Spawned(base, top) => Create(s, base, top)
    case TickArrived =>
      var s2 := Charged(s, sys.tick + 1);
      if s2.ticksOnCurrent >= TIME_SLICE_TICKS then s2.(ticksOnCurrent := 0) else s2
    case Yielded => s.WithState(s.current, Ready)
    case Slept(readAt, ms) =>
      s.(tasks := s.tasks[s.current := s.Current().(state := Blocked, sleepUntil := WakeTick(readAt, ms))])
    case Exited(code) => Terminate(s, code)
    case Waited(pid) =>
      if WaitOutcome(s, pid).MustWait?
      then s.(tasks := s.tasks[s.current := s.Current().(state := Blocked, waitForPid := Some(pid))])
      else Wait(s, pid)
  }

  /** A step is its own work and then, perhaps, `schedule`. */
  lemma StepParts(sys: System, e: Event)
    requires sys.table.Shape()
    ensures Apply(sys, e).table == if Schedules(sys, e) then Schedule(Entered(sys, e)) else Entered(sys, e)
  {
    hide Schedule, NextReady, FindPid, FreeSlot;
  }

  lemma EnteredInv(sys: System, e: Event)
    requires Inv(sys.table) && Enabled(sys, e)
    ensures if Schedules(sys, e) then Schedulable(Entered(sys, e)) else Inv(Entered(sys, e))
  {
    hide Schedule, FreeSlot, FindPid, Settled;
    var s := sys.table;
    match e
    case Spawned(base, top) => CreateInv(s, base, top);
    case TickArrived => TickPartsInv(s, sys.tick + 1);
    case Yielded =>
      RunningSettled(s, s.Current().(state := Ready));
      ReplaceCurrent(s, s.Current().(state := Ready));
    case Slept(readAt, ms) =>
      var t := s.Current().(state := Blocked, sleepUntil := WakeTick(readAt, ms));
      RunningSettled(s, t);
      ReplaceCurrent(s, t);
    case Exited(code) => TerminateSchedulable(s, code);
    case Waited(pid) =>
      if WaitOutcome(s, pid).MustWait? {
        WaitingSettled(s, pid);
        ReplaceCurrent(s, s.Current().(state := Blocked, waitForPid := Some(pid)));
      } else {
        WaitInv(s, pid);
      }
  }

  lemma StepInv(sys: System, e: Event)
    requires Inv(sys.table) && Enabled(sys, e)
    ensures Inv(Apply(sys, e).table)
  {
    hide Apply, Schedule, Entered, Schedules, Settled, IdleReady, PidsDistinct, OthersNotRunning;
    StepParts(sys, e);
    EnteredInv(sys, e);
    if Schedules(sys, e) {
      ScheduleInv(Entered(sys, e));
    }
  }

  /** The invariant holds in every reachable state. */
  lemma {:induction false} RunInv(start: System, events: seq<Event>, k: nat)
    requires IsRun(start, events) && k <= |events|
    ensures Inv(StateAt(start, events, k).table)
  {
    hide Apply, Enabled;
    if k > 0 {
      RunInv(start, events, k - 1);
      StepInv(StateAt(start, events, k - 1), events[k - 1]);
    }
  }

  /** One step of a run. */
  lemma NextState(start: System, events: seq<Event>, k: nat)
    requires IsRun(start, events) && k < |events|
    ensures start.table.Shape()
    ensures Inv(StateAt(start, events, k).table) && Enabled(StateAt(start, events, k), events[k])
    ensures StateAt(start, events, k + 1) == Apply(StateAt(start, events, k), events[k])
  {
    hide Apply;
    RunInv(start, events, k);
  }

  lemma FirstState(start: System, events: seq<Event>)
    requires IsRun(start, events)
    ensures Inv(start.table) && start.table.Shape() && StateAt(start, events, 0) == start
  {
  }

  // ----- bounded waiting -----

  function CountTicks(events: seq<Event>, k: nat): nat
    requires k <= |events|
  {
    if k == 0 then 0 else CountTicks(events, k - 1) + if events[k - 1].TickArrived? then 1 else 0
  }

  function CountSchedules(start: System, events: seq<Event>, k: nat): nat
    requires start.table.Shape() && k <= |events|
  {
    if k == 0 then 0
    else CountSchedules(start, events, k - 1) + if Schedules(StateAt(start, events, k - 1), events[k - 1]) then 1 else 0
  }

  /** An upper bound on the ticks until slot `i` runs. */
  function Measure(s: Table, i: nat): int
    requires s.Shape() && i < MAX_TASKS
  {
    3 * Distance(s.current, i) + 2 - s.ticksOnCurrent
  }

  /** A Ready slot stays Ready until it is current; each call of `schedule` brings it nearer, and
      so does each tick, counted by the measure. */
  ghost predicate Nearer(before: Table, after: Table, i: nat, scheduled: bool, ticked: bool)
    requires before.Shape() && after.Shape() && i < MAX_TASKS
  {
    after.current == i || (
      && after.tasks[i].state == Ready
      && Distance(after.current, i) + (if scheduled then 1 else 0) <= Distance(before.current, i)
      && Measure(after, i) + (if ticked then 1 else 0) <= Measure(before, i))
  }

  lemma ScheduleNearer(s: Table, i: nat)
    requires Schedulable(s) && i < MAX_TASKS && i != s.current && s.tasks[i].state == Ready
    ensures var r := Schedule(s);
      r.current == i || (
        && r.tasks[i].state == Ready && r.ticksOnCurrent == 0
        && Distance(r.current, i) < Distance(s.current, i))
  {
    hide Schedule, Settled;
    ScheduleEffect(s);
  }

  lemma EnteredNearer(sys: System, e: Event, i: nat)
    requires Inv(sys.table) && Enabled(sys, e) && i < MAX_TASKS && sys.table.tasks[i].state == Ready
    ensures var s, r := sys.table, Entered(sys, e);
      && i != s.current && r.current == s.current && r.tasks[i].state == Ready
      && (!Schedules(sys, e) ==> r.ticksOnCurrent == s.ticksOnCurrent + if e.TickArrived? then 1 else 0)
  {
    hide Schedule, FreeSlot, FindPid, Settled;
  }

  lemma StepNearer(sys: System, e: Event, i: nat)
    requires Inv(sys.table) && Enabled(sys, e) && i < MAX_TASKS && sys.table.tasks[i].state == Ready
    ensures Nearer(sys.table, Apply(sys, e).table, i, Schedules(sys, e), e.TickArrived?)
  {
    hide Apply, Schedule, Entered, Schedules, Settled;
    StepParts(sys, e);
    EnteredInv(sys, e);
    EnteredNearer(sys, e, i);
    if Schedules(sys, e) {
      ScheduleNearer(Entered(sys, e), i);
    }
  }

  /** Each step of a run brings a Ready slot nearer, until it runs. */
  lemma {:induction false} GettingNearer(start: System, events: seq<Event>, i: nat, k: nat)
    requires IsRun(start, events) && k <= |events| && i < MAX_TASKS && start.table.tasks[i].state == Ready
    requires forall j :: 0 <= j <= k ==> StateAt(start, events, j).table.current != i
    ensures var s := StateAt(start, events, k).table;
      && s.tasks[i].state == Ready
      && CountSchedules(start, events, k) + Distance(s.current, i) <= Distance(start.table.current, i)
      && CountTicks(events, k) + Measure(s, i) <= Measure(start.table, i)
  {
    hide IsRun, StateAt, Inv, Enabled, Apply, Schedules, Measure, Distance;
    FirstState(start, events);
    if k > 0 {
      NextState(start, events, k - 1);
      GettingNearer(start, events, i, k - 1);
      StepNearer(StateAt(start, events, k - 1), events[k - 1], i);
    }
  }

  /** Bounded waiting: a Ready slot at distance `d` that has not run yet has seen fewer than `d`
      calls of `schedule` and fewer than `3 * d`, so fewer than 93, ticks, whatever else happened. */
  lemma BoundedWaiting(start: System, events: seq<Event>, i: nat, k: nat)
    requires IsRun(start, events) && k <= |events| && i < MAX_TASKS && start.table.tasks[i].state == Ready
    requires forall j :: 0 <= j <= k ==> StateAt(start, events, j).table.current != i
    ensures var d := Distance(start.table.current, i);
      d <= 31 && CountSchedules(start, events, k) < d && CountTicks(events, k) < 3 * d <= 93
  {
    hide IsRun, StateAt, Settled;
    FirstState(start, events);
    GettingNearer(start, events, i, k);
    StateInv(start, events, k);
  }

  lemma StateInv(start: System, events: seq<Event>, k: nat)
    requires IsRun(start, events) && k <= |events|
    ensures start.table.Shape() && Inv(StateAt(start, events, k).table)
  {
    RunInv(start, events, k);
  }

  // ----- sleeping -----

  ghost predicate Asleep(s: Table, i: nat, until: nat)
    requires s.Shape() && i < MAX_TASKS
  {
    s.tasks[i].state == Blocked && s.tasks[i].sleepUntil == until
  }

  ghost predicate Awake(s: Table, i: nat)
    requires s.Shape() && i < MAX_TASKS
  {
    (s.tasks[i].state == Ready || s.tasks[i].state == Running) && s.tasks[i].sleepUntil == 0
  }

  lemma ScheduleKeepsSleeper(s: Table, i: nat, until: nat)
    requires Schedulable(s) && i < MAX_TASKS
    ensures Asleep(s, i, until) ==> Asleep(Schedule(s), i, until)
    ensures Awake(s, i) ==> Awake(Schedule(s), i)
  {
    hide Schedule, Settled;
    ScheduleEffect(s);
  }

  lemma EnteredSleeper(sys: System, e: Event, i: nat, until: nat)
    requires Inv(sys.table) && Enabled(sys, e) && i < MAX_TASKS && until > 0 && Asleep(sys.table, i, until)
    ensures if e.TickArrived? && until <= sys.tick + 1 then Awake(Entered(sys, e), i)
            else Asleep(Entered(sys, e), i, until)
  {
    hide Schedule, FreeSlot, FindPid;
    assert Settled(sys.table.tasks, sys.table.tasks[i]);
  }

  /** Only the tick that reaches its wake-up time wakes a sleeper, and that tick does. */
  lemma StepSleeper(sys: System, e: Event, i: nat, until: nat)
    requires Inv(sys.table) && Enabled(sys, e) && i < MAX_TASKS && until > 0 && Asleep(sys.table, i, until)
    ensures var r := Apply(sys, e);
      if e.TickArrived? && until <= r.tick then Awake(r.table, i) else Asleep(r.table, i, until)
  {
    hide Apply, Schedule, Entered, Schedules, Settled, Asleep, Awake;
    StepParts(sys, e);
    EnteredInv(sys, e);
    EnteredSleeper(sys, e, i, until);
    if Schedules(sys, e) {
      ScheduleKeepsSleeper(Entered(sys, e), i, until);
    }
  }

  /** The tick a sleeper wakes at: the one asked for, or the next one if that is already past. */
  function WakesAt(asked: nat, now: nat): nat { if asked > now then asked else now + 1 }

  lemma {:induction false} StillAsleep(start: System, events: seq<Event>, i: nat, until: nat, k: nat)
    requires IsRun(start, events) && k <= |events| && i < MAX_TASKS && until > 0 && Asleep(start.table, i, until)
    requires StateAt(start, events, k).tick < WakesAt(until, start.tick)
    ensures start.tick <= StateAt(start, events, k).tick && Asleep(StateAt(start, events, k).table, i, until)
  {
    hide IsRun, StateAt, Inv, Enabled, Apply, Asleep, Awake;
    FirstState(start, events);
    if k > 0 {
      NextState(start, events, k - 1);
      StillAsleep(start, events, i, until, k - 1);
      StepSleeper(StateAt(start, events, k - 1), events[k - 1], i, until);
    }
  }

  /** Sleep is exact: asleep before its tick, awake right after it. */
  lemma SleepIsExact(start: System, events: seq<Event>, i: nat, until: nat, k: nat)
    requires IsRun(start, events) && k <= |events| && i < MAX_TASKS && until > 0 && Asleep(start.table, i, until)
    ensures StateAt(start, events, k).tick < WakesAt(until, start.tick) ==>
      Asleep(StateAt(start, events, k).table, i, until)
    ensures (k > 0
             && StateAt(start, events, k - 1).tick < WakesAt(until, start.tick) == StateAt(start, events, k).tick) ==>
      Awake(StateAt(start, events, k).table, i)
  {
    hide IsRun, StateAt, Inv, Enabled, Apply, Asleep, Awake;
    FirstState(start, events);
    if StateAt(start, events, k).tick < WakesAt(until, start.tick) {
      StillAsleep(start, events, i, until, k);
    }
    if k > 0 && StateAt(start, events, k - 1).tick < WakesAt(until, start.tick) {
      NextState(start, events, k - 1);
      StillAsleep(start, events, i, until, k - 1);
      StepSleeper(StateAt(start, events, k - 1), events[k - 1], i, until);
    }
  }

  /** A sleep whose tick count was read in the same step puts the task to sleep until a future tick,
      so it wakes at exactly the tick it asked for. */
  lemma AtomicSleepAsksAhead(sys: System, ms: nat)
    requires Inv(sys.table) && sys.table.current != 0
    ensures var until := WakeTick(sys.tick, ms);
      Asleep(Apply(sys, Slept(sys.tick, ms)).table, sys.table.current, until) && WakesAt(until, sys.tick) == until
  {
    hide Schedule, Settled;
    EnteredInv(sys, Slept(sys.tick, ms));
    ScheduleKeepsSleeper(Entered(sys, Slept(sys.tick, ms)), sys.table.current, WakeTick(sys.tick, ms));
  }

  /** Right after a tick nobody sleeps past its time. */
  lemma NobodyOversleeps(s: Table, tick: nat, i: nat)
    requires Inv(s) && i < MAX_TASKS
    ensures Tick(s, tick).tasks[i].state == Blocked ==>
      Tick(s, tick).tasks[i].sleepUntil == 0 || Tick(s, tick).tasks[i].sleepUntil > tick
  {
    hide Schedule, Settled;
    TickPartsInv(s, tick);
    ScheduleEffect(Charged(s, tick).(ticksOnCurrent := 0));
  }
}
