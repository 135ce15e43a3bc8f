/** What every kernel entry point keeps true of the task table. */
module TaskSafety {
  import opened Wrappers
  import opened TaskTables

  /** A Blocked task sleeps, or waits on a task that is still alive; any other task does neither. */
  ghost predicate Settled(tasks: seq<Task>, t: Task) {
    if t.state == Blocked then
      || (t.sleepUntil != 0 && t.waitForPid == None)
      || (t.sleepUntil == 0 && t.waitForPid.Some? && HasLive(tasks, t.waitForPid.value))
    else t.sleepUntil == 0 && t.waitForPid == None
  }

  ghost predicate HasLive(tasks: seq<Task>, pid: nat) {
    exists j :: 0 <= j < |tasks| && tasks[j].Live() && tasks[j].pid == pid
  }

  /** Pids in use are distinct and were all handed out. */
  ghost predicate PidsDistinct(tasks: seq<Task>, nextPid: nat) {
    && (forall i :: 0 <= i < |tasks| && tasks[i].state != Empty ==> tasks[i].pid < nextPid)
    && (forall i, j :: 0 <= i < j < |tasks| && tasks[i].state != Empty && tasks[j].state != Empty ==>
          tasks[i].pid != tasks[j].pid)
  }

  /** The idle task in slot 0 can always run. */
  ghost predicate IdleReady(tasks: seq<Task>) {
    |tasks| > 0 && tasks[0].pid == 0 && (tasks[0].state == Ready || tasks[0].state == Running)
  }

  /** Only the current slot may be Running. */
  ghost predicate OthersNotRunning(tasks: seq<Task>, current: nat) {
    forall i :: 0 <= i < |tasks| && i != current ==> tasks[i].state != Running && tasks[i].state != Created
  }

  /** Everything but the state of the current slot, as it is when `schedule` is entered. */
  ghost predicate Schedulable(s: Table) {
    && s.Shape() && s.ticksOnCurrent < TIME_SLICE_TICKS
    && IdleReady(s.tasks) && OthersNotRunning(s.tasks, s.current) && PidsDistinct(s.tasks, s.nextPid)
    && (forall i :: 0 <= i < |s.tasks| ==> Settled(s.tasks, s.tasks[i]))
    && s.Current().state != Empty && s.Current().state != Created
  }

  /** The invariant between kernel entries. */
  ghost predicate Inv(s: Table) {
    Schedulable(s) && s.Current().state == Running
  }

  lemma InitialInv()
    ensures Inv(INITIAL_TABLE)
  {
  }

  /** What a switch does to one task. */
  function Switched(t: Task, wasCurrent: bool, isCurrent: bool): Task {
    if isCurrent then t.(state := Running)
    else if wasCurrent && t.state == Running then t.(state := Ready)
    else t
  }

  /** `schedule` without the scan: it makes the nearest Ready slot the one Running slot, with the
      outgoing task counting as Ready, and farthest, if it was Running. So its not-found fallback
      is never taken and a Blocked or Terminated task never runs on. */
  lemma ScheduleEffect(s: Table)
    requires Schedulable(s)
    ensures var r := Schedule(s);
      && (forall i :: 0 <= i < MAX_TASKS ==> r.tasks[i] == Switched(s.tasks[i], i == s.current, i == r.current))
      && (s.tasks[r.current].state == Ready || (r.current == s.current && s.Current().state == Running))
      && (forall i :: 0 <= i < MAX_TASKS && s.tasks[i].state == Ready ==>
            Distance(s.current, r.current) <= Distance(s.current, i))
      && r.ticksOnCurrent == (if r.current == s.current then s.ticksOnCurrent else 0)
  {
    var s1 := if s.Current().state == Running then s.WithState(s.current, Ready) else s;
    assert s1.tasks[0].state == Ready;
    var next := NextReady(s1.tasks, s1.current, 1);
    assert Distance(s.current, 0) >= 1;
    assert next.Some?;
    forall i | 0 <= i < MAX_TASKS && s.tasks[i].state == Ready
      ensures Distance(s.current, next.value) <= Distance(s.current, i)
    {
      assert s1.tasks[i].state == Ready;
    }
  }

  /** Tasks that differ in state only, and are as alive as before, keep waiting tasks settled. */
  lemma SettledCarries(before: seq<Task>, after: seq<Task>, t: Task)
    requires Settled(before, t) && |after| == |before|
    requires forall j :: 0 <= j < |before| && before[j].Live() ==> after[j].Live() && after[j].pid == before[j].pid
    ensures Settled(after, t)
  {
    if t.state == Blocked && t.waitForPid.Some? {
      var j :| 0 <= j < |before| && before[j].Live() && before[j].pid == t.waitForPid.value;
      assert after[j].Live();
    }
  }

  /** After `schedule` exactly one slot is Running, and it is CURRENT. */
  lemma ScheduleInv(s: Table)
    requires Schedulable(s)
    ensures Inv(Schedule(s))
  {
    hide Schedule, NextReady, Settled;
    ScheduleEffect(s);
    var r := Schedule(s);
    forall i | 0 <= i < |r.tasks|
      ensures Settled(r.tasks, r.tasks[i])
    {
      SettledCarries(s.tasks, r.tasks, s.tasks[i]);
      SwitchSettled(r.tasks, s.tasks[i], i == s.current, i == r.current);
    }
  }

  lemma SwitchSettled(tasks: seq<Task>, t: Task, wasCurrent: bool, isCurrent: bool)
    requires Settled(tasks, t) && (isCurrent ==> t.state == Ready || t.state == Running)
    ensures Settled(tasks, Switched(t, wasCurrent, isCurrent))
  {
  }

  lemma TickPartsInv(s: Table, tick: nat)
    requires Inv(s)
    ensures Schedulable(Charged(s, tick).(ticksOnCurrent := 0))
    ensures Charged(s, tick).ticksOnCurrent < TIME_SLICE_TICKS ==> Inv(Charged(s, tick))
  {
    hide Settled;
    var s1, s2 := WakeSleepers(s, tick), Charged(s, tick);
    forall i | 0 <= i < |s.tasks|
      ensures Settled(s2.tasks, s2.tasks[i])
    {
      SettledCarries(s.tasks, s2.tasks, s.tasks[i]);
      WakeSettled(s2.tasks, s.tasks[i], tick);
      ChargedSettled(s2.tasks, s1.tasks[i]);
    }
  }

  lemma TickInv(s: Table, tick: nat)
    requires Inv(s)
    ensures Inv(Tick(s, tick))
  {
    hide Schedule, Charged, Settled, IdleReady, PidsDistinct, OthersNotRunning;
    TickPartsInv(s, tick);
    ScheduleInv(Charged(s, tick).(ticksOnCurrent := 0));
  }

  lemma WakeSettled(tasks: seq<Task>, t: Task, tick: nat)
    requires Settled(tasks, t)
    ensures Settled(tasks, Wake(t, tick))
  {
  }

  lemma ChargedSettled(tasks: seq<Task>, t: Task)
    ensures Settled(tasks, t.(ticksRun := t.ticksRun + 1)) == Settled(tasks, t)
  {
  }

  /** Replacing the current slot by a task that is as alive keeps the table schedulable. */
  lemma ReplaceCurrent(s: Table, t: Task)
    requires Inv(s) && t.Live() && t.pid == s.Current().pid && t.state != Created
    requires s.current != 0 || t.state == Ready || t.state == Running
    requires Settled(s.tasks[s.current := t], t)
    ensures Schedulable(s.(tasks := s.tasks[s.current := t]))
  {
    hide Settled;
    var after := s.tasks[s.current := t];
    forall i | 0 <= i < |after|
      ensures Settled(after, after[i])
    {
      SettledCarries(s.tasks, after, s.tasks[i]);
    }
  }

  /** The running task may go back to Ready, or to sleep. */
  lemma RunningSettled(s: Table, t: Task)
    requires Inv(s) && t.waitForPid == s.Current().waitForPid
    requires (t.state == Blocked && t.sleepUntil != 0) || (t.state == Ready && t.sleepUntil == s.Current().sleepUntil)
    ensures Settled(s.tasks[s.current := t], t)
  {
    assert Settled(s.tasks, s.Current());
  }

  lemma YieldInv(s: Table)
    requires Inv(s)
    ensures Inv(Yield(s))
  {
    hide Schedule;
    ReplaceCurrent(s, s.Current().(state := Ready));
    ScheduleInv(s.WithState(s.current, Ready));
  }

  /** `sleep_ms` always asks for a wake-up tick of at least 1. The idle task never sleeps. */
  lemma SleepInv(s: Table, wakeAt: nat)
    requires Inv(s) && s.current != 0 && wakeAt != 0
    ensures Inv(Sleep(s, wakeAt))
  {
    hide Schedule;
    var t := s.Current().(state := Blocked, sleepUntil := wakeAt);
    ReplaceCurrent(s, t);
    ScheduleInv(s.(tasks := s.tasks[s.current := t]));
  }

  /** `exit` wakes everyone who waits on it, so nobody is left waiting on a dead task. */
  lemma TerminateSchedulable(s: Table, code: int)
    requires Inv(s) && s.current != 0
    ensures Schedulable(Terminate(s, code))
    ensures Terminate(s, code).Current().state == Terminated
  {
    hide Settled;
    var pid := s.Current().pid;
    var after := Terminate(s, code).tasks;
    forall i | 0 <= i < |after|
      ensures Settled(after, after[i])
    {
      if i == s.current {
        DeadSettled(s.tasks, after, s.Current(), code);
      } else {
        WaiterSettled(s.tasks, after, s.tasks[i], pid, code);
      }
    }
  }

  lemma DeadSettled(before: seq<Task>, after: seq<Task>, t: Task, code: int)
    requires Settled(before, t) && t.state == Running
    ensures Settled(after, WakeWaiter(t, t.pid, code).(state := Terminated, exitCode := code))
  {
  }

  lemma WaiterSettled(before: seq<Task>, after: seq<Task>, t: Task, pid: nat, code: int)
    requires Settled(before, t) && |after| == |before|
    requires forall j :: 0 <= j < |before| && before[j].Live() && before[j].pid != pid ==>
      after[j].Live() && after[j].pid == before[j].pid
    ensures Settled(after, WakeWaiter(t, pid, code))
  {
    if t.state == Blocked && t.waitForPid.Some? && t.waitForPid.value != pid {
      var j :| 0 <= j < |before| && before[j].Live() && before[j].pid == t.waitForPid.value;
      assert after[j].Live();
    }
  }

  /** `exit` never comes back: another slot is Running after it. */
  lemma ExitInv(s: Table, code: int)
    requires Inv(s) && s.current != 0
    ensures Inv(Exit(s, code)) && Exit(s, code).current != s.current
    ensures Exit(s, code).tasks[s.current].state == Terminated
  {
    hide Schedule, Terminate;
    TerminateSchedulable(s, code);
    ScheduleInv(Terminate(s, code));
    ScheduleEffect(Terminate(s, code));
    TerminateKeepsCurrent(s, code);
  }

  lemma TerminateKeepsCurrent(s: Table, code: int)
    requires s.Shape()
    ensures Terminate(s, code).current == s.current
  {
  }

  lemma WaitInv(s: Table, pid: nat)
    requires Inv(s) && s.current != 0
    ensures Inv(Wait(s, pid))
  {
    hide Schedule, Settled, FindPid;
    match WaitOutcome(s, pid)
    case NoSuchTask =>
    case Reaped(slot, _) =>
      var after := s.WithState(slot, Empty).tasks;
      forall i | 0 <= i < |after|
        ensures Settled(after, after[i])
      {
        SettledCarries(s.tasks, after, s.tasks[i]);
        EmptySettled(s.tasks, after, s.tasks[slot]);
      }
    case MustWait =>
      var t := s.Current().(state := Blocked, waitForPid := Some(pid));
      WaitingSettled(s, pid);
      ReplaceCurrent(s, t);
      ScheduleInv(s.(tasks := s.tasks[s.current := t]));
  }

  lemma EmptySettled(before: seq<Task>, after: seq<Task>, t: Task)
    requires Settled(before, t) && t.state == Terminated
    ensures Settled(after, t.(state := Empty))
  {
  }

  /** A task that goes to wait waits on a task that is alive; that may be itself. */
  lemma WaitingSettled(s: Table, pid: nat)
    requires Inv(s) && WaitOutcome(s, pid).MustWait?
    ensures var t := s.Current().(state := Blocked, waitForPid := Some(pid));
      Settled(s.tasks[s.current := t], t)
  {
    var t := s.Current().(state := Blocked, waitForPid := Some(pid));
    var after := s.tasks[s.current := t];
    var slot := FindPid(s.tasks, pid, 0).value;
    assert after[slot].Live() && after[slot].pid == pid;
  }

  lemma CreateInv(s: Table, stackBase: nat, stackTop: nat)
    requires Inv(s)
    ensures Inv(Create(s, stackBase, stackTop))
  {
    hide Settled;
    var r := Create(s, stackBase, stackTop);
    if r != s {
      var slot := FreeSlot(s.tasks, 0).value;
      forall i | 0 <= i < |r.tasks|
        ensures Settled(r.tasks, r.tasks[i])
      {
        if i == slot {
          FreshSettled(r.tasks, r.tasks[slot]);
        } else {
          SettledCarries(s.tasks, r.tasks, s.tasks[i]);
        }
      }
    }
  }

  lemma FreshSettled(tasks: seq<Task>, t: Task)
    requires t.state == Ready && t.sleepUntil == 0 && t.waitForPid == None
    ensures Settled(tasks, t)
  {
  }
}
