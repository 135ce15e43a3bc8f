/** How soon a task that is woken up runs. */
module Wakeups {
  import opened Wrappers
  import opened TaskTables
  import opened TaskSafety
  import opened TaskRuns
  import opened ExitCodes

  /** The rest of a run, from its state after `k` events. */
  lemma {:induction false} RestOfRun(start: System, events: seq<Event>, k: nat, m: nat)
    requires start.table.Shape() && k + m <= |events|
    ensures StateAt(StateAt(start, events, k), events[k..], m) == StateAt(start, events, k + m)
    decreases m
  {
    hide Apply;
    if m > 0 {
      RestOfRun(start, events, k, m - 1);
      assert events[k..][m - 1] == events[k + (m - 1)];
    }
  }

  lemma RestIsRun(start: System, events: seq<Event>, k: nat)
    requires IsRun(start, events) && k <= |events|
    ensures start.table.Shape() && IsRun(StateAt(start, events, k), events[k..])
  {
    hide Apply, StateAt, Inv;
    FirstState(start, events);
    RunInv(start, events, k);
    forall m | 0 <= m < |events[k..]|
      ensures Enabled(StateAt(StateAt(start, events, k), events[k..], m), events[k..][m])
    {
      RestOfRun(start, events, k, m);
      assert Enabled(StateAt(start, events, k + m), events[k + m]);
    }
  }

  /** While it has not been current for the `m` events after the first `k`, a task that is Ready then
      has seen fewer than 31 calls of `schedule` and fewer than 93 ticks. */
  lemma ReadyRunsInTime(start: System, events: seq<Event>, i: nat, k: nat, m: nat)
    requires IsRun(start, events) && k + m <= |events| && i < MAX_TASKS
    requires start.table.Shape() && StateAt(start, events, k).table.tasks[i].state == Ready
    requires forall j :: k <= j <= k + m ==> StateAt(start, events, j).table.current != i
    ensures CountSchedules(StateAt(start, events, k), events[k..], m) < 31
    ensures CountTicks(events[k..], m) < 93
  {
    hide Apply, StateAt, IsRun, CountTicks, CountSchedules;
    RestIsRun(start, events, k);
    forall j | 0 <= j <= m
      ensures StateAt(StateAt(start, events, k), events[k..], j).table.current != i
    {
      RestOfRun(start, events, k, j);
    }
    BoundedWaiting(StateAt(start, events, k), events[k..], i, m);
  }

  /** The tick a task that calls `sleep_ms(ms)` at tick `t` wakes at. */
  function WakeTime(t: nat, ms: nat): nat { t + if ms / 10 > 1 then ms / 10 else 1 }

  lemma SleepStarts(sys: System, ms: nat)
    requires Inv(sys.table) && sys.table.current != 0
    ensures var r := Apply(sys, Slept(sys.tick, ms));
      r.tick == sys.tick && Asleep(r.table, sys.table.current, WakeTime(sys.tick, ms))
    ensures WakesAt(WakeTime(sys.tick, ms), sys.tick) == WakeTime(sys.tick, ms)
  {
    hide Asleep, Inv, Sleep, WakeTick;
    SleepLength(sys.tick, ms);
    AtomicSleepAsksAhead(sys, ms);
  }

  /** How long a sleep lasts: a task whose event `j` of a run is `sleep_ms(ms)`, with the tick count `t`
      read in the same step, is Blocked as long as fewer than `max(1, ms / 10)` ticks have come since,
      and can run again right after the tick that makes it so many. */
  lemma SleepLasts(start: System, events: seq<Event>, j: nat, ms: nat, m: nat)
    requires IsRun(start, events) && start.table.Shape() && j + 1 + m <= |events|
    requires events[j] == Slept(StateAt(start, events, j).tick, ms)
    ensures var t, i := StateAt(start, events, j).tick, StateAt(start, events, j).table.current;
      var now := StateAt(start, events, j + 1 + m);
      && (now.tick < WakeTime(t, ms) ==> now.table.tasks[i].state == Blocked)
      && (m > 0 && StateAt(start, events, j + m).tick < WakeTime(t, ms) == now.tick ==>
            now.table.tasks[i].state == Ready || now.table.tasks[i].state == Running)
  {
    hide Apply, StateAt, IsRun, Inv, WakesAt;
    var sys := StateAt(start, events, j);
    NextState(start, events, j);
    SleepStarts(sys, ms);
    RestIsRun(start, events, j + 1);
    RestOfRun(start, events, j + 1, m);
    if m > 0 {
      RestOfRun(start, events, j + 1, m - 1);
    }
    SleepIsExact(StateAt(start, events, j + 1), events[j + 1..], sys.table.current, WakeTime(sys.tick, ms), m);
  }

  lemma RunningIsCurrent(s: Table, i: nat)
    requires Inv(s) && i < MAX_TASKS && s.tasks[i].state == Running
    ensures s.current == i
  {
    hide Settled;
  }

  /** A sleeper runs within 93 ticks after the tick that wakes it, event `k - 1`. */
  lemma SleeperRunsInTime(start: System, events: seq<Event>, i: nat, until: nat, k: nat, m: nat)
    requires IsRun(start, events) && 0 < k && k + m <= |events| && i < MAX_TASKS && until > 0
    requires start.table.Shape() && Asleep(start.table, i, until)
    requires StateAt(start, events, k - 1).tick < WakesAt(until, start.tick) == StateAt(start, events, k).tick
    requires forall j :: k <= j <= k + m ==> StateAt(start, events, j).table.current != i
    ensures CountTicks(events[k..], m) < 93
  {
    hide Apply, StateAt, IsRun, Inv, CountTicks;
    SleepIsExact(start, events, i, until, k);
    StateInv(start, events, k);
    if StateAt(start, events, k).table.tasks[i].state == Running {
      RunningIsCurrent(StateAt(start, events, k).table, i);
    }
    ReadyRunsInTime(start, events, i, k, m);
  }

  /** A waiter runs within 31 calls of `schedule`, and within 93 ticks, after event `k`, the exit it
      waits for. */
  lemma WaiterRunsInTime(start: System, events: seq<Event>, i: nat, pid: nat, k: nat, m: nat)
    requires IsRun(start, events) && k + 1 + m <= |events| && i < MAX_TASKS && start.table.Shape()
    requires var t := StateAt(start, events, k).table.tasks[i]; t.state == Blocked && t.waitForPid == Some(pid)
    requires events[k].Exited? && StateAt(start, events, k).table.Current().pid == pid
    requires forall j :: k + 1 <= j <= k + 1 + m ==> StateAt(start, events, j).table.current != i
    ensures CountSchedules(StateAt(start, events, k + 1), events[k + 1..], m) < 31
    ensures CountTicks(events[k + 1..], m) < 93
  {
    hide Apply, StateAt, IsRun, Inv, CountTicks, CountSchedules;
    NextState(start, events, k);
    WaiterWokenByExit(StateAt(start, events, k), events[k], i, pid);
    StateInv(start, events, k + 1);
    if StateAt(start, events, k + 1).table.tasks[i].state == Running {
      RunningIsCurrent(StateAt(start, events, k + 1).table, i);
    }
    ReadyRunsInTime(start, events, i, k + 1, m);
  }
}
