/** Exit codes: which `wait_for` gets which code, over whole runs. */
module ExitCodes {
  import opened Wrappers
  import opened TaskTables
  import opened TaskSafety
  import opened TaskRuns

  /** The codes given to `exit` so far, by pid, and the pids whose code was collected. */
  datatype History = History(exits: map<int, int>, reaped: set<int>)

  const NO_HISTORY: History := History(map[], {})

  function Record(h: History, sys: System, e: Event): History
    requires sys.table.Shape()
  {
    match e
    case Exited(code) => h.(exits := h.exits[sys.table.Current().pid := code])
    case Waited(pid) => if WaitOutcome(sys.table, pid).Reaped? then h.(reaped := h.reaped + {pid}) else h
    case _ => h
  }

  function HistoryAt(start: System, events: seq<Event>, k: nat): History
    requires start.table.Shape() && k <= |events|
  {
    if k == 0 then NO_HISTORY
    else Record(HistoryAt(start, events, k - 1), StateAt(start, events, k - 1), events[k - 1])
  }

  /** The table holds exactly the codes that were given and not yet collected. */
  ghost predicate Agrees(s: Table, h: History) {
    && (forall i :: 0 <= i < |s.tasks| && s.tasks[i].Live() ==> s.tasks[i].pid !in h.exits)
    && (forall i :: 0 <= i < |s.tasks| && s.tasks[i].state == Terminated ==> Holds(s.tasks[i], h))
    && (forall p :: p in h.exits && p !in h.reaped ==> IsDead(s.tasks, p))
    && (forall p :: p in h.reaped ==> p in h.exits)
    && (forall p :: p in h.exits ==> 0 <= p < s.nextPid)
  }

  ghost predicate Holds(t: Task, h: History) {
    t.pid in h.exits && h.exits[t.pid] == t.exitCode && t.pid !in h.reaped
  }

  ghost predicate IsDead(tasks: seq<Task>, pid: int) {
    exists i :: 0 <= i < |tasks| && tasks[i].state == Terminated && tasks[i].pid == pid
  }

  /** Nothing died, was born or was collected between the two tables. */
  ghost predicate SameFates(before: seq<Task>, after: seq<Task>) {
    && |after| == |before|
    && (forall i :: 0 <= i < |before| ==> SameFate(before[i], after[i]))
  }

  ghost predicate SameFate(t: Task, u: Task) {
    && u.Live() == t.Live() && (u.state == Terminated) == (t.state == Terminated)
    && (t.state != Empty ==> u.pid == t.pid) && (t.state == Terminated ==> u.exitCode == t.exitCode)
  }

  lemma SameFatesAgree(s: Table, r: Table, h: History)
    requires Agrees(s, h) && SameFates(s.tasks, r.tasks) && r.nextPid == s.nextPid
    ensures Agrees(r, h)
  {
    forall p | p in h.exits && p !in h.reaped
      ensures IsDead(r.tasks, p)
    {
      var i :| 0 <= i < |s.tasks| && s.tasks[i].state == Terminated && s.tasks[i].pid == p;
      assert SameFate(s.tasks[i], r.tasks[i]);
    }
    forall i | 0 <= i < |r.tasks|
      ensures r.tasks[i].Live() ==> r.tasks[i].pid !in h.exits
      ensures r.tasks[i].state == Terminated ==> Holds(r.tasks[i], h)
    {
      assert SameFate(s.tasks[i], r.tasks[i]);
    }
  }

  lemma ScheduleFates(s: Table)
    requires Schedulable(s)
    ensures SameFates(s.tasks, Schedule(s).tasks)
  {
    hide Schedule, Settled;
    ScheduleEffect(s);
  }

  lemma CreateAgrees(s: Table, base: nat, top: nat, h: History)
    requires Inv(s) && Agrees(s, h)
    ensures Agrees(Create(s, base, top), h)
  {
    hide Settled;
    var r := Create(s, base, top);
    if r != s {
      var slot := FreeSlot(s.tasks, 0).value;
      forall p | p in h.exits && p !in h.reaped
        ensures IsDead(r.tasks, p)
      {
        var i :| 0 <= i < |s.tasks| && s.tasks[i].state == Terminated && s.tasks[i].pid == p;
        assert r.tasks[i] == s.tasks[i];
      }
    }
  }

  lemma ExitAgrees(s: Table, code: int, h: History)
    requires Inv(s) && Agrees(s, h) && s.current != 0
    ensures Agrees(Terminate(s, code), h.(exits := h.exits[s.Current().pid := code]))
  {
    hide Settled;
    var r := Terminate(s, code);
    var pid := s.Current().pid;
    assert forall i :: 0 <= i < |s.tasks| && i != s.current ==> SameFate(s.tasks[i], r.tasks[i]);
    forall p | p in h.exits && p !in h.reaped
      ensures IsDead(r.tasks, p)
    {
      var i :| 0 <= i < |s.tasks| && s.tasks[i].state == Terminated && s.tasks[i].pid == p;
      assert SameFate(s.tasks[i], r.tasks[i]);
    }
    assert r.tasks[s.current].state == Terminated && r.tasks[s.current].pid == pid;
  }

  lemma ReapAgrees(s: Table, pid: nat, h: History)
    requires Inv(s) && Agrees(s, h) && WaitOutcome(s, pid).Reaped?
    ensures Agrees(Wait(s, pid), h.(reaped := h.reaped + {pid}))
  {
    hide Settled, FindPid;
    var r := Wait(s, pid);
    forall p | p in h.exits && p !in h.reaped + {pid}
      ensures IsDead(r.tasks, p)
    {
      var i :| 0 <= i < |s.tasks| && s.tasks[i].state == Terminated && s.tasks[i].pid == p;
      assert r.tasks[i] == s.tasks[i];
    }
  }

  /** The work of a step before `schedule`, as far as it changes no fate. */
  lemma EnteredFates(sys: System, e: Event)
    requires Inv(sys.table) && Enabled(sys, e)
    requires e.TickArrived? || e.Yielded? || e.Slept? || (e.Waited? && !WaitOutcome(sys.table, e.pid).Reaped?)
    ensures SameFates(sys.table.tasks, Entered(sys, e).tasks) && Entered(sys, e).nextPid == sys.table.nextPid
  {
    hide Schedule, Settled, FindPid;
  }

  lemma StepAgrees(sys: System, e: Event, h: History)
    requires Inv(sys.table) && Enabled(sys, e) && Agrees(sys.table, h)
    ensures Agrees(Apply(sys, e).table, Record(h, sys, e))
  {
    hide Apply, Schedule, Schedules, Settled, SameFates, Agrees, FindPid, Terminate, Charged, FreeSlot;
    StepParts(sys, e);
    EnteredInv(sys, e);
    match e {
      case Spawned(base, top) => CreateAgrees(sys.table, base, top, h);
      case Exited(code) => ExitAgrees(sys.table, code, h);
      case Waited(pid) =>
        if WaitOutcome(sys.table, pid).Reaped? {
          ReapAgrees(sys.table, pid, h);
        } else {
          EnteredFates(sys, e);
          SameFatesAgree(sys.table, Entered(sys, e), h);
        }
      case _ =>
        EnteredFates(sys, e);
        SameFatesAgree(sys.table, Entered(sys, e), h);
    }
    if Schedules(sys, e) {
      ScheduleFates(Entered(sys, e));
      SameFatesAgree(Entered(sys, e), Apply(sys, e).table, Record(h, sys, e));
    }
  }

  lemma NextHistory(start: System, events: seq<Event>, k: nat)
    requires start.table.Shape() && k < |events|
    ensures HistoryAt(start, events, k + 1) == Record(HistoryAt(start, events, k), StateAt(start, events, k), events[k])
  {
  }

  /** In every state reached from the start of the kernel, the table and the history agree. */
  lemma {:induction false} HistoryAgrees(events: seq<Event>, k: nat)
    requires IsRun(System(INITIAL_TABLE, 0), events) && k <= |events|
    ensures Agrees(StateAt(System(INITIAL_TABLE, 0), events, k).table, HistoryAt(System(INITIAL_TABLE, 0), events, k))
  {
    hide IsRun, Apply, Record, Inv;
    var start := System(INITIAL_TABLE, 0);
    FirstState(start, events);
    if k > 0 {
      HistoryAgrees(events, k - 1);
      NextState(start, events, k - 1);
      StepAgrees(StateAt(start, events, k - 1), events[k - 1], HistoryAt(start, events, k - 1));
    }
  }

  /** Event `i` is the `exit` of the task with this pid. */
  predicate ExitsAt(start: System, events: seq<Event>, i: nat, pid: int)
    requires start.table.Shape() && i < |events|
  {
    events[i].Exited? && StateAt(start, events, i).table.Current().pid == pid
  }

  /** Event `i` is a `wait_for` on this pid that collects an exit code. */
  predicate ReapsAt(start: System, events: seq<Event>, i: nat, pid: int)
    requires start.table.Shape() && i < |events|
  {
    events[i].Waited? && events[i].pid == pid && WaitOutcome(StateAt(start, events, i).table, pid).Reaped?
  }

  /** The code on record is the one given by an earlier `exit`, and every earlier `exit` of the
      pid is on record: a task exits only once. */
  lemma {:induction false} RecordedExits(events: seq<Event>, k: nat, pid: int)
    requires IsRun(System(INITIAL_TABLE, 0), events) && k <= |events|
    ensures var start := System(INITIAL_TABLE, 0);
      var exits := HistoryAt(start, events, k).exits;
      && (pid in exits ==> exists i :: 0 <= i < k && ExitsAt(start, events, i, pid) && events[i].code == exits[pid])
      && (forall i :: 0 <= i < k && ExitsAt(start, events, i, pid) ==> pid in exits && events[i].code == exits[pid])
  {
    hide IsRun, StateAt, Inv, Agrees, Enabled, Apply;
    var start := System(INITIAL_TABLE, 0);
    FirstState(start, events);
    if k > 0 {
      RecordedExits(events, k - 1, pid);
      NextState(start, events, k - 1);
      NextHistory(start, events, k - 1);
      HistoryAgrees(events, k - 1);
      CurrentNotExited(StateAt(start, events, k - 1).table, HistoryAt(start, events, k - 1));
      var before, after := HistoryAt(start, events, k - 1).exits, HistoryAt(start, events, k).exits;
      if ExitsAt(start, events, k - 1, pid) {
        assert pid !in before && after[pid] == events[k - 1].code;
      } else {
        assert (pid in after <==> pid in before) && (pid in after ==> after[pid] == before[pid]);
      }
    }
  }

  lemma CurrentNotExited(s: Table, h: History)
    requires Inv(s) && Agrees(s, h)
    ensures s.Shape() && s.Current().pid !in h.exits
  {
    hide Settled;
    assert s.Current().Live();
  }

  lemma {:induction false} RecordedReaps(events: seq<Event>, k: nat, pid: int)
    requires IsRun(System(INITIAL_TABLE, 0), events) && k <= |events|
    ensures var start := System(INITIAL_TABLE, 0);
      pid in HistoryAt(start, events, k).reaped <==> exists i :: 0 <= i < k && ReapsAt(start, events, i, pid)
  {
    hide IsRun, StateAt, Inv;
    var start := System(INITIAL_TABLE, 0);
    FirstState(start, events);
    if k > 0 {
      RecordedReaps(events, k - 1, pid);
      NextHistory(start, events, k - 1);
      var before, after := HistoryAt(start, events, k - 1).reaped, HistoryAt(start, events, k).reaped;
      if ReapsAt(start, events, k - 1, pid) {
        assert pid in after;
      } else {
        assert pid in after <==> pid in before;
        assert forall i :: 0 <= i < k && ReapsAt(start, events, i, pid) ==> i != k - 1;
      }
    }
  }

  /** What `wait_for` finds, in terms of the history. */
  lemma OutcomeFromHistory(s: Table, h: History, pid: nat)
    requires Inv(s) && Agrees(s, h)
    ensures match WaitOutcome(s, pid)
      case Reaped(_, code) => pid in h.exits && pid !in h.reaped && code == h.exits[pid]
      case NoSuchTask => pid in h.exits ==> pid in h.reaped
      case MustWait => pid !in h.exits
  {
    hide Settled;
    assert pid in h.exits && pid !in h.reaped ==> IsDead(s.tasks, pid);
  }

  /** Exit codes are delivered faithfully. In a run from the start of the kernel, a `wait_for` that
      is about to look collects a code exactly when the task has exited and no earlier `wait_for`
      collected it, and the code is the one every `exit` of that pid gave; once collected, every
      later `wait_for` finds no such task and returns -1. */
  lemma ExitCodesDelivered(events: seq<Event>, j: nat)
    requires IsRun(System(INITIAL_TABLE, 0), events) && j < |events| && events[j].Waited?
    ensures var start, pid := System(INITIAL_TABLE, 0), events[j].pid;
      var outcome := WaitOutcome(StateAt(start, events, j).table, pid);
      var exited := exists i :: 0 <= i < j && ExitsAt(start, events, i, pid);
      var reaped := exists i :: 0 <= i < j && ReapsAt(start, events, i, pid);
      && (outcome.Reaped? <==> exited && !reaped)
      && (outcome.Reaped? ==>
            forall i :: 0 <= i < j && ExitsAt(start, events, i, pid) ==> events[i].code == outcome.code)
      && (reaped ==> outcome.NoSuchTask?)
  {
    hide IsRun, StateAt, Inv, WaitOutcome, Agrees, HistoryAt;
    var start, pid := System(INITIAL_TABLE, 0), events[j].pid;
    FirstState(start, events);
    NextState(start, events, j);
    HistoryAgrees(events, j);
    RecordedExits(events, j, pid);
    RecordedReaps(events, j, pid);
    ReapedExited(StateAt(start, events, j).table, HistoryAt(start, events, j));
    OutcomeFromHistory(StateAt(start, events, j).table, HistoryAt(start, events, j), pid);
  }

  lemma ReapedExited(s: Table, h: History)
    requires Agrees(s, h)
    ensures forall p :: p in h.reaped ==> p in h.exits
  {
  }

  /** A waiter goes on only when the very task it waits for exits: no lost and no spurious wake-up. It is
      then left with that task's code as its own. */
  lemma WaiterWokenByExit(sys: System, e: Event, i: nat, pid: nat)
    requires Inv(sys.table) && Enabled(sys, e) && i < MAX_TASKS
    requires sys.table.tasks[i].state == Blocked && sys.table.tasks[i].waitForPid == Some(pid)
    ensures var r, exits := Apply(sys, e).table, e.Exited? && sys.table.Current().pid == pid;
      if exits then
        && (r.tasks[i].state == Ready || r.tasks[i].state == Running)
        && r.tasks[i].waitForPid == None && r.tasks[i].exitCode == e.code
      else r.tasks[i].state == Blocked && r.tasks[i].waitForPid == Some(pid)
  {
    hide Apply, Schedule, FindPid, FreeSlot;
    StepParts(sys, e);
    EnteredInv(sys, e);
    EnteredWaiter(sys, e, i, pid);
    if Schedules(sys, e) {
      WaiterScheduled(Entered(sys, e), i);
    }
  }

  lemma WaiterScheduled(s: Table, i: nat)
    requires Schedulable(s) && i < MAX_TASKS
    ensures var t, u := s.tasks[i], Schedule(s).tasks[i];
      && u.waitForPid == t.waitForPid && u.exitCode == t.exitCode && (t.state == Blocked ==> u.state == Blocked)
      && (t.state == Ready ==> u.state == Ready || u.state == Running)
  {
    hide Schedule, Settled;
    ScheduleEffect(s);
  }

  lemma EnteredWaiter(sys: System, e: Event, i: nat, pid: nat)
    requires Inv(sys.table) && Enabled(sys, e) && i < MAX_TASKS
    requires sys.table.tasks[i].state == Blocked && sys.table.tasks[i].waitForPid == Some(pid)
    ensures var r, exits := Entered(sys, e), e.Exited? && sys.table.Current().pid == pid;
      if exits then r.tasks[i].state == Ready && r.tasks[i].waitForPid == None && r.tasks[i].exitCode == e.code
      else r.tasks[i].state == Blocked && r.tasks[i].waitForPid == Some(pid)
  {
    hide Schedule, FindPid, FreeSlot;
    assert Settled(sys.table.tasks, sys.table.tasks[i]);
  }
}
