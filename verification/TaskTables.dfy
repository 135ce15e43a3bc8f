/** The task table as a value, and what each kernel entry point makes of it. */
module TaskTables {
  import opened Wrappers

  const MAX_TASKS: nat := 32
  const TIME_SLICE_TICKS: nat := 3
  const TICKS_PER_SECOND: nat := 100

  datatype TaskState = Empty | Created | Ready | Running | Blocked | Terminated

  datatype Task = Task(
    state: TaskState, pid: nat, stackBase: nat, stackTop: nat, ticksRun: nat,
    sleepUntil: nat, waitForPid: Option<nat>, exitCode: int)
  {
    predicate Live() { state != Empty && state != Terminated }
  }

  const EMPTY_TASK: Task := Task(Empty, 0, 0, 0, 0, 0, None, 0)

  /** TASKS, CURRENT, TICKS_ON_CURRENT and NEXT_PID. */
  datatype Table = Table(tasks: seq<Task>, current: nat, ticksOnCurrent: nat, nextPid: nat)
  {
    predicate Shape() { |tasks| == MAX_TASKS && current < MAX_TASKS }

    function Current(): Task
      requires Shape()
    {
      tasks[current]
    }

    function WithState(i: nat, state: TaskState): Table
      requires i < |tasks|
    {
      this.(tasks := tasks[i := tasks[i].(state := state)])
    }
  }

  /** How many steps after `from` slot `i` comes in round-robin order: 1 to MAX_TASKS. */
  function Distance(from: nat, i: nat): (d: nat)
    requires from < MAX_TASKS && i < MAX_TASKS
    ensures 1 <= d <= MAX_TASKS
  {
    if i > from then i - from else i + MAX_TASKS - from
  }

  /** Just so many steps, each to the next slot or from the last to the first, lead from one to the other. */
  lemma DistanceGoesRound(from: nat, i: nat, d: nat)
    requires from < 32 && i < 32 && 1 <= d <= 32
    ensures (from + d) % 32 == i <==> d == Distance(from, i)
  {
  }

  /** The slot `d` steps after `from`. */
  function SlotAt(from: nat, d: nat): (i: nat)
    requires from < MAX_TASKS && 1 <= d <= MAX_TASKS
    ensures i < MAX_TASKS && Distance(from, i) == d
  {
    if from + d < MAX_TASKS then from + d else from + d - MAX_TASKS
  }

  /** The first Ready slot at distance `d` or more from `from`. */
  function NextReady(tasks: seq<Task>, from: nat, d: nat): (r: Option<nat>)
    requires |tasks| == MAX_TASKS && from < MAX_TASKS && 1 <= d <= MAX_TASKS + 1
    ensures r.Some? ==> r.value < MAX_TASKS && tasks[r.value].state == Ready && d <= Distance(from, r.value)
    ensures r.Some? ==> forall i: nat :: i < MAX_TASKS && tasks[i].state == Ready && Distance(from, i) >= d ==>
      Distance(from, r.value) <= Distance(from, i)
    ensures r.None? ==> forall i: nat :: i < MAX_TASKS && tasks[i].state == Ready ==> Distance(from, i) < d
    decreases MAX_TASKS + 1 - d
  {
    if d > MAX_TASKS then None
    else if tasks[SlotAt(from, d)].state == Ready then Some(SlotAt(from, d))
    else
      assert forall i: nat :: i < MAX_TASKS && Distance(from, i) == d ==> i == SlotAt(from, d);
      NextReady(tasks, from, d + 1)
  }

  /** `schedule`, up to and including the change of CURRENT. */
  function Schedule(s: Table): (r: Table)
    requires s.Shape()
    ensures r.Shape() && r.nextPid == s.nextPid
  {
    var s1 := if s.Current().state == Running then s.WithState(s.current, Ready) else s;
    var next := NextReady(s1.tasks, s1.current, 1);
    if next.None? || next.value == s.current then s1.WithState(s.current, Running)
    else s1.WithState(next.value, Running).(current := next.value, ticksOnCurrent := 0)
  }

  /** `schedule` changes no task but in its state. */
  lemma ScheduleKeepsTasks(s: Table, i: nat)
    requires s.Shape() && i < MAX_TASKS
    ensures Schedule(s).tasks[i].(state := s.tasks[i].state) == s.tasks[i]
  {
    hide NextReady;
  }

  function Wake(t: Task, tick: nat): Task {
    if t.state == Blocked && t.sleepUntil != 0 && t.sleepUntil <= tick then t.(state := Ready, sleepUntil := 0) else t
  }

  /** `wake_sleeping_tasks`. */
  function WakeSleepers(s: Table, tick: nat): Table {
    s.(tasks := seq(|s.tasks|, i requires 0 <= i < |s.tasks| => Wake(s.tasks[i], tick)))
  }

  /** `tick` up to its time slice check. */
  function Charged(s: Table, tick: nat): (r: Table)
    requires s.Shape()
    ensures r.Shape()
  {
    var s1 := WakeSleepers(s, tick);
    var t := s1.Current();
    s1.(tasks := s1.tasks[s1.current := t.(ticksRun := t.ticksRun + 1)], ticksOnCurrent := s1.ticksOnCurrent + 1)
  }

  /** `tick`: wake the sleepers, charge the running task, and switch when its slice is used up. */
  function Tick(s: Table, tick: nat): (r: Table)
    requires s.Shape()
    ensures r.Shape()
  {
    var s2 := Charged(s, tick);
    if s2.ticksOnCurrent >= TIME_SLICE_TICKS then Schedule(s2.(ticksOnCurrent := 0)) else s2
  }

  function Yield(s: Table): (r: Table)
    requires s.Shape()
    ensures r.Shape()
  {
    Schedule(s.WithState(s.current, Ready))
  }

  /** Neither sum nor product of `sleep_ms` overflows. */
  predicate SleepFits(readAt: nat, ms: nat) {
    ms * TICKS_PER_SECOND < WORD_LIMIT && WakeTick(readAt, ms) < WORD_LIMIT
  }

  /** Without overflow checks the product wraps; the wait is then the one asked for exactly if it
      does not overflow. */
  lemma SleepWraps(ms: nat)
    requires ms < WORD_LIMIT
    ensures ms * TICKS_PER_SECOND % WORD_LIMIT / 1000 == ms * TICKS_PER_SECOND / 1000
      <==> ms * TICKS_PER_SECOND < WORD_LIMIT
  {
    if ms * TICKS_PER_SECOND >= WORD_LIMIT {
      assert ms * TICKS_PER_SECOND % WORD_LIMIT <= ms * TICKS_PER_SECOND - WORD_LIMIT;
    }
  }

  /** The tick `sleep_ms` asks to be woken at. */
  function WakeTick(readAt: nat, ms: nat): nat {
    var ticks := ms * TICKS_PER_SECOND / 1000;
    readAt + if ticks > 1 then ticks else 1
  }

  /** A tick is 10 ms: the wait is one tick for less than that, and all whole ticks otherwise. */
  lemma SleepLength(readAt: nat, ms: nat)
    ensures var w := WakeTick(readAt, ms);
      && (ms < 10 ==> w == readAt + 1)
      && (ms >= 10 ==> 10 * (w - readAt) <= ms < 10 * (w - readAt + 1))
  {
    assert ms * TICKS_PER_SECOND / 1000 == ms / 10;
  }

  /** `sleep_ms` with the wake-up tick already computed. */
  function Sleep(s: Table, wakeAt: nat): (r: Table)
    requires s.Shape()
    ensures r.Shape()
  {
    Schedule(s.(tasks := s.tasks[s.current := s.Current().(state := Blocked, sleepUntil := wakeAt)]))
  }

  function WakeWaiter(t: Task, pid: nat, code: int): Task {
    if t.state == Blocked && t.waitForPid == Some(pid) then t.(state := Ready, waitForPid := None, exitCode := code)
    else t
  }

  /** `exit` before its call of `schedule`: wake the waiters, then `terminate`. */
  function Terminate(s: Table, code: int): (r: Table)
    requires s.Shape()
    ensures r.Shape()
  {
    var pid := s.Current().pid;
    var woken := seq(|s.tasks|, i requires 0 <= i < |s.tasks| => WakeWaiter(s.tasks[i], pid, code));
    s.(tasks := woken[s.current := woken[s.current].(state := Terminated, exitCode := code)])
  }

  function Exit(s: Table, code: int): (r: Table)
    requires s.Shape()
    ensures r.Shape()
  {
    Schedule(Terminate(s, code))
  }

  /** `find_pid`: the first slot at or after `from` that is not Empty and has the pid. */
  function FindPid(tasks: seq<Task>, pid: nat, from: nat): (r: Option<nat>)
    requires from <= |tasks|
    ensures r.Some? ==> from <= r.value < |tasks| && tasks[r.value].state != Empty && tasks[r.value].pid == pid
    ensures r.None? ==> forall i :: from <= i < |tasks| ==> tasks[i].state == Empty || tasks[i].pid != pid
    decreases |tasks| - from
  {
    if from == |tasks| then None
    else if tasks[from].state != Empty && tasks[from].pid == pid then Some(from)
    else FindPid(tasks, pid, from + 1)
  }

  /** What one turn of `wait_for`'s loop comes to. */
  datatype WaitResult = NoSuchTask | Reaped(slot: nat, code: int) | MustWait

  function WaitOutcome(s: Table, pid: nat): (r: WaitResult)
    requires s.Shape()
    ensures r.Reaped? ==> (
      && r.slot < MAX_TASKS && s.tasks[r.slot].state == Terminated && s.tasks[r.slot].pid == pid
      && r.code == s.tasks[r.slot].exitCode)
  {
    match FindPid(s.tasks, pid, 0)
    case None => NoSuchTask
    case Some(slot) => if s.tasks[slot].state == Terminated then Reaped(slot, s.tasks[slot].exitCode) else MustWait
  }

  /** One turn of `wait_for`'s loop. */
  function Wait(s: Table, pid: nat): (r: Table)
    requires s.Shape()
    ensures r.Shape()
  {
    match WaitOutcome(s, pid)
    case NoSuchTask => s
    case Reaped(slot, _) => s.WithState(slot, Empty)
    case MustWait =>
      Schedule(s.(tasks := s.tasks[s.current := s.Current().(state := Blocked, waitForPid := Some(pid))]))
  }

  /** `alloc_slot`: the first Empty slot at or after `from`. */
  function FreeSlot(tasks: seq<Task>, from: nat): (r: Option<nat>)
    requires from <= |tasks|
    ensures r.Some? ==> from <= r.value < |tasks| && tasks[r.value].state == Empty
    ensures r.Some? ==> forall i :: from <= i < r.value ==> tasks[i].state != Empty
    ensures r.None? ==> forall i :: from <= i < |tasks| ==> tasks[i].state != Empty
    decreases |tasks| - from
  {
    if from == |tasks| then None
    else if tasks[from].state == Empty then Some(from)
    else FreeSlot(tasks, from + 1)
  }

  /** `new_kernel_task` once its two stack pages are there; no change when no slot is free. */
  function Create(s: Table, stackBase: nat, stackTop: nat): (r: Table)
    requires s.Shape()
    ensures r.Shape()
  {
    match FreeSlot(s.tasks, 0)
    case None => s
    case Some(slot) =>
      s.(tasks := s.tasks[slot := Task(Ready, s.nextPid, stackBase, stackTop, 0, 0, None, 0)], nextPid := s.nextPid + 1)
  }

  /** `init_tasks` on the zeroed table. */
  const INITIAL_TABLE: Table := Table(
    seq(MAX_TASKS, i => if i == 0 then EMPTY_TASK.(state := Running) else EMPTY_TASK), 0, 0, 1)
}
