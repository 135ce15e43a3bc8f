/** The lock and the interrupt flag, instruction by instruction, on one processor. */
module Interrupts {
  import opened Wrappers

  /** Who is about to call `schedule`; a tick remembers the flag that `iretq` will restore. */
  datatype Caller = FromTick(below: bool) | FromYield | FromExit | FromWait

  /** Where an activation is. From `Saved` to `Released` the lock's guard holds the old flag. */
  datatype Point =
    | Own
    | About(why: Caller)
    | Acquiring(why: Caller)
    | Saved(why: Caller, rflags: bool)
    | Spinning(why: Caller, rflags: bool)
    | Holding(why: Caller, rflags: bool)
    | Chosen(why: Caller, rflags: bool, next: nat)
    | Released(why: Caller, rflags: bool, next: nat)
    | Switching(why: Caller, next: nat)
    | Inside(why: Caller)
    | Returning(why: Caller)
    | Fresh
    | Gone
  {
    /** Does this activation hold the lock? */
    predicate HasLock() { Holding? || Chosen? }

    /** Has this activation set CURRENT without having left its stack? */
    predicate Between() { Chosen? || Released? || Switching? }

    /** Stopped on a stack that is not in use. */
    predicate Stopped() { Inside? || Fresh? || Gone? }
  }

  /** `running` is the task whose stack is in use, `current` the variable CURRENT; a task's
      activations are its own code and the handlers on top of it. */
  datatype State = State(flag: bool, locked: bool, current: nat, running: nat, tasks: seq<seq<Point>>)
  {
    predicate Shape() { running < |tasks| && tasks[running] != [] }

    function Top(): Point
      requires Shape()
    {
      tasks[running][|tasks[running]| - 1]
    }

    /** The running task's innermost activation moves on. */
    function At(p: Point): (r: State)
      requires Shape()
      ensures r.Shape() && r.Top() == p
    {
      this.(tasks := tasks[running := tasks[running][..|tasks[running]| - 1] + [p]])
    }
  }

  datatype Action =
    | OwnCode(flag: bool)
    | Call(why: Caller)
    | Irq
    | Leave
    | Choose(next: nat)
    | Instruction
    | Create(slot: nat)

  /** A task that was stopped in `switch_to`, or never ran, takes over. */
  function Wake(p: Point): Point {
    match p
    case Inside(why) => Returning(why)
    case _ => Own
  }

  function Innermost(points: seq<Point>): Point
    requires points != []
  {
    points[|points| - 1]
  }

  ghost predicate IsGone(points: seq<Point>) {
    points == [Gone]
  }

  /** What can happen next. An interrupt can come between any two instructions while the flag is
      set. `Choose` is the scan in `schedule`: it never finds a dead task, least of all itself. */
  ghost predicate Enabled(s: State, a: Action)
    requires s.Shape()
  {
    var p := s.Top();
    match a
    case OwnCode(_) => p.Own?
    case Call(why) => p.Own? && !why.FromTick?
    case Irq => s.flag
    case Leave => p.About? && (p.why.FromTick? || p.why.FromWait?)
    case Choose(next) =>
      p.Holding? && next < |s.tasks| && !IsGone(s.tasks[next]) && (p.why.FromExit? ==> next != s.running)
    case Create(slot) => p.Own? && slot < |s.tasks| && IsGone(s.tasks[slot]) && slot != s.running
    case Instruction =>
      && !p.Own? && !p.Holding? && !p.Stopped()
      && (p.Switching? ==> p.next < |s.tasks| && s.tasks[p.next] != [])
  }

  /** `iretq`: the handler's activation ends and the interrupted flag comes back. */
  function Iret(s: State, below: bool): State
    requires s.Shape()
  {
    s.(flag := below, tasks := s.tasks[s.running := s.tasks[s.running][..|s.tasks[s.running]| - 1]])
  }

  /** A stack is left inside `switch_to`, for good if its task has exited. */
  function Leaving(points: seq<Point>, why: Caller): seq<Point>
    requires points != []
  {
    if why.FromExit? then [Gone] else points[..|points| - 1] + [Inside(why)]
  }

  function Taking(points: seq<Point>): seq<Point>
    requires points != []
  {
    points[..|points| - 1] + [Wake(points[|points| - 1])]
  }

  /** `switch_to`. */
  function SwitchStacks(s: State, why: Caller, next: nat): State
    requires s.Shape() && next < |s.tasks| && s.tasks[next] != [] && next != s.running
  {
    s.(running := next, tasks := s.tasks[s.running := Leaving(s.tasks[s.running], why)][next := Taking(s.tasks[next])])
  }

  function Execute(s: State): State
    requires s.Shape() && (s.Top().Switching? ==> s.Top().next < |s.tasks| && s.tasks[s.Top().next] != [])
  {
    match s.Top()
    case About(why) => s.At(Acquiring(why))
    case Acquiring(why) => s.At(Saved(why, s.flag))
    case Saved(why, rflags) => s.At(Spinning(why, rflags)).(flag := false)
    case Spinning(why, rflags) => if s.locked then s else s.At(Holding(why, rflags)).(locked := true)
    case Chosen(why, rflags, next) => s.At(Released(why, rflags, next)).(locked := false)
    case Released(why, rflags, next) => s.At(Switching(why, next)).(flag := rflags)
    case Switching(why, next) => if next == s.running then s.At(Returning(why)) else SwitchStacks(s, why, next)
    case Returning(why) =>
      (match why
       case FromTick(below) => Iret(s, below)
       case FromYield => s.At(Own)
       case FromWait => s.At(About(FromWait)).(flag := false)
       case FromExit => s)
    case _ => s
  }

  function Apply(s: State, a: Action): State
    requires s.Shape()
    requires s.Top().Switching? && a.Instruction? ==> s.Top().next < |s.tasks| && s.tasks[s.Top().next] != []
    requires s.Top().Holding? || !a.Choose?
    requires s.Top().About? || !a.Leave?
  {
    match a
    case OwnCode(flag) => s.(flag := flag)
    case Call(why) => s.At(About(why)).(flag := false)
    case Irq => s.(flag := false, tasks := s.tasks[s.running := s.tasks[s.running] + [About(FromTick(s.flag))]])
    case Leave => (match s.Top().why case FromTick(below) => Iret(s, below) case _ => s.At(Own).(flag := true))
    case Choose(next) => s.At(Chosen(s.Top().why, s.Top().rflags, next)).(current := next)
    case Create(slot) => if slot < |s.tasks| then s.(tasks := s.tasks[slot := [Fresh]]) else s
    case Instruction => Execute(s)
  }

  // ---- The invariant ----

  /** The running task: its own code, a call it made, or a tick on top of its own code; the flag
      is clear and the guard's copy of it too, except in its own code. */
  predicate Running(points: seq<Point>, flag: bool) {
    || points == [Own]
    || (|points| == 1 && !flag && InSchedule(points[0]) && !points[0].why.FromTick?)
    || (|points| == 2 && !flag && points[0].Own? && InSchedule(points[1]) && points[1].why == FromTick(true))
  }

  predicate InSchedule(p: Point) {
    && !p.Own? && !p.Stopped()
    && (p.Saved? || p.Spinning? || p.Holding? || p.Chosen? || p.Released? ==> !p.rflags)
    && (p.Returning? ==> !p.why.FromExit?)
  }

  predicate Waiting(points: seq<Point>) {
    || points == [Fresh] || points == [Gone]
    || points == [Inside(FromYield)] || points == [Inside(FromWait)]
    || points == [Own, Inside(FromTick(true))]
  }

  /** CURRENT names the running task, except on the way from choosing the next one to leaving. */
  predicate CurrentOk(s: State)
    requires s.Shape()
  {
    var p := s.Top();
    if p.Between() then
      && s.current == p.next < |s.tasks| && s.tasks[p.next] != [Gone]
      && (p.why.FromExit? ==> p.next != s.running)
    else s.current == s.running
  }

  predicate OthersWait(tasks: seq<seq<Point>>, running: nat) {
    forall i :: 0 <= i < |tasks| && i != running ==> Waiting(tasks[i])
  }

  ghost predicate Inv(s: State) {
    && s.Shape() && Running(s.tasks[s.running], s.flag) && CurrentOk(s)
    && (s.locked <==> s.Top().HasLock())
    && OthersWait(s.tasks, s.running)
  }

  /** Replacing the innermost point of a one- or two-activation task. */
  lemma AtInv(s: State, p: Point, flag: bool, locked: bool, current: nat)
    requires Inv(s) && (p.Own? || InSchedule(p)) && (p.Own? ==> |s.tasks[s.running]| == 1) && (!p.Own? ==> !flag)
    requires InSchedule(p) && |s.tasks[s.running]| == 2 ==> p.why == FromTick(true)
    requires InSchedule(p) && p.why.FromTick? ==> |s.tasks[s.running]| == 2
    requires locked <==> p.HasLock()
    requires CurrentOk(s.At(p).(current := current))
    ensures Inv(s.At(p).(flag := flag, locked := locked, current := current))
  {
    hide CurrentOk;
    var s' := s.At(p).(flag := flag, locked := locked, current := current);
    assert s'.Top() == p;
    assert s'.tasks[s'.running] == if |s.tasks[s.running]| == 2 then [Own, p] else [p];
    CurrentOnly(s.At(p).(current := current), s');
  }

  lemma CurrentOnly(s: State, s': State)
    requires s.Shape() && CurrentOk(s) && s' == s.(flag := s'.flag, locked := s'.locked)
    ensures s'.Shape() && CurrentOk(s')
  {
  }

  lemma ExecuteInv(s: State)
    requires Inv(s) && Enabled(s, Instruction) && !s.Top().Switching? && !(s.Top().Returning? && s.Top().why.FromTick?)
    ensures Inv(Execute(s))
  {
    hide Inv;
    RunningFacts(s);
    match s.Top() {
      case About(why) => AtInv(s, Acquiring(why), s.flag, s.locked, s.current);
      case Acquiring(why) => AtInv(s, Saved(why, s.flag), s.flag, s.locked, s.current);
      case Saved(why, rflags) => AtInv(s, Spinning(why, rflags), false, s.locked, s.current);
      case Spinning(why, rflags) => AtInv(s, Holding(why, rflags), s.flag, true, s.current);
      case Chosen(why, rflags, next) => AtInv(s, Released(why, rflags, next), s.flag, false, s.current);
      case Released(why, rflags, next) => AtInv(s, Switching(why, next), rflags, s.locked, s.current);
      case Returning(why) =>
        AtInv(s, if why.FromYield? then Own else About(FromWait), false, s.locked, s.current);
    }
  }

  lemma RunningFacts(s: State)
    requires Inv(s)
    ensures s.Shape() && CurrentOk(s) && (s.locked <==> s.Top().HasLock())
    ensures 1 <= |s.tasks[s.running]| <= 2 && Running(s.tasks[s.running], s.flag)
    ensures OthersWait(s.tasks, s.running)
    ensures var p := s.Top(); if p.Own? then |s.tasks[s.running]| == 1 else InSchedule(p) && !s.flag
    ensures s.Top().Switching? ==> !s.flag
    ensures InSchedule(s.Top()) ==> (s.Top().why.FromTick? <==> |s.tasks[s.running]| == 2)
    ensures InSchedule(s.Top()) && s.Top().why.FromTick? ==> s.Top().why == FromTick(true) && s.tasks[s.running][0].Own?
  {
  }

  lemma LeftBehind(points: seq<Point>, why: Caller)
    requires points != [] && Running(points, false)
    requires points[|points| - 1].Switching? && points[|points| - 1].why == why
    ensures Waiting(Leaving(points, why))
  {
    if |points| == 2 {
      assert points[..1] == [Own];
    }
  }

  lemma TakenUp(points: seq<Point>)
    requires Waiting(points) && points != [Gone]
    ensures points != [] && Running(Taking(points), false) && Taking(points) != []
    ensures var p := Innermost(Taking(points)); p.Own? || p.Returning?
  {
  }

  lemma Exchange(tasks: seq<seq<Point>>, from: nat, to: nat, left: seq<Point>, taken: seq<Point>)
    requires from < |tasks| && to < |tasks| && OthersWait(tasks, from) && Waiting(left)
    ensures OthersWait(tasks[from := left][to := taken], to)
  {
    hide Waiting;
  }

  lemma RestOfInv(s: State, points: seq<Point>)
    requires s.running < |s.tasks| && s.tasks[s.running] == points != []
    requires (Innermost(points).Own? || Innermost(points).Returning?) && Running(points, false)
    requires !s.flag && !s.locked && s.current == s.running && OthersWait(s.tasks, s.running)
    ensures Inv(s)
  {
    hide Running, OthersWait;
  }

  lemma SwitchInv(s: State)
    requires Inv(s) && Enabled(s, Instruction) && s.Top().Switching?
    ensures Inv(Execute(s))
  {
    hide Running, OthersWait, Waiting, InSchedule, Leaving, Taking;
    RunningFacts(s);
    NextFacts(s);
    var p, next := s.Top(), s.Top().next;
    if next == s.running {
      SwitchToSelf(s);
    } else {
      LeftBehind(s.tasks[s.running], p.why);
      TakenUp(s.tasks[next]);
      Exchange(s.tasks, s.running, next, Leaving(s.tasks[s.running], p.why), Taking(s.tasks[next]));
      RestOfInv(Execute(s), Taking(s.tasks[next]));
    }
  }

  lemma SwitchToSelf(s: State)
    requires Inv(s) && Enabled(s, Instruction) && s.Top().Switching? && s.Top().next == s.running
    ensures Inv(Execute(s))
  {
    AtInv(s, Returning(s.Top().why), s.flag, s.locked, s.current);
  }

  lemma NextFacts(s: State)
    requires Inv(s) && s.Top().Switching?
    ensures var next := s.Top().next;
      && next < |s.tasks|
      && (next != s.running ==> Waiting(s.tasks[next]) && s.tasks[next] != [Gone] && s.tasks[next] != [])
  {
  }

  lemma LeaveInv(s: State, a: Action)
    requires Inv(s) && Enabled(s, a) && a.Leave?
    ensures Inv(Apply(s, a))
  {
    hide Inv;
    RunningFacts(s);
    if s.Top().why.FromTick? {
      IretInv(s);
    } else {
      AtInv(s, Own, true, s.locked, s.current);
    }
  }

  lemma IretInv(s: State)
    requires Inv(s) && InSchedule(s.Top()) && (s.Top().About? || s.Top().Returning?) && s.Top().why.FromTick?
    ensures Inv(Iret(s, true)) && Iret(s, true).Top() == Own && s.Top().why == FromTick(true)
  {
    assert s.tasks[s.running][..1] == [Own];
  }

  lemma IrqInv(s: State)
    requires Inv(s) && s.flag
    ensures Inv(Apply(s, Irq))
  {
    assert s.tasks[s.running] == [Own];
  }

  lemma ReturnInv(s: State)
    requires Inv(s) && s.Top().Returning? && s.Top().why.FromTick?
    ensures Inv(Execute(s))
  {
    hide Inv;
    RunningFacts(s);
    IretInv(s);
  }

  lemma OwnCodeInv(s: State, flag: bool)
    requires Inv(s) && s.Top().Own?
    ensures Inv(s.(flag := flag))
  {
    RunningFacts(s);
    assert s.tasks[s.running] == [Own];
    CurrentOnly(s, s.(flag := flag));
  }

  lemma CallInv(s: State, why: Caller)
    requires Inv(s) && Enabled(s, Call(why))
    ensures Inv(Apply(s, Call(why)))
  {
    RunningFacts(s);
    assert s.At(About(why)).(current := s.current).Top() == About(why);
    AtInv(s, About(why), false, s.locked, s.current);
  }

  lemma ChooseInv(s: State, next: nat)
    requires Inv(s) && Enabled(s, Choose(next))
    ensures Inv(Apply(s, Choose(next)))
  {
    hide Inv;
    RunningFacts(s);
    var p := Chosen(s.Top().why, s.Top().rflags, next);
    ChosenNext(s, next);
    AtInv(s, p, s.flag, s.locked, next);
  }

  lemma ChosenNext(s: State, next: nat)
    requires Inv(s) && Enabled(s, Choose(next))
    ensures CurrentOk(s.At(Chosen(s.Top().why, s.Top().rflags, next)).(current := next))
  {
    var p := Chosen(s.Top().why, s.Top().rflags, next);
    assert s.At(p).Top() == p;
  }

  lemma CreateInv(s: State, slot: nat)
    requires Inv(s) && Enabled(s, Create(slot))
    ensures Inv(Apply(s, Create(slot)))
  {
    assert Waiting([Fresh]);
    assert s.Top().Own? && !s.Top().Between();
  }

  /** The invariant survives every instruction, interrupt and creation. */
  lemma StepInv(s: State, a: Action)
    requires Inv(s) && Enabled(s, a)
    ensures Inv(Apply(s, a))
  {
    hide Inv, Execute, CurrentOk, Waiting;
    RunningFacts(s);
    match a {
      case OwnCode(flag) => OwnCodeInv(s, flag);
      case Call(why) => CallInv(s, why);
      case Irq => IrqInv(s);
      case Leave => LeaveInv(s, a);
      case Choose(next) => ChooseInv(s, next);
      case Create(slot) => CreateInv(s, slot);
      case Instruction =>
        if s.Top().Switching? {
          SwitchInv(s);
        } else if s.Top().Returning? && s.Top().why.FromTick? {
          ReturnInv(s);
        } else {
          ExecuteInv(s);
        }
    }
  }

  // ---- What the invariant means ----

  /** The lock is only held with interrupts off, so an interrupt never finds it held and the
      compare-exchange in `acquire` succeeds the first time; and the interrupt flag stays clear from
      before `schedule` until its return, so no interrupt falls between the update of CURRENT and
      `switch_to`: one only ever interrupts a task's own code, with CURRENT naming that task. */
  lemma LockProtocol(s: State)
    requires Inv(s)
    ensures s.locked ==> !s.flag
    ensures Enabled(s, Irq) ==> s.tasks[s.running] == [Own] && s.current == s.running && !s.locked
    ensures s.Top().Spinning? ==> !s.locked && Execute(s).Top().Holding?
    ensures s.current != s.running ==> !Enabled(s, Irq)
  {
    hide Inv, OthersWait;
    RunningFacts(s);
    assert Running(s.tasks[s.running], s.flag);
  }

  ghost predicate Legal(s: State, a: Action, s': State) {
    Inv(s) ==> Enabled(s, a) && s' == Apply(s, a)
  }

  ghost predicate IsRun(states: seq<State>, actions: seq<Action>) {
    && |states| == |actions| + 1 && Inv(states[0])
    && forall k :: 0 <= k < |actions| ==> Legal(states[k], actions[k], states[k + 1])
  }

  /** The task table at the time interrupts are first switched on: only the idle task lives. */
  lemma BootInv(slots: nat)
    requires slots > 0
    ensures Inv(State(true, false, 0, 0, seq(slots, i => if i == 0 then [Own] else [Gone])))
  {
  }

  lemma {:induction false} RunInv(states: seq<State>, actions: seq<Action>, k: nat)
    requires IsRun(states, actions) && k < |states|
    ensures Inv(states[k])
    ensures k < |actions| ==> Enabled(states[k], actions[k]) && states[k + 1] == Apply(states[k], actions[k])
  {
    hide Inv, Enabled, Apply;
    if k > 0 {
      RunInv(states, actions, k - 1);
      StepInv(states[k - 1], actions[k - 1]);
    }
    assert k < |actions| ==> Legal(states[k], actions[k], states[k + 1]);
  }

  /** `sti`, by a task's own code or by `wait_for`, and the return from a tick. */
  predicate Unmasks(s: State, a: Action) {
    || a == OwnCode(true) || a.Leave?
    || (a.Instruction? && s.Shape() && s.Top().Returning? && s.Top().why.FromTick?)
  }

  /** With interrupts off, these are exactly the actions that turn them on. */
  lemma FlagRises(s: State, a: Action)
    requires Inv(s) && Enabled(s, a) && !s.flag
    ensures Apply(s, a).flag <==> Unmasks(s, a)
  {
    hide Inv;
    RunningFacts(s);
    if a.Instruction? {
      ExecuteMasked(s);
    }
  }

  /** Switching tasks never turns interrupts on: from a state with interrupts off, such as the start
      of a new task or the return from `yield_cpu` or `sleep_ms`, they stay off, and no interrupt is
      delivered, exactly as long as there is no `sti` and no return from a tick. */
  lemma {:induction false} MaskedUntilSti(states: seq<State>, actions: seq<Action>, t: nat, u: nat)
    requires IsRun(states, actions) && t <= u < |states| && !states[t].flag
    ensures (forall k :: t <= k <= u ==> !states[k].flag)
      <==> (forall k :: t <= k < u ==> !Unmasks(states[k], actions[k]))
    ensures (forall k :: t <= k < u ==> !Unmasks(states[k], actions[k])) ==>
      forall k :: t <= k < u ==> !actions[k].Irq?
    decreases u - t
  {
    hide Inv, Apply, Unmasks;
    if t < u {
      MaskedUntilSti(states, actions, t, u - 1);
      RunInv(states, actions, u - 1);
      if !states[u - 1].flag {
        FlagRises(states[u - 1], actions[u - 1]);
      }
    }
  }

  lemma ExecuteMasked(s: State)
    requires Inv(s) && Enabled(s, Instruction) && !s.flag
    ensures Execute(s).flag <==> Unmasks(s, Instruction)
  {
    hide Inv, OthersWait;
    RunningFacts(s);
    if Unmasks(s, Instruction) {
      IretInv(s);
    }
  }

  /** The first instruction of a new task runs with interrupts off, in spite of the flags constant
      in `task.rs`, which nothing uses. */
  lemma StartsMasked(s: State)
    requires Inv(s) && Enabled(s, Instruction) && s.Top().Switching? && s.Top().next != s.running
    requires s.tasks[s.Top().next] == [Fresh]
    ensures var s' := Execute(s); s'.tasks[s'.running] == [Own] && s'.running == s.Top().next && !s'.flag
  {
    RunningFacts(s);
  }

  // ---- The lock ----

  /** The interrupt flag, the lock, and the old flag that the guard keeps. */
  datatype Guarded = Guarded(flag: bool, locked: bool, rflags: bool)

  /** What `acquire` makes of a free lock. */
  function Acquired(flag: bool): Guarded { Guarded(false, true, flag) }

  /** What dropping the guard makes of a held one. */
  function Dropped(rflags: bool): Guarded { Guarded(rflags, false, rflags) }

  /** The lock, and the interrupt flag of the processor that takes it. */
  class Spinlock {
    var locked: bool
    var flag: bool

    constructor (flag: bool)
      ensures !locked && this.flag == flag
    {
      locked, this.flag := false, flag;
    }

    method SaveAndCli() returns (rflags: bool)
      modifies this`flag
      ensures rflags == old(flag) && !flag
    {
      rflags := flag;
      flag := false;
    }

    /** At most `spins` turns of the loop in `acquire`; with the lock held it goes on for ever. */
    method Acquire(spins: nat) returns (r: Option<bool>)
      modifies this
      ensures r.Some? <==> !old(locked) && spins > 0
      ensures r.Some? ==> Guarded(flag, locked, r.value) == Acquired(old(flag))
      ensures r.Some? ==> !flag && locked && r.value == old(flag)
      ensures r.None? ==> !flag && locked == old(locked)
    {
      var rflags := SaveAndCli();
      for i := 0 to spins
        invariant !flag && locked == old(locked) && (i > 0 ==> locked)
      {
        if !locked {
          locked := true;
          return Some(rflags);
        }
      }
      return None;
    }

    method Drop(rflags: bool)
      modifies this
      ensures Guarded(flag, locked, rflags) == Dropped(rflags)
      ensures !locked && flag == rflags
    {
      locked := false;
      flag := rflags;
    }
  }

  /** The three instructions of `acquire` on a free lock do to the whole state what
      `Spinlock.Acquire` does to lock and flag. */
  lemma AcquireSteps(s: State)
    requires s.Shape() && s.Top().Acquiring? && !s.locked
    ensures var s1, g := Execute(s), Acquired(s.flag);
      s1.Top().Saved? && Execute(s1).Top().Spinning?
      && Execute(Execute(s1)) == s.At(Holding(s.Top().why, g.rflags)).(flag := g.flag, locked := g.locked)
  {
  }

  /** On a held lock the third one repeats for ever; `LockProtocol` shows that it never starts to. */
  lemma HeldLockSpins(s: State)
    requires s.Shape() && s.Top().Spinning?
    ensures Execute(s) == s <==> s.locked
  {
  }

  /** Dropping the guard does what `Spinlock.Drop` does, before `switch_to`. */
  lemma DropSteps(s: State)
    requires s.Shape() && s.Top().Chosen?
    ensures var p, g := s.Top(), Dropped(s.Top().rflags);
      Execute(s).Top().Released?
      && Execute(Execute(s)) == s.At(Switching(p.why, p.next)).(flag := g.flag, locked := g.locked)
  {
  }

  /** From the call of `acquire` on a free lock to the drop of the guard, one task after another: the lock
      is held while CURRENT changes, and free again with the old flag before `switch_to`. */
  lemma CriticalSection(s: State, next: nat)
    requires s.Shape() && s.Top().Acquiring? && !s.locked
    ensures var s1 := Execute(Execute(Execute(s)));
      && s1.locked && !s1.flag && s1.current == s.current && s1.Top().Holding?
      && var s2 := Apply(s1, Choose(next));
         && s2.locked && !s2.flag && s2.current == next && s2.Top().Chosen?
         && var s3 := Execute(Execute(s2));
            s3 == s.At(Switching(s.Top().why, next)).(current := next)
  {
    AcquireSteps(s);
  }
}
