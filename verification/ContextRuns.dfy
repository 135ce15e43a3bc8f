/** Whole runs of tasks that switch, are interrupted, are created and exit, each on its own stack. */
module ContextRuns {
  import opened ContextSwitch

  /** A live task's stack is the words [base, top); `traps` are the addresses of the interrupt
      frames on it, innermost last. */
  datatype Stack = NoStack | Stack(base: nat, top: nat, traps: seq<nat>)

  datatype System = System(cpu: Cpu, mem: seq<int>, rsps: seq<int>, current: nat, stacks: seq<Stack>)
  {
    predicate Live(i: nat) { i < |stacks| && stacks[i].Stack? }
  }

  datatype Step =
    | Work(cpu: Cpu, mem: seq<int>)
    | Interrupt(vector: int)
    | Return
    | Switch(next: nat)
    | Die(next: nat)
    | Spawn(slot: nat, top: nat, entry: int)

  /** The lowest word on a stack that the code now running on it must not touch: what lies above
      belongs to code that an interrupt has suspended. */
  function Floor(st: Stack): nat
    requires st.Stack?
  {
    if st.traps == [] then st.top else st.traps[|st.traps| - 1]
  }

  /** Where the interrupted stack pointer sits in an interrupt frame. */
  const RSP_WORD := 20

  /** Each frame lies just below the stack pointer it holds, which lies below the frame outside it. */
  ghost predicate Nested(mem: seq<int>, base: nat, top: nat, traps: seq<nat>) {
    forall k :: 0 <= k < |traps| ==>
      && base <= traps[k] && traps[k] + TRAP_WORDS <= |mem|
      && traps[k] + TRAP_WORDS <= mem[traps[k] + RSP_WORD] <= (if k == 0 then top else traps[k - 1])
  }

  ghost predicate Apart(a: Stack, b: Stack) {
    a.Stack? && b.Stack? ==> a.top <= b.base || b.top <= a.base
  }

  ghost predicate StackOk(s: System, i: nat)
    requires i < |s.stacks| == |s.rsps|
  {
    var st := s.stacks[i];
    st.Stack? ==>
      && st.base <= st.top <= |s.mem| && Nested(s.mem, st.base, st.top, st.traps)
      && (i == s.current ==> st.base <= s.cpu.rsp <= Floor(st))
      && (i != s.current ==> st.base <= s.rsps[i] && s.rsps[i] + SWITCH_WORDS <= Floor(st))
  }

  ghost predicate Inv(s: System) {
    && |s.rsps| == |s.stacks| && s.Live(s.current)
    && (forall i :: 0 <= i < |s.stacks| ==> StackOk(s, i))
    && forall i, j :: 0 <= i < |s.stacks| && 0 <= j < |s.stacks| && i != j ==> Apart(s.stacks[i], s.stacks[j])
  }

  /** What each step needs. `Work` is any code that keeps to its own part of its stack; the other
      steps need room on the stack, and a handler must return with the stack as it found it. */
  ghost predicate Enabled(s: System, step: Step)
    requires Inv(s)
  {
    var st := s.stacks[s.current];
    match step
    case Work(cpu, mem) =>
      && st.base <= cpu.rsp <= Floor(st)
      && Same(s.mem, mem, 0, st.base) && Same(s.mem, mem, Floor(st), |s.mem|)
    case Interrupt(_) => st.base + TRAP_WORDS + 1 <= s.cpu.rsp
    case Return => st.traps != [] && s.cpu.rsp == Floor(st)
    case Switch(next) => st.base + SWITCH_WORDS <= s.cpu.rsp && s.Live(next) && next != s.current
    case Die(next) => st.base + SWITCH_WORDS <= s.cpu.rsp && s.Live(next) && next != s.current
    case Spawn(slot, top, _) =>
      && slot < |s.stacks| && s.stacks[slot].NoStack? && STACK_PAGE_WORDS <= top <= |s.mem|
      && forall j :: 0 <= j < |s.stacks| ==> Apart(Stack(top - STACK_PAGE_WORDS, top, []), s.stacks[j])
  }

  function SwitchedSystem(s: System, next: nat): System
    requires |s.rsps| == |s.stacks| && s.Live(s.current) && s.Live(next) && next != s.current
    requires SWITCH_WORDS <= s.cpu.rsp <= |s.mem|
    requires 0 <= s.rsps[next] && s.rsps[next] + SWITCH_WORDS <= |s.mem|
  {
    var (cpu, mem, rsps) := Switched(s.cpu, s.mem, s.rsps, s.current, next);
    s.(cpu := cpu, mem := mem, rsps := rsps, current := next)
  }

  ghost function Apply(s: System, step: Step): System
    requires Inv(s) && Enabled(s, step)
  {
    var st := s.stacks[s.current];
    FloorFits(s, s.current);
    match step
    case Work(cpu, mem) => s.(cpu := cpu, mem := mem)
    case Interrupt(vector) =>
      var (cpu, mem) := Trapped(s.cpu, s.mem, vector);
      s.(cpu := cpu, mem := mem, stacks := s.stacks[s.current := st.(traps := st.traps + [cpu.rsp])])
    case Return =>
      s.(cpu := Resumed(s.mem[s.cpu.rsp..s.cpu.rsp + TRAP_WORDS]),
         stacks := s.stacks[s.current := st.(traps := st.traps[..|st.traps| - 1])])
    case Switch(next) =>
      FloorFits(s, next);
      SwitchedSystem(s, next)
    case Die(next) =>
      FloorFits(s, next);
      SwitchedSystem(s, next).(stacks := s.stacks[s.current := NoStack])
    case Spawn(slot, top, entry) =>
      s.(mem := Poke(s.mem, top - SWITCH_WORDS, SwitchWords(Fresh(entry))),
         rsps := s.rsps[slot := top - SWITCH_WORDS],
         stacks := s.stacks[slot := Stack(top - STACK_PAGE_WORDS, top, [])])
  }

  lemma FloorFits(s: System, i: nat)
    requires |s.rsps| == |s.stacks| && s.Live(i) && StackOk(s, i)
    ensures Floor(s.stacks[i]) <= s.stacks[i].top <= |s.mem|
    ensures s.stacks[i].traps != [] ==> Floor(s.stacks[i]) + TRAP_WORDS <= s.stacks[i].top
    ensures s.stacks[i].base <= Floor(s.stacks[i])
  {
    NestedBelow(s.mem, s.stacks[i].base, s.stacks[i].top, s.stacks[i].traps, |s.stacks[i].traps|);
  }

  lemma {:induction false} NestedBelow(mem: seq<int>, base: nat, top: nat, traps: seq<nat>, n: nat)
    requires Nested(mem, base, top, traps) && n <= |traps|
    ensures forall k :: 0 <= k < n ==> traps[k] + TRAP_WORDS <= top
    ensures forall j, k :: 0 <= j < k < n ==> traps[k] + TRAP_WORDS <= traps[j]
  {
    if n > 0 {
      NestedBelow(mem, base, top, traps, n - 1);
      assert traps[n - 1] + TRAP_WORDS <= (if n - 1 == 0 then top else traps[n - 2]);
    }
  }

  // ---- What a step writes ----

  /** A step writes the running task's stack below its floor, or the stack it creates. */
  lemma Footprint(s: System, step: Step, lo: int, hi: int)
    requires Inv(s) && Enabled(s, step) && 0 <= lo && hi <= |s.mem|
    requires step.Spawn? ==> hi <= step.top - STACK_PAGE_WORDS || step.top <= lo
    requires !step.Spawn? ==> hi <= s.stacks[s.current].base || Floor(s.stacks[s.current]) <= lo
    ensures Same(s.mem, Apply(s, step).mem, lo, hi)
  {
    hide Poke, SwitchWords, TrapWords, Loaded;
    FloorFits(s, s.current);
    var at := if step.Interrupt? then TrapTop(s.cpu.rsp) - TRAP_WORDS
              else if step.Spawn? then step.top - SWITCH_WORDS else s.cpu.rsp - SWITCH_WORDS;
    match step {
      case Work(_, _) =>
      case Return =>
      case Interrupt(vector) => PokeHolds(s.mem, at, TrapWords(s.cpu, vector));
      case Spawn(_, _, entry) => PokeHolds(s.mem, at, SwitchWords(Fresh(entry)));
      case Switch(_) => PokeHolds(s.mem, at, SwitchWords(s.cpu));
      case Die(_) => PokeHolds(s.mem, at, SwitchWords(s.cpu));
    }
  }

  /** A suspended task's stack is frozen, and so is the part of the running task's stack that
      belongs to the code it interrupted. */
  lemma StackFrozen(s: System, step: Step, i: nat)
    requires Inv(s) && Enabled(s, step) && s.Live(i)
    ensures var lo := if i == s.current then Floor(s.stacks[i]) else s.stacks[i].base;
      Same(s.mem, Apply(s, step).mem, lo, s.stacks[i].top)
  {
    hide Apply, Floor;
    assert StackOk(s, i);
    FloorFits(s, i);
    FloorFits(s, s.current);
    assert i != s.current ==> Apart(s.stacks[i], s.stacks[s.current]);
    if step.Spawn? {
      assert Apart(Stack(step.top - STACK_PAGE_WORDS, step.top, []), s.stacks[i]);
    }
    Footprint(s, step, if i == s.current then Floor(s.stacks[i]) else s.stacks[i].base, s.stacks[i].top);
  }

  lemma NestedKept(mem: seq<int>, now: seq<int>, base: nat, top: nat, traps: seq<nat>, lo: int)
    requires Nested(mem, base, top, traps) && top <= |mem| && Same(mem, now, lo, top)
    requires traps != [] ==> lo <= traps[|traps| - 1]
    ensures Nested(now, base, top, traps)
  {
    NestedBelow(mem, base, top, traps, |traps|);
  }

  /** A task that a step neither runs, starts nor switches to keeps its stack in order. */
  lemma OthersOk(s: System, step: Step, i: nat)
    requires Inv(s) && Enabled(s, step) && s.Live(i)
    ensures var s', st := Apply(s, step), s.stacks[i]; |s'.mem| == |s.mem| && Nested(s'.mem, st.base, st.top, st.traps)
  {
    hide Apply, Enabled;
    FloorFits(s, i);
    StackFrozen(s, step, i);
    var lo := if i == s.current then Floor(s.stacks[i]) else s.stacks[i].base;
    NestedKept(s.mem, Apply(s, step).mem, s.stacks[i].base, s.stacks[i].top, s.stacks[i].traps, lo);
  }

  lemma TrapNested(s: System, step: Step)
    requires Inv(s) && Enabled(s, step) && step.Interrupt?
    ensures var s' := Apply(s, step); StackOk(s', s.current)
  {
    hide Poke, TrapWords, Resumed;
    FloorFits(s, s.current);
    OthersOk(s, step, s.current);
    var at := TrapTop(s.cpu.rsp) - TRAP_WORDS;
    PokeHolds(s.mem, at, TrapWords(s.cpu, step.vector));
    TrapHoldsRsp(Apply(s, step).mem, at, s.cpu, step.vector);
  }

  lemma TrapHoldsRsp(mem: seq<int>, at: int, c: Cpu, vector: int)
    requires Holds(mem, at, TrapWords(c, vector))
    ensures 0 <= at && at + TRAP_WORDS <= |mem| && mem[at + RSP_WORD] == c.rsp
    ensures Resumed(mem[at..at + TRAP_WORDS]) == c
  {
    assert TrapWords(c, vector)[RSP_WORD] == mem[at..at + TRAP_WORDS][RSP_WORD];
    assert TrapWords(c, vector)[..15] == GeneralWords(c.general);
  }

  lemma NestedInner(mem: seq<int>, base: nat, top: nat, traps: seq<nat>)
    requires Nested(mem, base, top, traps) && traps != []
    ensures var k := |traps| - 1;
      && Nested(mem, base, top, traps[..k]) && base <= traps[k] && traps[k] + TRAP_WORDS <= |mem|
      && base <= mem[traps[k] + RSP_WORD] <= (if k == 0 then top else traps[k - 1])
  {
    var k := |traps| - 1;
    assert traps[k] + TRAP_WORDS <= mem[traps[k] + RSP_WORD];
  }

  lemma ReturnOk(s: System, step: Step)
    requires Inv(s) && Enabled(s, step) && step.Return?
    ensures StackOk(Apply(s, step), s.current)
  {
    hide GeneralOf, Poke, Nested;
    FloorFits(s, s.current);
    var st := s.stacks[s.current];
    NestedInner(s.mem, st.base, st.top, st.traps);
    var at := s.cpu.rsp;
    assert s.mem[at..at + TRAP_WORDS][RSP_WORD] == s.mem[at + RSP_WORD];
    assert Apply(s, step).cpu.rsp == s.mem[at + RSP_WORD];
    assert Apply(s, step).stacks[s.current] == st.(traps := st.traps[..|st.traps| - 1]);
  }

  lemma StackOkAfter(s: System, step: Step, i: nat)
    requires Inv(s) && Enabled(s, step) && i < |Apply(s, step).stacks|
    ensures StackOk(Apply(s, step), i)
  {
    hide Poke, SwitchWords, TrapWords;
    assert StackOk(s, i);
    FloorFits(s, s.current);
    if s.Live(i) {
      OthersOk(s, step, i);
      FloorFits(s, i);
      if step.Interrupt? && i == s.current {
        TrapNested(s, step);
      } else if step.Return? && i == s.current {
        ReturnOk(s, step);
      }
    } else {
      Footprint(s, step, 0, 0);
    }
  }

  /** Live stacks stay disjoint, and every stack pointer, current or saved, stays on its own stack
      below the frames that interrupts have left there. */
  lemma StepInv(s: System, step: Step)
    requires Inv(s) && Enabled(s, step)
    ensures Inv(Apply(s, step))
  {
    hide Poke, SwitchWords, TrapWords, StackOk;
    var s' := Apply(s, step);
    forall i | 0 <= i < |s'.stacks| ensures StackOk(s', i) {
      StackOkAfter(s, step, i);
    }
    forall i, j | 0 <= i < |s'.stacks| && 0 <= j < |s'.stacks| && i != j ensures Apart(s'.stacks[i], s'.stacks[j]) {
      assert Apart(s.stacks[i], s.stacks[j]);
    }
  }

  // ---- Runs ----

  ghost predicate Legal(s: System, step: Step, s': System) {
    Inv(s) ==> Enabled(s, step) && s' == Apply(s, step)
  }

  ghost predicate IsRun(states: seq<System>, steps: seq<Step>) {
    && |states| == |steps| + 1 && Inv(states[0])
    && forall k :: 0 <= k < |steps| ==> Legal(states[k], steps[k], states[k + 1])
  }

  lemma {:induction false} RunInv(states: seq<System>, steps: seq<Step>, k: nat)
    requires IsRun(states, steps) && k < |states|
    ensures Inv(states[k])
    ensures k < |steps| ==> Enabled(states[k], steps[k]) && states[k + 1] == Apply(states[k], steps[k])
  {
    hide Inv, Enabled, Apply;
    if k > 0 {
      RunInv(states, steps, k - 1);
      StepInv(states[k - 1], steps[k - 1]);
    }
    assert k < |steps| ==> Legal(states[k], steps[k], states[k + 1]);
  }

  lemma SameTrans(a: seq<int>, b: seq<int>, c: seq<int>, lo: int, mid: int, hi: int)
    requires Same(a, b, lo, hi) && Same(b, c, mid, hi) && lo <= mid
    ensures Same(a, c, mid, hi)
  {
  }

  /** A step that leaves task `i` suspended leaves everything it will need. */
  lemma StepSuspended(s: System, step: Step, i: nat)
    requires Inv(s) && Enabled(s, step) && s.Live(i) && i != s.current
    ensures var s' := Apply(s, step); s'.Live(i) && s'.stacks[i] == s.stacks[i] && i < |s.rsps|
    ensures var s' := Apply(s, step); i < |s'.rsps| && s'.rsps[i] == s.rsps[i]
    ensures Same(s.mem, Apply(s, step).mem, s.stacks[i].base, s.stacks[i].top)
  {
    StackFrozen(s, step, i);
  }

  lemma {:induction false} Suspended(states: seq<System>, steps: seq<Step>, i: nat, t: nat, u: nat)
    requires IsRun(states, steps) && t <= u < |states| && states[t].Live(i)
    requires forall k :: t <= k <= u ==> states[k].current != i
    ensures states[u].Live(i) && states[u].stacks[i] == states[t].stacks[i]
    ensures i < |states[t].rsps| && i < |states[u].rsps| && states[u].rsps[i] == states[t].rsps[i]
    ensures Same(states[t].mem, states[u].mem, states[t].stacks[i].base, states[t].stacks[i].top)
    decreases u - t
  {
    hide Enabled, Apply;
    RunInv(states, steps, t);
    if t == u {
      assert StackOk(states[t], i);
    } else {
      Suspended(states, steps, i, t, u - 1);
      RunInv(states, steps, u - 1);
      StepSuspended(states[u - 1], steps[u - 1], i);
    }
  }

  predicate SwitchesTo(step: Step, i: nat) {
    step == Switch(i) || step == Die(i)
  }

  lemma SwitchOut(s: System, step: Step)
    requires Inv(s) && Enabled(s, step) && step.Switch?
    ensures var s', i := Apply(s, step), s.current;
      && s'.Live(i) && s'.stacks[i] == s.stacks[i] && i < |s'.rsps| && s'.current != i
      && s'.rsps[i] == s.cpu.rsp - SWITCH_WORDS && Holds(s'.mem, s'.rsps[i], SwitchWords(s.cpu))
      && s.stacks[i].base <= s'.rsps[i] && s.cpu.rsp <= s.stacks[i].top
      && Same(s.mem, s'.mem, s.cpu.rsp, s.stacks[i].top)
  {
    hide Poke, SwitchWords, Loaded;
    FloorFits(s, s.current);
    PokeHolds(s.mem, s.cpu.rsp - SWITCH_WORDS, SwitchWords(s.cpu));
  }

  lemma LoadedSaved(c: Cpu, context: Cpu, rsp: int)
    ensures CalleeSaved(Loaded(c, SwitchWords(context), rsp)) == CalleeSaved(context.(rsp := rsp))
  {
  }

  lemma SwitchIn(s: System, step: Step, i: nat, context: Cpu)
    requires Inv(s) && Enabled(s, step) && SwitchesTo(step, i)
    requires i < |s.rsps| && Holds(s.mem, s.rsps[i], SwitchWords(context))
    ensures CalleeSaved(Apply(s, step).cpu) == CalleeSaved(context.(rsp := s.rsps[i] + SWITCH_WORDS))
  {
    hide Poke, SwitchWords, Loaded;
    FloorFits(s, i);
    StepSuspended(s, step, i);
    SameHolds(s.mem, Apply(s, step).mem, s.stacks[i].base, s.stacks[i].top, s.rsps[i], SwitchWords(context));
    LoadedSaved(s.cpu, context, s.rsps[i] + SWITCH_WORDS);
  }

  /** Saving a context is transparent over any run: when a task switched out by `switch_to` is next
      resumed, it sees `switch_to` return with its stack pointer, callee-saved registers and return
      address, and with its stack, exactly as they were. */
  lemma SwitchIsTransparent(states: seq<System>, steps: seq<Step>, i: nat, t: nat, u: nat)
    requires IsRun(states, steps) && t < u < |steps|
    requires steps[t].Switch? && states[t].current == i
    requires forall k :: t < k <= u ==> states[k].current != i
    requires SwitchesTo(steps[u], i)
    ensures states[t].Live(i) && states[u + 1].current == i
    ensures CalleeSaved(states[u + 1].cpu) == CalleeSaved(states[t].cpu)
    ensures states[u + 1].Live(i) && states[u + 1].stacks[i] == states[t].stacks[i]
    ensures Same(states[t].mem, states[u + 1].mem, states[t].cpu.rsp, states[t].stacks[i].top)
  {
    hide SwitchWords, StackOk;
    RunInv(states, steps, t);
    RunInv(states, steps, u);
    SwitchOut(states[t], steps[t]);
    Suspended(states, steps, i, t + 1, u);
    var st := states[t].stacks[i];
    SameHolds(states[t + 1].mem, states[u].mem, st.base, st.top, states[u].rsps[i], SwitchWords(states[t].cpu));
    SwitchIn(states[u], steps[u], i, states[t].cpu);
    StepSuspended(states[u], steps[u], i);
  }

  /** The first switch to a new task pops its prepared words and lands on its entry point. */
  lemma NewTaskStarts(states: seq<System>, steps: seq<Step>, slot: nat, top: nat, entry: int, t: nat, u: nat)
    requires IsRun(states, steps) && t < u < |steps|
    requires steps[t] == Spawn(slot, top, entry)
    requires forall k :: t < k <= u ==> states[k].current != slot
    requires SwitchesTo(steps[u], slot)
    ensures CalleeSaved(states[u + 1].cpu) == Callee(0, 0, 0, 0, 0, 0, top, entry)
  {
    hide SwitchWords, StackOk, Poke;
    RunInv(states, steps, t);
    RunInv(states, steps, u);
    PokeHolds(states[t].mem, top - SWITCH_WORDS, SwitchWords(Fresh(entry)));
    Suspended(states, steps, slot, t + 1, u);
    SameHolds(states[t + 1].mem, states[u].mem, top - STACK_PAGE_WORDS, top, top - SWITCH_WORDS,
              SwitchWords(Fresh(entry)));
    SwitchIn(states[u], steps[u], slot, Fresh(entry));
  }

  // ---- Interrupts ----

  /** More than `n` interrupts of task `i` are still being handled. */
  predicate Handling(s: System, i: nat, n: nat) {
    s.Live(i) && |s.stacks[i].traps| > n
  }

  predicate Depth(s: System, i: nat, n: nat) {
    s.Live(i) && |s.stacks[i].traps| == n
  }

  /** As long as that lasts, frame `n` and everything above it stay as they are. */
  lemma StepHandling(s: System, step: Step, i: nat, n: nat)
    requires Inv(s) && Enabled(s, step) && Handling(s, i, n) && Handling(Apply(s, step), i, n)
    ensures var a, b := s.stacks[i], Apply(s, step).stacks[i]; b.top == a.top && b.traps[..n + 1] == a.traps[..n + 1]
    ensures Same(s.mem, Apply(s, step).mem, s.stacks[i].traps[n], s.stacks[i].top)
  {
    hide Poke, SwitchWords, TrapWords;
    FloorFits(s, i);
    StackFrozen(s, step, i);
    NestedBelow(s.mem, s.stacks[i].base, s.stacks[i].top, s.stacks[i].traps, |s.stacks[i].traps|);
  }

  lemma {:induction false} StillHandling(states: seq<System>, steps: seq<Step>, i: nat, n: nat, t: nat, u: nat)
    requires IsRun(states, steps) && t <= u < |states|
    requires forall k :: t <= k <= u ==> Handling(states[k], i, n)
    ensures Handling(states[t], i, n) && Handling(states[u], i, n)
    ensures var a, b := states[t].stacks[i], states[u].stacks[i]; b.top == a.top && b.traps[..n + 1] == a.traps[..n + 1]
    ensures Same(states[t].mem, states[u].mem, states[t].stacks[i].traps[n], states[t].stacks[i].top)
    decreases u - t
  {
    hide Enabled, Apply;
    RunInv(states, steps, t);
    FloorFits(states[t], i);
    if t < u {
      StillHandling(states, steps, i, n, t, u - 1);
      RunInv(states, steps, u - 1);
      StepHandling(states[u - 1], steps[u - 1], i, n);
      assert states[u - 1].stacks[i].traps[n] == states[u - 1].stacks[i].traps[..n + 1][n];
      assert states[t].stacks[i].traps[n] == states[t].stacks[i].traps[..n + 1][n];
    }
  }

  lemma Entry(s: System, step: Step)
    requires Inv(s) && Enabled(s, step) && step.Interrupt?
    ensures var s', i := Apply(s, step), s.current;
      && s'.Live(i) && s'.stacks[i].top == s.stacks[i].top
      && s'.stacks[i].traps == s.stacks[i].traps + [TrapTop(s.cpu.rsp) - TRAP_WORDS]
      && Holds(s'.mem, TrapTop(s.cpu.rsp) - TRAP_WORDS, TrapWords(s.cpu, step.vector))
      && s.cpu.rsp <= s.stacks[i].top && Same(s.mem, s'.mem, s.cpu.rsp, s.stacks[i].top)
  {
    hide Poke, TrapWords;
    FloorFits(s, s.current);
    PokeHolds(s.mem, TrapTop(s.cpu.rsp) - TRAP_WORDS, TrapWords(s.cpu, step.vector));
  }

  /** The handler of an interrupt finds in rdi the address of the innermost frame on the running task's
      stack, a new one, with all that the interrupted code had in its registers. */
  lemma HandlerFindsFrame(s: System, vector: int)
    requires Inv(s) && Enabled(s, Interrupt(vector))
    ensures var s', traps := Apply(s, Interrupt(vector)), s.stacks[s.current].traps;
      && s'.Live(s.current) && s'.stacks[s.current].traps == traps + [s'.cpu.rsp]
      && s'.cpu.general.rdi == s'.cpu.rsp && FrameAt(s'.mem, s'.cpu.rsp, s.cpu, vector)
      && s'.cpu.rsp % 2 == 0 && s.cpu.rsp - 23 <= s'.cpu.rsp <= s.cpu.rsp - 22
      && s'.cpu.rflags / 512 % 2 == 0
  {
    hide Trapped, FrameAt;
    FloorFits(s, s.current);
    HandlerGetsFrame(s.cpu, s.mem, vector);
  }

  /** What `switch_to` leaves for a task's return: at its saved stack pointer r15, r14, r13, r12, rbx,
      rbp and the return address. */
  lemma SwitchLeavesContext(s: System, next: nat)
    requires Inv(s) && Enabled(s, Switch(next))
    ensures var s', g := Apply(s, Switch(next)), s.cpu.general;
      var at := s.cpu.rsp - 7;
      && s.current < |s'.rsps| && s'.rsps[s.current] == at && 0 <= at && at + 7 <= |s'.mem|
      && s'.mem[at..at + 7] == [g.r15, g.r14, g.r13, g.r12, g.rbx, g.rbp, s.cpu.rip]
  {
    hide Poke, Loaded;
    SwitchOut(s, Switch(next));
  }

  /** An interrupt is transparent over any run: whatever the handler does, be it switching to other
      tasks for any length of time or being interrupted itself, when it returns every register of
      the interrupted code, its instruction pointer, flags and stack pointer, and the stack it was
      using, are exactly as they were. */
  lemma InterruptIsTransparent(states: seq<System>, steps: seq<Step>, i: nat, n: nat, t: nat, u: nat)
    requires IsRun(states, steps) && t < u < |steps|
    requires steps[t].Interrupt? && states[t].current == i && Depth(states[t], i, n)
    requires forall k :: t < k <= u ==> Handling(states[k], i, n)
    requires steps[u].Return? && states[u].current == i && Depth(states[u], i, n + 1)
    ensures states[u + 1].cpu == states[t].cpu
    ensures states[u + 1].Live(i) && states[u + 1].stacks[i].traps == states[t].stacks[i].traps
    ensures Same(states[t].mem, states[u + 1].mem, states[t].cpu.rsp, states[t].stacks[i].top)
  {
    hide TrapWords, StackOk, Resumed;
    RunInv(states, steps, t);
    RunInv(states, steps, t + 1);
    RunInv(states, steps, u);
    Entry(states[t], steps[t]);
    StillHandling(states, steps, i, n, t + 1, u);
    var frame := TrapTop(states[t].cpu.rsp) - TRAP_WORDS;
    var words := TrapWords(states[t].cpu, steps[t].vector);
    assert states[u].stacks[i].traps == states[u].stacks[i].traps[..n + 1] == states[t].stacks[i].traps + [frame];
    FrameFits(states[t + 1], i, n);
    SameHolds(states[t + 1].mem, states[u].mem, frame, states[t].stacks[i].top, frame, words);
    TrapHoldsRsp(states[u].mem, frame, states[t].cpu, steps[t].vector);
    SameTrans(states[t].mem, states[t + 1].mem, states[u].mem,
              states[t].cpu.rsp, states[t].cpu.rsp, states[t].stacks[i].top);
  }

  lemma FrameFits(s: System, i: nat, n: nat)
    requires Inv(s) && Handling(s, i, n)
    ensures s.stacks[i].traps[n] + TRAP_WORDS <= s.stacks[i].top <= |s.mem|
  {
    assert StackOk(s, i);
    NestedBelow(s.mem, s.stacks[i].base, s.stacks[i].top, s.stacks[i].traps, |s.stacks[i].traps|);
  }
}
