/** The machine code that saves and loads contexts. Addresses count 8-byte words. */
module ContextSwitch {

  datatype General = General(
    rax: int, rbx: int, rcx: int, rdx: int, rsi: int, rdi: int, rbp: int,
    r8: int, r9: int, r10: int, r11: int, r12: int, r13: int, r14: int, r15: int)

  datatype Cpu = Cpu(general: General, rip: int, cs: int, rflags: int, rsp: int, ss: int)

  /** What the calling convention obliges a callee to give back. */
  datatype Callee = Callee(rbx: int, rbp: int, r12: int, r13: int, r14: int, r15: int, rsp: int, rip: int)

  function CalleeSaved(c: Cpu): Callee {
    var g := c.general;
    Callee(g.rbx, g.rbp, g.r12, g.r13, g.r14, g.r15, c.rsp, c.rip)
  }

  const SWITCH_WORDS := 7
  const TRAP_WORDS := 22
  const STACK_PAGE_WORDS := 512

  /** The words `switch_to` leaves on a stack, lowest address first. */
  function SwitchWords(c: Cpu): (words: seq<int>)
    ensures |words| == SWITCH_WORDS
  {
    var g := c.general;
    [g.r15, g.r14, g.r13, g.r12, g.rbx, g.rbp, c.rip]
  }

  /** The processor after `switch_to` has taken those words off the stack again. */
  function Loaded(c: Cpu, words: seq<int>, rsp: int): Cpu
    requires |words| == SWITCH_WORDS
  {
    c.(general := c.general.(r15 := words[0], r14 := words[1], r13 := words[2], r12 := words[3],
                             rbx := words[4], rbp := words[5]),
       rip := words[6], rsp := rsp)
  }

  function GeneralWords(g: General): (words: seq<int>)
    ensures |words| == 15
  {
    HighWords(g) + LowWords(g)
  }

  function HighWords(g: General): (words: seq<int>)
    ensures |words| == 8
  {
    [g.r15, g.r14, g.r13, g.r12, g.r11, g.r10, g.r9, g.r8]
  }

  function LowWords(g: General): (words: seq<int>)
    ensures |words| == 7
  {
    [g.rbp, g.rdi, g.rsi, g.rdx, g.rcx, g.rbx, g.rax]
  }

  function GeneralOf(words: seq<int>): General
    requires |words| == 15
  {
    General(words[14], words[13], words[12], words[11], words[10], words[9], words[8],
            words[7], words[6], words[5], words[4], words[3], words[2], words[1], words[0])
  }

  /** The fields of `InterruptFrame` in the order of its declaration. */
  function TrapWords(c: Cpu, vector: int): (words: seq<int>)
    ensures |words| == TRAP_WORDS
  {
    GeneralWords(c.general) + [vector, 0, c.rip, c.cs, c.rflags, c.rsp, c.ss]
  }

  /** The processor that a trap frame describes. */
  function Resumed(words: seq<int>): Cpu
    requires |words| == TRAP_WORDS
  {
    Cpu(GeneralOf(words[..15]), words[17], words[18], words[19], words[20], words[21])
  }

  /** Delivery through an interrupt gate clears the interrupt flag, bit 9. */
  function MaskInterrupts(rflags: int): int {
    if rflags / 512 % 2 == 1 then rflags - 512 else rflags
  }

  /** The processor aligns the stack to 16 bytes before it pushes an interrupt frame. */
  function TrapTop(rsp: int): int { rsp - rsp % 2 }

  /** Any processor state with a new task's registers. */
  function Fresh(entry: int): Cpu {
    Cpu(General(0, 0, 0, 0, 0, 0, 0, 0, 0, 0, 0, 0, 0, 0, 0), entry, 0, 0, 0, 0)
  }

  function Poke(mem: seq<int>, at: nat, words: seq<int>): seq<int>
    requires at + |words| <= |mem|
  {
    mem[..at] + words + mem[at + |words|..]
  }

  ghost predicate Holds(mem: seq<int>, at: int, words: seq<int>) {
    0 <= at && at + |words| <= |mem| && mem[at..at + |words|] == words
  }

  /** No word in [lo, hi) differs. */
  ghost predicate Same(mem: seq<int>, now: seq<int>, lo: int, hi: int) {
    0 <= lo && hi <= |mem| == |now| && forall a :: lo <= a < hi ==> now[a] == mem[a]
  }

  lemma PokeHolds(mem: seq<int>, at: nat, words: seq<int>)
    requires at + |words| <= |mem|
    ensures |Poke(mem, at, words)| == |mem| && Holds(Poke(mem, at, words), at, words)
    ensures Same(mem, Poke(mem, at, words), 0, at)
    ensures Same(mem, Poke(mem, at, words), at + |words|, |mem|)
  {
  }

  lemma SameHolds(mem: seq<int>, now: seq<int>, lo: int, hi: int, at: int, words: seq<int>)
    requires Same(mem, now, lo, hi) && Holds(mem, at, words) && lo <= at && at + |words| <= hi
    ensures Holds(now, at, words)
  {
  }

  /** The effect of `switch_to`: the outgoing task's words end below its stack pointer, the
      incoming task's are taken from above its saved one. */
  function Switched(cpu: Cpu, mem: seq<int>, rsps: seq<int>, curr: nat, next: nat): (Cpu, seq<int>, seq<int>)
    requires SWITCH_WORDS <= cpu.rsp <= |mem| && curr < |rsps| && next < |rsps| && curr != next
    requires 0 <= rsps[next] && rsps[next] + SWITCH_WORDS <= |mem|
  {
    var at := cpu.rsp - SWITCH_WORDS;
    var mem1 := Poke(mem, at, SwitchWords(cpu));
    PokeHolds(mem, at, SwitchWords(cpu));
    (Loaded(cpu, mem1[rsps[next]..rsps[next] + SWITCH_WORDS], rsps[next] + SWITCH_WORDS), mem1, rsps[curr := at])
  }

  /** The effect of an interrupt: the frame ends below the aligned stack pointer, and the handler
      gets its address and runs with interrupts masked. */
  function Trapped(cpu: Cpu, mem: seq<int>, vector: int): (Cpu, seq<int>)
    requires TRAP_WORDS + 1 <= cpu.rsp <= |mem|
  {
    var at := TrapTop(cpu.rsp) - TRAP_WORDS;
    (cpu.(rsp := at, general := cpu.general.(rdi := at), rflags := MaskInterrupts(cpu.rflags)),
     Poke(mem, at, TrapWords(cpu, vector)))
  }

  /** The interrupt frame of a processor state, from its address on: r15 down to rax, the vector, an
      error code of 0, and the interrupted rip, cs, rflags, rsp and ss. */
  ghost predicate FrameAt(mem: seq<int>, at: int, c: Cpu, vector: int) {
    var g := c.general;
    Holds(mem, at, [g.r15, g.r14, g.r13, g.r12, g.r11, g.r10, g.r9, g.r8, g.rbp, g.rdi, g.rsi, g.rdx, g.rcx, g.rbx,
                    g.rax, vector, 0, c.rip, c.cs, c.rflags, c.rsp, c.ss])
  }

  lemma FrameHeld(mem: seq<int>, at: int, c: Cpu, vector: int)
    requires Holds(mem, at, TrapWords(c, vector))
    ensures FrameAt(mem, at, c, vector)
  {
    hide Holds;
    var g := c.general;
    assert TrapWords(c, vector) == [
      g.r15, g.r14, g.r13, g.r12, g.r11, g.r10, g.r9, g.r8, g.rbp, g.rdi, g.rsi, g.rdx, g.rcx, g.rbx,
      g.rax, vector, 0, c.rip, c.cs, c.rflags, c.rsp, c.ss];
  }

  /** The handler is called with the address of the frame in rdi, which is where the stack pointer is;
      the frame ends on the 16-byte boundary at or just below the interrupted stack pointer, and
      interrupts are off. */
  lemma HandlerGetsFrame(cpu: Cpu, mem: seq<int>, vector: int)
    requires 23 <= cpu.rsp <= |mem|
    ensures var (now, mem') := Trapped(cpu, mem, vector);
      && now.general.rdi == now.rsp && FrameAt(mem', now.general.rdi, cpu, vector)
      && (now.rsp + 22) % 2 == 0 && cpu.rsp - 1 <= now.rsp + 22 <= cpu.rsp
      && now.rflags / 512 % 2 == 0 && (now.rflags == cpu.rflags || now.rflags == cpu.rflags - 512)
  {
    hide TrapWords, Poke, FrameAt, Holds, Same, MaskInterrupts;
    var at := TrapTop(cpu.rsp) - TRAP_WORDS;
    Masked(cpu.rflags);
    PokeHolds(mem, at, TrapWords(cpu, vector));
    FrameHeld(Poke(mem, at, TrapWords(cpu, vector)), at, cpu, vector);
  }

  lemma Masked(rflags: int)
    ensures MaskInterrupts(rflags) / 512 % 2 == 0
    ensures MaskInterrupts(rflags) == rflags || MaskInterrupts(rflags) == rflags - 512
  {
  }

  lemma PokeOneMore(mem: seq<int>, at: nat, v: int, words: seq<int>)
    requires 0 < at && at + |words| <= |mem|
    ensures Poke(mem, at, words)[at - 1 := v] == Poke(mem, at - 1, [v] + words)
  {
  }

  /** A processor with its stack memory and the saved stack pointers of the task slots. */
  class Processor {
    var general: General
    var rip: int
    var cs: int
    var rflags: int
    var rsp: int
    var ss: int
    const mem: array<int>
    const rsps: array<int>

    ghost function View(): Cpu
      reads this
    {
      Cpu(general, rip, cs, rflags, rsp, ss)
    }

    constructor (cpu: Cpu, size: nat, slots: nat)
      ensures View() == cpu && mem.Length == size && rsps.Length == slots && fresh(mem) && fresh(rsps)
    {
      general, rip, cs, rflags, rsp, ss := cpu.general, cpu.rip, cpu.cs, cpu.rflags, cpu.rsp, cpu.ss;
      mem := new int[size];
      rsps := new int[slots];
    }

    /** `was` and `words` say what has been pushed so far: `words`, onto the memory `was`. */
    method Push(v: int, ghost was: seq<int>, ghost words: seq<int>) returns (ghost pushed: seq<int>)
      requires mem != rsps && 0 < rsp && rsp + |words| <= |was|
      requires mem[..] == Poke(was, rsp, words)
      modifies this`rsp, mem
      ensures rsp == old(rsp) - 1 && pushed == [v] + words
      ensures rsp + |pushed| <= |was| && mem[..] == Poke(was, rsp, pushed)
    {
      PokeOneMore(was, rsp, v, words);
      rsp := rsp - 1;
      mem[rsp] := v;
      pushed := [v] + words;
    }

    method Pop() returns (v: int)
      requires 0 <= rsp < mem.Length
      modifies this`rsp
      ensures v == mem[old(rsp)] && rsp == old(rsp) + 1
    {
      v := mem[rsp];
      rsp := rsp + 1;
    }

    /** The call to `switch_to` and its body up to the new stack pointer. */
    method SaveContext(curr: nat)
      requires mem != rsps && SWITCH_WORDS <= rsp <= mem.Length && curr < rsps.Length
      modifies this`rsp, mem, rsps
      ensures rsp == old(rsp) - SWITCH_WORDS
      ensures mem[..] == Poke(old(mem[..]), rsp, SwitchWords(old(View())))
      ensures rsps[..] == old(rsps[..])[curr := rsp]
    {
      hide Poke;
      ghost var was, words: seq<int> := mem[..], [];
      PokeNothing(was, rsp);
      words := Push(rip, was, words);
      words := Push(general.rbp, was, words);
      words := Push(general.rbx, was, words);
      words := Push(general.r12, was, words);
      words := Push(general.r13, was, words);
      words := Push(general.r14, was, words);
      words := Push(general.r15, was, words);
      assert words == SwitchWords(old(View()));
      rsps[curr] := rsp;
    }

    /** The rest of `switch_to`: take over the next task's stack and return on it. */
    method LoadContext(next: nat)
      requires next < rsps.Length && 0 <= rsps[next] && rsps[next] + SWITCH_WORDS <= mem.Length
      modifies this
      ensures View() == Loaded(old(View()), mem[rsps[next]..rsps[next] + SWITCH_WORDS], rsps[next] + SWITCH_WORDS)
    {
      rsp := rsps[next];
      var r15 := Pop();
      var r14 := Pop();
      var r13 := Pop();
      var r12 := Pop();
      var rbx := Pop();
      var rbp := Pop();
      general := general.(r15 := r15, r14 := r14, r13 := r13, r12 := r12, rbx := rbx, rbp := rbp);
      rip := Pop();
    }

    method SwitchTo(curr: nat, next: nat)
      requires mem != rsps && SWITCH_WORDS <= rsp <= mem.Length
      requires curr < rsps.Length && next < rsps.Length && curr != next
      requires 0 <= rsps[next] && rsps[next] + SWITCH_WORDS <= mem.Length
      modifies this, mem, rsps
      ensures (View(), mem[..], rsps[..]) == Switched(old(View()), old(mem[..]), old(rsps[..]), curr, next)
    {
      hide SwitchWords, Poke;
      SaveContext(curr);
      LoadContext(next);
    }

    /** What the processor itself does on delivery of an interrupt, and the vector's own stub. */
    method Deliver(vector: int, ghost was: seq<int>) returns (ghost words: seq<int>)
      requires mem != rsps && 8 <= rsp <= mem.Length && was == mem[..]
      modifies this`rsp, this`rflags, mem
      ensures words == [vector, 0, rip, cs, old(rflags), old(rsp), ss]
      ensures rflags == MaskInterrupts(old(rflags)) && rsp == TrapTop(old(rsp)) - 7
      ensures mem[..] == Poke(was, rsp, words)
    {
      hide Poke;
      words := [];
      var interrupted := rsp;
      rsp := TrapTop(rsp);
      PokeNothing(was, rsp);
      words := Push(ss, was, words);
      words := Push(interrupted, was, words);
      words := Push(rflags, was, words);
      words := Push(cs, was, words);
      words := Push(rip, was, words);
      rflags := MaskInterrupts(rflags);
      words := Push(0, was, words);
      words := Push(vector, was, words);
    }

    method PushLow(ghost was: seq<int>, ghost words: seq<int>) returns (ghost pushed: seq<int>)
      requires mem != rsps && 7 <= rsp && rsp + |words| <= |was| && mem[..] == Poke(was, rsp, words)
      modifies this`rsp, mem
      ensures rsp == old(rsp) - 7 && pushed == LowWords(general) + words
      ensures mem[..] == Poke(was, rsp, pushed)
    {
      hide Poke;
      pushed := Push(general.rax, was, words);
      pushed := Push(general.rbx, was, pushed);
      pushed := Push(general.rcx, was, pushed);
      pushed := Push(general.rdx, was, pushed);
      pushed := Push(general.rsi, was, pushed);
      pushed := Push(general.rdi, was, pushed);
      pushed := Push(general.rbp, was, pushed);
    }

    method PushHigh(ghost was: seq<int>, ghost words: seq<int>) returns (ghost pushed: seq<int>)
      requires mem != rsps && 8 <= rsp && rsp + |words| <= |was| && mem[..] == Poke(was, rsp, words)
      modifies this`rsp, mem
      ensures rsp == old(rsp) - 8 && pushed == HighWords(general) + words
      ensures mem[..] == Poke(was, rsp, pushed)
    {
      hide Poke;
      pushed := Push(general.r8, was, words);
      pushed := Push(general.r9, was, pushed);
      pushed := Push(general.r10, was, pushed);
      pushed := Push(general.r11, was, pushed);
      pushed := Push(general.r12, was, pushed);
      pushed := Push(general.r13, was, pushed);
      pushed := Push(general.r14, was, pushed);
      pushed := Push(general.r15, was, pushed);
    }

    /** Delivery of interrupt `vector`, its stub and `common_stub` up to the call of the handler. */
    method EnterHandler(vector: int)
      requires mem != rsps && TRAP_WORDS + 1 <= rsp <= mem.Length
      modifies this, mem
      ensures (View(), mem[..]) == Trapped(old(View()), old(mem[..]), vector)
      ensures general.rdi == rsp && FrameAt(mem[..], rsp, old(View()), vector)
      ensures rsp % 2 == 0 && old(rsp) - 23 <= rsp <= old(rsp) - 22 && rflags / 512 % 2 == 0
    {
      hide Poke, HighWords, LowWords, FrameAt;
      HandlerGetsFrame(View(), mem[..], vector);
      ghost var was := mem[..];
      ghost var words := Deliver(vector, was);
      words := PushLow(was, words);
      words := PushHigh(was, words);
      assert words == TrapWords(old(View()), vector);
      general := general.(rdi := rsp);
    }

    method PopGeneral()
      requires 0 <= rsp && rsp + 15 <= mem.Length
      modifies this`rsp, this`general
      ensures rsp == old(rsp) + 15 && general == GeneralOf(mem[old(rsp)..old(rsp) + 15])
    {
      PopHigh();
      PopLow();
    }

    method PopHigh()
      requires 0 <= rsp && rsp + 8 <= mem.Length
      modifies this`rsp, this`general
      ensures rsp == old(rsp) + 8 && general == old(general).(
        r15 := mem[old(rsp)], r14 := mem[old(rsp) + 1], r13 := mem[old(rsp) + 2], r12 := mem[old(rsp) + 3],
        r11 := mem[old(rsp) + 4], r10 := mem[old(rsp) + 5], r9 := mem[old(rsp) + 6], r8 := mem[old(rsp) + 7])
    {
      var r15 := Pop();
      var r14 := Pop();
      var r13 := Pop();
      var r12 := Pop();
      var r11 := Pop();
      var r10 := Pop();
      var r9 := Pop();
      var r8 := Pop();
      general := general.(r15 := r15, r14 := r14, r13 := r13, r12 := r12, r11 := r11, r10 := r10, r9 := r9, r8 := r8);
    }

    method PopLow()
      requires 0 <= rsp && rsp + 7 <= mem.Length
      modifies this`rsp, this`general
      ensures rsp == old(rsp) + 7 && general == old(general).(
        rbp := mem[old(rsp)], rdi := mem[old(rsp) + 1], rsi := mem[old(rsp) + 2], rdx := mem[old(rsp) + 3],
        rcx := mem[old(rsp) + 4], rbx := mem[old(rsp) + 5], rax := mem[old(rsp) + 6])
    {
      var rbp := Pop();
      var rdi := Pop();
      var rsi := Pop();
      var rdx := Pop();
      var rcx := Pop();
      var rbx := Pop();
      var rax := Pop();
      general := general.(rbp := rbp, rdi := rdi, rsi := rsi, rdx := rdx, rcx := rcx, rbx := rbx, rax := rax);
    }

    /** `common_stub` after the handler has returned: restore, discard vector and error code, `iretq`. */
    method LeaveHandler()
      requires 0 <= rsp && rsp + TRAP_WORDS <= mem.Length
      modifies this
      ensures View() == Resumed(mem[old(rsp)..old(rsp) + TRAP_WORDS])
    {
      hide GeneralOf;
      ghost var words := mem[rsp..rsp + TRAP_WORDS];
      PopGeneral();
      assert words[..15] == mem[old(rsp)..old(rsp) + 15];
      rsp := rsp + 2;
      rip := Pop();
      cs := Pop();
      rflags := Pop();
      var interrupted := Pop();
      ss := Pop();
      rsp := interrupted;
    }

    /** The seven words a new task's first switch takes off its stack. */
    method SetupInitialStack(top: nat, entry: int) returns (rsp: nat)
      requires SWITCH_WORDS <= top <= mem.Length
      modifies mem
      ensures rsp == top - SWITCH_WORDS && mem[..] == Poke(old(mem[..]), rsp, SwitchWords(Fresh(entry)))
    {
      rsp := top - SWITCH_WORDS;
      mem[rsp], mem[rsp + 1], mem[rsp + 2] := 0, 0, 0;
      mem[rsp + 3], mem[rsp + 4], mem[rsp + 5] := 0, 0, 0;
      mem[rsp + 6] := entry;
      assert mem[rsp..top] == SwitchWords(Fresh(entry));
      assert mem[..] == mem[..rsp] + mem[rsp..top] + mem[top..];
    }
  }

  lemma PokeNothing(mem: seq<int>, at: nat)
    requires at <= |mem|
    ensures Poke(mem, at, []) == mem
  {
  }
}
