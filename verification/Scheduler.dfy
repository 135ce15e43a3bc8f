/** The task table in place, and the kernel entry points that change it. */
module Scheduler {
  import opened Wrappers
  import opened PageBitmap
  import opened PhysicalPages
  import opened TaskTables

  /** The two lowest pages of a set, as two calls of `alloc_page` hand them out. */
  ghost predicate TwoLowest(free: set<nat>, p0: nat, p1: nat) {
    && p0 in free && p1 in free && p0 < p1
    && (forall p :: p in free ==> p0 <= p) && (forall p :: p in free && p != p0 ==> p1 <= p)
  }

  lemma LowestTwice(free: set<nat>, p0: nat, p1: nat)
    requires p0 in free && (forall p :: p in free ==> p0 <= p)
    requires p1 in free - {p0} && (forall p :: p in free - {p0} ==> p1 <= p)
    ensures TwoLowest(free, p0, p1)
  {
    assert forall p :: p in free && p != p0 ==> p in free - {p0};
  }

  /** The two stack pages of a new task are next to each other exactly when the page after the
      lowest free one is free too; the code never checks. */
  lemma StackContiguous(free: set<nat>, p0: nat, p1: nat)
    requires TwoLowest(free, p0, p1)
    ensures p1 == p0 + 1 <==> p0 + 1 in free
  {
  }

  /** `terminate` gives back the base page of a stack only. If that is then the lowest free page, the
      next task gets it as its base page, and a top page that is not the next one. */
  lemma HoleAfterRelease(free: set<nat>, base: nat, p0: nat, p1: nat)
    requires base !in free && base + 1 !in free && (forall p :: p in free ==> base < p)
    requires TwoLowest(free + {base}, p0, p1)
    ensures p0 == base && p1 > base + 1
  {
    assert p1 in free;
  }

  lemma NextReadyStep(tasks: seq<Task>, from: nat, d: nat)
    requires |tasks| == MAX_TASKS && from < MAX_TASKS && 1 <= d <= MAX_TASKS
    ensures NextReady(tasks, from, d) ==
      if tasks[SlotAt(from, d)].state == Ready then Some(SlotAt(from, d)) else NextReady(tasks, from, d + 1)
  {
  }

  class TaskTable {
    const tasks: array<Task>
    var current: nat
    var ticksOnCurrent: nat
    var nextPid: nat

    ghost function View(): Table
      reads this, tasks
    {
      Table(tasks[..], current, ticksOnCurrent, nextPid)
    }

    ghost predicate Valid()
      reads this, tasks
    {
      tasks.Length == MAX_TASKS && current < MAX_TASKS
    }

    /** The task table and the page bitmap are different memory. */
    ghost predicate Apart(pmm: Pmm)
      reads this, pmm
    {
      tasks as object != pmm.bitmap as object
    }

    /** The zeroed statics, and `init_tasks`. */
    constructor ()
      ensures Valid() && fresh(tasks) && View() == INITIAL_TABLE
      ensures current == ticksOnCurrent == 0 && nextPid == 1 && tasks[0] == Task(Running, 0, 0, 0, 0, 0, None, 0)
      ensures forall i :: 1 <= i < 32 ==> tasks[i].state == Empty
    {
      tasks := new Task[MAX_TASKS](_ => EMPTY_TASK);
      ticksOnCurrent := 0;
      current := 0;
      nextPid := 1;
      new;
      tasks[0] := tasks[0].(state := Running, pid := 0);
    }

    method AllocSlot() returns (r: Option<nat>)
      requires Valid()
      ensures r == FreeSlot(tasks[..], 0)
    {
      for i := 0 to MAX_TASKS
        invariant FreeSlot(tasks[..], 0) == FreeSlot(tasks[..], i)
      {
        if tasks[i].state == Empty {
          return Some(i);
        }
      }
      return None;
    }

    method FindPidSlot(pid: nat) returns (r: Option<nat>)
      requires Valid()
      ensures r == FindPid(tasks[..], pid, 0)
    {
      for i := 0 to MAX_TASKS
        invariant FindPid(tasks[..], pid, 0) == FindPid(tasks[..], pid, i)
      {
        if tasks[i].state != Empty && tasks[i].pid == pid {
          return Some(i);
        }
      }
      return None;
    }

    /** The scan of `schedule`. */
    method ScanForReady(curr: nat) returns (found: bool, next: nat)
      requires Valid() && curr < MAX_TASKS
      ensures NextReady(tasks[..], curr, 1) == if found then Some(next) else None
    {
      hide NextReady, SlotAt;
      next := (curr + 1) % MAX_TASKS;
      found := false;
      FirstSlot(curr);
      for k := 0 to MAX_TASKS
        invariant next < MAX_TASKS && !found
        invariant k < MAX_TASKS ==> next == SlotAt(curr, k + 1)
        invariant NextReady(tasks[..], curr, 1) == NextReady(tasks[..], curr, k + 1)
      {
        NextReadyStep(tasks[..], curr, k + 1);
        if tasks[next].state == Ready {
          found := true;
          return;
        }
        FollowingSlot(curr, k + 1);
        next := (next + 1) % MAX_TASKS;
      }
      NoneAfter(tasks[..], curr);
    }

    method RunScheduler()
      requires Valid()
      modifies this`current, this`ticksOnCurrent, tasks
      ensures Valid()
      ensures View() == Schedule(old(View()))
    {
      hide NextReady;
      var curr := current;
      if tasks[curr].state == Running {
        tasks[curr] := tasks[curr].(state := Ready);
      }
      var found, next := ScanForReady(curr);
      if !found {
        if tasks[curr].state != Running {
          tasks[curr] := tasks[curr].(state := Running);
        }
        return;
      }
      if next == curr {
        tasks[curr] := tasks[curr].(state := Running);
        return;
      }
      current := next;
      tasks[next] := tasks[next].(state := Running);
      ticksOnCurrent := 0;
    }

    lemma FirstSlot(from: nat)
      requires from < MAX_TASKS
      ensures (from + 1) % MAX_TASKS == SlotAt(from, 1)
    {
    }

    lemma FollowingSlot(from: nat, d: nat)
      requires from < MAX_TASKS && 1 <= d <= MAX_TASKS
      ensures d < MAX_TASKS ==> (SlotAt(from, d) + 1) % MAX_TASKS == SlotAt(from, d + 1)
    {
    }

    lemma NoneAfter(tasks: seq<Task>, from: nat)
      requires |tasks| == MAX_TASKS && from < MAX_TASKS
      ensures NextReady(tasks, from, MAX_TASKS + 1) == None
    {
    }

    method WakeSleepingTasks(tick: nat)
      requires Valid()
      modifies tasks
      ensures Valid() && View() == WakeSleepers(old(View()), tick)
    {
      for i := 0 to MAX_TASKS
        invariant forall k :: 0 <= k < i ==> tasks[k] == Wake(old(tasks[k]), tick)
        invariant forall k :: i <= k < MAX_TASKS ==> tasks[k] == old(tasks[k])
      {
        if tasks[i].state == Blocked && tasks[i].sleepUntil != 0 && tasks[i].sleepUntil <= tick {
          tasks[i] := tasks[i].(state := Ready);
          tasks[i] := tasks[i].(sleepUntil := 0);
        }
      }
      assert tasks[..] == WakeSleepers(old(View()), tick).tasks;
    }

    method OnTick(tick: nat)
      requires Valid()
      modifies this`current, this`ticksOnCurrent, tasks
      ensures Valid()
      ensures View() == Tick(old(View()), tick)
    {
      hide Schedule;
      WakeSleepingTasks(tick);
      tasks[current] := tasks[current].(ticksRun := tasks[current].ticksRun + 1);
      ticksOnCurrent := ticksOnCurrent + 1;
      assert View() == Charged(old(View()), tick);
      if ticksOnCurrent >= TIME_SLICE_TICKS {
        ticksOnCurrent := 0;
        RunScheduler();
      }
    }

    method YieldCpu()
      requires Valid()
      modifies this`current, this`ticksOnCurrent, tasks
      ensures Valid()
      ensures View() == Yield(old(View()))
    {
      hide Schedule;
      tasks[current] := tasks[current].(state := Ready);
      assert View() == old(View()).WithState(current, Ready);
      RunScheduler();
    }

    /** `task::block_until`. */
    method BlockUntil(slot: nat, wakeTick: nat)
      requires Valid() && slot < MAX_TASKS
      modifies tasks
      ensures tasks[..] == old(tasks[..])[slot := old(tasks[slot]).(state := Blocked, sleepUntil := wakeTick)]
    {
      tasks[slot] := tasks[slot].(state := Blocked);
      tasks[slot] := tasks[slot].(sleepUntil := wakeTick);
    }

    /** `readAt` is the tick count read before interrupts are turned off. The task is to be woken one tick
        after it for less than 10 ms, and as many whole ticks of 10 ms after it as `ms` has otherwise. */
    method SleepMs(readAt: nat, ms: nat) returns (r: Outcome<()>)
      requires Valid()
      modifies this`current, this`ticksOnCurrent, tasks
      ensures Valid()
      ensures r.Done? <==> SleepFits(readAt, ms)
      ensures View() == if r.Done? then Sleep(old(View()), WakeTick(readAt, ms)) else old(View())
      ensures r.Done? ==> var w := tasks[old(current)].sleepUntil;
        if ms < 10 then w == readAt + 1 else 10 * (w - readAt) <= ms < 10 * (w - readAt + 1)
    {
      hide Schedule;
      if ms * TICKS_PER_SECOND >= WORD_LIMIT {
        return Abort;    // the product overflows
      }
      var ticksToWait := ms * TICKS_PER_SECOND / 1000;
      var wakeAt := readAt + if ticksToWait > 1 then ticksToWait else 1;
      if wakeAt >= WORD_LIMIT {
        return Abort;    // the sum overflows
      }
      SleepLength(readAt, ms);
      BlockUntil(current, wakeAt);
      ScheduleKeepsTasks(View(), current);
      RunScheduler();
      return Done(());
    }

    /** The loop of `exit` over all slots. */
    method WakeWaiters(pid: nat, code: int)
      requires Valid()
      modifies tasks
      ensures tasks[..] == seq(MAX_TASKS, i requires 0 <= i < MAX_TASKS => WakeWaiter(old(tasks[..])[i], pid, code))
    {
      for i := 0 to MAX_TASKS
        invariant forall k :: 0 <= k < i ==> tasks[k] == WakeWaiter(old(tasks[k]), pid, code)
        invariant forall k :: i <= k < MAX_TASKS ==> tasks[k] == old(tasks[k])
      {
        if tasks[i].state == Blocked && tasks[i].waitForPid == Some(pid) {
          tasks[i] := tasks[i].(state := Ready);
          tasks[i] := tasks[i].(waitForPid := None);
          tasks[i] := tasks[i].(exitCode := code);
        }
      }
    }

    /** `exit`, up to its call of `schedule`; `terminate` gives back only the base page of the stack. */
    method TerminateCurrent(pmm: Pmm, code: int) returns (r: Outcome<()>)
      requires Valid() && pmm.Valid() && Apart(pmm)
      modifies tasks, pmm`freeCount, pmm`free, pmm.bitmap
      ensures Valid() && pmm.Valid()
      ensures var base := old(View()).Current().stackBase;
        && (r.Done? <==>
              base % PAGE_SIZE == 0 && base / PAGE_SIZE < pmm.totalPages && base / PAGE_SIZE !in old(pmm.free))
        && (r.Done? ==> View() == Terminate(old(View()), code) && pmm.free == old(pmm.free) + {base / PAGE_SIZE})
    {
      hide Pmm.Valid, WakeWaiter;
      var pid := tasks[current].pid;
      WakeKeepsStack(tasks[current], pid, code);
      WakeWaiters(pid, code);
      tasks[current] := tasks[current].(state := Terminated);
      tasks[current] := tasks[current].(exitCode := code);
      assert View() == Terminate(old(View()), code);
      r := pmm.FreePage(tasks[current].stackBase);
    }

    lemma WakeKeepsStack(t: Task, pid: nat, code: int)
      ensures WakeWaiter(t, pid, code).stackBase == t.stackBase
    {
    }

    method ExitCurrent(pmm: Pmm, code: int) returns (r: Outcome<()>)
      requires Valid() && pmm.Valid() && Apart(pmm)
      modifies this`current, this`ticksOnCurrent, tasks, pmm`freeCount, pmm`free, pmm.bitmap
      ensures Valid() && pmm.Valid()
      ensures var base := old(View()).Current().stackBase;
        && (r.Done? <==>
              base % PAGE_SIZE == 0 && base / PAGE_SIZE < pmm.totalPages && base / PAGE_SIZE !in old(pmm.free))
        && (r.Done? ==> View() == Exit(old(View()), code) && pmm.free == old(pmm.free) + {base / PAGE_SIZE})
    {
      hide Schedule, Terminate, Pmm.Valid;
      r := TerminateCurrent(pmm, code);
      if r.Done? {
        RunScheduler();
      }
    }

    /** One turn of the loop in `wait_for`: its result, or nothing while it has to go on waiting. */
    method WaitForTurn(pid: nat) returns (r: Option<int>)
      requires Valid()
      modifies this`current, this`ticksOnCurrent, tasks
      ensures Valid()
      ensures View() == Wait(old(View()), pid)
      ensures match WaitOutcome(old(View()), pid)
        case NoSuchTask => r == Some(-1)
        case Reaped(_, code) => r == Some(code)
        case MustWait => r == None
    {
      hide Schedule, FindPid;
      var slot := FindPidSlot(pid);
      if slot.None? {
        return Some(-1);
      }
      if tasks[slot.value].state == Terminated {
        var code := tasks[slot.value].exitCode;
        tasks[slot.value] := tasks[slot.value].(state := Empty);
        assert View() == old(View()).WithState(slot.value, Empty);
        return Some(code);
      }
      tasks[current] := tasks[current].(state := Blocked);
      tasks[current] := tasks[current].(waitForPid := Some(pid));
      assert tasks[..] == old(tasks[..])[current := old(tasks[current]).(state := Blocked, waitForPid := Some(pid))];
      RunScheduler();
      return None;
    }

    /** `new_kernel_task`: without a slot and two pages, nothing changes at all. */
    method NewKernelTask(pmm: Pmm, hhdm: nat) returns (r: Option<nat>, ghost p0: nat, ghost p1: nat)
      requires Valid() && pmm.Valid() && Apart(pmm)
      modifies this`nextPid, tasks, pmm`freeCount, pmm`free, pmm.bitmap
      ensures Valid() && pmm.Valid()
      ensures r.Some? <==> FreeSlot(old(tasks[..]), 0).Some? && |old(pmm.free)| >= 2
      ensures r.None? ==> View() == old(View()) && pmm.free == old(pmm.free) && pmm.bitmap[..] == old(pmm.bitmap[..])
      ensures r.Some? ==>
        && r.value == old(nextPid) && TwoLowest(old(pmm.free), p0, p1) && pmm.free == old(pmm.free) - {p0, p1}
        && View() == Create(old(View()), p0 * PAGE_SIZE, p1 * PAGE_SIZE + PAGE_SIZE + hhdm)
    {
      hide Pmm.Valid, FreeSlot, TwoLowest;
      p0, p1 := 0, 0;
      var slot := AllocSlot();
      if slot.None? {
        return None, p0, p1;
      }
      var pages := AllocStackPages(pmm);
      if pages.None? {
        return None, p0, p1;
      }
      var (phys0, phys1) := pages.value;
      p0, p1 := phys0 / PAGE_SIZE, phys1 / PAGE_SIZE;
      var stackVirtTop := phys1 + PAGE_SIZE + hhdm;
      var pid := nextPid;
      nextPid := nextPid + 1;
      tasks[slot.value] := Task(Ready, pid, phys0, stackVirtTop, 0, 0, None, 0);
      assert tasks[..] == old(tasks[..])[slot.value := Task(Ready, pid, phys0, stackVirtTop, 0, 0, None, 0)];
      return Some(pid), p0, p1;
    }

    /** The two page allocations of `new_kernel_task`; the first is undone when the second fails. */
    static method AllocStackPages(pmm: Pmm) returns (r: Option<(nat, nat)>)
      requires pmm.Valid()
      modifies pmm`freeCount, pmm`free, pmm.bitmap
      ensures pmm.Valid()
      ensures r.Some? <==> |old(pmm.free)| >= 2
      ensures r.None? ==> pmm.free == old(pmm.free) && pmm.bitmap[..] == old(pmm.bitmap[..])
      ensures r.Some? ==>
        && r.value.0 % PAGE_SIZE == 0 && r.value.1 % PAGE_SIZE == 0
        && TwoLowest(old(pmm.free), r.value.0 / PAGE_SIZE, r.value.1 / PAGE_SIZE)
        && pmm.free == old(pmm.free) - {r.value.0 / PAGE_SIZE, r.value.1 / PAGE_SIZE}
    {
      hide Pmm.Valid, MarkUsed, MarkFree, TwoLowest;
      FreeBits(pmm);
      var phys0 := pmm.AllocPage();
      if phys0.None? {
        return None;
      }
      ghost var p0 := phys0.value / PAGE_SIZE;
      var phys1 := pmm.AllocPage();
      if phys1.None? {
        var freed := pmm.FreePage(phys0.value);
        assert freed.Done?;
        return None;
      }
      LowestTwice(old(pmm.free), p0, phys1.value / PAGE_SIZE);
      return Some((phys0.value, phys1.value));
    }

    /** Taking a free page and giving it back restores the bitmap bytes. */
    static lemma FreeBits(pmm: Pmm)
      requires pmm.Valid()
      ensures forall p :: p in pmm.free ==> (
        && p < pmm.totalPages && p < 8 * pmm.bitmap.Length
        && MarkFree(MarkUsed(pmm.bitmap[..], p), p) == pmm.bitmap[..])
    {
      forall p | p in pmm.free
        ensures p < pmm.totalPages && p < 8 * pmm.bitmap.Length
          && MarkFree(MarkUsed(pmm.bitmap[..], p), p) == pmm.bitmap[..]
      {
        TakeThenRelease(pmm.bitmap[..], p);
      }
    }
  }
}
