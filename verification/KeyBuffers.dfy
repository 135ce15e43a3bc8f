/** The key ring buffer: filled by the keyboard interrupt, emptied by the shell. */
module KeyBuffers {
  import opened Wrappers

  const BUF_SIZE: nat := 256
  const CAPACITY: nat := BUF_SIZE - 1

  /** A queue that drops the newest byte when it holds CAPACITY bytes. */
  function Accept(queue: seq<bv8>, byte: bv8): seq<bv8> {
    if |queue| < CAPACITY then queue + [byte] else queue
  }

  function AcceptAll(queue: seq<bv8>, bytes: seq<bv8>): (r: seq<bv8>)
    ensures queue <= r && (|queue| <= CAPACITY ==> |r| <= CAPACITY)
  {
    if bytes == [] then queue
    else Accept(AcceptAll(queue, bytes[..|bytes| - 1]), bytes[|bytes| - 1])
  }

  /** Of many bytes the oldest are taken, as many as fit. */
  lemma {:induction false} AcceptAllTakes(queue: seq<bv8>, bytes: seq<bv8>)
    requires |queue| <= CAPACITY
    ensures AcceptAll(queue, bytes) ==
      queue + if |queue| + |bytes| <= CAPACITY then bytes else bytes[..CAPACITY - |queue|]
    decreases |bytes|
  {
    if bytes != [] {
      var n := |bytes| - 1;
      AcceptAllTakes(queue, bytes[..n]);
      assert bytes == bytes[..n] + [bytes[n]];
    }
  }

  lemma {:induction false} AcceptConcat(queue: seq<bv8>, a: seq<bv8>, b: seq<bv8>)
    ensures AcceptAll(AcceptAll(queue, a), b) == AcceptAll(queue, a + b)
    decreases |b|
  {
    if b == [] {
      assert a + b == a;
    } else {
      AcceptConcat(queue, a, b[..|b| - 1]);
      assert (a + b)[..|a + b| - 1] == a + b[..|b| - 1];
    }
  }

  /** The bytes of a ring from `tail` round to `head`, oldest first. */
  function Ring(b: seq<bv8>, head: nat, tail: nat): (q: seq<bv8>)
    requires |b| == BUF_SIZE && head < BUF_SIZE && tail < BUF_SIZE
    ensures |q| <= CAPACITY
    ensures q == [] <==> head == tail
    ensures q != [] ==> q[0] == b[tail]
  {
    if tail <= head then b[tail..head] else b[tail..] + b[..head]
  }

  lemma NextIndex(i: nat)
    requires i < BUF_SIZE
    ensures (i + 1) % BUF_SIZE == if i + 1 == BUF_SIZE then 0 else i + 1
  {
  }

  /** A push in a ring that does not wrap around. */
  lemma PushStraight(b: seq<bv8>, head: nat, tail: nat, byte: bv8)
    requires |b| == BUF_SIZE && tail <= head < BUF_SIZE - 1
    ensures Ring(b[head := byte], head + 1, tail) == Ring(b, head, tail) + [byte]
  {
    LastOfSlice(b, head, tail, byte);
  }

  /** A push in a ring that then wraps around. */
  lemma PushLast(b: seq<bv8>, tail: nat, byte: bv8)
    requires |b| == BUF_SIZE && 0 < tail < BUF_SIZE
    ensures Ring(b[BUF_SIZE - 1 := byte], 0, tail) == Ring(b, BUF_SIZE - 1, tail) + [byte]
  {
    LastOfSlice(b, BUF_SIZE - 1, tail, byte);
    var after := b[BUF_SIZE - 1 := byte];
    assert after[tail..] == after[tail..BUF_SIZE] && after[..0] == [];
  }

  lemma LastOfSlice(b: seq<bv8>, head: nat, tail: nat, byte: bv8)
    requires tail <= head < |b|
    ensures b[head := byte][tail..head + 1] == b[tail..head] + [byte]
  {
  }

  /** A push in a ring that wraps around. */
  lemma PushWrapped(b: seq<bv8>, head: nat, tail: nat, byte: bv8)
    requires |b| == BUF_SIZE && head < tail < BUF_SIZE && head + 1 != tail
    ensures Ring(b[head := byte], head + 1, tail) == Ring(b, head, tail) + [byte]
  {
    var after := b[head := byte];
    assert after[tail..] == b[tail..];
    assert after[..head + 1] == b[..head] + [byte];
    assert b[tail..] + (b[..head] + [byte]) == b[tail..] + b[..head] + [byte];
  }

  lemma RingPush(b: seq<bv8>, head: nat, tail: nat, byte: bv8)
    requires |b| == BUF_SIZE && head < BUF_SIZE && tail < BUF_SIZE
    ensures var next := (head + 1) % BUF_SIZE;
      if next == tail then |Ring(b, head, tail)| == CAPACITY
      else Ring(b[head := byte], next, tail) == Ring(b, head, tail) + [byte]
  {
    hide Ring;
    NextIndex(head);
    if (head + 1) % BUF_SIZE == tail {
      FullRing(b, head, tail);
    } else if head < tail {
      PushWrapped(b, head, tail, byte);
    } else if head + 1 == BUF_SIZE {
      PushLast(b, tail, byte);
    } else {
      PushStraight(b, head, tail, byte);
    }
  }

  lemma FullRing(b: seq<bv8>, head: nat, tail: nat)
    requires |b| == BUF_SIZE && head < BUF_SIZE && tail == (if head + 1 == BUF_SIZE then 0 else head + 1)
    ensures |Ring(b, head, tail)| == CAPACITY
  {
  }

  lemma RingPop(b: seq<bv8>, head: nat, tail: nat)
    requires |b| == BUF_SIZE && head < BUF_SIZE && tail < BUF_SIZE && head != tail
    ensures Ring(b, head, (tail + 1) % BUF_SIZE) == Ring(b, head, tail)[1..]
  {
    hide Ring;
    NextIndex(tail);
    if tail < head {
      PopStraight(b, head, tail);
    } else if tail + 1 == BUF_SIZE {
      PopLast(b, head);
    } else {
      PopWrapped(b, head, tail);
    }
  }

  lemma PopStraight(b: seq<bv8>, head: nat, tail: nat)
    requires |b| == BUF_SIZE && tail < head < BUF_SIZE
    ensures Ring(b, head, tail + 1) == Ring(b, head, tail)[1..]
  {
    assert b[tail..head][1..] == b[tail + 1..head];
  }

  lemma PopLast(b: seq<bv8>, head: nat)
    requires |b| == BUF_SIZE && head < BUF_SIZE - 1
    ensures Ring(b, head, 0) == Ring(b, head, BUF_SIZE - 1)[1..]
  {
    assert b[BUF_SIZE - 1..] == [b[BUF_SIZE - 1]];
    assert b[0..head] == b[..head];
  }

  lemma PopWrapped(b: seq<bv8>, head: nat, tail: nat)
    requires |b| == BUF_SIZE && head < tail < BUF_SIZE - 1
    ensures Ring(b, head, tail + 1) == Ring(b, head, tail)[1..]
  {
    RestOfTwo(b, b[..head], tail);
  }

  lemma RestOfTwo(b: seq<bv8>, c: seq<bv8>, tail: nat)
    requires tail < |b|
    ensures (b[tail..] + c)[1..] == b[tail + 1..] + c
  {
    assert b[tail..][1..] == b[tail + 1..];
  }

  class KeyBuffer {
    const buf: array<bv8>
    var head: nat
    var tail: nat

    ghost predicate Valid()
      reads this
    {
      buf.Length == BUF_SIZE && head < BUF_SIZE && tail < BUF_SIZE
    }

    /** The bytes waiting, oldest first. */
    ghost function Queue(): (q: seq<bv8>)
      requires Valid()
      reads this, buf
      ensures |q| <= CAPACITY
    {
      Ring(buf[..], head, tail)
    }

    constructor ()
      ensures Valid() && fresh(buf) && Queue() == []
    {
      buf := new bv8[BUF_SIZE](_ => 0);
      head, tail := 0, 0;
    }

    method Push(byte: bv8)
      requires Valid()
      modifies this`head, buf
      ensures Valid()
      ensures Queue() == Accept(old(Queue()), byte)
      ensures Queue() == if |old(Queue())| < 255 then old(Queue()) + [byte] else old(Queue())
      ensures old(Queue()) != [] ==> buf[tail] == old(buf[tail])
    {
      hide Ring;
      RingPush(buf[..], head, tail, byte);
      var next := (head + 1) % BUF_SIZE;
      if next != tail {
        assert tail != head || Queue() == [];
        buf[head] := byte;
        assert buf[..] == old(buf[..])[head := byte];
        head := next;
      }
    }

    method Pop() returns (r: Option<bv8>)
      requires Valid()
      modifies this`tail
      ensures Valid()
      ensures if old(Queue()) == [] then r == None && Queue() == []
              else r == Some(old(Queue())[0]) && Queue() == old(Queue())[1..]
    {
      hide Ring;
      if head == tail {
        return None;
      }
      RingPop(buf[..], head, tail);
      var b := buf[tail];
      tail := (tail + 1) % BUF_SIZE;
      return Some(b);
    }

    method IsEmpty() returns (empty: bool)
      requires Valid()
      ensures empty <==> Queue() == []
    {
      empty := head == tail;
    }

    /** The keyboard interrupt handler running some number of times. */
    method Interrupts(bytes: seq<bv8>)
      requires Valid()
      modifies this`head, buf
      ensures Valid()
      ensures Queue() == AcceptAll(old(Queue()), bytes)
      ensures old(Queue()) != [] ==> Queue() != [] && buf[tail] == old(buf[tail])
    {
      for i := 0 to |bytes|
        invariant Valid()
        invariant Queue() == AcceptAll(old(Queue()), bytes[..i])
        invariant old(Queue()) != [] ==> Queue() != [] && buf[tail] == old(buf[tail])
      {
        Push(bytes[i]);
        assert bytes[..i + 1][..i] == bytes[..i];
      }
      assert bytes[..|bytes|] == bytes;
    }

    /** `pop` with interrupts between any two of its accesses to the fields: it behaves as if it ran
        at once, after all of the interrupts if it finds a byte and before them if it does not. */
    method PopInterrupted(g1: seq<bv8>, g2: seq<bv8>, g3: seq<bv8>, g4: seq<bv8>, g5: seq<bv8>)
      returns (r: Option<bv8>)
      requires Valid()
      modifies this`head, this`tail, buf
      ensures Valid()
      ensures if old(Queue()) == [] then r == None && Queue() == AcceptAll([], g1)
              else r == Some(old(Queue())[0]) && Queue() == AcceptAll(old(Queue()), g1 + g2 + g3 + g4 + g5)[1..]
    {
      hide Queue, AcceptAll;
      ghost var q := Queue();
      Front();
      var h := head;
      Interrupts(g1);
      var t := tail;
      if h == t {
        return None;
      }
      Interrupts(g2);
      var index := tail;
      Interrupts(g3);
      Front();
      var b := buf[index];
      Interrupts(g4);
      var last := tail;
      Interrupts(g5);
      AcceptFive(q, g1, g2, g3, g4, g5);
      Front();
      Advance(last);
      return Some(b);
    }

    /** Any run of presses and interrupted pops on the ring itself: the bytes it hands out and the
        ones it holds are those that `FirstInFirstOut` is about. */
    method Run(events: seq<KeyEvent>) returns (out: seq<bv8>)
      requires Valid() && Queue() == []
      modifies this`head, this`tail, buf
      ensures Valid()
      ensures Queue() == AfterEvents(events).queue && out == AfterEvents(events).popped
      ensures out + Queue() == AfterEvents(events).accepted
    {
      hide Queue, AcceptAll;
      out := [];
      for i := 0 to |events|
        invariant Valid()
        invariant Queue() == AfterEvents(events[..i]).queue && out == AfterEvents(events[..i]).popped
      {
        assert events[..i + 1][..i] == events[..i];
        match events[i] {
          case Pressed(byte) =>
            OnePress(AfterEvents(events[..i]), byte);
            Push(byte);
          case Popped(g1, g2, g3, g4, g5) =>
            var r := PopInterrupted(g1, g2, g3, g4, g5);
            NonEmptyStays(AfterEvents(events[..i]).queue, g1 + g2 + g3 + g4 + g5);
            if r.Some? {
              out := out + [r.value];
            }
        }
      }
      assert events[..|events|] == events;
      FirstInFirstOut(events);
    }

    lemma Front()
      requires Valid()
      ensures Queue() == [] <==> head == tail
      ensures Queue() != [] ==> Queue()[0] == buf[tail]
    {
    }

    /** The last store of `pop`. */
    method Advance(last: nat)
      requires Valid() && Queue() != [] && last == tail
      modifies this`tail
      ensures Valid() && Queue() == old(Queue())[1..]
    {
      hide Ring;
      RingPop(buf[..], head, tail);
      tail := (last + 1) % BUF_SIZE;
    }
  }

  lemma NonEmptyStays(queue: seq<bv8>, bytes: seq<bv8>)
    ensures queue != [] ==> AcceptAll(queue, bytes) != [] && AcceptAll(queue, bytes)[0] == queue[0]
  {
  }

  lemma AcceptFive(q: seq<bv8>, g1: seq<bv8>, g2: seq<bv8>, g3: seq<bv8>, g4: seq<bv8>, g5: seq<bv8>)
    ensures AcceptAll(AcceptAll(AcceptAll(AcceptAll(AcceptAll(q, g1), g2), g3), g4), g5)
      == AcceptAll(q, g1 + g2 + g3 + g4 + g5)
  {
    hide AcceptAll;
    AcceptConcat(q, g1, g2);
    AcceptConcat(q, g1 + g2, g3);
    AcceptConcat(q, g1 + g2 + g3, g4);
    AcceptConcat(q, g1 + g2 + g3 + g4, g5);
  }

  // ----- whole runs -----

  /** A key press, or a `pop` with the bytes pressed between its accesses to the fields. */
  datatype KeyEvent =
    | Pressed(byte: bv8)
    | Popped(g1: seq<bv8>, g2: seq<bv8>, g3: seq<bv8>, g4: seq<bv8>, g5: seq<bv8>)

  /** What is waiting, what was accepted so far and what was handed out so far. */
  datatype KeyState = KeyState(queue: seq<bv8>, accepted: seq<bv8>, popped: seq<bv8>)
  {
    function Press(bytes: seq<bv8>): KeyState {
      var after := AcceptAll(queue, bytes);
      KeyState(after, accepted + after[|queue|..], popped)
    }

    function Pop(): KeyState {
      if queue == [] then this else KeyState(queue[1..], accepted, popped + [queue[0]])
    }
  }

  function AfterEvents(events: seq<KeyEvent>): KeyState {
    if events == [] then KeyState([], [], [])
    else
      var s := AfterEvents(events[..|events| - 1]);
      match events[|events| - 1]
      case Pressed(byte) => s.Press([byte])
      case Popped(g1, g2, g3, g4, g5) =>
        if s.queue == [] then s.Press(g1) else s.Press(g1 + g2 + g3 + g4 + g5).Pop()
  }

  lemma PressKeeps(s: KeyState, bytes: seq<bv8>)
    requires s.popped + s.queue == s.accepted && |s.queue| <= CAPACITY
    ensures var r := s.Press(bytes); r.popped + r.queue == r.accepted && |r.queue| <= CAPACITY
  {
    hide AcceptAll;
    var after := AcceptAll(s.queue, bytes);
    assert after == s.queue + after[|s.queue|..];
    assert s.popped + after == s.popped + s.queue + after[|s.queue|..];
  }

  lemma PopKeeps(s: KeyState)
    requires s.popped + s.queue == s.accepted
    ensures s.Pop().popped + s.Pop().queue == s.accepted
  {
    if s.queue != [] {
      assert s.popped + [s.queue[0]] + s.queue[1..] == s.popped + s.queue;
    }
  }

  /** Bytes come out in the order they were accepted, none lost and none twice, over every run. */
  lemma {:induction false} FirstInFirstOut(events: seq<KeyEvent>)
    ensures var s := AfterEvents(events);
      s.popped + s.queue == s.accepted && |s.queue| <= CAPACITY
  {
    if events != [] {
      FirstInFirstOut(events[..|events| - 1]);
      var s := AfterEvents(events[..|events| - 1]);
      match events[|events| - 1]
      case Pressed(byte) => PressKeeps(s, [byte]);
      case Popped(g1, g2, g3, g4, g5) =>
        PressKeeps(s, g1);
        PressKeeps(s, g1 + g2 + g3 + g4 + g5);
        PopKeeps(s.Press(g1 + g2 + g3 + g4 + g5));
    }
  }

  lemma OnePress(s: KeyState, byte: bv8)
    ensures s.Press([byte]).queue == Accept(s.queue, byte) && s.Press([byte]).popped == s.popped
  {
    assert AcceptAll(s.queue, []) == s.queue;
  }
}
