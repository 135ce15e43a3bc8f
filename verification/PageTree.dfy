/** Four-level page tables as a tree of 512-word frames, and the lookup they define. */
module PageTree {
  import opened Wrappers
  import opened Words

  const TABLE_WORDS: nat := 512

  /** Physical memory: the 512 words of each frame, by frame address. */
  datatype Frames = Frames(words: map<int, seq<nat>>)

  /** The four table indices of an address; `Index(k)` is the one into the level `k` table. */
  datatype Path = Path(i1: int, i2: int, i3: int, i4: int)
  {
    function Index(k: int): int {
      if k == 1 then i1 else if k == 2 then i2 else if k == 3 then i3 else i4
    }
    predicate InRange() {
      0 <= i1 < TABLE_WORDS && 0 <= i2 < TABLE_WORDS && 0 <= i3 < TABLE_WORDS && 0 <= i4 < TABLE_WORDS
    }
  }

  /** `split_indices`: `(virt >> 12) & 0x1ff` and so on upwards. */
  function SplitIndices(virt: nat): (p: Path)
    ensures p.InRange()
  {
    Path(virt / 0x1000 % 512, virt / 0x20_0000 % 512, virt / 0x4000_0000 % 512, virt / 0x80_0000_0000 % 512)
  }

  /** Two addresses have the same indices exactly when they agree in bits 12 to 47. */
  lemma SameIndices(v: nat, w: nat)
    ensures SplitIndices(v) == SplitIndices(w) <==> v / 0x1000 % 0x10_0000_0000 == w / 0x1000 % 0x10_0000_0000
  {
    IndexDigits(v);
    IndexDigits(w);
    if v / 0x1000 % 0x10_0000_0000 == w / 0x1000 % 0x10_0000_0000 {
      DigitsAreUnique(SplitIndices(v), SplitIndices(w));
    }
  }

  lemma LastDigit(a: nat, b: nat, c: nat, d: nat)
    requires a < 512 && c < 512 && a + 512 * b == c + 512 * d
    ensures a == c && b == d
  {
  }

  ghost function Number(p: Path): int {
    p.i1 + 512 * p.i2 + 0x4_0000 * p.i3 + 0x800_0000 * p.i4
  }

  lemma DigitsAreUnique(p: Path, q: Path)
    requires p.InRange() && q.InRange() && Number(p) == Number(q)
    ensures p == q
  {
    LastDigit(p.i1, p.i2 + 512 * (p.i3 + 512 * p.i4), q.i1, q.i2 + 512 * (q.i3 + 512 * q.i4));
    LastDigit(p.i2, p.i3 + 512 * p.i4, q.i2, q.i3 + 512 * q.i4);
    LastDigit(p.i3, p.i4, q.i3, q.i4);
  }

  lemma IndexDigits(v: nat)
    ensures v / 0x1000 % 0x10_0000_0000 == Number(SplitIndices(v))
  {
    var a := v / 0x1000;
    var b := a / 512;
    var c := b / 512;
    TopDigit(v);
    DigitOf36(a);
    DigitOf27(b);
    DigitOf18(c);
  }

  lemma TopDigit(v: nat)
    ensures v / 0x20_0000 == v / 0x1000 / 512
    ensures v / 0x4000_0000 == v / 0x1000 / 512 / 512
    ensures v / 0x80_0000_0000 == v / 0x1000 / 512 / 512 / 512
  {
  }

  lemma DigitOf36(a: nat)
    ensures a % 0x10_0000_0000 == a % 512 + 512 * (a / 512 % 0x800_0000)
  {
  }

  lemma DigitOf27(a: nat)
    ensures a % 0x800_0000 == a % 512 + 512 * (a / 512 % 0x4_0000)
  {
  }

  lemma DigitOf18(a: nat)
    ensures a % 0x4_0000 == a % 512 + 512 * (a / 512 % 512)
  {
  }

  /** The word at index `i` of the table in frame `table`. */
  function Word(frames: Frames, table: int, i: int): nat {
    if table in frames.words && 0 <= i < |frames.words[table]| then frames.words[table][i] else 0
  }

  /** The word, in a level `k` table, leads to a table one level down: it is present, and it does
      not map a large page. */
  predicate Leads(word: nat, k: int) {
    Present(word) && (k == 4 || !Large(word))
  }

  /** The level `k` table that `path` reaches from `root`. */
  function Reach(frames: Frames, root: nat, path: Path, k: nat): Option<nat>
    requires 1 <= k <= 4
    decreases 4 - k
  {
    if k == 4 then Some(root)
    else match Reach(frames, root, path, k + 1)
      case None => None
      case Some(table) =>
        var word := Word(frames, table, path.Index(k + 1));
        if Leads(word, k + 1) then Some(Address(word)) else None
  }

  /** The large-page entry that `path` meets in its level `k` table, if it does. */
  function LargeAt(frames: Frames, root: nat, path: Path, k: nat): Option<nat>
    requires 2 <= k <= 3
  {
    match Reach(frames, root, path, k)
    case None => None
    case Some(table) =>
      var word := Word(frames, table, path.Index(k));
      if Present(word) && Large(word) then Some(word) else None
  }

  predicate MeetsLarge(frames: Frames, root: nat, path: Path) {
    LargeAt(frames, root, path, 3).Some? || LargeAt(frames, root, path, 2).Some?
  }

  /** On a path that meets no large page, the code's test for presence is the right one. */
  lemma NoLargeOnPath(frames: Frames, root: nat, path: Path, k: nat, table: int)
    requires 1 <= k <= 3 && !MeetsLarge(frames, root, path) && Reach(frames, root, path, k + 1) == Some(table)
    ensures var word := Word(frames, table, path.Index(k + 1));
      && Leads(word, k + 1) == Present(word)
      && Reach(frames, root, path, k) == if Present(word) then Some(Address(word)) else None
  {
    if k == 1 {
      assert LargeAt(frames, root, path, 2).None?;
    } else if k == 2 {
      assert LargeAt(frames, root, path, 3).None?;
    }
  }

  /** The present leaf entry of `path`, if the page is mapped. */
  function Lookup(frames: Frames, root: nat, path: Path): Option<nat> {
    match Reach(frames, root, path, 1)
    case None => None
    case Some(table) =>
      var word := Word(frames, table, path.i1);
      if Present(word) then Some(word) else None
  }

  /** The mapping that the tables stand for: leaf entries of the mapped pages. */
  ghost function View(frames: Frames, root: nat): imap<Path, int> {
    imap p: Path | Lookup(frames, root, p).Some? :: Lookup(frames, root, p).value
  }

  /** The entry that decides what an address translates to, and its level: a large page's, or a leaf. */
  ghost function Final(frames: Frames, root: nat, path: Path): Option<(nat, nat)> {
    if LargeAt(frames, root, path, 3).Some? then Some((3, LargeAt(frames, root, path, 3).value))
    else if LargeAt(frames, root, path, 2).Some? then Some((2, LargeAt(frames, root, path, 2).value))
    else match Lookup(frames, root, path)
      case None => None
      case Some(word) => Some((1, word))
  }

  /** The bytes that one entry of a level `k` table stands for: nine more address bits a level. */
  function Span(k: nat): (n: nat)
    requires 1 <= k
    ensures n > 0
  {
    if k == 1 then 0x1000 else 512 * Span(k - 1)
  }

  /** The walk that a processor makes, from the root down: each table is indexed by its nine bits of the
      address; bit 0 clear ends it with nothing, bit 7 at level 3 or 2 with a large page. */
  ghost function ProcessorWalk(frames: Frames, table: nat, k: nat, virt: nat): Option<(nat, nat)>
    requires 1 <= k <= 4
    decreases k
  {
    var word := Word(frames, table, virt / Span(k) % 512);
    if And(word, 1) == 0 then None
    else if k == 1 || (k < 4 && And(word, 0x80) != 0) then Some((k, word))
    else ProcessorWalk(frames, And(word, 0x000f_ffff_ffff_f000), k - 1, virt)
  }

  lemma IndexOfLevel(virt: nat, k: nat)
    requires 1 <= k <= 4
    ensures SplitIndices(virt).Index(k) == virt / Span(k) % 512
  {
    assert Span(2) == 0x20_0000 && Span(3) == 0x4000_0000 && Span(4) == 0x80_0000_0000;
  }

  /** The processor's walk comes through every table that the indices reach. */
  lemma {:induction false} WalkReaches(frames: Frames, root: nat, virt: nat, k: nat)
    requires 1 <= k <= 4
    ensures var t := Reach(frames, root, SplitIndices(virt), k);
      t.Some? ==> ProcessorWalk(frames, root, 4, virt) == ProcessorWalk(frames, t.value, k, virt)
    decreases 4 - k
  {
    hide And, SplitIndices, Span;
    if k < 4 {
      WalkReaches(frames, root, virt, k + 1);
      IndexOfLevel(virt, k + 1);
    }
  }

  /** The entry that decides about an address is the one at which the processor's walk ends; it is a
      large page's exactly on the paths that meet one. */
  lemma WalkEndsAtFinal(frames: Frames, root: nat, virt: nat)
    ensures ProcessorWalk(frames, root, 4, virt) == Final(frames, root, SplitIndices(virt))
    ensures MeetsLarge(frames, root, SplitIndices(virt)) <==>
      ProcessorWalk(frames, root, 4, virt).Some? && ProcessorWalk(frames, root, 4, virt).value.0 > 1
  {
    hide And, SplitIndices, Span;
    var path := SplitIndices(virt);
    var k := if Reach(frames, root, path, 1).Some? then 1
             else if Reach(frames, root, path, 2).Some? then 2
             else if Reach(frames, root, path, 3).Some? then 3 else 4;
    WalkReaches(frames, root, virt, k);
    IndexOfLevel(virt, k);
    IndexOfLevel(virt, 2);
    IndexOfLevel(virt, 3);
  }

  /** The large pages are the same. */
  ghost predicate SameLarge(before: Frames, after: Frames, root: nat) {
    forall p: Path, k :: 2 <= k <= 3 ==> LargeAt(after, root, p, k) == LargeAt(before, root, p, k)
  }

  /** Which frames are tables, at which level, and from which entry each one hangs. */
  datatype Shape = Shape(level: map<int, int>, parent: map<int, (int, int)>)

  /** The tables form a tree that no two entries share; large pages may hang from it anywhere. */
  ghost predicate Tree(frames: Frames, root: nat, shape: Shape) {
    && root in shape.level && shape.level[root] == 4
    && shape.parent.Keys == shape.level.Keys - {root}
    && (forall t :: t in shape.level ==> IsTable(frames, shape, t))
    && (forall t, i {:trigger Word(frames, t, i)} ::
          t in shape.level && shape.level[t] >= 2 && Leads(Word(frames, t, i), shape.level[t]) ==>
          HangsFrom(shape, Address(Word(frames, t, i)), t, i))
    && (forall c :: c in shape.parent ==> LinkedFrom(frames, shape, c))
  }

  ghost predicate IsTable(frames: Frames, shape: Shape, t: int)
    requires t in shape.level
  {
    1 <= shape.level[t] <= 4 && t in frames.words && |frames.words[t]| == TABLE_WORDS
  }

  /** Table `c` is one level below table `t` and hangs from entry `i` of it. */
  ghost predicate HangsFrom(shape: Shape, c: int, t: int, i: int) {
    && c in shape.level && t in shape.level && shape.level[t] == shape.level[c] + 1
    && c in shape.parent && shape.parent[c] == (t, i)
  }

  ghost predicate LinkedFrom(frames: Frames, shape: Shape, c: int)
    requires c in shape.parent
  {
    var (t, i) := shape.parent[c];
    && HangsFrom(shape, c, t, i)
    && Leads(Word(frames, t, i), shape.level[t]) && Address(Word(frames, t, i)) == c
  }

  lemma {:induction false} ReachIsTable(frames: Frames, root: nat, shape: Shape, path: Path, k: nat)
    requires Tree(frames, root, shape) && 1 <= k <= 4
    ensures var t := Reach(frames, root, path, k); t.Some? ==> t.value in shape.level && shape.level[t.value] == k
    decreases 4 - k
  {
    if k < 4 {
      ReachIsTable(frames, root, shape, path, k + 1);
    }
  }

  lemma ChildIsTable(frames: Frames, root: nat, shape: Shape, t: int, i: int)
    requires Tree(frames, root, shape) && t in shape.level && shape.level[t] >= 2
    ensures t in frames.words && |frames.words[t]| == TABLE_WORDS
    ensures Leads(Word(frames, t, i), shape.level[t]) ==> HangsFrom(shape, Address(Word(frames, t, i)), t, i)
  {
    assert IsTable(frames, shape, t);
  }

  /** The tree is unshared: two paths that reach the same table took the same way. */
  lemma {:induction false} ReachOnce(frames: Frames, root: nat, shape: Shape, p: Path, q: Path, k: nat)
    requires Tree(frames, root, shape) && 1 <= k <= 4
    requires Reach(frames, root, p, k).Some? && Reach(frames, root, p, k) == Reach(frames, root, q, k)
    ensures forall j :: k < j <= 4 ==> p.Index(j) == q.Index(j)
    decreases 4 - k
  {
    hide And, Or;
    ZeroIsAbsent();
    if k < 4 {
      ReachIsTable(frames, root, shape, p, k + 1);
      ReachIsTable(frames, root, shape, q, k + 1);
      var t, u := Reach(frames, root, p, k + 1).value, Reach(frames, root, q, k + 1).value;
      ChildIsTable(frames, root, shape, t, p.Index(k + 1));
      ChildIsTable(frames, root, shape, u, q.Index(k + 1));
      ReachOnce(frames, root, shape, p, q, k + 1);
    }
  }

  /** Storing one word of a table. */
  function SetLeaf(frames: Frames, t: int, i: int, word: nat): Frames
    requires t in frames.words && 0 <= i < |frames.words[t]|
  {
    var table: seq<nat> := frames.words[t][i := word];
    Frames(frames.words[t := table])
  }

  /** `write_bytes(virt, 0, 512)` on frame `c`. */
  function Zero(frames: Frames, c: int): Frames {
    Frames(frames.words[c := seq(TABLE_WORDS, _ => 0)])
  }

  /** Hanging the zeroed frame `c` from entry `i` of table `t`. */
  function Hang(frames: Frames, t: int, i: int, c: int, word: nat): Frames
    requires t in frames.words && 0 <= i < |frames.words[t]| && t != c
  {
    SetLeaf(Zero(frames, c), t, i, word)
  }

  ghost predicate CanHang(frames: Frames, root: nat, shape: Shape, t: int, i: int, c: int, word: nat) {
    && Tree(frames, root, shape)
    && t in shape.level && shape.level[t] >= 2 && 0 <= i < TABLE_WORDS && !Present(Word(frames, t, i))
    && c !in shape.level && Leads(word, shape.level[t]) && Address(word) == c
  }

  function HungShape(shape: Shape, t: int, i: int, c: int): Shape
    requires t in shape.level && shape.level[t] >= 2
  {
    Shape(shape.level[c := shape.level[t] - 1], shape.parent[c := (t, i)])
  }

  lemma HangWords(frames: Frames, root: nat, shape: Shape, t: int, i: int, c: int, word: nat)
    requires CanHang(frames, root, shape, t, i, c, word)
    ensures t in frames.words && 0 <= i < |frames.words[t]|
    ensures forall u, j :: u in shape.level ==>
      Word(Hang(frames, t, i, c, word), u, j) == if u == t && j == i then word else Word(frames, u, j)
    ensures forall j :: Word(Hang(frames, t, i, c, word), c, j) == 0
  {
    assert IsTable(frames, shape, t);
    forall u, j | u in shape.level
      ensures Word(Hang(frames, t, i, c, word), u, j) == if u == t && j == i then word else Word(frames, u, j)
    {
      assert IsTable(frames, shape, u);
    }
  }

  lemma HangKeepsTree(frames: Frames, root: nat, shape: Shape, t: int, i: int, c: int, word: nat)
    requires CanHang(frames, root, shape, t, i, c, word)
    ensures t in frames.words && 0 <= i < |frames.words[t]|
    ensures Tree(Hang(frames, t, i, c, word), root, HungShape(shape, t, i, c))
  {
    hide And, Or;
    ZeroIsAbsent();
    HangWords(frames, root, shape, t, i, c, word);
    var frames', shape' := Hang(frames, t, i, c, word), HungShape(shape, t, i, c);
    forall u | u in shape'.level
      ensures IsTable(frames', shape', u)
    {
      assert IsTable(frames, shape, t);
      if u != c {
        assert IsTable(frames, shape, u);
      }
    }
    forall u, j | u in shape'.level && shape'.level[u] >= 2 && Leads(Word(frames', u, j), shape'.level[u])
      ensures HangsFrom(shape', Address(Word(frames', u, j)), u, j)
    {
      assert u != c;
      if u != t || j != i {
        assert HangsFrom(shape, Address(Word(frames, u, j)), u, j);
      }
    }
    forall d | d in shape'.parent
      ensures LinkedFrom(frames', shape', d)
    {
      if d != c {
        assert LinkedFrom(frames, shape, d);
      }
    }
  }

  /** A path's tables after hanging: those it reached before, and possibly the new empty one. */
  lemma {:induction false} HangReach(frames: Frames, root: nat, shape: Shape, t: int, i: int, c: int, word: nat,
                                     path: Path, k: nat)
    requires CanHang(frames, root, shape, t, i, c, word) && 1 <= k <= 4
    ensures t in frames.words && 0 <= i < |frames.words[t]|
    ensures var before := Reach(frames, root, path, k);
      var after := Reach(Hang(frames, t, i, c, word), root, path, k);
      if before.Some? then after == before
      else if k < 4 && path.Index(k + 1) == i && Reach(frames, root, path, k + 1) == Some(t) then after == Some(c)
      else after.None?
    decreases 4 - k
  {
    hide And, Or;
    ZeroIsAbsent();
    HangWords(frames, root, shape, t, i, c, word);
    if k < 4 {
      HangReach(frames, root, shape, t, i, c, word, path, k + 1);
      ReachIsTable(frames, root, shape, path, k + 1);
    }
  }

  /** Hanging an empty table maps and unmaps nothing. */
  lemma HangLookup(frames: Frames, root: nat, shape: Shape, t: int, i: int, c: int, word: nat, path: Path)
    requires CanHang(frames, root, shape, t, i, c, word)
    ensures t in frames.words && 0 <= i < |frames.words[t]|
    ensures Lookup(Hang(frames, t, i, c, word), root, path) == Lookup(frames, root, path)
  {
    hide And, Or;
    ZeroIsAbsent();
    HangWords(frames, root, shape, t, i, c, word);
    HangReach(frames, root, shape, t, i, c, word, path, 1);
    ReachIsTable(frames, root, shape, path, 1);
  }

  /** Hanging an empty table adds and removes no large page. */
  lemma HangLarge(frames: Frames, root: nat, shape: Shape, t: int, i: int, c: int, word: nat, path: Path, k: nat)
    requires CanHang(frames, root, shape, t, i, c, word) && 2 <= k <= 3
    ensures t in frames.words && 0 <= i < |frames.words[t]|
    ensures LargeAt(Hang(frames, t, i, c, word), root, path, k) == LargeAt(frames, root, path, k)
  {
    hide And, Or;
    ZeroIsAbsent();
    HangWords(frames, root, shape, t, i, c, word);
    HangReach(frames, root, shape, t, i, c, word, path, k);
    ReachIsTable(frames, root, shape, path, k);
  }

  /** Hanging an empty table, summed up. */
  lemma HangEffect(frames: Frames, root: nat, shape: Shape, t: int, i: int, c: int, word: nat)
    requires CanHang(frames, root, shape, t, i, c, word)
    ensures t in frames.words && 0 <= i < |frames.words[t]|
    ensures var frames' := Hang(frames, t, i, c, word);
      && Tree(frames', root, HungShape(shape, t, i, c))
      && Word(frames', t, i) == word && (forall j :: Word(frames', c, j) == 0)
      && (forall p: Path, k :: 1 <= k <= 4 && Reach(frames, root, p, k).Some? ==>
            Reach(frames', root, p, k) == Reach(frames, root, p, k))
      && SameMapping(frames, frames', root)
  {
    hide And, Or, Tree, Reach, LargeAt;
    HangKeepsTree(frames, root, shape, t, i, c, word);
    HangWords(frames, root, shape, t, i, c, word);
    forall p: Path, k | 1 <= k <= 4 && Reach(frames, root, p, k).Some?
      ensures Reach(Hang(frames, t, i, c, word), root, p, k) == Reach(frames, root, p, k)
    {
      HangReach(frames, root, shape, t, i, c, word, p, k);
    }
    forall p: Path
      ensures Lookup(Hang(frames, t, i, c, word), root, p) == Lookup(frames, root, p)
    {
      HangLookup(frames, root, shape, t, i, c, word, p);
    }
    forall p: Path, k | 2 <= k <= 3
      ensures LargeAt(Hang(frames, t, i, c, word), root, p, k) == LargeAt(frames, root, p, k)
    {
      HangLarge(frames, root, shape, t, i, c, word, p, k);
    }
  }

  lemma SetLeafKeepsTree(frames: Frames, root: nat, shape: Shape, t: int, i: int, word: nat)
    requires Tree(frames, root, shape) && t in shape.level && shape.level[t] == 1 && 0 <= i < TABLE_WORDS
    ensures t in frames.words && 0 <= i < |frames.words[t]|
    ensures Tree(SetLeaf(frames, t, i, word), root, shape)
    ensures forall u, j :: u in shape.level && shape.level[u] >= 2 ==>
      Word(SetLeaf(frames, t, i, word), u, j) == Word(frames, u, j)
  {
    hide And, Or;
    assert IsTable(frames, shape, t);
    var frames' := SetLeaf(frames, t, i, word);
    forall u | u in shape.level
      ensures IsTable(frames', shape, u)
    {
      assert IsTable(frames, shape, u);
    }
    forall d | d in shape.parent
      ensures LinkedFrom(frames', shape, d)
    {
      assert LinkedFrom(frames, shape, d);
    }
    forall u, j | u in shape.level && shape.level[u] >= 2 && Leads(Word(frames', u, j), shape.level[u])
      ensures HangsFrom(shape, Address(Word(frames', u, j)), u, j)
    {
      assert Word(frames', u, j) == Word(frames, u, j);
    }
  }

  lemma {:induction false} SetLeafReach(frames: Frames, root: nat, shape: Shape, t: int, i: int, word: nat,
                                        path: Path, k: nat)
    requires Tree(frames, root, shape) && t in shape.level && shape.level[t] == 1 && 0 <= i < TABLE_WORDS && 1 <= k <= 4
    ensures t in frames.words && 0 <= i < |frames.words[t]|
    ensures Reach(SetLeaf(frames, t, i, word), root, path, k) == Reach(frames, root, path, k)
    decreases 4 - k
  {
    SetLeafKeepsTree(frames, root, shape, t, i, word);
    if k < 4 {
      SetLeafReach(frames, root, shape, t, i, word, path, k + 1);
      ReachIsTable(frames, root, shape, path, k + 1);
    }
  }

  lemma SetLeafLarge(frames: Frames, root: nat, shape: Shape, t: int, i: int, word: nat, path: Path, k: nat)
    requires Tree(frames, root, shape) && t in shape.level && shape.level[t] == 1 && 0 <= i < TABLE_WORDS && 2 <= k <= 3
    ensures t in frames.words && 0 <= i < |frames.words[t]|
    ensures LargeAt(SetLeaf(frames, t, i, word), root, path, k) == LargeAt(frames, root, path, k)
  {
    hide And, Or;
    SetLeafKeepsTree(frames, root, shape, t, i, word);
    SetLeafReach(frames, root, shape, t, i, word, path, k);
    ReachIsTable(frames, root, shape, path, k);
  }

  /** Storing the leaf word that `path` reaches changes the lookup of that path and of no other. */
  lemma SetLeafLookup(frames: Frames, root: nat, shape: Shape, t: int, word: nat, path: Path, other: Path)
    requires Tree(frames, root, shape) && Reach(frames, root, path, 1) == Some(t) && 0 <= path.i1 < TABLE_WORDS
    ensures t in frames.words && 0 <= path.i1 < |frames.words[t]|
    ensures Lookup(SetLeaf(frames, t, path.i1, word), root, other) ==
      if other != path then Lookup(frames, root, other) else if Present(word) then Some(word) else None
  {
    hide And, Or;
    ZeroIsAbsent();
    ReachIsTable(frames, root, shape, path, 1);
    ReachIsTable(frames, root, shape, other, 1);
    SetLeafReach(frames, root, shape, t, path.i1, word, other, 1);
    assert IsTable(frames, shape, t);
    if other != path && Reach(frames, root, other, 1) == Some(t) {
      ReachOnce(frames, root, shape, path, other, 1);
      assert path.Index(2) == other.Index(2) && path.Index(3) == other.Index(3) && path.Index(4) == other.Index(4);
    }
  }

  lemma LeafIsTable(frames: Frames, root: nat, shape: Shape, path: Path, t: int)
    requires Tree(frames, root, shape) && Reach(frames, root, path, 1) == Some(t)
    ensures t in shape.level && shape.level[t] == 1
  {
    ReachIsTable(frames, root, shape, path, 1);
  }

  lemma SetLeafView(frames: Frames, root: nat, shape: Shape, t: int, word: nat, virt: nat)
    requires Tree(frames, root, shape) && Reach(frames, root, SplitIndices(virt), 1) == Some(t)
    ensures t in frames.words && 0 <= SplitIndices(virt).i1 < |frames.words[t]|
    ensures Remapped(frames, SetLeaf(frames, t, SplitIndices(virt).i1, word), root, virt,
                     if Present(word) then Some(word) else None)
  {
    hide And, Or, Tree, Reach, SplitIndices, LargeAt;
    var path := SplitIndices(virt);
    LeafIsTable(frames, root, shape, path, t);
    SetLeafLookup(frames, root, shape, t, word, path, path);
    forall p: Path, k | 2 <= k <= 3
      ensures LargeAt(SetLeaf(frames, t, path.i1, word), root, p, k) == LargeAt(frames, root, p, k)
    {
      SetLeafLarge(frames, root, shape, t, path.i1, word, p, k);
    }
    forall p: Path
      ensures Lookup(SetLeaf(frames, t, path.i1, word), root, p) ==
        if p != path then Lookup(frames, root, p) else if Present(word) then Some(word) else None
    {
      SetLeafLookup(frames, root, shape, t, word, path, p);
    }
  }

  /** The tables in `after` map what those in `before` do, large pages included. */
  ghost predicate SameMapping(before: Frames, after: Frames, root: nat) {
    View(after, root) == View(before, root) && SameLarge(before, after, root)
  }

  /** The tables in `after` map what those in `before` do, except the page of `virt`. */
  ghost predicate Remapped(before: Frames, after: Frames, root: nat, virt: nat, word: Option<nat>) {
    var path := SplitIndices(virt);
    && View(after, root) == (if word.Some? then View(before, root)[path := word.value] else View(before, root) - {path})
    && SameLarge(before, after, root)
  }

  /** Unmapping a page whose tables are missing changes nothing. */
  lemma NothingMapped(frames: Frames, root: nat, virt: nat)
    requires Reach(frames, root, SplitIndices(virt), 1).None?
    ensures Remapped(frames, frames, root, virt, None)
  {
    hide SplitIndices;
    assert SplitIndices(virt) !in View(frames, root);
  }

  lemma RemapAfterSame(f0: Frames, f1: Frames, f2: Frames, root: nat, virt: nat, word: Option<nat>)
    requires SameMapping(f0, f1, root) && Remapped(f1, f2, root, virt, word)
    ensures Remapped(f0, f2, root, virt, word)
  {
  }

  lemma SameItself(frames: Frames, root: nat)
    ensures SameMapping(frames, frames, root)
  {
  }

  lemma SameTwice(f0: Frames, f1: Frames, f2: Frames, root: nat)
    requires SameMapping(f0, f1, root) && SameMapping(f1, f2, root)
    ensures SameMapping(f0, f2, root)
  {
  }

  /** Neither creating tables nor storing a leaf puts a large page on a path or takes one off it. */
  lemma LargeKept(before: Frames, after: Frames, root: nat, virt: nat, word: Option<nat>, path: Path)
    requires SameMapping(before, after, root) || Remapped(before, after, root, virt, word)
    ensures MeetsLarge(after, root, path) == MeetsLarge(before, root, path)
  {
    hide LargeAt, SplitIndices;
    assert SameLarge(before, after, root);
  }

  /** What an address translates to, if it is mapped by a leaf of the level 1 tables. */
  ghost function Translated(frames: Frames, root: nat, virt: nat): Option<nat> {
    match Lookup(frames, root, SplitIndices(virt))
    case None => None
    case Some(word) => Some(Or(Address(word), And(virt, 0xfff)))
  }

  lemma RemappedLookup(before: Frames, after: Frames, root: nat, virt: nat, word: Option<nat>, other: nat)
    requires Remapped(before, after, root, virt, word)
    ensures Lookup(after, root, SplitIndices(other)) ==
      if SplitIndices(other) == SplitIndices(virt) then word else Lookup(before, root, SplitIndices(other))
  {
    hide SplitIndices, Lookup;
    var p := SplitIndices(other);
    assert Lookup(after, root, p).Some? <==> p in View(after, root);
    assert Lookup(before, root, p).Some? <==> p in View(before, root);
  }

  /** Addresses that differ in bits 12 to 47 from the remapped page translate as before: the entry
      that decides about them, be it a leaf or a large page's, is the same. */
  lemma OtherPagesUntouched(before: Frames, after: Frames, root: nat, virt: nat, word: Option<nat>, other: nat)
    requires Remapped(before, after, root, virt, word)
    requires other / 0x1000 % 0x10_0000_0000 != virt / 0x1000 % 0x10_0000_0000
    ensures Final(after, root, SplitIndices(other)) == Final(before, root, SplitIndices(other))
    ensures Translated(after, root, other) == Translated(before, root, other)
  {
    hide SplitIndices, Lookup, And, Or, LargeAt, View;
    assert SameLarge(before, after, root);
    SameIndices(virt, other);
    RemappedLookup(before, after, root, virt, word, other);
  }

  /** `map_page` then `get_phys_addr`: with flags clear of the address bits, every offset of the
      page reads back its physical address if the frame is below 2^52, and none does if not. */
  lemma MapReadsBack(before: Frames, after: Frames, root: nat, virt: nat, phys: nat, flags: nat, offset: nat)
    requires Remapped(before, after, root, virt, Some(Entry(phys, flags)))
    requires virt % 4096 == 0 && offset < 4096 && phys % 4096 == 0 && And(flags, ADDR_MASK) == 0
    ensures Translated(after, root, virt + offset) == Some(phys + offset) <==> phys < ADDR_LIMIT
  {
    hide And, Or, SplitIndices, Lookup, Remapped;
    SamePage(virt, offset);
    SameIndices(virt, virt + offset);
    RemappedLookup(before, after, root, virt, Some(Entry(phys, flags)), virt + offset);
    EntryReadsBack(phys, flags);
    FrameAndOffset(Entry(phys, flags), virt + offset);
  }

  lemma SamePage(virt: nat, offset: nat)
    requires virt % 4096 == 0 && offset < 4096
    ensures (virt + offset) / 0x1000 == virt / 0x1000 && (virt + offset) % 4096 == offset
  {
  }

  /** `unmap_page` then `get_phys_addr`: the whole page is gone. */
  lemma UnmapReadsBack(before: Frames, after: Frames, root: nat, virt: nat, offset: nat)
    requires Remapped(before, after, root, virt, None)
    requires virt % 4096 == 0 && offset < 4096
    ensures Translated(after, root, virt + offset) == None
  {
    hide And, Or, SplitIndices, Lookup, Remapped;
    SamePage(virt, offset);
    SameIndices(virt, virt + offset);
    RemappedLookup(before, after, root, virt, None, virt + offset);
  }
}
