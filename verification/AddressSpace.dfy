/** The kernel's one address space: mapping, unmapping and translating pages. */
module AddressSpaces {
  import opened Wrappers
  import opened Words
  import opened PageTree
  import opened PhysicalPages
  import opened TableNeeds

  /** Between two states, exactly the pages that became tables left the allocator. */
  ghost predicate TablesTookPages(created0: set<nat>, free0: set<nat>, created1: set<nat>, free1: set<nat>) {
    && created0 <= created1 && created1 - created0 <= free0
    && free1 == free0 - (created1 - created0)
    && |created1| + |free1| == |created0| + |free0|
  }

  lemma TookTransitive(c0: set<nat>, f0: set<nat>, c1: set<nat>, f1: set<nat>, c2: set<nat>, f2: set<nat>)
    requires TablesTookPages(c0, f0, c1, f1) && TablesTookPages(c1, f1, c2, f2)
    ensures TablesTookPages(c0, f0, c2, f2)
  {
    assert c2 - c0 == (c2 - c1) + (c1 - c0);
  }

  /** Every table is one the boot loader left or a created one, and none of them is a free page. */
  ghost predicate TablesAreTaken(boot: set<int>, shape: Shape, created: set<nat>, free: set<nat>) {
    && (forall t :: t in shape.level ==> t in boot || (t % PAGE_SIZE == 0 && t / PAGE_SIZE in created))
    && (forall n :: n in free ==> n * PAGE_SIZE !in boot && n !in created)
  }

  lemma TakeTable(boot: set<int>, shape: Shape, created: set<nat>, free: set<nat>, t: int, i: int, phys: nat)
    requires TablesAreTaken(boot, shape, created, free) && t in shape.level && shape.level[t] >= 2
    requires phys % PAGE_SIZE == 0 && phys / PAGE_SIZE in free
    ensures phys !in shape.level && phys / PAGE_SIZE !in created
    ensures TablesAreTaken(boot, HungShape(shape, t, i, phys), created + {phys / PAGE_SIZE}, free - {phys / PAGE_SIZE})
  {
    assert phys / PAGE_SIZE * PAGE_SIZE == phys;
  }

  /** Handing out a page makes no table free, and the page is no table. */
  lemma StillTaken(boot: set<int>, shape: Shape, created: set<nat>, free: set<nat>)
    requires TablesAreTaken(boot, shape, created, free)
    ensures forall p :: p in free ==> TablesAreTaken(boot, shape, created, free - {p}) && p !in created
  {
  }

  /** The entry is present with all the flags, and is nothing but them and the frame where both fit. */
  ghost predicate MapsTo(entry: Option<nat>, phys: nat, flags: nat) {
    && entry.Some? && Present(entry.value) && And(entry.value, flags) == flags
    && (And(flags, ADDR_MASK) == 0 && phys < ADDR_LIMIT ==>
          Address(entry.value) == phys && entry.value == phys + Or(flags, 1))
  }

  lemma EntryMaps(phys: nat, flags: nat)
    requires phys % PAGE_SIZE == 0
    ensures MapsTo(Some(Entry(phys, flags)), phys, flags)
  {
    hide And, Or, Entry;
    EntryReadsBack(phys, flags);
    EntryHasFlags(phys, flags);
  }

  class AddressSpace {
    var frames: Frames
    const root: nat                // CR3 & ADDR_MASK
    ghost const boot: set<int>     // the tables the boot loader left
    ghost var shape: Shape         // which frames are tables, and how they hang together
    ghost var created: set<nat>    // page numbers taken from the allocator for tables

    ghost predicate Valid(pmm: Pmm)
      reads this, pmm, pmm.bitmap
    {
      && pmm.Valid() && pmm.totalPages * PAGE_SIZE <= ADDR_LIMIT
      && Tree(frames, root, shape)
      && TablesAreTaken(boot, shape, created, pmm.free)
    }

    /** The tables the boot loader left, none of them in a free page. */
    constructor (pmm: Pmm, frames: Frames, root: nat, ghost shape: Shape)
      requires pmm.Valid() && pmm.totalPages * PAGE_SIZE <= ADDR_LIMIT && Tree(frames, root, shape)
      requires forall n :: n in pmm.free ==> n * PAGE_SIZE !in shape.level
      ensures Valid(pmm) && created == {} && boot == shape.level.Keys && this.frames == frames && this.root == root
    {
      this.frames, this.root, this.shape, created, boot := frames, root, shape, {}, shape.level.Keys;
    }

    /** The entry must not be one for a large page: the code would take that for a table. */
    method NextTableOrCreate(pmm: Pmm, table: int, idx: int) returns (r: Outcome<nat>)
      requires Valid(pmm) && table in shape.level && shape.level[table] >= 2 && 0 <= idx < TABLE_WORDS
      requires Present(Word(frames, table, idx)) ==> Leads(Word(frames, table, idx), shape.level[table])
      modifies this, pmm`freeCount, pmm`free, pmm.bitmap
      ensures r.Abort? <==> !Present(Word(old(frames), table, idx)) && old(pmm.free) == {}
      ensures r.Done? ==>
        && Valid(pmm)
        && Leads(Word(frames, table, idx), old(shape).level[table]) && r.value == Address(Word(frames, table, idx))
        && r.value in shape.level && shape.level[r.value] == old(shape).level[table] - 1
        && (forall p, k :: 1 <= k <= 4 && Reach(old(frames), root, p, k).Some? ==>
              Reach(frames, root, p, k) == Reach(old(frames), root, p, k))
        && GainedAt(old(frames), frames, root, table, idx, old(shape).level[table] - 1)
        && SameMapping(old(frames), frames, root)
        && if Present(Word(old(frames), table, idx))
           then frames == old(frames) && shape == old(shape) && created == old(created)
             && pmm.free == old(pmm.free)
           else
             && Word(frames, table, idx) == r.value + 3    // present and writable
             && (forall j :: Word(frames, r.value, j) == 0)
             && r.value / PAGE_SIZE in old(pmm.free) && r.value / PAGE_SIZE !in old(created)
             && created == old(created) + {r.value / PAGE_SIZE}
             && pmm.free == old(pmm.free) - {r.value / PAGE_SIZE}
    {
      hide Tree, TablesAreTaken, Reach, SameMapping, GainedAt, Word, And, Or, Pmm.Valid;
      SameItself(frames, root);
      ChildIsTable(frames, root, shape, table, idx);
      TableLevel(frames, root, shape, table);
      var entry := Word(frames, table, idx);
      if Present(entry) {
        NothingGained(frames, root, table, idx, shape.level[table] - 1);
        return Done(Address(entry));
      }
      var page := pmm.AllocPage();
      if page.None? {
        return Abort;
      }
      var phys := page.value;
      var word := Entry(phys, PTE_WRITABLE);
      WritableIsNoAddress();
      EntryReadsBack(phys, PTE_WRITABLE);
      TableEntryIsSmall(phys);
      TableEntryWord(phys);
      TakeTable(boot, shape, created, old(pmm.free), table, idx, phys);
      assert CanHang(frames, root, shape, table, idx, phys, word);
      HangEffect(frames, root, shape, table, idx, phys, word);
      HangGains(frames, root, shape, table, idx, phys, word);
      frames := Zero(frames, phys);
      frames := SetLeaf(frames, table, idx, word);
      shape := HungShape(shape, table, idx, phys);
      created := created + {phys / PAGE_SIZE};
      return Done(phys);
    }

    /** One step down `path`: from its level `k + 1` table to its level `k` table. */
    method Descend(pmm: Pmm, path: Path, k: nat, table: int) returns (r: Outcome<nat>)
      requires Valid(pmm) && path.InRange() && 1 <= k <= 3 && Reach(frames, root, path, k + 1) == Some(table)
      requires !MeetsLarge(frames, root, path)
      modifies this, pmm`freeCount, pmm`free, pmm.bitmap
      ensures r.Abort? <==> Lacks(old(frames), root, path, k) && old(pmm.free) == {}
      ensures r.Done? ==>
        && Valid(pmm) && TablesTookPages(old(created), old(pmm.free), created, pmm.free)
        && Reach(frames, root, path, k) == Some(r.value)
        && FilledAt(old(frames), frames, root, path, k)
        && |created| == |old(created)| + (if Lacks(old(frames), root, path, k) then 1 else 0)
        && SameMapping(old(frames), frames, root) && !MeetsLarge(frames, root, path)
    {
      hide Tree, TablesAreTaken, SameMapping, GainedAt, FilledAt, MeetsLarge,
           Reach, Word, Present, Address, Leads, Pmm.Valid;
      ghost var f0, s0 := frames, shape;
      ReachIsTable(frames, root, shape, path, k + 1);
      NoLargeOnPath(frames, root, path, k, table);
      r := NextTableOrCreate(pmm, table, path.Index(k + 1));
      if r.Done? {
        ReachStep(frames, path, k, table);
        GainedOnPath(f0, frames, root, s0, path, k, table);
        LargeKept(f0, frames, root, 0, None, path);
      }
    }

    lemma ReachStep(frames: Frames, path: Path, k: nat, table: int)
      requires 1 <= k <= 3 && Reach(frames, root, path, k + 1) == Some(table)
      ensures var word := Word(frames, table, path.Index(k + 1));
        Reach(frames, root, path, k) == if Leads(word, k + 1) then Some(Address(word)) else None
    {
    }

    /** The three `next_table_or_create` calls of `map_page`. */
    method DescendAll(pmm: Pmm, path: Path) returns (pt: Outcome<nat>)
      requires Valid(pmm) && path.InRange() && !MeetsLarge(frames, root, path)
      modifies this, pmm`freeCount, pmm`free, pmm.bitmap
      ensures pt.Done? <==> |Missing(old(frames), root, path)| <= |old(pmm.free)|
      ensures pt.Done? ==>
        && Valid(pmm) && TablesTookPages(old(created), old(pmm.free), created, pmm.free)
        && |created| == |old(created)| + |Missing(old(frames), root, path)|
        && Reach(frames, root, path, 1) == Some(pt.value)
        && Completed(old(frames), frames, root, path)
        && SameMapping(old(frames), frames, root)
    {
      hide Valid, Tree, And, Or, SameMapping, MeetsLarge, Lacks, Missing, FilledAt, Completed, Reach;
      ghost var c0, f0, l0 := created, pmm.free, frames;
      MissingCount(l0, root, path);
      LacksBelow(l0, root, path);
      RootReached(frames, path);
      var pdpt := Descend(pmm, path, 3, root);
      if pdpt.Abort? {
        return Abort;
      }
      ghost var c1, f1, l1 := created, pmm.free, frames;
      OtherLevels(l0, l1, root, path, 3, 2);
      OtherLevels(l0, l1, root, path, 3, 1);
      var pd := Descend(pmm, path, 2, pdpt.value);
      if pd.Abort? {
        return Abort;
      }
      ghost var c2, f2, l2 := created, pmm.free, frames;
      OtherLevels(l1, l2, root, path, 2, 1);
      SameTwice(l0, l1, l2, root);
      TookTransitive(c0, f0, c1, f1, c2, f2);
      pt := Descend(pmm, path, 1, pd.value);
      if pt.Done? {
        SameTwice(l0, l2, frames, root);
        TookTransitive(c0, f0, c2, f2, created, pmm.free);
        ThreeSteps(l0, l1, l2, frames, root, path);
      }
    }

    lemma RootReached(frames: Frames, path: Path)
      ensures Reach(frames, root, path, 4) == Some(root)
    {
    }

    /** `map_page`, on a path that meets no large page. The entry then looked up for the page is present
        and has all the flags; its address is `phys`, and it has no other bit, if `phys` is below 2^52
        and the flags are clear of the address bits. */
    method MapPage(pmm: Pmm, virt: nat, phys: nat, flags: nat) returns (r: Outcome<()>)
      requires Valid(pmm) && !MeetsLarge(frames, root, SplitIndices(virt))
      modifies this, pmm`freeCount, pmm`free, pmm.bitmap
      ensures r.Done? <==> (
        && virt % PAGE_SIZE == 0 && phys % PAGE_SIZE == 0
        && |Missing(old(frames), root, SplitIndices(virt))| <= |old(pmm.free)|)
      ensures r.Done? ==>
        && Valid(pmm) && TablesTookPages(old(created), old(pmm.free), created, pmm.free)
        && |created| == |old(created)| + |Missing(old(frames), root, SplitIndices(virt))|
        && Remapped(old(frames), frames, root, virt, Some(Entry(phys, flags)))
        && Completed(old(frames), frames, root, SplitIndices(virt))
        && MapsTo(Lookup(frames, root, SplitIndices(virt)), phys, flags)
    {
      hide Valid, SplitIndices, And, Or, Entry, Reach, Remapped, SameMapping, MeetsLarge,
           Missing, Completed, SameTables, MapsTo;
      if virt % PAGE_SIZE != 0 {
        return Abort;
      }
      if phys % PAGE_SIZE != 0 {
        return Abort;
      }
      var pt := DescendAll(pmm, SplitIndices(virt));
      if pt.Abort? {
        return Abort;
      }
      ghost var f1 := frames;
      EntryReadsBack(phys, flags);
      StoreLeaf(pmm, virt, pt.value, Entry(phys, flags));
      RemapAfterSame(old(frames), f1, frames, root, virt, Some(Entry(phys, flags)));
      RemappedLookup(old(frames), frames, root, virt, Some(Entry(phys, flags)), virt);
      EntryMaps(phys, flags);
      CompletedAndStored(old(frames), f1, frames, root, SplitIndices(virt));
      return Done(());
    }

    /** `pt.add(pt_idx).write_volatile(word)`. */
    method StoreLeaf(pmm: Pmm, virt: nat, pt: int, word: nat)
      requires Valid(pmm) && Reach(frames, root, SplitIndices(virt), 1) == Some(pt)
      modifies this`frames
      ensures Valid(pmm)
      ensures Remapped(old(frames), frames, root, virt, if Present(word) then Some(word) else None)
      ensures SameTables(old(frames), frames, root)
    {
      hide SameTables, Tree, Reach, And, Or, Remapped, SplitIndices, TablesAreTaken, Pmm.Valid;
      LeafStored(virt, pt, word);
      frames := SetLeaf(frames, pt, SplitIndices(virt).i1, word);
    }

    lemma LeafStored(virt: nat, pt: int, word: nat)
      requires Tree(frames, root, shape) && Reach(frames, root, SplitIndices(virt), 1) == Some(pt)
      ensures pt in frames.words && SplitIndices(virt).i1 < |frames.words[pt]|
      ensures Tree(SetLeaf(frames, pt, SplitIndices(virt).i1, word), root, shape)
      ensures Remapped(frames, SetLeaf(frames, pt, SplitIndices(virt).i1, word), root, virt,
                       if Present(word) then Some(word) else None)
      ensures SameTables(frames, SetLeaf(frames, pt, SplitIndices(virt).i1, word), root)
    {
      hide SplitIndices, Remapped, SameTables, And, Or;
      ReachIsTable(frames, root, shape, SplitIndices(virt), 1);
      SetLeafKeepsTree(frames, root, shape, pt, SplitIndices(virt).i1, word);
      SetLeafView(frames, root, shape, pt, word, virt);
      StoreKeepsTables(frames, root, shape, pt, SplitIndices(virt).i1, word);
    }

    /** `walk_existing`: the level 1 table, the index in it and the word found there. */
    function WalkExisting(virt: nat): (r: Option<(int, int, nat)>)
      reads this
      ensures !MeetsLarge(frames, root, SplitIndices(virt)) ==>
        (r.Some? <==> Reach(frames, root, SplitIndices(virt), 1).Some?)
      ensures !MeetsLarge(frames, root, SplitIndices(virt)) && r.Some? ==> (
        && r.value.0 == Reach(frames, root, SplitIndices(virt), 1).value
        && r.value.1 == SplitIndices(virt).i1 && r.value.2 == Word(frames, r.value.0, r.value.1))
    {
      var path := SplitIndices(virt);
      var e4 := Word(frames, root, path.i4);
      if !Present(e4) then None
      else
        var pdpt := Address(e4);
        var e3 := Word(frames, pdpt, path.i3);
        if !Present(e3) then None
        else
          var pd := Address(e3);
          var e2 := Word(frames, pd, path.i2);
          if !Present(e2) then None
          else
            var pt := Address(e2);
            Some((pt, path.i1, Word(frames, pt, path.i1)))
    }

    method UnmapPage(pmm: Pmm, virt: nat) returns (r: Outcome<()>)
      requires Valid(pmm) && !MeetsLarge(frames, root, SplitIndices(virt))
      modifies this`frames
      ensures Valid(pmm)
      ensures r.Done? <==> virt % PAGE_SIZE == 0
      ensures r.Done? ==> Remapped(old(frames), frames, root, virt, None)
      ensures r.Abort? ==> frames == old(frames)
    {
      if virt % PAGE_SIZE != 0 {
        return Abort;
      }
      var walk := WalkExisting(virt);
      if walk.Some? {
        ZeroIsAbsent();
        StoreLeaf(pmm, virt, walk.value.0, 0);
      } else {
        NothingMapped(frames, root, virt);
      }
      return Done(());
    }

    function GetPhysAddr(virt: nat): (r: Option<nat>)
      reads this
      ensures !MeetsLarge(frames, root, SplitIndices(virt)) ==> r == Translated(frames, root, virt)
    {
      var walk := WalkExisting(virt);
      if walk.None? then None
      else if !Present(walk.value.2) then None
      else Some(Or(Address(walk.value.2), And(virt, 0xfff)))
    }
  }
}
