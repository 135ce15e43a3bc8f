/** The pages under the heap: each one taken from the page allocator and mapped once. */
module HeapPages {
  import opened Wrappers
  import opened Words
  import opened PageTree
  import opened PhysicalPages
  import opened TableNeeds
  import opened AddressSpaces

  const HEAP_FLAGS: nat := 0x8000_0000_0000_0003   // PTE_PRESENT | PTE_WRITABLE | PTE_NO_EXEC
  const VIRTUAL_PAGES: nat := 0x10_0000_0000       // pages told apart by bits 12 to 47

  ghost function PageSet(pages: seq<nat>): set<nat> { set p | p in pages }

  ghost predicate Distinct(pages: seq<nat>) {
    forall i, j :: 0 <= i < j < |pages| ==> pages[i] != pages[j]
  }

  /** Between two states, the allocator lost exactly the new tables and the `added` pages. */
  ghost predicate TookPages(c0: set<nat>, f0: set<nat>, c1: set<nat>, f1: set<nat>, added: seq<nat>) {
    && c0 <= c1 && c1 - c0 <= f0 && PageSet(added) <= f0 && PageSet(added) !! c1
    && f1 == f0 - (c1 - c0) - PageSet(added)
    && Distinct(added)
    && |c1| + |f1| + |added| == |c0| + |f0|
  }

  lemma DistinctConcat(a: seq<nat>, b: seq<nat>)
    requires Distinct(a) && Distinct(b) && PageSet(a) !! PageSet(b)
    ensures Distinct(a + b) && PageSet(a + b) == PageSet(a) + PageSet(b)
  {
    forall i, j | 0 <= i < |a| && 0 <= j < |b|
      ensures a[i] != b[j]
    {
      assert a[i] in PageSet(a) && b[j] in PageSet(b);
    }
  }

  lemma TookOneMore(c0: set<nat>, f0: set<nat>, c1: set<nat>, f1: set<nat>, added: seq<nat>, page: nat,
                    c2: set<nat>, f2: set<nat>)
    requires TookPages(c0, f0, c1, f1, added) && page in f1 && page !in c2
    requires TablesTookPages(c1, f1 - {page}, c2, f2)
    ensures TookPages(c0, f0, c2, f2, added + [page])
  {
    hide PageSet, Distinct;
    assert f1 - {page} - (c2 - c1) == f1 - (c2 - c1) - {page};
    OnePage(page);
    TookSets(c0, f0, c1, f1, PageSet(added), c2, f2, {page});
    DistinctConcat(added, [page]);
  }

  lemma OnePage(page: nat)
    ensures PageSet([page]) == {page} && Distinct([page])
  {
  }

  lemma TookBoth(c0: set<nat>, f0: set<nat>, c1: set<nat>, f1: set<nat>, a: seq<nat>,
                 c2: set<nat>, f2: set<nat>, b: seq<nat>)
    requires TookPages(c0, f0, c1, f1, a) && TookPages(c1, f1, c2, f2, b)
    ensures TookPages(c0, f0, c2, f2, a + b)
  {
    hide PageSet, Distinct;
    TookSets(c0, f0, c1, f1, PageSet(a), c2, f2, PageSet(b));
    DistinctConcat(a, b);
  }

  /** What two growths take, as sets: `p` and `q` are the pages they add. */
  lemma TookSets(c0: set<nat>, f0: set<nat>, c1: set<nat>, f1: set<nat>, p: set<nat>,
                 c2: set<nat>, f2: set<nat>, q: set<nat>)
    requires c0 <= c1 && c1 - c0 <= f0 && p <= f0 && p !! c1 && f1 == f0 - (c1 - c0) - p
    requires c1 <= c2 && c2 - c1 <= f1 && q <= f1 && q !! c2 && f2 == f1 - (c2 - c1) - q
    ensures p !! q && p !! c2 && c2 - c0 <= f0
    ensures f2 == f0 - (c2 - c0) - (p + q)
  {
    TookFree(c0, f0, c1, p, c2, q);
    assert c2 - c0 == (c2 - c1) + (c1 - c0);
  }

  lemma TookFree(c0: set<nat>, f0: set<nat>, c1: set<nat>, p: set<nat>, c2: set<nat>, q: set<nat>)
    requires c0 <= c1 <= c2
    ensures f0 - (c1 - c0) - p - (c2 - c1) - q == f0 - (c2 - c0) - (p + q)
  {
  }

  /** Page `i` above `virt` is mapped to physical page `pages[i]`. */
  ghost predicate MappedAt(frames: Frames, root: nat, virt: nat, pages: seq<nat>, i: nat)
    requires i < |pages|
  {
    Lookup(frames, root, SplitIndices(virt + i * PAGE_SIZE)) == Some(Entry(pages[i] * PAGE_SIZE, HEAP_FLAGS))
  }

  /** Every page of the run is mapped, each to its own physical page. */
  ghost predicate RunMapped(frames: Frames, root: nat, virt: nat, pages: seq<nat>) {
    forall i :: 0 <= i < |pages| ==> MappedAt(frames, root, virt, pages, i)
  }

  lemma DifferentPages(virt: nat, i: nat, j: nat)
    requires virt % PAGE_SIZE == 0 && i < j < VIRTUAL_PAGES
    ensures SplitIndices(virt + i * PAGE_SIZE) != SplitIndices(virt + j * PAGE_SIZE)
  {
    hide SplitIndices;
    SameIndices(virt + i * PAGE_SIZE, virt + j * PAGE_SIZE);
    var v := virt / PAGE_SIZE;
    assert virt == v * PAGE_SIZE;
    assert (virt + i * PAGE_SIZE) / 0x1000 == v + i && (virt + j * PAGE_SIZE) / 0x1000 == v + j;
    DifferentRemainders(v, i, j);
  }

  lemma DifferentRemainders(v: nat, i: nat, j: nat)
    requires i < j < VIRTUAL_PAGES
    ensures (v + i) % VIRTUAL_PAGES != (v + j) % VIRTUAL_PAGES
  {
  }

  /** The address lies on none of the `n` pages from `start` on, as bits 12 to 47 tell them apart. */
  predicate OutsideRun(virt: nat, start: nat, n: nat) {
    (virt / PAGE_SIZE % VIRTUAL_PAGES + VIRTUAL_PAGES - start / PAGE_SIZE % VIRTUAL_PAGES) % VIRTUAL_PAGES >= n
  }

  lemma OutsideRunPages(virt: nat, start: nat, n: nat, i: nat)
    requires start % PAGE_SIZE == 0 && OutsideRun(virt, start, n) && i < n
    ensures SplitIndices(virt) != SplitIndices(start + i * PAGE_SIZE)
  {
    hide SplitIndices;
    SameIndices(virt, start + i * PAGE_SIZE);
    var s := start / PAGE_SIZE;
    assert (start + i * PAGE_SIZE) / 0x1000 == s + i;
    NotThatFar(s, virt / PAGE_SIZE, i);
  }

  lemma NotThatFar(s: nat, v: nat, i: nat)
    requires i < (v % VIRTUAL_PAGES + VIRTUAL_PAGES - s % VIRTUAL_PAGES) % VIRTUAL_PAGES
    ensures (s + i) % VIRTUAL_PAGES != v % VIRTUAL_PAGES
  {
  }

  /** Mapping a page elsewhere keeps a run mapped. */
  lemma RunStaysMapped(before: Frames, after: Frames, root: nat, start: nat, pages: seq<nat>, virt: nat, word: nat)
    requires start % PAGE_SIZE == 0 && OutsideRun(virt, start, |pages|) && RunMapped(before, root, start, pages)
    requires Remapped(before, after, root, virt, Some(word))
    ensures RunMapped(after, root, start, pages)
  {
    hide SplitIndices, Entry, Lookup, Remapped, OutsideRun;
    forall i | 0 <= i < |pages|
      ensures MappedAt(after, root, start, pages, i)
    {
      assert MappedAt(before, root, start, pages, i);
      OutsideRunPages(virt, start, |pages|, i);
      RemappedLookup(before, after, root, virt, Some(word), start + i * PAGE_SIZE);
    }
  }

  lemma NothingMappedYet(frames: Frames, root: nat, virt: nat)
    ensures RunMapped(frames, root, virt, [])
  {
  }

  /** `after` is `before` with `page` mapped at `virt`. */
  ghost predicate MappedOne(before: Frames, after: Frames, root: nat, virt: nat, page: nat) {
    Remapped(before, after, root, virt, Some(Entry(page * PAGE_SIZE, HEAP_FLAGS)))
  }

  /** Mapping the next page keeps the run mapped, up to the 2^36 pages that can be told apart. */
  lemma MapNext(before: Frames, after: Frames, root: nat, virt: nat, pages: seq<nat>, page: nat)
    requires virt % PAGE_SIZE == 0 && |pages| < VIRTUAL_PAGES
    requires RunMapped(before, root, virt, pages) && MappedOne(before, after, root, virt + |pages| * PAGE_SIZE, page)
    ensures RunMapped(after, root, virt, pages + [page])
  {
    hide SplitIndices, Entry, Lookup, Remapped;
    var n := |pages|;
    forall i | 0 <= i < n + 1
      ensures MappedAt(after, root, virt, pages + [page], i)
    {
      RemappedLookup(before, after, root, virt + n * PAGE_SIZE, Some(Entry(page * PAGE_SIZE, HEAP_FLAGS)),
                     virt + i * PAGE_SIZE);
      if i < n {
        assert MappedAt(before, root, virt, pages, i);
        DifferentPages(virt, i, n);
      }
    }
  }

  lemma HeapFlags()
    ensures And(HEAP_FLAGS, ADDR_MASK) == 0
  {
    HeapFlagsAreNoAddress(HEAP_FLAGS);
  }

  /** A mapped heap byte translates to its offset in the page that backs it. */
  lemma HeapByteTranslates(frames: Frames, root: nat, virt: nat, pages: seq<nat>, i: nat, offset: nat)
    requires virt % PAGE_SIZE == 0 && RunMapped(frames, root, virt, pages) && i < |pages| && offset < PAGE_SIZE
    requires pages[i] * PAGE_SIZE < ADDR_LIMIT
    ensures Translated(frames, root, virt + i * PAGE_SIZE + offset) == Some(pages[i] * PAGE_SIZE + offset)
  {
    hide SplitIndices, Entry, And, Or, Lookup, Remapped;
    assert MappedAt(frames, root, virt, pages, i);
    var v := virt + i * PAGE_SIZE;
    HeapFlags();
    RemapSame(frames, root, v, Entry(pages[i] * PAGE_SIZE, HEAP_FLAGS));
    MapReadsBack(frames, frames, root, v, pages[i] * PAGE_SIZE, HEAP_FLAGS, offset);
  }

  /** The page of the address is present, writable and not executable. */
  ghost predicate WritableAt(frames: Frames, root: nat, virt: nat) {
    var entry := Lookup(frames, root, SplitIndices(virt));
    && entry.Some? && And(entry.value, 1) == 1 && And(entry.value, 2) == 2
    && And(entry.value, 0x8000_0000_0000_0000) == 0x8000_0000_0000_0000
  }

  /** So is every page of a mapped heap; below 2^52 its entry has no other bit but those of its frame. */
  lemma HeapPageIsWritable(frames: Frames, root: nat, virt: nat, pages: seq<nat>, i: nat)
    requires RunMapped(frames, root, virt, pages) && i < |pages|
    ensures WritableAt(frames, root, virt + i * PAGE_SIZE)
    ensures pages[i] * PAGE_SIZE < ADDR_LIMIT ==>
      Lookup(frames, root, SplitIndices(virt + i * PAGE_SIZE)) == Some(pages[i] * PAGE_SIZE + 0x8000_0000_0000_0003)
  {
    hide SplitIndices, Entry, And, Or, Lookup;
    assert MappedAt(frames, root, virt, pages, i);
    var word := Entry(pages[i] * PAGE_SIZE, HEAP_FLAGS);
    HeapFlags();
    EntryHasFlags(pages[i] * PAGE_SIZE, HEAP_FLAGS);
    HeapFlagBits();
    FewerFlags(word, HEAP_FLAGS, 1);
    FewerFlags(word, HEAP_FLAGS, 2);
    FewerFlags(word, HEAP_FLAGS, PTE_NO_EXEC);
  }

  lemma HeapFlagBits()
    ensures And(HEAP_FLAGS, 1) == 1 && And(HEAP_FLAGS, 2) == 2 && And(HEAP_FLAGS, PTE_NO_EXEC) == PTE_NO_EXEC
    ensures Or(HEAP_FLAGS, 1) == HEAP_FLAGS
  {
    AndItself(PTE_NO_EXEC / 4);
    assert HEAP_FLAGS / 2 / 2 == PTE_NO_EXEC / 2 / 2 == PTE_NO_EXEC / 4;
    AndHalves(HEAP_FLAGS, PTE_NO_EXEC);
    AndHalves(HEAP_FLAGS / 2, PTE_NO_EXEC / 2);
  }

  lemma RemapSame(frames: Frames, root: nat, virt: nat, word: nat)
    requires Lookup(frames, root, SplitIndices(virt)) == Some(word)
    ensures Remapped(frames, frames, root, virt, Some(word))
  {
    hide SplitIndices, Lookup;
    assert SplitIndices(virt) in View(frames, root);
  }

  lemma TookNothing(created: set<nat>, free: set<nat>)
    ensures TookPages(created, free, created, free, [])
  {
  }

  /** The pages are someone's own: no two are the same, none is free, none is a table. */
  ghost predicate OwnPages(pages: seq<nat>, created: set<nat>, free: set<nat>) {
    Distinct(pages) && PageSet(pages) !! free && PageSet(pages) !! created
  }

  lemma {:induction false} PageSetSize(pages: seq<nat>)
    requires Distinct(pages)
    ensures |PageSet(pages)| == |pages|
  {
    if pages != [] {
      var n := |pages| - 1;
      PageSetSize(pages[..n]);
      assert PageSet(pages) == PageSet(pages[..n]) + {pages[n]};
    }
  }

  lemma OwnNothing(created: set<nat>, free: set<nat>)
    ensures OwnPages([], created, free)
  {
  }

  lemma OwnMore(pages: seq<nat>, c0: set<nat>, f0: set<nat>, c1: set<nat>, f1: set<nat>, added: seq<nat>)
    requires OwnPages(pages, c0, f0) && TookPages(c0, f0, c1, f1, added)
    ensures OwnPages(pages + added, c1, f1)
  {
    hide PageSet, Distinct;
    DistinctConcat(pages, added);
    assert c1 == c0 + (c1 - c0);
  }

  /** The address of page `i` above `virt` meets no large page. */
  predicate ClearAt(frames: Frames, root: nat, virt: nat, i: nat) {
    !MeetsLarge(frames, root, SplitIndices(virt + i * PAGE_SIZE))
  }

  ghost predicate ClearRun(frames: Frames, root: nat, virt: nat, n: nat) {
    forall i :: 0 <= i < n ==> ClearAt(frames, root, virt, i)
  }

  lemma ClearRunKept(before: Frames, after: Frames, root: nat, virt: nat, n: nat)
    requires SameLarge(before, after, root) && ClearRun(before, root, virt, n)
    ensures ClearRun(after, root, virt, n)
  {
    hide LargeAt, SplitIndices;
    forall i | 0 <= i < n
      ensures ClearAt(after, root, virt, i)
    {
      assert ClearAt(before, root, virt, i);
    }
  }

  lemma LargeThrice(f0: Frames, f1: Frames, f2: Frames, root: nat, virt: nat, page: nat)
    requires SameLarge(f0, f1, root) && MappedOne(f1, f2, root, virt, page)
    ensures SameLarge(f0, f2, root)
  {
    hide LargeAt, SplitIndices, View;
  }

  lemma SameLargeItself(frames: Frames, root: nat)
    ensures SameLarge(frames, frames, root)
  {
  }

  /** A longer run needs no fewer tables. */
  lemma {:induction false} LongerRun(frames: Frames, root: nat, virt: nat, i: nat, n: nat)
    requires i <= n
    ensures |MissingOverRun(frames, root, virt, i)| <= |MissingOverRun(frames, root, virt, n)|
    decreases n
  {
    hide Missing, SplitIndices;
    if i < n {
      LongerRun(frames, root, virt, i, n - 1);
      Grows(MissingOverRun(frames, root, virt, n - 1), Missing(frames, root, SplitIndices(virt + (n - 1) * PAGE_SIZE)));
    }
  }

  lemma Grows<T>(a: set<T>, b: set<T>)
    ensures |a| <= |a + b|
  {
    assert a + b == a + (b - a);
  }

  lemma StillAligned(start: nat, n: nat, i: nat)
    requires start % PAGE_SIZE == 0
    ensures (start + n * PAGE_SIZE + i * PAGE_SIZE) % PAGE_SIZE == 0
  {
  }

  /** One turn of `map_fresh_pages`: a fresh page mapped at `virt`. */
  method MapFreshPage(pmm: Pmm, vm: AddressSpace, virt: nat) returns (r: Outcome<()>, ghost page: nat)
    requires vm.Valid(pmm) && virt % PAGE_SIZE == 0 && !MeetsLarge(vm.frames, vm.root, SplitIndices(virt))
    modifies vm, pmm`freeCount, pmm`free, pmm.bitmap
    ensures r.Done? <==> 1 + |Missing(old(vm.frames), vm.root, SplitIndices(virt))| <= |old(pmm.free)|
    ensures r.Done? ==>
      && vm.Valid(pmm)
      && page in old(pmm.free) && page !in vm.created
      && TablesTookPages(old(vm.created), old(pmm.free) - {page}, vm.created, pmm.free)
      && |old(pmm.free)| == |pmm.free| + 1 + |Missing(old(vm.frames), vm.root, SplitIndices(virt))|
      && MappedOne(old(vm.frames), vm.frames, vm.root, virt, page)
      && Completed(old(vm.frames), vm.frames, vm.root, SplitIndices(virt))
  {
    hide Tree, Remapped, SplitIndices, Entry, TablesAreTaken, And, Or, Pmm.Valid, Missing, Completed, MeetsLarge;
    page := 0;
    StillTaken(vm.boot, vm.shape, vm.created, pmm.free);
    var phys := pmm.AllocPage();
    if phys.None? {
      return Abort, page;
    }
    page := phys.value / PAGE_SIZE;
    assert |pmm.free| == |old(pmm.free)| - 1;
    r := vm.MapPage(pmm, virt, phys.value, HEAP_FLAGS);
  }

  /** `map_fresh_pages`, over addresses that meet no large page: it needs exactly one free page for
      each page and one for each table missing over the run. `done` are the pages already mapped
      below `virt + i * PAGE_SIZE`. */
  method MapFreshPages(pmm: Pmm, vm: AddressSpace, virt: nat, n: nat, ghost start: nat, ghost done: seq<nat>)
    returns (r: Outcome<()>, ghost pages: seq<nat>)
    requires vm.Valid(pmm) && ClearRun(vm.frames, vm.root, virt, n)
    requires start % PAGE_SIZE == 0 && virt == start + |done| * PAGE_SIZE
    modifies vm, pmm`freeCount, pmm`free, pmm.bitmap
    ensures r.Done? <==> n + |MissingOverRun(old(vm.frames), vm.root, virt, n)| <= |old(pmm.free)|
    ensures r.Done? ==>
      && vm.Valid(pmm) && |pages| == n
      && TookPages(old(vm.created), old(pmm.free), vm.created, pmm.free, pages)
      && SameLarge(old(vm.frames), vm.frames, vm.root)
      && Filled(old(vm.frames), vm.frames, vm.root, MissingOverRun(old(vm.frames), vm.root, virt, n))
      && |old(pmm.free)| == |pmm.free| + n + |MissingOverRun(old(vm.frames), vm.root, virt, n)|
      && (|done| + n <= VIRTUAL_PAGES && RunMapped(old(vm.frames), vm.root, start, done) ==>
            RunMapped(vm.frames, vm.root, start, done + pages))
  {
    hide *;
    pages := [];
    ghost var f0 := vm.frames;
    TookNothing(vm.created, pmm.free);
    SameLargeItself(f0, vm.root);
    FilledNothing(f0, vm.root);
    EmptyRun(f0, vm.root, virt);
    ghost var keep := |done| + n <= VIRTUAL_PAGES && RunMapped(old(vm.frames), vm.root, start, done);
    assert done + pages == done;
    for i := 0 to n
      invariant vm.Valid(pmm) && |pages| == i
      invariant SameLarge(f0, vm.frames, vm.root)
      invariant Filled(f0, vm.frames, vm.root, MissingOverRun(f0, vm.root, virt, i))
      invariant |old(pmm.free)| == |pmm.free| + i + |MissingOverRun(f0, vm.root, virt, i)|
      invariant TookPages(old(vm.created), old(pmm.free), vm.created, pmm.free, pages)
      invariant keep ==> RunMapped(vm.frames, vm.root, start, done + pages)
    {
      ghost var c1, f1, l1 := vm.created, pmm.free, vm.frames;
      ghost var page;
      StillAligned(start, |done|, i);
      ClearRunKept(f0, l1, vm.root, virt, n);
      ClearHere(l1, vm.root, virt, n, i);
      r, page := MapFreshPage(pmm, vm, virt + i * PAGE_SIZE);
      NextNeed(f0, l1, vm.root, virt, i, n);
      if r.Abort? {
        return;
      }
      RunStep(f0, l1, vm.frames, vm.root, virt, i, page);
      TookOneMore(old(vm.created), old(pmm.free), c1, f1, pages, page, vm.created, pmm.free);
      if keep {
        MapNextOfRun(l1, vm.frames, vm.root, start, done, pages, page);
      }
      pages := pages + [page];
    }
    return Done(()), pages;
  }

  lemma RunStep(f0: Frames, f1: Frames, f2: Frames, root: nat, virt: nat, i: nat, page: nat)
    requires SameLarge(f0, f1, root) && Filled(f0, f1, root, MissingOverRun(f0, root, virt, i))
    requires MappedOne(f1, f2, root, virt + i * PAGE_SIZE, page)
    requires Completed(f1, f2, root, SplitIndices(virt + i * PAGE_SIZE))
    ensures SameLarge(f0, f2, root) && Filled(f0, f2, root, MissingOverRun(f0, root, virt, i + 1))
  {
    hide Missing, SplitIndices, Filled, Completed, MappedOne, SameLarge;
    FillNext(f0, f1, f2, root, SplitIndices(virt + i * PAGE_SIZE), MissingOverRun(f0, root, virt, i));
    LargeThrice(f0, f1, f2, root, virt + i * PAGE_SIZE, page);
  }

  lemma MapNextOfRun(before: Frames, after: Frames, root: nat, start: nat, done: seq<nat>, pages: seq<nat>, page: nat)
    requires start % PAGE_SIZE == 0 && |done| + |pages| < VIRTUAL_PAGES && RunMapped(before, root, start, done + pages)
    requires MappedOne(before, after, root, start + |done| * PAGE_SIZE + |pages| * PAGE_SIZE, page)
    ensures RunMapped(after, root, start, done + (pages + [page]))
  {
    hide RunMapped, MappedOne;
    assert start + |done + pages| * PAGE_SIZE == start + |done| * PAGE_SIZE + |pages| * PAGE_SIZE;
    MapNext(before, after, root, start, done + pages, page);
    assert done + pages + [page] == done + (pages + [page]);
  }

  lemma EmptyRun(frames: Frames, root: nat, virt: nat)
    ensures MissingOverRun(frames, root, virt, 0) == {}
  {
  }

  lemma ClearHere(frames: Frames, root: nat, virt: nat, n: nat, i: nat)
    requires ClearRun(frames, root, virt, n) && i < n
    ensures !MeetsLarge(frames, root, SplitIndices(virt + i * PAGE_SIZE))
  {
    assert ClearAt(frames, root, virt, i);
  }

  /** What page `i` needs on top of the pages before it. */
  lemma NextNeed(before: Frames, now: Frames, root: nat, virt: nat, i: nat, n: nat)
    requires i < n
    requires Filled(before, now, root, MissingOverRun(before, root, virt, i))
    ensures var path := SplitIndices(virt + i * PAGE_SIZE);
      var run, longer := MissingOverRun(before, root, virt, i), MissingOverRun(before, root, virt, i + 1);
      && longer == run + Missing(before, root, path)
      && |longer| == |run| + |Missing(now, root, path)|
      && |longer| <= |MissingOverRun(before, root, virt, n)|
  {
    hide Missing, SplitIndices, Filled;
    var path := SplitIndices(virt + i * PAGE_SIZE);
    var run := MissingOverRun(before, root, virt, i);
    NowMissing(before, now, root, path, run);
    LongerRun(before, root, virt, i + 1, n);
    assert run + Missing(before, root, path) == run + (Missing(before, root, path) - run);
  }
}
