/** The kernel heap: `kmalloc`, `kfree` and the growth of the heap. */
module KernelHeap {
  import opened Wrappers
  import opened PageTree
  import opened PhysicalPages
  import opened TableNeeds
  import opened AddressSpaces
  import opened HeapBlocks
  import opened HeapHeaders
  import opened HeapPages

  const HEAP_START: nat := 0xffff_8001_0000_0000
  const HEAP_MAX_SIZE: nat := 64 * 1024 * 1024

  /** Without overflow checks `align_up` wraps at 2^64. It then still covers the request exactly if
      the request is at most 2^64 - ALIGN; beyond that the result is 0. */
  lemma AlignUpWraps(n: nat)
    requires n < WORD_LIMIT
    ensures var wrapped := (n + ALIGN - 1) % WORD_LIMIT / ALIGN * ALIGN;
      && (wrapped >= n <==> n <= WORD_LIMIT - ALIGN)
      && (n <= WORD_LIMIT - ALIGN ==> wrapped == AlignUp(n))
      && (n > WORD_LIMIT - ALIGN ==> wrapped == 0)
  {
    if n > WORD_LIMIT - ALIGN {
      assert (n + ALIGN - 1) % WORD_LIMIT == n + ALIGN - 1 - WORD_LIMIT;
    }
  }

  /** The pages `expand_heap` adds for a request: the padded byte count, rounded down to pages. */
  function ExtraBytes(needed: nat, h: nat): nat { AlignUp(needed + h + PAGE_SIZE) }
  function ExtraPages(needed: nat, h: nat): nat { ExtraBytes(needed, h) / PAGE_SIZE }

  /** The heap may grow for a request: no sum overflows, the end stays within the maximum, and there
      is a free page for each page to add and for each of the `tables` missing above them. */
  predicate RoomToGrow(end: nat, needed: nat, h: nat, tables: nat, freePages: nat) {
    && needed + h + PAGE_SIZE + ALIGN - 1 < WORD_LIMIT
    && HEAP_START <= end + ExtraBytes(needed, h) <= HEAP_START + HEAP_MAX_SIZE
    && ExtraPages(needed, h) + tables <= freePages
  }

  /** The tables missing above the pages that growth for a request adds. */
  ghost function TablesToGrow(frames: Frames, root: nat, end: nat, needed: nat, h: nat): nat {
    |MissingOverRun(frames, root, end, ExtraPages(needed, h))|
  }

  /** The addresses that growth within the maximum would map meet no large page. */
  ghost predicate GrowthIsClear(frames: Frames, root: nat, end: nat, needed: nat, h: nat) {
    HEAP_START <= end + ExtraBytes(needed, h) <= HEAP_START + HEAP_MAX_SIZE ==>
      ClearRun(frames, root, end, ExtraPages(needed, h))
  }

  /** Growth makes room for the request and its header, and for at most a page and 15 bytes more. */
  lemma GrowthIsTight(needed: nat, h: nat)
    ensures needed + h < ExtraPages(needed, h) * 4096 <= needed + h + 4096 + 15
  {
    ExtraPagesSuffice(needed, h);
  }

  lemma RoundedPages(bytes: nat)
    ensures var rounded := bytes / ALIGN * ALIGN;
      bytes - ALIGN - PAGE_SIZE < rounded / PAGE_SIZE * PAGE_SIZE <= bytes
  {
  }

  /** Without overflow checks the sums of `expand_heap` wrap too. Then growth adds enough for the
      request exactly if none of them overflows. */
  lemma GrowthWraps(needed: nat, h: nat)
    requires needed < WORD_LIMIT && h < WORD_LIMIT - PAGE_SIZE - ALIGN
    ensures var wrapped := (needed + h + PAGE_SIZE + ALIGN - 1) % WORD_LIMIT / ALIGN * ALIGN;
      && (wrapped / PAGE_SIZE * PAGE_SIZE > needed + h <==> needed + h + PAGE_SIZE + ALIGN - 1 < WORD_LIMIT)
      && (needed + h + PAGE_SIZE + ALIGN - 1 < WORD_LIMIT ==> wrapped == ExtraBytes(needed, h))
  {
    var sum := needed + h + PAGE_SIZE + ALIGN - 1;
    if sum >= WORD_LIMIT {
      assert sum % WORD_LIMIT == sum - WORD_LIMIT;
      RoundedPages(sum - WORD_LIMIT);
    } else {
      ExtraPagesSuffice(needed, h);
    }
  }

  /** Rounding down still leaves a block larger than the request. */
  lemma ExtraPagesSuffice(needed: nat, h: nat)
    ensures ExtraPages(needed, h) * PAGE_SIZE > needed + h
    ensures ExtraPages(needed, h) * PAGE_SIZE <= ExtraBytes(needed, h)
  {
    var bytes := ExtraBytes(needed, h);
    assert bytes >= needed + h + PAGE_SIZE;
    assert bytes == ExtraPages(needed, h) * PAGE_SIZE + bytes % PAGE_SIZE;
  }

  /** The first block that fits, or the number of blocks. */
  ghost function FitIndex(blocks: seq<Block>, needed: nat): (k: nat)
    ensures k <= |blocks|
    ensures k < |blocks| ==> FirstFit(blocks, needed, k)
    ensures k == |blocks| ==> !HasFit(blocks, needed)
  {
    if blocks == [] then 0
    else if Fits(blocks[0], needed) then 0
    else
      var k := FitIndex(blocks[1..], needed);
      assert forall j :: 0 < j < |blocks| ==> blocks[j] == blocks[1..][j - 1];
      k + 1
  }

  lemma FitIndexUnique(blocks: seq<Block>, needed: nat, k: nat)
    requires k <= |blocks| && forall j :: 0 <= j < k ==> !Fits(blocks[j], needed)
    requires k < |blocks| ==> Fits(blocks[k], needed)
    ensures FitIndex(blocks, needed) == k
  {
  }

  /** First fit takes the first free block of at least the size needed, whatever block that is. */
  lemma FirstFitTakesFirst(blocks: seq<Block>, needed: nat)
    ensures forall k :: 0 <= k < |blocks| && !blocks[k].used && blocks[k].size >= needed ==>
      FitIndex(blocks, needed) <= k
    ensures var k := FitIndex(blocks, needed); k < |blocks| ==> !blocks[k].used && blocks[k].size >= needed
    ensures forall k: nat :: FirstFree(blocks, needed, k) <==> k == FitIndex(blocks, needed) < |blocks|
  {
  }

  /** The fewest pages that hold so many bytes. */
  function PagesFor(sizeBytes: nat): (pages: nat)
    ensures sizeBytes <= pages * 4096 < sizeBytes + 4096
  {
    (sizeBytes + PAGE_SIZE - 1) / PAGE_SIZE
  }

  /** What the heap looks like after a successful `kmalloc`. */
  ghost function Allocated(blocks: seq<Block>, h: nat, end: nat, needed: nat): seq<Block> {
    var k := FitIndex(blocks, needed);
    if k < |blocks| then Take(blocks, h, k, needed)
    else Take(Grown(blocks, h, end, needed), h, |blocks|, needed)
  }

  /** What it looks like after `expand_heap`. */
  ghost function Grown(blocks: seq<Block>, h: nat, end: nat, needed: nat): (r: seq<Block>)
    ensures |r| == |blocks| + 1 && Fits(r[|blocks|], needed)
  {
    ExtraPagesSuffice(needed, h);
    Grow(blocks, end, ExtraPages(needed, h) * PAGE_SIZE - h)
  }

  /** The new block is the one first fit then picks. */
  lemma GrownFits(blocks: seq<Block>, h: nat, end: nat, needed: nat)
    requires FitIndex(blocks, needed) == |blocks|
    ensures FitIndex(Grown(blocks, h, end, needed), needed) == |blocks|
  {
    var grown := Grown(blocks, h, end, needed);
    forall j | 0 <= j < |blocks|
      ensures !Fits(grown[j], needed)
    {
      assert grown[j] == blocks[j];
    }
    FitIndexUnique(grown, needed, |blocks|);
  }

  /** The used block that `kmalloc` returns the payload of. */
  ghost function AllocatedBlock(blocks: seq<Block>, h: nat, end: nat, needed: nat): Block {
    var k := FitIndex(blocks, needed);
    if k < |blocks| then Split(blocks[k], h, needed)[0] else Split(Grown(blocks, h, end, needed)[k], h, needed)[0]
  }

  ghost function EndAfter(blocks: seq<Block>, h: nat, end: nat, needed: nat): nat {
    if FitIndex(blocks, needed) < |blocks| then end else end + ExtraPages(needed, h) * PAGE_SIZE
  }

  /** `kmalloc` adds one used block, with a payload of at least the size asked for and at most
      HEADER_SIZE + 2 * ALIGN - 1 more; every other used block keeps its address and size, and
      the blocks still tile the heap. */
  lemma AllocationIsSafe(blocks: seq<Block>, h: nat, start: nat, end: nat, size: nat)
    requires Tiles(blocks, h, start, end) && blocks != [] && size > 0
    ensures var needed := AlignUp(size);
      var got := AllocatedBlock(blocks, h, end, needed);
      && got.used && size <= got.size <= size + h + 2 * ALIGN - 1
      && got !in UsedBlocks(blocks)
      && UsedBlocks(Allocated(blocks, h, end, needed)) == UsedBlocks(blocks) + {got}
      && Tiles(Allocated(blocks, h, end, needed), h, start, EndAfter(blocks, h, end, needed))
  {
    hide Tiles, UsedBlocks, Take, Split, FirstFit, HasFit, FitIndex;
    var needed := AlignUp(size);
    var k := FitIndex(blocks, needed);
    FirstFitFits(blocks, needed);
    if k < |blocks| {
      TakeUsed(blocks, h, start, end, k, needed);
      TakeTiles(blocks, h, start, end, k, needed);
      TakeAt(blocks, h, k, needed);
    } else {
      var grown, end' := Grown(blocks, h, end, needed), end + ExtraPages(needed, h) * PAGE_SIZE;
      ExtraPagesSuffice(needed, h);
      GrowTiles(blocks, h, start, end, ExtraPages(needed, h) * PAGE_SIZE - h);
      GrowUsed(blocks, end, ExtraPages(needed, h) * PAGE_SIZE - h);
      TakeUsed(grown, h, start, end', k, needed);
      TakeTiles(grown, h, start, end', k, needed);
      TakeAt(grown, h, k, needed);
    }
  }

  lemma FirstFitFits(blocks: seq<Block>, needed: nat)
    ensures var k := FitIndex(blocks, needed); k < |blocks| ==> Fits(blocks[k], needed)
  {
  }

  lemma TakeAt(blocks: seq<Block>, h: nat, k: nat, needed: nat)
    requires k < |blocks| && Fits(blocks[k], needed)
    ensures k < |Take(blocks, h, k, needed)| && Take(blocks, h, k, needed)[k] == Split(blocks[k], h, needed)[0]
  {
  }

  /** Allocating after growth is what allocating without a fit means. */
  lemma GrowThenAllocate(blocks: seq<Block>, h: nat, end: nat, needed: nat)
    requires FitIndex(blocks, needed) == |blocks|
    ensures var grown, end' := Grown(blocks, h, end, needed), end + ExtraPages(needed, h) * PAGE_SIZE;
      && FitIndex(grown, needed) < |grown| && HasFit(grown, needed)
      && Allocated(grown, h, end', needed) == Allocated(blocks, h, end, needed)
      && AllocatedBlock(grown, h, end', needed) == AllocatedBlock(blocks, h, end, needed)
      && EndAfter(grown, h, end', needed) == end' == EndAfter(blocks, h, end, needed)
  {
    hide Take, Split;
    GrownFits(blocks, h, end, needed);
    FirstFitFits(Grown(blocks, h, end, needed), needed);
  }

  lemma AllocateFound(blocks: seq<Block>, h: nat, end: nat, needed: nat, k: nat)
    requires FitIndex(blocks, needed) == k < |blocks|
    ensures Fits(blocks[k], needed)
    ensures Allocated(blocks, h, end, needed) == Take(blocks, h, k, needed)
    ensures AllocatedBlock(blocks, h, end, needed).addr == blocks[k].addr
    ensures EndAfter(blocks, h, end, needed) == end
  {
  }

  /** What memory holds at `addr`, seen as a header. */
  function Below(mem: Headers, addr: int, stray: BlockHeader): BlockHeader {
    if addr in mem then mem[addr] else stray
  }

  /** Block `k`, a used one at `addr`, was freed: it left the used blocks, and no other did. */
  ghost predicate ReleasedAt(before: seq<Block>, after: seq<Block>, h: nat, k: nat, addr: int)
    requires k < |before|
  {
    && before[k].used && before[k].addr == addr
    && after == Release(before, h, k)
    && UsedBlocks(after) == UsedBlocks(before) - {before[k]}
  }

  class Heap {
    const h: nat                  // HEADER_SIZE
    var mem: Headers
    var head: nat
    var end: nat
    var inited: bool
    ghost var start: nat
    ghost var blocks: seq<Block>  // the abstract value: the row of blocks
    ghost var pages: seq<nat>     // the physical page under each page of the heap

    /** The list of headers is the row of blocks, and the blocks tile the heap. */
    ghost predicate Rows()
      reads this
    {
      && h > 0 && h % 8 == 0
      && if inited then
           && start > 0 && start % PAGE_SIZE == 0 && head == start && blocks != []
           && Tiles(blocks, h, start, end) && Linked(mem, blocks)
           && end == start + |pages| * PAGE_SIZE
         else mem == map[] && blocks == [] && pages == []
    }

    /** The heap lies on pages of its own, each mapped once. */
    ghost predicate Backed(pmm: Pmm, vm: AddressSpace)
      reads this, pmm, vm
    {
      && OwnPages(pages, vm.created, pmm.free)
      && (|pages| <= VIRTUAL_PAGES ==> RunMapped(vm.frames, vm.root, start, pages))
    }

    ghost predicate Valid(pmm: Pmm, vm: AddressSpace)
      reads this, pmm, pmm.bitmap, vm
    {
      vm.Valid(pmm) && Rows() && Backed(pmm, vm)
    }

    constructor (headerSize: nat)
      requires headerSize > 0 && headerSize % 8 == 0
      ensures Rows() && !inited && h == headerSize && pages == []
    {
      h := headerSize;
      mem, head, end, inited := map[], 0, 0, false;
      start, blocks, pages := 0, [], [];
    }

    /** What `map_fresh_pages` did for the heap: `added` pages, and the tables to map them. */
    twostate predicate Took(pmm: Pmm, vm: AddressSpace, added: seq<nat>)
      reads this, pmm, vm
    {
      && pages == old(pages) + added
      && TookPages(old(vm.created), old(pmm.free), vm.created, pmm.free, added)
      && SameLarge(old(vm.frames), vm.frames, vm.root)
    }

    /** Every page of the heap is mapped writable and not executable. */
    ghost predicate Writable(vm: AddressSpace)
      reads this, vm
    {
      forall i :: 0 <= i < |pages| ==> WritableAt(vm.frames, vm.root, start + i * PAGE_SIZE)
    }

    lemma HeapIsWritable(pmm: Pmm, vm: AddressSpace)
      requires Valid(pmm, vm)
      ensures |pages| <= VIRTUAL_PAGES ==> Writable(vm)
    {
      hide vm.Valid, Rows, RunMapped, WritableAt, OwnPages;
      if |pages| <= VIRTUAL_PAGES {
        forall i | 0 <= i < |pages|
          ensures WritableAt(vm.frames, vm.root, start + i * PAGE_SIZE)
        {
          HeapPageIsWritable(vm.frames, vm.root, start, pages, i);
        }
      }
    }

    method KmallocInit(pmm: Pmm, vm: AddressSpace, start: nat, sizeBytes: nat)
      returns (r: Outcome<()>, ghost added: seq<nat>)
      requires Valid(pmm, vm) && 0 < start < WORD_LIMIT && sizeBytes < WORD_LIMIT
      requires ClearRun(vm.frames, vm.root, start, PagesFor(sizeBytes))
      modifies this, vm, pmm`freeCount, pmm`free, pmm.bitmap
      ensures r.Done? <==> (
        && !old(inited) && start % PAGE_SIZE == 0 && sizeBytes > h + ALIGN
        && sizeBytes + PAGE_SIZE - 1 < WORD_LIMIT && start + PagesFor(sizeBytes) * PAGE_SIZE < WORD_LIMIT
        && PagesFor(sizeBytes) + |MissingOverRun(old(vm.frames), vm.root, start, PagesFor(sizeBytes))|
           <= |old(pmm.free)|)
      ensures r.Done? ==>
        && Valid(pmm, vm) && inited && Took(pmm, vm, added)
        && this.start == start && end == start + PagesFor(sizeBytes) * PAGE_SIZE
        && blocks == [Block(start, end - start - h, false)]
        && (|pages| <= VIRTUAL_PAGES ==> Writable(vm))
        && Filled(old(vm.frames), vm.frames, vm.root,
                  MissingOverRun(old(vm.frames), vm.root, start, PagesFor(sizeBytes)))
        && |old(pmm.free)|
           == |pmm.free| + PagesFor(sizeBytes) + |MissingOverRun(old(vm.frames), vm.root, start, PagesFor(sizeBytes))|
    {
      hide vm.Valid, Tiles, Linked, RunMapped, TookPages, OwnPages, SameLarge, Filled, MissingOverRun, ClearRun,
           Writable;
      added := [];
      if inited {
        return Abort, added;
      }
      if start % PAGE_SIZE != 0 {
        return Abort, added;
      }
      if !(sizeBytes > h + ALIGN) {
        return Abort, added;
      }
      if sizeBytes + PAGE_SIZE - 1 >= WORD_LIMIT {
        return Abort, added;    // the addition overflows
      }
      var n := (sizeBytes + PAGE_SIZE - 1) / PAGE_SIZE;
      var total := n * PAGE_SIZE;
      if start + total >= WORD_LIMIT {
        return Abort, added;    // an address of the run, or its end, overflows
      }
      NothingMappedYet(vm.frames, vm.root, start);
      r, added := MapFreshPages(pmm, vm, start, n, start, []);
      if r.Abort? {
        return;
      }
      OwnNothing(old(vm.created), old(pmm.free));
      OwnMore([], old(vm.created), old(pmm.free), vm.created, pmm.free, added);
      assert [] + added == added;
      mem := mem[start := BlockHeader(total - h, 0, MAGIC_FREE, 0)];
      head := start;
      end := start + total;
      inited := true;
      this.start, blocks, pages := start, [Block(start, total - h, false)], added;
      OneBlock(mem, h, start, total - h);
      HeapIsWritable(pmm, vm);
    }

    method Kmalloc(pmm: Pmm, vm: AddressSpace, size: nat) returns (r: Outcome<nat>, ghost added: seq<nat>)
      requires Valid(pmm, vm) && size < WORD_LIMIT
      requires inited && !HasFit(blocks, AlignUp(size)) ==> GrowthIsClear(vm.frames, vm.root, end, AlignUp(size), h)
      modifies this, vm, pmm`freeCount, pmm`free, pmm.bitmap
      decreases if FitIndex(blocks, AlignUp(size)) < |blocks| then 0 else 1
      ensures r.Done? <==> (
        && old(inited) && size > 0 && size + ALIGN - 1 < WORD_LIMIT
        && (HasFit(old(blocks), AlignUp(size))
            || RoomToGrow(old(end), AlignUp(size), h,
                          TablesToGrow(old(vm.frames), vm.root, old(end), AlignUp(size), h), |old(pmm.free)|)))
      ensures r.Done? && HasFit(old(blocks), AlignUp(size)) ==> added == [] && vm.frames == old(vm.frames)
      ensures r.Done? ==>
        && Valid(pmm, vm) && inited && start == old(start) && Took(pmm, vm, added)
        && blocks == Allocated(old(blocks), h, old(end), AlignUp(size))
        && end == EndAfter(old(blocks), h, old(end), AlignUp(size))
        && r.value == AllocatedBlock(old(blocks), h, old(end), AlignUp(size)).addr + h
        && (end > old(end) ==> end <= 0xffff_8001_0400_0000)
        && (|pages| <= VIRTUAL_PAGES ==> Writable(vm))
      ensures forall k: nat :: (
        old(inited) && size > 0 && size + 15 < WORD_LIMIT && FirstFree(old(blocks), AlignUp(size), k) ==>
        && r == Done(old(blocks)[k].addr + h) && added == [] && end == old(end)
        && pmm.free == old(pmm.free) && vm.frames == old(vm.frames) && vm.created == old(vm.created))
    {
      hide vm.Valid, Tiles, Linked, RunMapped, TookPages, OwnPages, SameLarge, GrowthIsClear,
           FirstFit, Split, Take, RoomToGrow, TablesToGrow,
           Allocated, AllocatedBlock, EndAfter, Grown, FitIndex, FirstFree, Writable;
      added := [];
      FirstFitTakesFirst(blocks, AlignUp(size));
      if !inited {
        return Abort, added;
      }
      if size == 0 {
        return Abort, added;
      }
      if size + ALIGN - 1 >= WORD_LIMIT {
        return Abort, added;    // the addition in `align_up` overflows
      }
      var needed := AlignUp(size);
      ghost var k;
      var cur;
      cur, k := FindFit(needed);
      TookNothing(vm.created, pmm.free);
      SameLargeItself(vm.frames, vm.root);
      if cur != 0 {
        AllocateFound(blocks, h, end, needed, k);
        TakeBlock(cur, needed, k);
        assert pages == old(pages) + added;
        HeapIsWritable(pmm, vm);
        return Done(cur + h), added;
      }
      ghost var blocks0, end0, pages0 := blocks, end, pages;
      ghost var c0, f0 := vm.created, pmm.free;
      var e;
      e, added := ExpandHeap(pmm, vm, needed);
      if e.Abort? {
        return Abort, added;
      }
      ghost var c1, f1 := vm.created, pmm.free;
      GrowThenAllocate(blocks0, h, end0, needed);
      ghost var more;
      r, more := Kmalloc(pmm, vm, size);
      TookBoth(c0, f0, c1, f1, added, vm.created, pmm.free, []);
      assert added + [] == added && pages == pages0 + added;
    }

    /** The walk of `kmalloc` over the headers: the address of the first block that fits, or 0. */
    method FindFit(needed: nat) returns (cur: nat, ghost k: nat)
      requires Rows() && inited
      ensures k == FitIndex(blocks, needed)
      ensures var i := FitIndex(blocks, needed);
        if i < |blocks| then cur == blocks[i].addr != 0 && Fits(blocks[i], needed) else cur == 0
      ensures forall i: nat :: FirstFree(blocks, needed, i) <==> i == k < |blocks|
    {
      hide Tiles, Linked, FirstFit, FirstFree;
      cur, k := head, 0;
      AtBlock(mem, blocks, h, start, end, k);
      assert blocks[0..] == blocks;
      while cur != 0
        invariant k <= |blocks| && cur == First(blocks[k..], 0)
        invariant forall j :: 0 <= j < k ==> !Fits(blocks[j], needed)
        decreases |blocks| - k
      {
        AtBlock(mem, blocks, h, start, end, k);
        var hdr := mem[cur];
        assert hdr.magic == MAGIC_FREE || hdr.magic == MAGIC_USED;    // the corruption check never fires
        if hdr.used == 0 && hdr.size >= needed {
          break;
        }
        cur := hdr.next;
        k := k + 1;
      }
      AtBlock(mem, blocks, h, start, end, k);
      FitIndexUnique(blocks, needed, k);
      FirstFitTakesFirst(blocks, needed);
    }

    /** The stores of `kmalloc` for the block it found. */
    method TakeBlock(cur: nat, needed: nat, ghost k: nat)
      requires Rows() && inited && needed >= ALIGN
      requires k < |blocks| && cur == blocks[k].addr && Fits(blocks[k], needed)
      modifies this`mem, this`blocks
      ensures Rows()
      ensures blocks == Take(old(blocks), h, k, needed)
    {
      hide Tiles, Chain, MagicsAgree, UsedBlocks, Take, First, Split;
      AtBlock(mem, blocks, h, start, end, k);
      TakeLinked(mem, blocks, h, start, end, k, needed);
      TakeTiles(blocks, h, start, end, k, needed);
      TakeAt(blocks, h, k, needed);
      var hdr := mem[cur];
      var leftover := if hdr.size > needed + h + ALIGN then hdr.size - (needed + h + ALIGN) else 0;
      if leftover > 0 {
        var newHdrAddr := cur + h + needed;
        mem := mem[newHdrAddr := BlockHeader(hdr.size - needed - h, 0, MAGIC_FREE, hdr.next)];
        hdr := hdr.(next := newHdrAddr, size := needed);
      }
      mem := mem[cur := hdr.(used := 1, magic := MAGIC_USED)];
      blocks := Take(blocks, h, k, needed);
    }

    method ExpandHeap(pmm: Pmm, vm: AddressSpace, needed: nat) returns (r: Outcome<()>, ghost added: seq<nat>)
      requires Valid(pmm, vm) && inited && needed >= ALIGN && GrowthIsClear(vm.frames, vm.root, end, needed, h)
      modifies this, vm, pmm`freeCount, pmm`free, pmm.bitmap
      ensures r.Done? <==>
        RoomToGrow(old(end), needed, h, TablesToGrow(old(vm.frames), vm.root, old(end), needed, h), |old(pmm.free)|)
      ensures r.Done? ==>
        && Valid(pmm, vm) && inited && start == old(start) && Took(pmm, vm, added)
        && blocks == Grown(old(blocks), h, old(end), needed)
        && end == old(end) + ExtraPages(needed, h) * PAGE_SIZE
        && end <= HEAP_START + HEAP_MAX_SIZE
    {
      hide vm.Valid, Tiles, Linked, RunMapped, TookPages, OwnPages, SameLarge, MissingOverRun, ClearRun, First;
      added := [];
      if needed + h + PAGE_SIZE + ALIGN - 1 >= WORD_LIMIT {
        return Abort, added;    // an addition overflows
      }
      var extraBytes := AlignUp(needed + h + PAGE_SIZE);
      var extraPages := extraBytes / PAGE_SIZE;
      if end + extraBytes >= WORD_LIMIT || end + extraBytes < HEAP_START {
        return Abort, added;    // the sum overflows, or the difference underflows
      }
      if !(end + extraBytes - HEAP_START <= HEAP_MAX_SIZE) {
        return Abort, added;
      }
      ExtraPagesSuffice(needed, h);
      r, added := MapFreshPages(pmm, vm, end, extraPages, start, pages);
      if r.Abort? {
        return;
      }
      OwnMore(pages, old(vm.created), old(pmm.free), vm.created, pmm.free, added);
      var size := extraPages * PAGE_SIZE - h;
      LinkNewBlock(size);
      end := end + extraPages * PAGE_SIZE;
      blocks, pages := Grow(blocks, old(end), size), pages + added;
      GrownTiles(old(blocks), old(start), old(end), size);
    }

    lemma GrownTiles(blocks: seq<Block>, start: nat, end: nat, size: nat)
      requires Tiles(blocks, h, start, end) && blocks != [] && size >= ALIGN
      ensures Tiles(Grow(blocks, end, size), h, start, end + h + size)
    {
      GrowTiles(blocks, h, start, end, size);
    }

    /** The stores of `expand_heap`: a header at the end, and the walk to the last block to link it. */
    method LinkNewBlock(size: nat)
      requires Rows() && inited
      modifies this`mem
      ensures Linked(mem, Grow(blocks, end, size))
    {
      hide Tiles, Linked, First;
      BeyondEnd(mem, blocks, h, start, end, BlockHeader(size, 0, MAGIC_FREE, 0));
      var newHdr := end;
      mem := mem[newHdr := BlockHeader(size, 0, MAGIC_FREE, 0)];
      var cur := head;
      ghost var k := 0;
      AtBlock(mem, blocks, h, start, end, 0);
      AtBlock(mem, blocks, h, start, end, 1);
      assert blocks[0..] == blocks;
      while mem[cur].next != 0
        invariant k < |blocks| && cur in mem && cur == blocks[k].addr
        invariant mem[cur] == HeaderOf(blocks[k], First(blocks[k + 1..], 0))
        decreases |blocks| - k
        modifies {}
      {
        cur := mem[cur].next;
        k := k + 1;
        AtBlock(mem, blocks, h, start, end, k);
        AtBlock(mem, blocks, h, start, end, k + 1);
      }
      AtBlock(mem, blocks, h, start, end, k + 1);
      ghost var before := mem;
      mem := mem[cur := mem[cur].(next := newHdr)];
      GrowLinkedAgain(before, blocks, start, end, size);
    }

    lemma GrowLinkedAgain(mem: Headers, blocks: seq<Block>, start: nat, end: nat, size: nat)
      requires Tiles(blocks, h, start, end) && blocks != [] && h > 0 && Linked(mem, blocks)
      requires end in mem && mem[end] == BlockHeader(size, 0, MAGIC_FREE, 0)
      ensures var last := blocks[|blocks| - 1].addr;
        last in mem && Linked(mem[last := mem[last].(next := end)], Grow(blocks, end, size))
    {
      hide Tiles, Linked;
      GrowLinked(mem, blocks, h, start, end, size);
      assert mem[end := BlockHeader(size, 0, MAGIC_FREE, 0)] == mem;
    }

    /** `kfree`. `stray` is what the code finds below `ptr` if the heap never wrote a header there. */
    method Kfree(pmm: Pmm, vm: AddressSpace, ptr: nat, stray: BlockHeader) returns (r: Outcome<()>)
      requires Valid(pmm, vm)
      requires ptr >= h && ptr - h !in mem ==> stray.magic != MAGIC_USED
      modifies this`mem, this`blocks
      ensures Valid(pmm, vm)
      ensures r.Abort? <==> ptr != 0 && (!inited || ptr < h || Below(old(mem), ptr - h, stray).magic != MAGIC_USED)
      ensures r.Abort? || ptr == 0 ==> blocks == old(blocks) && mem == old(mem)
      ensures r.Done? && ptr != 0 ==>
        && ptr - h in mem && mem[ptr - h].magic == MAGIC_FREE
        && var hdr := ptr - h; exists k :: 0 <= k < |old(blocks)| && ReleasedAt(old(blocks), blocks, h, k, hdr)
    {
      hide vm.Valid, Tiles, Linked, RunMapped, OwnPages, UsedBlocks, Release, First;
      if ptr == 0 {
        return Done(());
      }
      if !inited {
        return Abort;
      }
      if ptr < h {
        return Abort;    // the subtraction underflows
      }
      var hdr := ptr - h;
      var found := Below(mem, hdr, stray);
      if found.magic == MAGIC_FREE {
        return Abort;
      }
      if found.magic != MAGIC_USED {
        return Abort;
      }
      UsedMagic(mem, blocks, h, start, end, hdr);
      ghost var k :| 0 <= k < |blocks| && blocks[k].addr == hdr && blocks[k].used;
      AtBlock(mem, blocks, h, start, end, k);
      AtBlock(mem, blocks, h, start, end, k + 1);
      if k + 1 < |blocks| {
        NextIsHigher(blocks, h, start, end, k);
      }
      ReleaseLinked(mem, blocks, h, start, end, k);
      ReleaseTiles(blocks, h, start, end, k);
      ReleaseUsed(blocks, h, start, end, k);
      ReleaseNotEmpty(blocks, k);
      mem := mem[hdr := mem[hdr].(used := 0, magic := MAGIC_FREE)];
      Coalesce(hdr);
      assert mem == ReleaseHeaders(old(mem), blocks[k], h);
      blocks := Release(blocks, h, k);
      assert ReleasedAt(old(blocks), blocks, h, k, hdr);
      return Done(());
    }

    lemma ReleaseNotEmpty(blocks: seq<Block>, k: nat)
      requires k < |blocks|
      ensures Release(blocks, h, k) != []
    {
    }

    method Coalesce(cur: nat)
      requires cur in mem && (mem[cur].next != 0 ==> mem[cur].next in mem && mem[cur].next != cur)
      modifies this`mem
      ensures mem == (
        var hdr := old(mem)[cur];
        if hdr.next != 0 && old(mem)[hdr.next].used == 0
        then old(mem)[cur := hdr.(size := hdr.size + h + old(mem)[hdr.next].size, next := old(mem)[hdr.next].next)]
        else old(mem))
    {
      var next := mem[cur].next;
      if next == 0 {
        return;
      }
      if mem[next].used != 0 {
        return;
      }
      mem := mem[cur := mem[cur].(size := mem[cur].size + h + mem[next].size)];
      mem := mem[cur := mem[cur].(next := mem[next].next)];
    }
  }
}
