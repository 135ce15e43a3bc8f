/** The heap as a row of blocks: first fit, splitting, forward merging and growth.
    `h` stands for HEADER_SIZE throughout. */
module HeapBlocks {

  const ALIGN: nat := 16

  datatype Block = Block(addr: nat, size: nat, used: bool)
  {
    function End(h: nat): nat { addr + h + size }
  }

  /** The smallest multiple of 16 that is no smaller. */
  function AlignUp(n: nat): (r: nat)
    ensures r % 16 == 0 && n <= r < n + 16
  {
    (n + ALIGN - 1) / ALIGN * ALIGN
  }

  /** The blocks lie end to end from `start` to `end`, none smaller than ALIGN. */
  ghost predicate Tiles(blocks: seq<Block>, h: nat, start: nat, end: nat) {
    if blocks == [] then start == end
    else
      && blocks[0].addr == start && blocks[0].size >= ALIGN
      && Tiles(blocks[1..], h, blocks[0].End(h), end)
  }

  /** Where a row of blocks that starts at `start` ends. */
  ghost function EndOf(blocks: seq<Block>, h: nat, start: nat): nat {
    if blocks == [] then start else blocks[|blocks| - 1].End(h)
  }

  lemma {:induction false} TilesConcat(a: seq<Block>, b: seq<Block>, h: nat, start: nat, end: nat)
    ensures var middle := EndOf(a, h, start);
      Tiles(a + b, h, start, end) <==> Tiles(a, h, start, middle) && Tiles(b, h, middle, end)
  {
    if a == [] {
      assert a + b == b;
    } else {
      TilesConcat(a[1..], b, h, a[0].End(h), end);
      assert (a + b)[1..] == a[1..] + b;
      assert EndOf(a[1..], h, a[0].End(h)) == EndOf(a, h, start);
    }
  }

  /** A row split around block `k`. */
  lemma TilesAround(blocks: seq<Block>, h: nat, start: nat, end: nat, k: nat)
    requires k < |blocks|
    ensures Tiles(blocks, h, start, end) <==> (
      && Tiles(blocks[..k], h, start, blocks[k].addr) && blocks[k].addr == EndOf(blocks[..k], h, start)
      && blocks[k].size >= ALIGN && Tiles(blocks[k + 1..], h, blocks[k].End(h), end))
  {
    assert blocks == blocks[..k] + blocks[k..];
    TilesConcat(blocks[..k], blocks[k..], h, start, end);
    assert blocks[k..][1..] == blocks[k + 1..];
  }

  ghost function TotalSize(blocks: seq<Block>, h: nat): nat {
    if blocks == [] then 0 else h + blocks[0].size + TotalSize(blocks[1..], h)
  }

  /** Headers and payloads together fill the heap. */
  lemma {:induction false} TilesFill(blocks: seq<Block>, h: nat, start: nat, end: nat)
    requires Tiles(blocks, h, start, end)
    ensures start + TotalSize(blocks, h) == end
  {
    if blocks != [] {
      TilesFill(blocks[1..], h, blocks[0].End(h), end);
    }
  }

  /** Every block of a row lies within it. */
  lemma {:induction false} Within(blocks: seq<Block>, h: nat, start: nat, end: nat)
    requires Tiles(blocks, h, start, end)
    ensures start <= end
    ensures forall b :: b in blocks ==> start <= b.addr && b.End(h) <= end && b.size >= ALIGN
  {
    if blocks != [] {
      Within(blocks[1..], h, blocks[0].End(h), end);
    }
  }

  /** The blocks before block `k` end at or before it, and those behind it start at or after its end:
      following the row visits strictly increasing addresses. */
  lemma Ordered(blocks: seq<Block>, h: nat, start: nat, end: nat, k: nat)
    requires Tiles(blocks, h, start, end) && k < |blocks|
    ensures forall b :: b in blocks[..k] ==> b.End(h) <= blocks[k].addr && b.size >= ALIGN
    ensures forall b :: b in blocks[k + 1..] ==> blocks[k].End(h) <= b.addr
    ensures start <= blocks[k].addr && blocks[k].End(h) <= end && blocks[k].size >= ALIGN
  {
    TilesAround(blocks, h, start, end, k);
    Within(blocks[..k], h, start, blocks[k].addr);
    Within(blocks[k + 1..], h, blocks[k].End(h), end);
  }

  lemma NextIsHigher(blocks: seq<Block>, h: nat, start: nat, end: nat, k: nat)
    requires Tiles(blocks, h, start, end) && k + 1 < |blocks|
    ensures blocks[k].addr < blocks[k + 1].addr
  {
    Ordered(blocks, h, start, end, k);
    assert blocks[k + 1] in blocks[k + 1..];
  }

  /** The blocks in use. */
  ghost function UsedBlocks(blocks: seq<Block>): set<Block> {
    set b | b in blocks && b.used
  }

  /** Whole blocks, headers included, never overlap; so the payload of a used block meets
      no header and no other payload. */
  lemma BlocksDisjoint(blocks: seq<Block>, h: nat, start: nat, end: nat, a: Block, b: Block)
    requires Tiles(blocks, h, start, end) && a in blocks && b in blocks && a != b
    ensures a.End(h) <= b.addr || b.End(h) <= a.addr
  {
    var i :| 0 <= i < |blocks| && blocks[i] == a;
    Ordered(blocks, h, start, end, i);
    assert blocks == blocks[..i] + [a] + blocks[i + 1..];
  }

  predicate Fits(block: Block, needed: nat) { !block.used && block.size >= needed }

  ghost predicate HasFit(blocks: seq<Block>, needed: nat) {
    exists k :: 0 <= k < |blocks| && Fits(blocks[k], needed)
  }

  ghost predicate FirstFit(blocks: seq<Block>, needed: nat, k: nat) {
    k < |blocks| && Fits(blocks[k], needed) && forall j :: 0 <= j < k ==> !Fits(blocks[j], needed)
  }

  /** Block `k` is the first free one that is large enough, exact size included. */
  ghost predicate FirstFree(blocks: seq<Block>, needed: nat, k: nat) {
    && k < |blocks| && !blocks[k].used && blocks[k].size >= needed
    && forall j :: 0 <= j < k && !blocks[j].used ==> blocks[j].size < needed
  }

  /** What a free block becomes when taken: split when more than a header and ALIGN is left over. */
  function Split(b: Block, h: nat, needed: nat): (r: seq<Block>)
    requires Fits(b, needed)
    ensures |r| > 0 && r[0].addr == b.addr
  {
    if b.size > needed + h + ALIGN then
      [Block(b.addr, needed, true), Block(b.addr + h + needed, b.size - needed - h, false)]
    else
      [b.(used := true)]
  }

  /** Taking block `k`. */
  function Take(blocks: seq<Block>, h: nat, k: nat, needed: nat): seq<Block>
    requires k < |blocks| && Fits(blocks[k], needed)
  {
    blocks[..k] + (Split(blocks[k], h, needed) + blocks[k + 1..])
  }

  /** A block with at most a header and 16 bytes to spare is handed out whole; a larger one is cut to
      the size needed, and all of the rest but its header stays free behind it. */
  lemma TakeSplits(blocks: seq<Block>, h: nat, k: nat, needed: nat)
    requires k < |blocks| && Fits(blocks[k], needed)
    ensures var after, spare := Take(blocks, h, k, needed), blocks[k].size - needed;
      && after[..k] == blocks[..k] && |after| > k && after[k].used && after[k].addr == blocks[k].addr
      && (spare <= h + 16 ==> after[k].size == blocks[k].size && after[k + 1..] == blocks[k + 1..])
      && (spare > h + 16 ==>
            && after[k].size == needed && |after| > k + 1 && after[k + 2..] == blocks[k + 1..]
            && after[k + 1] == Block(blocks[k].addr + h + needed, spare - h, false))
  {
  }

  /** A freed block, merged with a free block right behind it. */
  function Merge(b: Block, back: seq<Block>, h: nat): seq<Block> {
    if back != [] && !back[0].used then [Block(b.addr, b.size + h + back[0].size, false)] + back[1..]
    else [b.(used := false)] + back
  }

  /** Freeing block `k`. */
  function Release(blocks: seq<Block>, h: nat, k: nat): seq<Block>
    requires k < |blocks|
  {
    blocks[..k] + Merge(blocks[k], blocks[k + 1..], h)
  }

  /** Growing the heap by one free block. */
  function Grow(blocks: seq<Block>, end: nat, size: nat): seq<Block> {
    blocks + [Block(end, size, false)]
  }

  lemma TakeTiles(blocks: seq<Block>, h: nat, start: nat, end: nat, k: nat, needed: nat)
    requires Tiles(blocks, h, start, end) && k < |blocks| && Fits(blocks[k], needed) && needed >= ALIGN
    ensures Tiles(Take(blocks, h, k, needed), h, start, end)
  {
    TilesAround(blocks, h, start, end, k);
    var b, back := blocks[k], blocks[k + 1..];
    TilesConcat(blocks[..k], Split(b, h, needed) + back, h, start, end);
    assert (Split(b, h, needed) + back)[1..] == Split(b, h, needed)[1..] + back;
    if b.size > needed + h + ALIGN {
      assert (Split(b, h, needed)[1..] + back)[1..] == back;
    }
  }

  lemma ReleaseTiles(blocks: seq<Block>, h: nat, start: nat, end: nat, k: nat)
    requires Tiles(blocks, h, start, end) && k < |blocks|
    ensures Tiles(Release(blocks, h, k), h, start, end)
  {
    TilesAround(blocks, h, start, end, k);
    TilesConcat(blocks[..k], Merge(blocks[k], blocks[k + 1..], h), h, start, end);
  }

  lemma GrowTiles(blocks: seq<Block>, h: nat, start: nat, end: nat, size: nat)
    requires Tiles(blocks, h, start, end) && blocks != [] && size >= ALIGN
    ensures Tiles(Grow(blocks, end, size), h, start, end + h + size)
  {
    TilesConcat(blocks, [Block(end, size, false)], h, start, end + h + size);
    TilesConcat(blocks, [], h, start, end);
    assert blocks + [] == blocks;
  }

  lemma UsedConcat(a: seq<Block>, b: seq<Block>)
    ensures UsedBlocks(a + b) == UsedBlocks(a) + UsedBlocks(b)
  {
  }

  /** The used blocks of a row, with block `k` set apart. */
  lemma UsedAround(blocks: seq<Block>, k: nat)
    requires k < |blocks|
    ensures UsedBlocks(blocks) ==
      UsedBlocks(blocks[..k]) + (if blocks[k].used then {blocks[k]} else {}) + UsedBlocks(blocks[k + 1..])
  {
    assert blocks == blocks[..k] + [blocks[k]] + blocks[k + 1..];
    UsedConcat(blocks[..k] + [blocks[k]], blocks[k + 1..]);
    UsedConcat(blocks[..k], [blocks[k]]);
  }

  /** No other block has the address of block `k`. */
  lemma AddressUnique(blocks: seq<Block>, h: nat, start: nat, end: nat, k: nat)
    requires Tiles(blocks, h, start, end) && k < |blocks|
    ensures forall b :: b in blocks[..k] || b in blocks[k + 1..] ==> b.addr != blocks[k].addr
  {
    Ordered(blocks, h, start, end, k);
    assert blocks[k].End(h) > blocks[k].addr;
    assert forall b :: b in blocks[..k] ==> b.End(h) > b.addr;
  }

  /** Taking adds one used block and keeps every other one as it was. */
  lemma TakeUsed(blocks: seq<Block>, h: nat, start: nat, end: nat, k: nat, needed: nat)
    requires Tiles(blocks, h, start, end) && k < |blocks| && Fits(blocks[k], needed)
    ensures var got := Take(blocks, h, k, needed)[k];
      && got.used && got.addr == blocks[k].addr && needed <= got.size <= needed + h + ALIGN
      && got !in UsedBlocks(blocks)
      && UsedBlocks(Take(blocks, h, k, needed)) == UsedBlocks(blocks) + {got}
  {
    hide UsedBlocks, Tiles;
    var b, front, back := blocks[k], blocks[..k], blocks[k + 1..];
    var got := Split(b, h, needed)[0];
    AddressUnique(blocks, h, start, end, k);
    TakenIsNew(blocks, k, got);
    UsedAround(blocks, k);
    UsedConcat(front, Split(b, h, needed) + back);
    UsedConcat(Split(b, h, needed), back);
    if b.size > needed + h + ALIGN {
      var rest := Split(b, h, needed)[1];
      assert Split(b, h, needed) == [got] + [rest];
      UsedConcat([got], [rest]);
      OneUsed(rest);
    }
    OneUsed(got);
  }

  lemma OneUsed(b: Block)
    ensures UsedBlocks([b]) == if b.used then {b} else {}
  {
  }

  lemma TakenIsNew(blocks: seq<Block>, k: nat, got: Block)
    requires k < |blocks| && !blocks[k].used && got.addr == blocks[k].addr
    requires forall b :: b in blocks[..k] || b in blocks[k + 1..] ==> b.addr != blocks[k].addr
    ensures got !in UsedBlocks(blocks)
  {
    assert blocks == blocks[..k] + [blocks[k]] + blocks[k + 1..];
  }

  /** Freeing removes one used block and keeps every other one as it was. */
  lemma ReleaseUsed(blocks: seq<Block>, h: nat, start: nat, end: nat, k: nat)
    requires Tiles(blocks, h, start, end) && k < |blocks| && blocks[k].used
    ensures UsedBlocks(Release(blocks, h, k)) == UsedBlocks(blocks) - {blocks[k]}
  {
    var b, front, back := blocks[k], blocks[..k], blocks[k + 1..];
    AddressUnique(blocks, h, start, end, k);
    assert b !in UsedBlocks(front) && b !in UsedBlocks(back);
    hide UsedBlocks, Tiles;
    UsedAround(blocks, k);
    UsedConcat(front, Merge(b, back, h));
    if back != [] && !back[0].used {
      var merged := Block(b.addr, b.size + h + back[0].size, false);
      UsedConcat([merged], back[1..]);
      assert back == [back[0]] + back[1..];
      UsedConcat([back[0]], back[1..]);
      OneUsed(back[0]);
      OneUsed(merged);
    } else {
      UsedConcat([b.(used := false)], back);
      OneUsed(b.(used := false));
    }
  }

  lemma ReleaseAt(front: seq<Block>, b: Block, back: seq<Block>, h: nat)
    ensures Release(front + ([b] + back), h, |front|) == front + Merge(b, back, h)
  {
    var blocks := front + ([b] + back);
    assert blocks[..|front|] == front && blocks[|front| + 1..] == back;
  }

  lemma MergeSplit(b: Block, back: seq<Block>, h: nat, needed: nat)
    requires Fits(b, needed) && b.size > needed + h + ALIGN
    ensures Merge(Split(b, h, needed)[0], Split(b, h, needed)[1..] + back, h) == [b] + back
  {
    var rest := Split(b, h, needed)[1];
    assert Split(b, h, needed)[1..] + back == [rest] + back;
    assert ([rest] + back)[1..] == back;
  }

  lemma MergeWhole(b: Block, back: seq<Block>, h: nat, needed: nat)
    requires Fits(b, needed) && b.size <= needed + h + ALIGN
    ensures Split(b, h, needed) == [b.(used := true)]
    ensures Merge(b.(used := true), back, h) == Merge(b, back, h)
    ensures back == [] || back[0].used ==> Merge(b, back, h) == [b] + back
  {
  }

  /** Freeing what first fit just took restores the row of blocks, except that a block handed
      out whole in front of a free block becomes one block with it. */
  lemma TakeThenRelease(blocks: seq<Block>, h: nat, k: nat, needed: nat)
    requires k < |blocks| && Fits(blocks[k], needed)
    ensures var whole := blocks[k].size <= needed + h + ALIGN;
      Release(Take(blocks, h, k, needed), h, k) ==
        if whole && k + 1 < |blocks| && !blocks[k + 1].used then Release(blocks, h, k) else blocks
  {
    hide Release, Merge, Split;
    var b, front, back := blocks[k], blocks[..k], blocks[k + 1..];
    var parts := Split(b, h, needed);
    assert blocks == front + ([b] + back);
    assert parts + back == [parts[0]] + (parts[1..] + back);
    ReleaseAt(front, b, back, h);
    ReleaseAt(front, parts[0], parts[1..] + back, h);
    if b.size > needed + h + ALIGN {
      MergeSplit(b, back, h, needed);
    } else {
      MergeWhole(b, back, h, needed);
      assert parts[1..] + back == back;
    }
  }

  /** Frees blocks `j - 1`, `j - 2`, ..., `i`, in that order. */
  function ReleaseDown(blocks: seq<Block>, h: nat, i: nat, j: nat): (r: seq<Block>)
    requires i <= j <= |blocks|
    ensures |r| >= i && (i < |blocks| ==> |r| > i)
    decreases j - i
  {
    if i == j then blocks else Release(ReleaseDown(blocks, h, i + 1, j), h, i)
  }

  lemma NoMerge(blocks: seq<Block>, h: nat, k: nat)
    requires k < |blocks| && (k + 1 < |blocks| ==> blocks[k + 1].used)
    ensures Release(blocks, h, k) == blocks[k := blocks[k].(used := false)]
  {
  }

  /** Frees blocks `i`, `i + 1`, ..., `j - 1` of a run of used blocks, in that order. */
  function ReleaseUp(blocks: seq<Block>, h: nat, i: nat, j: nat): seq<Block>
    requires i < j <= |blocks| && forall k :: i <= k < j ==> blocks[k].used
    decreases j - i
  {
    if i + 1 == j then Release(blocks, h, i)
    else
      NoMerge(blocks, h, i);
      ReleaseUp(Release(blocks, h, i), h, i + 1, j)
  }

  /** The payload of one block covering blocks `i` to `j - 1` and the headers between them. */
  ghost function RunSize(blocks: seq<Block>, h: nat, i: nat, j: nat): nat
    requires i < j <= |blocks|
    decreases j - i
  {
    blocks[i].size + if i + 1 == j then 0 else h + RunSize(blocks, h, i + 1, j)
  }

  lemma {:induction false} RunCovers(blocks: seq<Block>, h: nat, start: nat, end: nat, i: nat, j: nat)
    requires Tiles(blocks, h, start, end) && i < j <= |blocks|
    ensures blocks[i].addr + h + RunSize(blocks, h, i, j) == blocks[j - 1].End(h)
    decreases j - i
  {
    if i + 1 < j {
      RunCovers(blocks, h, start, end, i + 1, j);
      TilesAround(blocks, h, start, end, i);
    }
  }

  /** Freed in descending address order, a run of adjacent used blocks becomes one free block
      covering the run, and the free block behind the run if there is one. */
  lemma {:induction false} DescendingMerges(blocks: seq<Block>, h: nat, i: nat, j: nat)
    requires i < j <= |blocks|
    requires forall k :: i <= k < j ==> blocks[k].used
    ensures var rest := if j < |blocks| && !blocks[j].used then j + 1 else j;
      ReleaseDown(blocks, h, i, j) ==
        blocks[..i] + [Block(blocks[i].addr, RunSize(blocks, h, i, rest), false)] + blocks[rest..]
    decreases j - i
  {
    hide Release;
    var rest := if j < |blocks| && !blocks[j].used then j + 1 else j;
    if i + 1 == j {
      DescendLast(blocks, h, i);
    } else {
      DescendingMerges(blocks, h, i + 1, j);
      DescendStep(blocks, h, i, Block(blocks[i + 1].addr, RunSize(blocks, h, i + 1, rest), false), blocks[rest..]);
    }
  }

  lemma DescendLast(blocks: seq<Block>, h: nat, i: nat)
    requires i < |blocks|
    ensures Release(blocks, h, i) == (
      if i + 1 < |blocks| && !blocks[i + 1].used
      then blocks[..i] + [Block(blocks[i].addr, RunSize(blocks, h, i, i + 2), false)] + blocks[i + 2..]
      else blocks[..i] + [Block(blocks[i].addr, RunSize(blocks, h, i, i + 1), false)] + blocks[i + 1..])
  {
    assert i + 1 < |blocks| ==> blocks[i + 1..][1..] == blocks[i + 2..];
  }

  lemma MergeFree(b: Block, next: Block, tail: seq<Block>, h: nat)
    requires !next.used
    ensures Merge(b, [next] + tail, h) == [Block(b.addr, b.size + h + next.size, false)] + tail
  {
    assert ([next] + tail)[1..] == tail;
  }

  lemma DescendStep(blocks: seq<Block>, h: nat, i: nat, merged: Block, tail: seq<Block>)
    requires i < |blocks| && !merged.used
    ensures Release(blocks[..i + 1] + [merged] + tail, h, i)
      == blocks[..i] + [Block(blocks[i].addr, blocks[i].size + h + merged.size, false)] + tail
  {
    hide Release, Merge;
    assert blocks[..i + 1] + [merged] + tail == blocks[..i] + ([blocks[i]] + ([merged] + tail));
    ReleaseAt(blocks[..i], blocks[i], [merged] + tail, h);
    MergeFree(blocks[i], merged, tail, h);
    assert blocks[..i] + ([Block(blocks[i].addr, blocks[i].size + h + merged.size, false)] + tail)
        == blocks[..i] + [Block(blocks[i].addr, blocks[i].size + h + merged.size, false)] + tail;
  }

  /** Freed in ascending order, the blocks of a run do not merge with each other; only the last one
      merges, with a free block behind the run if there is one. */
  lemma {:induction false} AscendingMergesLast(blocks: seq<Block>, h: nat, i: nat, j: nat)
    requires i < j <= |blocks|
    requires forall k :: i <= k < j ==> blocks[k].used
    ensures var after := ReleaseUp(blocks, h, i, j);
      var merged := j < |blocks| && !blocks[j].used;
      && |after| == |blocks| - (if merged then 1 else 0)
      && (forall k :: 0 <= k < j - 1 ==> after[k] == if i <= k then blocks[k].(used := false) else blocks[k])
      && after[j - 1] == (if merged then Block(blocks[j - 1].addr, blocks[j - 1].size + h + blocks[j].size, false)
                          else blocks[j - 1].(used := false))
      && after[j..] == blocks[if merged then j + 1 else j..]
    decreases j - i
  {
    hide Release;
    if i + 1 == j {
      ReleaseLast(blocks, h, i);
    } else {
      NoMerge(blocks, h, i);
      AscendingMergesLast(Release(blocks, h, i), h, i + 1, j);
    }
  }

  lemma ReleaseLast(blocks: seq<Block>, h: nat, i: nat)
    requires i < |blocks|
    ensures var after, merged := Release(blocks, h, i), i + 1 < |blocks| && !blocks[i + 1].used;
      && |after| == |blocks| - (if merged then 1 else 0)
      && (forall k :: 0 <= k < i ==> after[k] == blocks[k])
      && after[i] == (if merged then Block(blocks[i].addr, blocks[i].size + h + blocks[i + 1].size, false)
                      else blocks[i].(used := false))
      && after[i + 1..] == blocks[if merged then i + 2 else i + 1..]
  {
  }

  /** So an ascending run ends as the one free block that the descending one becomes exactly if it is
      a run of one. */
  lemma AscendingMergesOne(blocks: seq<Block>, h: nat, i: nat, j: nat)
    requires h > 0 && i < j <= |blocks| && forall k :: i <= k < j ==> blocks[k].used
    ensures ReleaseUp(blocks, h, i, j) == ReleaseDown(blocks, h, i, j) <==> j == i + 1
  {
    hide Release, ReleaseUp;
    AscendingMergesLast(blocks, h, i, j);
    DescendingMerges(blocks, h, i, j);
    if j == i + 1 {
      UpAndDown(blocks, h, i);
    } else {
      assert ReleaseDown(blocks, h, i, j)[i].size > blocks[i].size;
      assert ReleaseUp(blocks, h, i, j)[i].size == blocks[i].size;
    }
  }

  lemma UpAndDown(blocks: seq<Block>, h: nat, i: nat)
    requires i < |blocks| && blocks[i].used
    ensures ReleaseUp(blocks, h, i, i + 1) == Release(blocks, h, i) == ReleaseDown(blocks, h, i, i + 1)
  {
    hide Release;
    assert ReleaseDown(blocks, h, i + 1, i + 1) == blocks;
  }
}
