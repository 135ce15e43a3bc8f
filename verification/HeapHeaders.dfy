/** The heap's headers, linked through memory, and the row of blocks they stand for. */
module HeapHeaders {
  import opened HeapBlocks

  const MAGIC_FREE: nat := 0xFEE1_DEAD
  const MAGIC_USED: nat := 0xCAFE_BABE

  datatype BlockHeader = BlockHeader(size: nat, used: nat, magic: nat, next: nat)

  /** Memory as far as it holds headers, by address; 0 is the null pointer. */
  type Headers = map<int, BlockHeader>

  function HeaderOf(b: Block, next: nat): BlockHeader {
    if b.used then BlockHeader(b.size, 1, MAGIC_USED, next) else BlockHeader(b.size, 0, MAGIC_FREE, next)
  }

  ghost predicate HasHeader(mem: Headers, b: Block, next: nat) {
    b.addr in mem && mem[b.addr] == HeaderOf(b, next)
  }

  function First(blocks: seq<Block>, next: nat): nat {
    if blocks == [] then next else blocks[0].addr
  }

  /** Following `next` visits exactly these blocks, and the last one leads to `next`. */
  ghost predicate Chain(mem: Headers, blocks: seq<Block>, next: nat) {
    blocks != [] ==> HasHeader(mem, blocks[0], First(blocks[1..], next)) && Chain(mem, blocks[1..], next)
  }

  lemma {:induction false} ChainConcat(mem: Headers, a: seq<Block>, b: seq<Block>, next: nat)
    ensures Chain(mem, a + b, next) <==> Chain(mem, a, First(b, next)) && Chain(mem, b, next)
  {
    if a == [] {
      assert a + b == b;
    } else {
      ChainConcat(mem, a[1..], b, next);
      assert (a + b)[1..] == a[1..] + b;
      assert First(a[1..] + b, next) == First(a[1..], First(b, next));
    }
  }

  /** Stores to other addresses leave a chain alone. */
  lemma {:induction false} ChainFrame(mem: Headers, mem': Headers, blocks: seq<Block>, next: nat)
    requires Chain(mem, blocks, next)
    requires forall b :: b in blocks && b.addr in mem ==> b.addr in mem' && mem'[b.addr] == mem[b.addr]
    ensures Chain(mem', blocks, next)
  {
    if blocks != [] {
      assert blocks[0] in blocks;
      ChainFrame(mem, mem', blocks[1..], next);
    }
  }

  /** Only used blocks carry a magic other than the free one, wherever an old header may lie. */
  ghost predicate MagicsAgree(mem: Headers, used: set<Block>) {
    forall a :: a in mem && mem[a].magic != MAGIC_FREE ==> exists b :: b in used && b.addr == a
  }

  /** Memory holds exactly this row of blocks. */
  ghost predicate Linked(mem: Headers, blocks: seq<Block>) {
    Chain(mem, blocks, 0) && MagicsAgree(mem, UsedBlocks(blocks))
  }

  /** The chain around block `k`. */
  lemma ChainAround(mem: Headers, blocks: seq<Block>, k: nat)
    requires k < |blocks|
    ensures Chain(mem, blocks, 0) <==>
      Chain(mem, blocks[..k], blocks[k].addr) && HasHeader(mem, blocks[k], First(blocks[k + 1..], 0))
      && Chain(mem, blocks[k + 1..], 0)
  {
    assert blocks == blocks[..k] + blocks[k..];
    ChainConcat(mem, blocks[..k], blocks[k..], 0);
    assert blocks[k..][1..] == blocks[k + 1..];
  }

  /** `kmalloc`'s stores for block `k`. */
  function TakeHeaders(mem: Headers, b: Block, h: nat, needed: nat): Headers
    requires Fits(b, needed) && b.addr in mem
  {
    var hdr := mem[b.addr];
    if b.size > needed + h + ALIGN then
      mem[b.addr + h + needed := BlockHeader(b.size - needed - h, 0, MAGIC_FREE, hdr.next)]
         [b.addr := BlockHeader(needed, 1, MAGIC_USED, b.addr + h + needed)]
    else
      mem[b.addr := hdr.(used := 1, magic := MAGIC_USED)]
  }

  lemma TakeLinked(mem: Headers, blocks: seq<Block>, h: nat, start: nat, end: nat, k: nat, needed: nat)
    requires Tiles(blocks, h, start, end) && h > 0
    requires Linked(mem, blocks) && k < |blocks| && Fits(blocks[k], needed)
    ensures blocks[k].addr in mem
    ensures Linked(TakeHeaders(mem, blocks[k], h, needed), Take(blocks, h, k, needed))
  {
    ChainAround(mem, blocks, k);
    var mem' := TakeHeaders(mem, blocks[k], h, needed);
    var b, front, back := blocks[k], blocks[..k], blocks[k + 1..];
    var middle := Split(b, h, needed);
    AwayFrom(blocks, h, start, end, k);
    TakeUsed(blocks, h, start, end, k, needed);
    ChainFrame(mem, mem', front, b.addr);
    ChainFrame(mem, mem', back, 0);
    TakeMagics(mem, mem', UsedBlocks(blocks), middle[0]);
    TakeMiddle(mem, b, back, h, needed);
    hide Tiles, UsedBlocks, Split, Chain;
    ChainConcat(mem', front, middle + back, 0);
  }

  lemma TakeMiddle(mem: Headers, b: Block, back: seq<Block>, h: nat, needed: nat)
    requires Fits(b, needed) && h > 0 && HasHeader(mem, b, First(back, 0))
    requires Chain(TakeHeaders(mem, b, h, needed), back, 0)
    ensures Chain(TakeHeaders(mem, b, h, needed), Split(b, h, needed) + back, 0)
    ensures First(Split(b, h, needed) + back, 0) == b.addr
  {
    var middle := Split(b, h, needed);
    assert (middle + back)[1..] == middle[1..] + back;
    if b.size > needed + h + ALIGN {
      assert (middle[1..] + back)[1..] == back;
    }
  }

  lemma TakeMagics(mem: Headers, mem': Headers, used: set<Block>, got: Block)
    requires MagicsAgree(mem, used)
    requires forall a :: a in mem' && mem'[a].magic != MAGIC_FREE && a != got.addr ==> a in mem && mem[a] == mem'[a]
    ensures MagicsAgree(mem', used + {got})
  {
    forall a | a in mem' && mem'[a].magic != MAGIC_FREE
      ensures exists b :: b in used + {got} && b.addr == a
    {
      if a == got.addr {
        assert got in used + {got};
      } else {
        var b :| b in used && b.addr == a;
        assert b in used + {got};
      }
    }
  }

  /** No other block's header lies within block `k`. */
  lemma AwayFrom(blocks: seq<Block>, h: nat, start: nat, end: nat, k: nat)
    requires Tiles(blocks, h, start, end) && k < |blocks| && h > 0
    ensures forall b :: b in blocks[..k] ==> b.addr < blocks[k].addr
    ensures forall b :: b in blocks[k + 1..] ==> b.addr >= blocks[k].End(h)
    ensures forall b :: b in blocks ==> b.addr < end
  {
    Ordered(blocks, h, start, end, k);
    Within(blocks, h, start, end);
  }

  /** `kfree`'s stores for block `b`, `coalesce` included: `next` is the block behind it, if any. */
  function ReleaseHeaders(mem: Headers, b: Block, h: nat): Headers
    requires b.addr in mem
  {
    var hdr := mem[b.addr].(used := 0, magic := MAGIC_FREE);
    if hdr.next in mem && hdr.next != 0 && mem[hdr.next].used == 0 then
      mem[b.addr := hdr.(size := hdr.size + h + mem[hdr.next].size, next := mem[hdr.next].next)]
    else
      mem[b.addr := hdr]
  }

  lemma ReleaseLinked(mem: Headers, blocks: seq<Block>, h: nat, start: nat, end: nat, k: nat)
    requires Tiles(blocks, h, start, end) && h > 0 && start > 0
    requires Linked(mem, blocks) && k < |blocks| && blocks[k].used
    ensures blocks[k].addr in mem
    ensures Linked(ReleaseHeaders(mem, blocks[k], h), Release(blocks, h, k))
  {
    ChainAround(mem, blocks, k);
    var mem' := ReleaseHeaders(mem, blocks[k], h);
    var b, front, back := blocks[k], blocks[..k], blocks[k + 1..];
    AwayFrom(blocks, h, start, end, k);
    ReleaseUsed(blocks, h, start, end, k);
    ChainFrame(mem, mem', front, b.addr);
    ChainFrame(mem, mem', back, 0);
    ReleaseMagics(mem, mem', UsedBlocks(blocks), b);
    NextBehind(blocks, h, start, end, k);
    hide Tiles, UsedBlocks;
    ChainConcat(mem', front, Merge(b, back, h), 0);
  }

  /** The block behind block `k`, when there is one, is not at the null address. */
  lemma NextBehind(blocks: seq<Block>, h: nat, start: nat, end: nat, k: nat)
    requires Tiles(blocks, h, start, end) && start > 0 && k < |blocks|
    ensures k + 1 < |blocks| ==> First(blocks[k + 1..], 0) == blocks[k + 1].addr != 0
  {
    Within(blocks, h, start, end);
  }

  lemma ReleaseMagics(mem: Headers, mem': Headers, used: set<Block>, gone: Block)
    requires MagicsAgree(mem, used) && gone.addr in mem' && mem'[gone.addr].magic == MAGIC_FREE
    requires forall a :: a in mem' && a != gone.addr ==> a in mem && mem[a] == mem'[a]
    ensures MagicsAgree(mem', used - {gone})
  {
    forall a | a in mem' && mem'[a].magic != MAGIC_FREE
      ensures exists b :: b in used - {gone} && b.addr == a
    {
      var b :| b in used && b.addr == a;
      assert b in used - {gone};
    }
  }

  /** `expand_heap`'s stores: the new header, and the link from the last block to it. */
  function GrowHeaders(mem: Headers, last: nat, end: nat, size: nat): Headers
    requires last in mem
  {
    mem[end := BlockHeader(size, 0, MAGIC_FREE, 0)][last := mem[last].(next := end)]
  }

  lemma GrowLinked(mem: Headers, blocks: seq<Block>, h: nat, start: nat, end: nat, size: nat)
    requires Tiles(blocks, h, start, end) && blocks != [] && h > 0
    requires Linked(mem, blocks)
    ensures blocks[|blocks| - 1].addr in mem
    ensures Linked(GrowHeaders(mem, blocks[|blocks| - 1].addr, end, size), Grow(blocks, end, size))
  {
    var last := |blocks| - 1;
    var b, front := blocks[last], blocks[..last];
    ChainAround(mem, blocks, last);
    var mem' := GrowHeaders(mem, b.addr, end, size);
    AwayFrom(blocks, h, start, end, last);
    GrowUsed(blocks, end, size);
    ChainFrame(mem, mem', front, b.addr);
    GrowMagics(mem, mem', UsedBlocks(blocks), b.addr);
    hide Tiles, UsedBlocks;
    var tail := [b, Block(end, size, false)];
    assert Grow(blocks, end, size) == front + tail;
    ChainConcat(mem', front, tail, 0);
    assert tail[1..] == [Block(end, size, false)] && tail[1..][1..] == [] && blocks[last + 1..] == [];
    assert Chain(mem', tail[1..], 0);
  }

  lemma GrowUsed(blocks: seq<Block>, end: nat, size: nat)
    ensures UsedBlocks(Grow(blocks, end, size)) == UsedBlocks(blocks)
  {
    UsedConcat(blocks, [Block(end, size, false)]);
    OneUsed(Block(end, size, false));
  }

  lemma GrowMagics(mem: Headers, mem': Headers, used: set<Block>, last: nat)
    requires MagicsAgree(mem, used)
    requires forall a :: a in mem' && mem'[a].magic != MAGIC_FREE ==> a in mem && mem[a].magic == mem'[a].magic
    ensures MagicsAgree(mem', used)
  {
  }

  /** What a walk of the list sees at block `k`. */
  lemma AtBlock(mem: Headers, blocks: seq<Block>, h: nat, start: nat, end: nat, k: nat)
    requires Tiles(blocks, h, start, end) && start > 0 && Linked(mem, blocks) && k <= |blocks|
    ensures First(blocks[k..], 0) == 0 <==> k == |blocks|
    ensures k == 0 && blocks != [] ==> blocks[0].addr == start
    ensures k < |blocks| ==>
      && First(blocks[k..], 0) == blocks[k].addr && blocks[k].addr in mem
      && mem[blocks[k].addr] == HeaderOf(blocks[k], First(blocks[k + 1..], 0))
  {
    if k < |blocks| {
      ChainAround(mem, blocks, k);
      TilesAround(blocks, h, start, end, 0);
      Within(blocks, h, start, end);
    }
  }

  /** Writing a header at the end of the heap leaves the blocks as they are. */
  lemma BeyondEnd(mem: Headers, blocks: seq<Block>, h: nat, start: nat, end: nat, hdr: BlockHeader)
    requires Tiles(blocks, h, start, end) && h > 0 && Linked(mem, blocks) && hdr.magic == MAGIC_FREE
    ensures Linked(mem[end := hdr], blocks)
  {
    Within(blocks, h, start, end);
    ChainFrame(mem, mem[end := hdr], blocks, 0);
    GrowMagics(mem, mem[end := hdr], UsedBlocks(blocks), end);
  }

  /** A used magic is found only in the header of a used block. */
  lemma UsedMagic(mem: Headers, blocks: seq<Block>, h: nat, start: nat, end: nat, a: int)
    requires Tiles(blocks, h, start, end) && Linked(mem, blocks)
    ensures a in mem && mem[a].magic != MAGIC_FREE ==>
      exists k :: 0 <= k < |blocks| && blocks[k].addr == a && blocks[k].used
  {
    if a in mem && mem[a].magic != MAGIC_FREE {
      var b :| b in UsedBlocks(blocks) && b.addr == a;
      var k :| 0 <= k < |blocks| && blocks[k] == b;
    }
  }

  /** One free block as the whole heap. */
  lemma OneBlock(mem: Headers, h: nat, start: nat, size: nat)
    requires size >= ALIGN
    requires start in mem && mem[start] == BlockHeader(size, 0, MAGIC_FREE, 0)
    requires forall a :: a in mem ==> a == start
    ensures Tiles([Block(start, size, false)], h, start, start + h + size)
    ensures Linked(mem, [Block(start, size, false)])
  {
    var blocks := [Block(start, size, false)];
    assert blocks[1..] == [];
  }
}
