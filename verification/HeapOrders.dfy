/** What becomes of the row of blocks when some of them are freed in any order at all. */
module HeapOrders {
  import opened HeapBlocks

  /** The row in which block `k` has been merged with the one behind it wherever `joined[k]` holds. */
  function Row(blocks: seq<Block>, joined: seq<bool>, h: nat): (row: seq<Block>)
    requires |joined| == |blocks|
    ensures blocks != [] ==> row != [] && row[0].addr == blocks[0].addr
  {
    if blocks == [] then []
    else
      var rest := Row(blocks[1..], joined[1..], h);
      if joined[0] && rest != [] then
        [Block(blocks[0].addr, blocks[0].size + h + rest[0].size, false)] + rest[1..]
      else [blocks[0]] + rest
  }

  /** Only free blocks have been merged. */
  ghost predicate Consistent(blocks: seq<Block>, joined: seq<bool>) {
    && |joined| == |blocks|
    && forall k :: 0 <= k < |joined| && joined[k] ==> k + 1 < |blocks| && !blocks[k].used && !blocks[k + 1].used
  }

  /** Where block `k` has got to in the row, if it has not been merged into the one before. */
  function Heads(joined: seq<bool>, k: nat): nat
    requires k <= |joined|
  {
    if k == 0 then 0 else (if joined[0] then 0 else 1) + Heads(joined[1..], k - 1)
  }

  lemma ConsistentTail(blocks: seq<Block>, joined: seq<bool>)
    requires Consistent(blocks, joined) && blocks != []
    ensures Consistent(blocks[1..], joined[1..])
  {
    forall k | 0 <= k < |joined[1..]| && joined[1..][k]
      ensures k + 1 < |blocks[1..]| && !blocks[1..][k].used && !blocks[1..][k + 1].used
    {
      assert joined[k + 1];
    }
  }

  lemma RowOf(blocks: seq<Block>, joined: seq<bool>, h: nat)
    requires |joined| == |blocks| > 0
    ensures var rest := Row(blocks[1..], joined[1..], h);
      Row(blocks, joined, h) ==
        if joined[0] && rest != [] then [Block(blocks[0].addr, blocks[0].size + h + rest[0].size, false)] + rest[1..]
        else [blocks[0]] + rest
  {
  }

  lemma HeadsOf(joined: seq<bool>, k: nat)
    requires 0 < k <= |joined|
    ensures Heads(joined, k) == (if joined[0] then 0 else 1) + Heads(joined[1..], k - 1)
  {
  }

  lemma FirstIsNotJoined(blocks: seq<Block>, joined: seq<bool>)
    requires Consistent(blocks, joined) && blocks != [] && blocks[0].used
    ensures !joined[0]
  {
  }

  /** A used block stands in the row unchanged. */
  lemma {:induction false} RowAt(blocks: seq<Block>, joined: seq<bool>, h: nat, k: nat)
    requires |joined| == |blocks| && Consistent(blocks, joined) && k < |blocks| && blocks[k].used
    ensures Heads(joined, k) < |Row(blocks, joined, h)| && Row(blocks, joined, h)[Heads(joined, k)] == blocks[k]
    ensures k > 0 && joined[0] ==> Heads(joined, k) > 0
    decreases k
  {
    RowOf(blocks, joined, h);
    if k == 0 {
      FirstIsNotJoined(blocks, joined);
    } else {
      hide Row, Heads, Consistent;
      HeadsOf(joined, k);
      ConsistentTail(blocks, joined);
      RowAt(blocks[1..], joined[1..], h, k - 1);
      if joined[0] {
        HeadAfterJoined(blocks, joined, h, k);
      }
    }
  }

  lemma {:induction false} HeadAfterJoined(blocks: seq<Block>, joined: seq<bool>, h: nat, k: nat)
    requires Consistent(blocks, joined) && 0 < k < |blocks| && blocks[k].used && joined[0]
    ensures k > 1 && Heads(joined[1..], k - 1) > 0
    decreases k
  {
    ConsistentTail(blocks, joined);
    if joined[1] {
      HeadAfterJoined(blocks[1..], joined[1..], h, k - 1);
    }
  }

  /** Is the block behind `k` free? */
  predicate FreeBehind(blocks: seq<Block>, k: nat) { k + 1 < |blocks| && !blocks[k + 1].used }

  lemma FreedConsistent(blocks: seq<Block>, joined: seq<bool>, k: nat)
    requires Consistent(blocks, joined) && k < |blocks| && blocks[k].used
    ensures Consistent(blocks[k := blocks[k].(used := false)], joined[k := FreeBehind(blocks, k)])
  {
  }

  lemma ReleaseFirst(b: Block, rest: seq<Block>, h: nat)
    ensures Release([b] + rest, h, 0) == Merge(b, rest, h)
  {
    assert ([b] + rest)[1..] == rest;
  }

  lemma ReleaseLater(b: Block, rest: seq<Block>, h: nat, k: nat)
    requires k < |rest|
    ensures Release([b] + rest, h, k + 1) == [b] + Release(rest, h, k)
  {
    hide Release, Merge;
    var front, x, back := rest[..k], rest[k], rest[k + 1..];
    ReleaseAt(front, x, back, h);
    ReleaseAt([b] + front, x, back, h);
    assert rest == front + ([x] + back);
    assert [b] + rest == [b] + front + ([x] + back);
    assert [b] + front + Merge(x, back, h) == [b] + (front + Merge(x, back, h));
  }

  lemma ReleaseBehindFirst(b: Block, row: seq<Block>, h: nat, k: nat)
    requires 0 < k < |row|
    ensures Release([b] + row[1..], h, k) == [b] + Release(row, h, k)[1..]
    ensures Release(row, h, k) != [] && Release(row, h, k)[0] == row[0]
  {
    assert row == [row[0]] + row[1..];
    ReleaseLater(row[0], row[1..], h, k - 1);
    ReleaseLater(b, row[1..], h, k - 1);
  }

  lemma {:induction false} FirstOfRow(blocks: seq<Block>, joined: seq<bool>, h: nat)
    requires Consistent(blocks, joined) && blocks != []
    ensures Row(blocks, joined, h)[0].used == blocks[0].used
  {
  }

  /** Whether the row behind block 0 begins with a free block. */
  lemma FreeBehindFirst(blocks: seq<Block>, joined: seq<bool>, h: nat)
    requires Consistent(blocks, joined) && blocks != [] && blocks[0].used
    ensures !joined[0]
    ensures var rest := Row(blocks[1..], joined[1..], h);
      FreeBehind(blocks, 0) <==> rest != [] && !rest[0].used
  {
    if |blocks| > 1 {
      ConsistentTail(blocks, joined);
      FirstOfRow(blocks[1..], joined[1..], h);
    }
  }

  lemma ReleaseHead(blocks: seq<Block>, joined: seq<bool>, h: nat)
    requires |joined| == |blocks| && Consistent(blocks, joined) && blocks != [] && blocks[0].used
    ensures Row(blocks, joined, h) != []
    ensures Release(Row(blocks, joined, h), h, 0) ==
      Row(blocks[0 := blocks[0].(used := false)], joined[0 := FreeBehind(blocks, 0)], h)
  {
    hide Release, Row, Consistent, FreeBehind;
    var b, j := blocks[0 := blocks[0].(used := false)], joined[0 := FreeBehind(blocks, 0)];
    assert b[1..] == blocks[1..] && j[1..] == joined[1..];
    FreeBehindFirst(blocks, joined, h);
    RowOf(blocks, joined, h);
    RowOf(b, j, h);
    ReleaseFirst(blocks[0], Row(blocks[1..], joined[1..], h), h);
  }

  /** Freeing one more block merges it with a free block behind it, and changes nothing else. */
  lemma {:induction false} RowRelease(blocks: seq<Block>, joined: seq<bool>, h: nat, k: nat)
    requires |joined| == |blocks| && Consistent(blocks, joined) && k < |blocks| && blocks[k].used
    ensures Heads(joined, k) < |Row(blocks, joined, h)|
    ensures Release(Row(blocks, joined, h), h, Heads(joined, k)) ==
      Row(blocks[k := blocks[k].(used := false)], joined[k := FreeBehind(blocks, k)], h)
    decreases k
  {
    hide Release, Row, Consistent, FreeBehind;
    RowAt(blocks, joined, h, k);
    if k == 0 {
      ReleaseHead(blocks, joined, h);
    } else {
      hide Heads;
      var b, j := blocks[k := blocks[k].(used := false)], joined[k := FreeBehind(blocks, k)];
      TailUpdated(blocks, joined, k);
      ConsistentTail(blocks, joined);
      RowAt(blocks[1..], joined[1..], h, k - 1);
      RowRelease(blocks[1..], joined[1..], h, k - 1);
      RowOf(blocks, joined, h);
      RowOf(b, j, h);
      HeadsOf(joined, k);
      var rest := Row(blocks[1..], joined[1..], h);
      if joined[0] {
        HeadAfterJoined(blocks, joined, h, k);
        ReleaseBehindFirst(Block(blocks[0].addr, blocks[0].size + h + rest[0].size, false), rest, h, Heads(joined, k));
      } else {
        ReleaseLater(blocks[0], rest, h, Heads(joined[1..], k - 1));
      }
    }
  }

  lemma TailUpdated(blocks: seq<Block>, joined: seq<bool>, k: nat)
    requires |joined| == |blocks| && 0 < k < |blocks|
    ensures blocks[k := blocks[k].(used := false)][1..] == blocks[1..][k - 1 := blocks[1..][k - 1].(used := false)]
    ensures joined[k := FreeBehind(blocks, k)][1..] == joined[1..][k - 1 := FreeBehind(blocks[1..], k - 1)]
  {
  }

  // ----- whole orders -----

  /** The block at `addr`, or the length of the row. */
  function Position(row: seq<Block>, addr: nat): (k: nat)
    ensures k <= |row|
    ensures k < |row| ==> row[k].addr == addr
    ensures forall j :: 0 <= j < k ==> row[j].addr != addr
  {
    if row == [] || row[0].addr == addr then 0 else 1 + Position(row[1..], addr)
  }

  /** `kfree` names a block by its address. */
  function ReleaseAddr(row: seq<Block>, h: nat, addr: nat): seq<Block> {
    var k := Position(row, addr);
    if k < |row| then Release(row, h, k) else row
  }

  /** A list of different used blocks, by their numbers in the row at the start. */
  ghost predicate FreeOrder(blocks: seq<Block>, order: seq<nat>) {
    && (forall p :: 0 <= p < |order| ==> order[p] < |blocks| && blocks[order[p]].used)
    && forall p, q :: 0 <= p < q < |order| ==> order[p] != order[q]
  }

  /** The row after freeing them in that order. */
  function ReleaseAll(blocks: seq<Block>, h: nat, order: seq<nat>): seq<Block>
    requires forall p :: 0 <= p < |order| ==> order[p] < |blocks|
  {
    if order == [] then blocks
    else
      var n := |order| - 1;
      ReleaseAddr(ReleaseAll(blocks, h, order[..n]), h, blocks[order[n]].addr)
  }

  /** Block `a` is freed before block `b`. */
  ghost predicate FreedBefore(order: seq<nat>, a: nat, b: nat) {
    exists p, q :: 0 <= p < q < |order| && order[p] == a && order[q] == b
  }

  ghost function FreedBlocks(blocks: seq<Block>, order: seq<nat>): seq<Block> {
    seq(|blocks|, k requires 0 <= k < |blocks| => if k in order then blocks[k].(used := false) else blocks[k])
  }

  /** Block `k` merges with the one behind it: it is freed, and the other is free already. */
  ghost predicate Joins(blocks: seq<Block>, order: seq<nat>, k: nat) {
    k in order && k + 1 < |blocks| && (!blocks[k + 1].used || FreedBefore(order, k + 1, k))
  }

  ghost function JoinedBlocks(blocks: seq<Block>, order: seq<nat>): seq<bool> {
    seq(|blocks|, k requires 0 <= k < |blocks| => Joins(blocks, order, k))
  }

  lemma OneMoreFreed(order: seq<nat>, a: nat, b: nat)
    requires order != []
    ensures var n := |order| - 1;
      FreedBefore(order, a, b) <==> FreedBefore(order[..n], a, b) || (order[n] == b && a in order[..n])
  {
    var n, before := |order| - 1, order[..|order| - 1];
    if FreedBefore(order, a, b) {
      var p, q :| 0 <= p < q < |order| && order[p] == a && order[q] == b;
      assert before[p] == a;
      assert q < n ==> before[q] == b;
    }
    if FreedBefore(before, a, b) {
      var p, q :| 0 <= p < q < |before| && before[p] == a && before[q] == b;
      assert order[p] == a && order[q] == b;
    }
    if order[n] == b && a in before {
      var p :| 0 <= p < n && before[p] == a;
      assert order[p] == a && order[n] == b;
    }
  }

  lemma NotTwice(blocks: seq<Block>, order: seq<nat>)
    requires FreeOrder(blocks, order) && order != []
    ensures var n := |order| - 1; order[n] !in order[..n] && FreeOrder(blocks, order[..n])
  {
  }

  lemma JoinsStep(blocks: seq<Block>, order: seq<nat>, k: nat)
    requires FreeOrder(blocks, order) && order != [] && k < |blocks|
    ensures var n := |order| - 1;
      Joins(blocks, order, k) == if k == order[n] then FreeBehind(FreedBlocks(blocks, order[..n]), k)
                                 else Joins(blocks, order[..n], k)
  {
    hide FreeOrder, FreedBefore;
    var n := |order| - 1;
    NotTwice(blocks, order);
    OneMoreFreed(order, k + 1, k);
    assert order == order[..n] + [order[n]];
    if k == order[n] {
      NotFreedYet(order[..n], k + 1, k);
    }
  }

  lemma NotFreedYet(order: seq<nat>, a: nat, b: nat)
    requires b !in order
    ensures !FreedBefore(order, a, b)
  {
  }

  lemma OrderStep(blocks: seq<Block>, order: seq<nat>)
    requires FreeOrder(blocks, order) && order != []
    ensures var n, k := |order| - 1, order[|order| - 1];
      && FreeOrder(blocks, order[..n]) && k !in order[..n]
      && FreedBlocks(blocks, order) == FreedBlocks(blocks, order[..n])[k := blocks[k].(used := false)]
      && JoinedBlocks(blocks, order)
         == JoinedBlocks(blocks, order[..n])[k := FreeBehind(FreedBlocks(blocks, order[..n]), k)]
  {
    var n, k := |order| - 1, order[|order| - 1];
    assert order == order[..n] + [k];
    forall m: nat | m < |blocks|
      ensures JoinedBlocks(blocks, order)[m]
        == JoinedBlocks(blocks, order[..n])[k := FreeBehind(FreedBlocks(blocks, order[..n]), k)][m]
    {
      JoinsStep(blocks, order, m);
    }
  }

  lemma PositionOf(row: seq<Block>, h: nat, start: nat, end: nat, m: nat)
    requires Tiles(row, h, start, end) && m < |row|
    ensures Position(row, row[m].addr) == m
  {
    hide Tiles;
    AddressUnique(row, h, start, end, m);
    assert forall j :: 0 <= j < m ==> row[j] in row[..m];
  }

  lemma NothingFreed(blocks: seq<Block>, h: nat)
    ensures FreedBlocks(blocks, []) == blocks
    ensures Consistent(blocks, JoinedBlocks(blocks, [])) && Row(blocks, JoinedBlocks(blocks, []), h) == blocks
  {
    Unjoined(blocks, JoinedBlocks(blocks, []), h);
  }

  lemma {:induction false} Unjoined(blocks: seq<Block>, joined: seq<bool>, h: nat)
    requires |joined| == |blocks| && forall k :: 0 <= k < |joined| ==> !joined[k]
    ensures Row(blocks, joined, h) == blocks
  {
    if blocks != [] {
      Unjoined(blocks[1..], joined[1..], h);
    }
  }

  /** Freeing used blocks in any order leaves the row in which each freed block has been merged with
      the one behind it exactly if that one was free at the start or was freed before it. */
  lemma {:induction false} AnyOrder(blocks: seq<Block>, h: nat, start: nat, end: nat, order: seq<nat>)
    requires Tiles(blocks, h, start, end) && FreeOrder(blocks, order)
    ensures Consistent(FreedBlocks(blocks, order), JoinedBlocks(blocks, order))
    ensures ReleaseAll(blocks, h, order) == Row(FreedBlocks(blocks, order), JoinedBlocks(blocks, order), h)
    ensures Tiles(ReleaseAll(blocks, h, order), h, start, end)
    decreases |order|
  {
    hide Tiles, Release, Row, Consistent, FreedBlocks, JoinedBlocks;
    if order == [] {
      NothingFreed(blocks, h);
    } else {
      var n, k := |order| - 1, order[|order| - 1];
      OrderStep(blocks, order);
      AnyOrder(blocks, h, start, end, order[..n]);
      var freed, joined := FreedBlocks(blocks, order[..n]), JoinedBlocks(blocks, order[..n]);
      StillUsed(blocks, order[..n], k);
      RowAt(freed, joined, h, k);
      FreedConsistent(freed, joined, k);
      RowRelease(freed, joined, h, k);
      var row := ReleaseAll(blocks, h, order[..n]);
      PositionOf(row, h, start, end, Heads(joined, k));
      ReleaseTiles(row, h, start, end, Heads(joined, k));
    }
  }

  lemma StillUsed(blocks: seq<Block>, order: seq<nat>, k: nat)
    requires k < |blocks| && k !in order
    ensures |FreedBlocks(blocks, order)| == |JoinedBlocks(blocks, order)| == |blocks|
    ensures FreedBlocks(blocks, order)[k] == blocks[k]
  {
  }

  // ----- which blocks become one -----

  ghost predicate Increasing(row: seq<Block>) {
    forall i, j :: 0 <= i < j < |row| ==> row[i].addr < row[j].addr
  }

  lemma {:induction false} TilesIncrease(blocks: seq<Block>, h: nat, start: nat, end: nat)
    requires Tiles(blocks, h, start, end)
    ensures Increasing(blocks)
  {
    hide Tiles;
    forall i, j | 0 <= i < j < |blocks|
      ensures blocks[i].addr < blocks[j].addr
    {
      Ordered(blocks, h, start, end, i);
      assert blocks[j] in blocks[i + 1..];
    }
  }

  /** The blocks of the row start where blocks of the old one did, and none behind its first one at
      its first address. */
  lemma {:induction false} RowAddresses(blocks: seq<Block>, joined: seq<bool>, h: nat)
    requires |joined| == |blocks| > 0 && Increasing(blocks)
    ensures forall b :: b in Row(blocks, joined, h) ==> b.addr >= blocks[0].addr
    ensures forall b :: b in Row(blocks, joined, h)[1..] ==> b.addr > blocks[0].addr
  {
    if |blocks| > 1 {
      RowAddresses(blocks[1..], joined[1..], h);
    }
  }

  /** Some block of the row starts at `addr`. */
  ghost predicate StartsAt(row: seq<Block>, addr: nat) {
    exists b :: b in row && b.addr == addr
  }

  lemma StartsInConcat(a: seq<Block>, b: seq<Block>, addr: nat)
    ensures StartsAt(a + b, addr) <==> StartsAt(a, addr) || StartsAt(b, addr)
  {
    if StartsAt(a, addr) {
      var x :| x in a && x.addr == addr;
      assert x in a + b;
    }
    if StartsAt(b, addr) {
      var x :| x in b && x.addr == addr;
      assert x in a + b;
    }
  }

  lemma StartsAtOne(b: Block, addr: nat)
    ensures StartsAt([b], addr) <==> b.addr == addr
  {
    assert b in [b];
  }

  lemma StartsAbove(row: seq<Block>, addr: nat)
    requires forall b :: b in row ==> b.addr > addr
    ensures !StartsAt(row, addr)
  {
  }

  /** A block starts at the old address of block `m` exactly if that one was not merged into the one
      before. */
  lemma {:induction false} RowStarts(blocks: seq<Block>, joined: seq<bool>, h: nat, m: nat)
    requires |joined| == |blocks| && m < |blocks| && Increasing(blocks)
    ensures StartsAt(Row(blocks, joined, h), blocks[m].addr) <==> m == 0 || !joined[m - 1]
    decreases m
  {
    hide StartsAt, Row, Increasing;
    var row, addr := Row(blocks, joined, h), blocks[m].addr;
    RowOf(blocks, joined, h);
    StartsInConcat([row[0]], row[1..], addr);
    StartsAtOne(row[0], addr);
    assert row == [row[0]] + row[1..];
    if m > 0 {
      TailIncreases(blocks, m);
      var rest := Row(blocks[1..], joined[1..], h);
      assert rest == [rest[0]] + rest[1..];
      assert row[1..] == if joined[0] then rest[1..] else rest;
      RowStarts(blocks[1..], joined[1..], h, m - 1);
      RowAddresses(blocks[1..], joined[1..], h);
      StartsInConcat([rest[0]], rest[1..], addr);
      StartsAtOne(rest[0], addr);
      if m == 1 {
        StartsAbove(rest[1..], addr);
      }
    }
  }

  lemma TailIncreases(blocks: seq<Block>, m: nat)
    requires Increasing(blocks) && 0 < m < |blocks|
    ensures Increasing(blocks[1..]) && blocks[1].addr <= blocks[m].addr && blocks[0].addr < blocks[m].addr
    ensures m > 1 ==> blocks[1].addr < blocks[m].addr
  {
  }

  /** Of two adjacent used blocks that are both freed, in any order and with any others in between,
      the second is merged into the first exactly if it was freed before it. */
  lemma OrderDecides(blocks: seq<Block>, h: nat, start: nat, end: nat, order: seq<nat>, k: nat)
    requires Tiles(blocks, h, start, end) && FreeOrder(blocks, order) && k in order && k + 1 in order
    ensures k + 1 < |blocks|
    ensures StartsAt(ReleaseAll(blocks, h, order), blocks[k + 1].addr) <==> !FreedBefore(order, k + 1, k)
  {
    hide Tiles, Row, FreedBefore, StartsAt, FreedBlocks, JoinedBlocks, Increasing, Consistent, ReleaseAll;
    OrderInRange(blocks, order, k + 1);
    AnyOrder(blocks, h, start, end, order);
    TilesIncrease(blocks, h, start, end);
    SameAddresses(blocks, order);
    JoinedAt(blocks, order, k);
    RowStarts(FreedBlocks(blocks, order), JoinedBlocks(blocks, order), h, k + 1);
  }

  lemma OrderInRange(blocks: seq<Block>, order: seq<nat>, k: nat)
    requires FreeOrder(blocks, order) && k in order
    ensures k < |blocks| && blocks[k].used
  {
  }

  lemma JoinedAt(blocks: seq<Block>, order: seq<nat>, k: nat)
    requires k in order && k + 1 < |blocks| && blocks[k + 1].used
    ensures |JoinedBlocks(blocks, order)| == |blocks|
    ensures JoinedBlocks(blocks, order)[k] <==> FreedBefore(order, k + 1, k)
  {
    hide FreedBefore;
  }

  lemma SameAddresses(blocks: seq<Block>, order: seq<nat>)
    requires Increasing(blocks)
    ensures |FreedBlocks(blocks, order)| == |blocks| && Increasing(FreedBlocks(blocks, order))
    ensures forall k :: 0 <= k < |blocks| ==> FreedBlocks(blocks, order)[k].addr == blocks[k].addr
  {
  }
}
