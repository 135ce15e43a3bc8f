/** Which tables mapping a page, or a run of pages, has to create. */
module TableNeeds {
  import opened Wrappers
  import opened Words
  import opened PageTree
  import opened PhysicalPages

  /** The place of a level `level` table: the indices that lead to it. */
  datatype Place = Place(level: int, i2: int, i3: int, i4: int)

  function PlaceOn(path: Path, k: int): Place {
    Place(k, if k < 2 then path.i2 else 0, if k < 3 then path.i3 else 0, path.i4)
  }

  /** There is no level `k` table on the way to `path`. */
  predicate Lacks(frames: Frames, root: nat, path: Path, k: int) {
    1 <= k <= 3 && Reach(frames, root, path, k).None?
  }

  /** The tables that mapping the page of `path` has to create. */
  ghost function Missing(frames: Frames, root: nat, path: Path): set<Place> {
    set k | 1 <= k <= 3 && Lacks(frames, root, path, k) :: PlaceOn(path, k)
  }

  /** The tables that mapping `n` pages from `virt` on has to create. */
  ghost function MissingOverRun(frames: Frames, root: nat, virt: nat, n: nat): set<Place> {
    if n == 0 then {}
    else MissingOverRun(frames, root, virt, n - 1)
         + Missing(frames, root, SplitIndices(virt + (n - 1) * PAGE_SIZE))
  }

  /** `map_page` on `path` fills the places on its path and no others. */
  ghost predicate Completed(before: Frames, after: Frames, root: nat, path: Path) {
    forall q: Path, k :: Lacks(after, root, q, k) <==> Lacks(before, root, q, k) && PlaceOn(q, k) != PlaceOn(path, k)
  }

  /** Exactly the places in `filled` have been filled. */
  ghost predicate Filled(before: Frames, after: Frames, root: nat, filled: set<Place>) {
    forall q: Path, k :: Lacks(after, root, q, k) <==> Lacks(before, root, q, k) && PlaceOn(q, k) !in filled
  }

  /** Whether a table is there depends on the place alone. */
  lemma {:induction false} SamePlace(frames: Frames, root: nat, p: Path, q: Path, k: nat)
    requires 1 <= k <= 3 && PlaceOn(p, k) == PlaceOn(q, k)
    ensures Reach(frames, root, p, k) == Reach(frames, root, q, k)
    decreases 4 - k
  {
    hide And;
    if k < 3 {
      SamePlace(frames, root, p, q, k + 1);
    }
  }

  /** Paths reach the same table only through the same place. */
  lemma ReachPlace(frames: Frames, root: nat, shape: Shape, p: Path, q: Path, k: nat)
    requires Tree(frames, root, shape) && 1 <= k <= 3 && Reach(frames, root, p, k + 1).Some?
    ensures (Reach(frames, root, q, k + 1) == Reach(frames, root, p, k + 1) && q.Index(k + 1) == p.Index(k + 1))
      <==> PlaceOn(q, k) == PlaceOn(p, k)
  {
    hide Tree, And;
    if Reach(frames, root, q, k + 1) == Reach(frames, root, p, k + 1) {
      ReachOnce(frames, root, shape, p, q, k + 1);
    }
    if PlaceOn(q, k) == PlaceOn(p, k) && k < 3 {
      SamePlace(frames, root, p, q, k + 1);
    }
  }

  lemma LacksBelow(frames: Frames, root: nat, path: Path)
    ensures Lacks(frames, root, path, 3) ==> Lacks(frames, root, path, 2)
    ensures Lacks(frames, root, path, 2) ==> Lacks(frames, root, path, 1)
  {
    hide And;
  }

  /** At most three tables are missing on one path. */
  lemma MissingCount(frames: Frames, root: nat, path: Path)
    ensures |Missing(frames, root, path)| ==
      if Lacks(frames, root, path, 3) then 3
      else if Lacks(frames, root, path, 2) then 2
      else if Lacks(frames, root, path, 1) then 1
      else 0
  {
    hide Lacks;
    LacksBelow(frames, root, path);
    var p1, p2, p3 := PlaceOn(path, 1), PlaceOn(path, 2), PlaceOn(path, 3);
    if Lacks(frames, root, path, 3) {
      assert Missing(frames, root, path) == {p1, p2, p3};
    } else if Lacks(frames, root, path, 2) {
      assert Missing(frames, root, path) == {p1, p2};
    } else if Lacks(frames, root, path, 1) {
      assert Missing(frames, root, path) == {p1};
    } else {
      assert Missing(frames, root, path) == {};
    }
  }

  lemma FilledNothing(frames: Frames, root: nat)
    ensures Filled(frames, frames, root, {})
  {
    hide Lacks;
  }

  /** One more page of a run: it lacks just the tables that the pages before it did not need too. */
  lemma FillNext(before: Frames, now: Frames, after: Frames, root: nat, path: Path, filled: set<Place>)
    requires Filled(before, now, root, filled) && Completed(now, after, root, path)
    ensures Missing(now, root, path) == Missing(before, root, path) - filled
    ensures Filled(before, after, root, filled + Missing(before, root, path))
    ensures |filled + Missing(before, root, path)| == |filled| + |Missing(now, root, path)|
  {
    NowMissing(before, now, root, path, filled);
    forall q: Path, k
      ensures Lacks(after, root, q, k) <==>
        Lacks(before, root, q, k) && PlaceOn(q, k) !in filled + Missing(before, root, path)
    {
      if Lacks(before, root, q, k) {
        MissingPlace(before, root, path, q, k);
      }
    }
    var m := Missing(before, root, path);
    assert filled + m == filled + (m - filled);
  }

  lemma NowMissing(before: Frames, now: Frames, root: nat, path: Path, filled: set<Place>)
    requires Filled(before, now, root, filled)
    ensures Missing(now, root, path) == Missing(before, root, path) - filled
  {
    hide Lacks;
  }

  lemma MissingPlace(frames: Frames, root: nat, path: Path, q: Path, k: int)
    requires Lacks(frames, root, q, k)
    ensures PlaceOn(q, k) in Missing(frames, root, path) <==> PlaceOn(q, k) == PlaceOn(path, k)
  {
    if PlaceOn(q, k) == PlaceOn(path, k) {
      SamePlace(frames, root, path, q, k);
    }
  }

  // ----- one step down -----

  /** Entry `i` of the level `k + 1` table `t` leads to a table now, and nothing else changed. */
  ghost predicate GainedAt(before: Frames, after: Frames, root: nat, t: int, i: int, k: int) {
    forall q: Path, j :: Lacks(after, root, q, j) <==>
      Lacks(before, root, q, j) && !(j == k && q.Index(k + 1) == i && Reach(before, root, q, k + 1) == Some(t))
  }

  /** The level `k` place of `path` is filled now, and no other one. */
  ghost predicate FilledAt(before: Frames, after: Frames, root: nat, path: Path, k: int) {
    forall q: Path, j :: Lacks(after, root, q, j) <==>
      Lacks(before, root, q, j) && !(j == k && PlaceOn(q, k) == PlaceOn(path, k))
  }

  ghost predicate SameTables(before: Frames, after: Frames, root: nat) {
    forall q: Path, k :: Lacks(after, root, q, k) == Lacks(before, root, q, k)
  }

  lemma HangGains(frames: Frames, root: nat, shape: Shape, t: int, i: int, c: int, word: nat)
    requires CanHang(frames, root, shape, t, i, c, word)
    ensures t in frames.words && 0 <= i < |frames.words[t]| && 2 <= shape.level[t] <= 4
    ensures GainedAt(frames, Hang(frames, t, i, c, word), root, t, i, shape.level[t] - 1)
  {
    hide And, Hang, Lacks;
    HangWords(frames, root, shape, t, i, c, word);
    assert shape.level[t] <= 4 by {
      TableLevel(frames, root, shape, t);
    }
    forall q: Path, j
      ensures Lacks(Hang(frames, t, i, c, word), root, q, j) <==>
        Lacks(frames, root, q, j)
        && !(j == shape.level[t] - 1 && q.Index(j + 1) == i && Reach(frames, root, q, j + 1) == Some(t))
    {
      HangLacks(frames, root, shape, t, i, c, word, q, j);
    }
  }

  lemma TableLevel(frames: Frames, root: nat, shape: Shape, t: int)
    requires Tree(frames, root, shape) && t in shape.level
    ensures 1 <= shape.level[t] <= 4
  {
    assert IsTable(frames, shape, t);
  }

  lemma HangLacks(frames: Frames, root: nat, shape: Shape, t: int, i: int, c: int, word: nat, q: Path, j: int)
    requires CanHang(frames, root, shape, t, i, c, word)
    ensures t in frames.words && 0 <= i < |frames.words[t]|
    ensures Lacks(Hang(frames, t, i, c, word), root, q, j) <==>
      Lacks(frames, root, q, j)
      && !(j == shape.level[t] - 1 && q.Index(j + 1) == i && Reach(frames, root, q, j + 1) == Some(t))
  {
    hide And, Hang;
    HangWords(frames, root, shape, t, i, c, word);
    if 1 <= j <= 3 {
      HangReach(frames, root, shape, t, i, c, word, q, j);
      ReachIsTable(frames, root, shape, q, j + 1);
    }
  }

  /** An entry that leads to a table already has nothing to gain. */
  lemma NothingGained(frames: Frames, root: nat, t: int, i: int, k: int)
    requires 1 <= k <= 3 && Leads(Word(frames, t, i), k + 1)
    ensures GainedAt(frames, frames, root, t, i, k)
  {
    hide And;
  }

  lemma GainedOnPath(before: Frames, after: Frames, root: nat, shape: Shape, path: Path, k: nat, t: int)
    requires Tree(before, root, shape) && 1 <= k <= 3 && Reach(before, root, path, k + 1) == Some(t)
    requires GainedAt(before, after, root, t, path.Index(k + 1), k)
    ensures FilledAt(before, after, root, path, k)
  {
    hide Tree, And, Lacks;
    forall q: Path, j
      ensures Lacks(after, root, q, j) <==>
        Lacks(before, root, q, j) && !(j == k && PlaceOn(q, k) == PlaceOn(path, k))
    {
      ReachPlace(before, root, shape, path, q, k);
    }
  }

  /** The three steps of `map_page` together. */
  lemma ThreeSteps(f0: Frames, f1: Frames, f2: Frames, f3: Frames, root: nat, path: Path)
    requires FilledAt(f0, f1, root, path, 3) && FilledAt(f1, f2, root, path, 2) && FilledAt(f2, f3, root, path, 1)
    ensures Completed(f0, f3, root, path)
  {
  }

  /** A step down fills its own level only. */
  lemma OtherLevels(before: Frames, after: Frames, root: nat, path: Path, k: nat, j: nat)
    requires FilledAt(before, after, root, path, k) && j != k
    ensures Lacks(after, root, path, j) == Lacks(before, root, path, j)
  {
  }

  lemma CompletedAndStored(f0: Frames, f1: Frames, f2: Frames, root: nat, path: Path)
    requires Completed(f0, f1, root, path) && SameTables(f1, f2, root)
    ensures Completed(f0, f2, root, path)
  {
    hide Lacks;
  }

  lemma StoreKeepsTables(frames: Frames, root: nat, shape: Shape, t: int, i: int, word: nat)
    requires Tree(frames, root, shape) && t in shape.level && shape.level[t] == 1 && 0 <= i < TABLE_WORDS
    ensures t in frames.words && 0 <= i < |frames.words[t]|
    ensures SameTables(frames, SetLeaf(frames, t, i, word), root)
  {
    hide Tree, And, SetLeaf;
    SetLeafKeepsTree(frames, root, shape, t, i, word);
    forall q: Path, k
      ensures Lacks(SetLeaf(frames, t, i, word), root, q, k) == Lacks(frames, root, q, k)
    {
      if 1 <= k <= 3 {
        SetLeafReach(frames, root, shape, t, i, word, q, k);
      }
    }
  }
}
