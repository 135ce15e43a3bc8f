/** The physical page allocator: start-up from the boot memory map, allocation and release. */
module PhysicalPages {
  import opened Wrappers
  import opened PageBitmap

  const PAGE_SIZE: nat := 4096
  const LOW_MEMORY: nat := 0x10_0000

  /** One entry of the boot loader's memory map. */
  datatype MemmapEntry = MemmapEntry(base: nat, length: nat, usable: bool)
  {
    function End(): nat { base + length }
    function FirstPage(): nat { (base + PAGE_SIZE - 1) / PAGE_SIZE }
    function LastPage(): nat { End() / PAGE_SIZE }

    /** `page` lies wholly inside this usable entry. */
    predicate HoldsPage(page: nat) {
      usable && base <= page * PAGE_SIZE && (page + 1) * PAGE_SIZE <= End()
    }
  }

  /** The whole pages of an entry are exactly the pages from its first to before its last. */
  lemma WholePages(entry: MemmapEntry, page: nat)
    requires entry.usable
    ensures entry.HoldsPage(page) <==> entry.FirstPage() <= page < entry.LastPage()
  {
  }

  /** No two usable entries share a byte, as the boot protocol promises. */
  ghost predicate Separate(entries: seq<MemmapEntry>) {
    forall i, j :: 0 <= i < j < |entries| && entries[i].usable && entries[j].usable ==>
      entries[i].End() <= entries[j].base || entries[j].End() <= entries[i].base
  }

  ghost function HighestEnd(entries: seq<MemmapEntry>): nat {
    if entries == [] then 0
    else
      var rest := HighestEnd(entries[..|entries| - 1]);
      if entries[|entries| - 1].End() > rest then entries[|entries| - 1].End() else rest
  }

  /** `n` pages reach to the end of every entry. */
  ghost predicate Covers(entries: seq<MemmapEntry>, n: nat) {
    forall i :: 0 <= i < |entries| ==> entries[i].End() <= n * 4096
  }

  lemma {:induction false} HighestIsLeast(entries: seq<MemmapEntry>, bound: nat)
    ensures HighestEnd(entries) <= bound <==> forall i :: 0 <= i < |entries| ==> entries[i].End() <= bound
  {
    if entries != [] {
      HighestIsLeast(entries[..|entries| - 1], bound);
    }
  }

  /** The tracked pages are the fewest that reach to the end of every entry, and the bitmap is the
      shortest that has a bit for each of them. */
  lemma MemoryMeasured(entries: seq<MemmapEntry>, n: nat)
    ensures TotalPages(HighestEnd(entries)) <= n <==> Covers(entries, n)
    ensures BitmapBytes(TotalPages(HighestEnd(entries))) <= n <==> Covers(entries, 8 * n)
  {
    HighestIsLeast(entries, n * 4096);
    HighestIsLeast(entries, 8 * n * 4096);
  }

  function TotalPages(highest: nat): nat { (highest + PAGE_SIZE - 1) / PAGE_SIZE }
  function BitmapBytes(totalPages: nat): nat { (totalPages + 7) / 8 }
  function BitmapPages(bytes: nat): nat { (bytes + PAGE_SIZE - 1) / PAGE_SIZE }
  function RoundUp(base: nat): nat { (base + PAGE_SIZE - 1) / PAGE_SIZE * PAGE_SIZE }

  /** The entry can hold the bitmap from its first page boundary on. */
  predicate HoldsBitmap(entry: MemmapEntry, bytes: nat) {
    entry.usable && entry.length >= bytes && entry.End() >= RoundUp(entry.base) + bytes
  }

  /** It can exactly if it is usable and some page boundary leaves room for the bitmap within it; the
      one chosen is the first boundary in the entry. */
  lemma RoomForBitmap(entry: MemmapEntry, bytes: nat)
    ensures HoldsBitmap(entry, bytes) <==>
      entry.usable && exists k: nat :: entry.base <= k * 4096 && k * 4096 + bytes <= entry.End()
    ensures RoundUp(entry.base) % 4096 == 0 && entry.base <= RoundUp(entry.base) < entry.base + 4096
  {
    var first := (entry.base + PAGE_SIZE - 1) / PAGE_SIZE;
    assert RoundUp(entry.base) == first * 4096;
    if k: nat :| entry.base <= k * 4096 && k * 4096 + bytes <= entry.End() {
      assert first <= k;
    }
  }

  /** Where the bitmap goes: the first page boundary of the first entry that fits, or 0. */
  ghost function BitmapPlace(entries: seq<MemmapEntry>, bytes: nat): nat {
    if entries == [] then 0
    else if HoldsBitmap(entries[0], bytes) then RoundUp(entries[0].base)
    else BitmapPlace(entries[1..], bytes)
  }

  /** Entry `i` is the first that can hold the bitmap. */
  ghost predicate FirstHolder(entries: seq<MemmapEntry>, bytes: nat, i: nat) {
    && i < |entries| && HoldsBitmap(entries[i], bytes)
    && forall j :: 0 <= j < i ==> !HoldsBitmap(entries[j], bytes)
  }

  /** The bitmap is put on a page boundary wholly inside the first usable entry that can hold it.
      Start-up takes address 0 for "not found", so it fails exactly when no entry can hold the
      bitmap or the first that can starts at 0, even if a later one would do. */
  lemma {:induction false} BitmapPlaceFound(entries: seq<MemmapEntry>, bytes: nat)
    ensures var place := BitmapPlace(entries, bytes);
      && (place != 0 <==> exists i: nat :: FirstHolder(entries, bytes, i) && entries[i].base > 0)
      && (forall i: nat :: FirstHolder(entries, bytes, i) ==>
            && entries[i].base <= place < entries[i].base + 4096
            && place + bytes <= entries[i].End() && place % 4096 == 0)
  {
    if entries == [] {
    } else if HoldsBitmap(entries[0], bytes) {
      assert FirstHolder(entries, bytes, 0);
    } else {
      BitmapPlaceFound(entries[1..], bytes);
      LaterHolder(entries, bytes);
    }
  }

  lemma LaterHolder(entries: seq<MemmapEntry>, bytes: nat)
    requires entries != [] && !HoldsBitmap(entries[0], bytes)
    ensures forall i: nat :: FirstHolder(entries, bytes, i) ==> i > 0 && FirstHolder(entries[1..], bytes, i - 1)
    ensures forall i: nat :: FirstHolder(entries[1..], bytes, i) ==> FirstHolder(entries, bytes, i + 1)
  {
    hide HoldsBitmap;
    forall i: nat | FirstHolder(entries[1..], bytes, i)
      ensures FirstHolder(entries, bytes, i + 1)
    {
      forall j | 0 <= j < i + 1
        ensures !HoldsBitmap(entries[j], bytes)
      {
        assert j > 0 ==> entries[j] == entries[1..][j - 1];
      }
    }
  }

  /** Under the boot protocol no usable entry starts at 0. Then the search for a place fails exactly
      when no entry can hold the bitmap, so start-up panics exactly then or on an empty map. */
  lemma BitmapPlaceUnderProtocol(entries: seq<MemmapEntry>, bytes: nat)
    requires forall i :: 0 <= i < |entries| && entries[i].usable ==> entries[i].base > 0
    ensures BitmapPlace(entries, bytes) != 0 <==> exists i :: 0 <= i < |entries| && HoldsBitmap(entries[i], bytes)
  {
    BitmapPlaceFound(entries, bytes);
    if i :| 0 <= i < |entries| && HoldsBitmap(entries[i], bytes) {
      var first := SomeFirstHolder(entries, bytes, i);
      assert entries[first].usable;
    }
  }

  lemma {:induction false} SomeFirstHolder(entries: seq<MemmapEntry>, bytes: nat, i: nat) returns (first: nat)
    requires i < |entries| && HoldsBitmap(entries[i], bytes)
    ensures FirstHolder(entries, bytes, first)
    decreases i
  {
    if j: nat :| j < i && HoldsBitmap(entries[j], bytes) {
      first := SomeFirstHolder(entries, bytes, j);
    } else {
      first := i;
    }
  }

  /** Outside the protocol: a map with one usable entry of 16 MiB at 0 has room, and none is found. */
  lemma PlaceAtZeroIsLost()
    ensures var map0 := [MemmapEntry(0, 0x100_0000, true)];
      && HighestEnd(map0) == 0x100_0000
      && HoldsBitmap(map0[0], BitmapBytes(TotalPages(0x100_0000)))
      && BitmapPlace(map0, BitmapBytes(TotalPages(0x100_0000))) == 0
  {
    var map0 := [MemmapEntry(0, 0x100_0000, true)];
    assert map0[..0] == [];
    assert HighestEnd(map0[..0]) == 0;
  }

  /** The page is one that start-up may hand to the allocator, given where the bitmap was put. */
  predicate Allowed(bitmapPhys: nat, bitmapEnd: nat, page: nat) {
    var phys := page * PAGE_SIZE;
    phys >= LOW_MEMORY && !(bitmapPhys <= phys < bitmapEnd)
  }

  /** The pages start-up must free: whole pages of the first `n` usable entries, at or above
      1 MiB and outside the bitmap's own pages. */
  ghost predicate ShouldFree(entries: seq<MemmapEntry>, n: nat, bitmapPhys: nat, bitmapEnd: nat, page: nat)
    requires n <= |entries|
  {
    Allowed(bitmapPhys, bitmapEnd, page) && exists i :: 0 <= i < n && entries[i].HoldsPage(page)
  }

  /** The page lies wholly in a usable entry, starts at or above 1 MiB, and shares no byte with the
      `length` bytes at `at`. */
  ghost predicate Admitted(entries: seq<MemmapEntry>, at: nat, length: nat, page: nat) {
    && (exists i :: 0 <= i < |entries| && entries[i].HoldsPage(page))
    && page * 4096 >= 0x10_0000
    && ((page + 1) * 4096 <= at || at + length <= page * 4096)
  }

  /** What start-up skips around a bitmap of `length` bytes on a page boundary is every page that
      holds a byte of it, and no other. */
  lemma FreedIsAdmitted(entries: seq<MemmapEntry>, at: nat, length: nat, page: nat)
    requires at % 4096 == 0
    ensures ShouldFree(entries, |entries|, at, at + BitmapPages(length) * PAGE_SIZE, page)
      <==> Admitted(entries, at, length, page)
  {
  }

  lemma {:induction false} PlaceIsAligned(entries: seq<MemmapEntry>, bytes: nat)
    ensures BitmapPlace(entries, bytes) % 4096 == 0
  {
    if entries != [] {
      RoomForBitmap(entries[0], bytes);
      PlaceIsAligned(entries[1..], bytes);
    }
  }

  lemma SameFreed(entries: seq<MemmapEntry>, at: nat, length: nat)
    requires at % 4096 == 0
    ensures forall p: nat :: (
      ShouldFree(entries, |entries|, at, at + BitmapPages(length) * PAGE_SIZE, p) <==> Admitted(entries, at, length, p))
  {
    hide ShouldFree, Admitted;
    forall p: nat
      ensures ShouldFree(entries, |entries|, at, at + BitmapPages(length) * PAGE_SIZE, p)
        <==> Admitted(entries, at, length, p)
    {
      FreedIsAdmitted(entries, at, length, p);
    }
  }

  /** The end of an entry bounds its pages. */
  lemma HighestEndBounds(entries: seq<MemmapEntry>, i: nat)
    requires i < |entries|
    ensures entries[i].End() <= HighestEnd(entries)
  {
    if i < |entries| - 1 {
      HighestEndBounds(entries[..|entries| - 1], i);
    }
  }

  /** One more usable region adds its allowed whole pages. */
  lemma OneMoreRegion(entries: seq<MemmapEntry>, i: nat, bitmapPhys: nat, bitmapEnd: nat, page: nat)
    requires i < |entries| && entries[i].usable
    ensures ShouldFree(entries, i + 1, bitmapPhys, bitmapEnd, page) <==> (
      || ShouldFree(entries, i, bitmapPhys, bitmapEnd, page)
      || (entries[i].FirstPage() <= page < entries[i].LastPage() && Allowed(bitmapPhys, bitmapEnd, page)))
  {
    WholePages(entries[i], page);
  }

  /** A page of region `i` was not freed for an earlier region, when regions are separate. */
  lemma NotYetFreed(entries: seq<MemmapEntry>, i: nat, bitmapPhys: nat, bitmapEnd: nat, page: nat)
    requires i < |entries| && entries[i].usable
    requires entries[i].FirstPage() <= page < entries[i].LastPage()
    ensures Separate(entries) ==> !ShouldFree(entries, i, bitmapPhys, bitmapEnd, page)
  {
    WholePages(entries[i], page);
    forall j | 0 <= j < i && Separate(entries)
      ensures !entries[j].HoldsPage(page)
    {
      assert entries[j].usable ==> entries[j].End() <= entries[i].base || entries[i].End() <= entries[j].base;
    }
  }

  /** The bitmap as `write_bytes` leaves it: everything used. */
  lemma AllUsed(bitmap: seq<bv8>, total: nat)
    requires total <= 8 * |bitmap| && forall i :: 0 <= i < |bitmap| ==> bitmap[i] == 0xff
    ensures forall q: nat :: q < 8 * |bitmap| ==> Used(bitmap, q)
    ensures FreeSet(bitmap, total) == {}
  {
    forall q: nat | q < 8 * |bitmap|
      ensures Used(bitmap, q)
    {
      assert Bit(0xff, q % 8);
    }
  }

  /** With every page below it used, an unused page is the lowest free one. */
  lemma LowestFree(bitmap: seq<bv8>, total: nat, page: nat)
    requires page < total <= 8 * |bitmap| && !Used(bitmap, page) && forall q: nat :: q < page ==> Used(bitmap, q)
    ensures page in FreeSet(bitmap, total) && forall p :: p in FreeSet(bitmap, total) ==> page <= p
  {
  }

  lemma NoneFree(bitmap: seq<bv8>, total: nat, page: nat)
    requires total <= page && total <= 8 * |bitmap|
    requires forall q: nat :: q < page && q < 8 * |bitmap| ==> Used(bitmap, q)
    ensures FreeSet(bitmap, total) == {}
  {
  }

  /** Marking a page takes it from the free set, or adds it, and leaves the padding bits alone. */
  lemma UsedEffect(bitmap: seq<bv8>, total: nat, page: nat)
    requires page < total <= 8 * |bitmap|
    ensures FreeSet(MarkUsed(bitmap, page), total) == FreeSet(bitmap, total) - {page}
    ensures forall q: nat :: total <= q < 8 * |bitmap| ==> Used(MarkUsed(bitmap, page), q) == Used(bitmap, q)
  {
    hide Used, MarkUsed;
    MarkUsedAll(bitmap, page);
  }

  lemma FreeEffect(bitmap: seq<bv8>, total: nat, page: nat)
    requires page < total <= 8 * |bitmap|
    ensures FreeSet(MarkFree(bitmap, page), total) == FreeSet(bitmap, total) + {page}
    ensures forall q: nat :: total <= q < 8 * |bitmap| ==> Used(MarkFree(bitmap, page), q) == Used(bitmap, q)
  {
    hide Used, MarkFree;
    MarkFreeAll(bitmap, page);
  }

  class Pmm {
    var bitmap: array<bv8>
    var totalPages: nat
    var freeCount: nat
    var usablePages: nat
    ghost var free: set<nat>    // the abstract value: the free page numbers

    /** Sizes agree, padding bits stay set, and the clear bits are the free pages. */
    ghost predicate Shape()
      reads this, bitmap
    {
      && bitmap.Length == BitmapBytes(totalPages)
      && (forall q: nat :: totalPages <= q < 8 * bitmap.Length ==> Used(bitmap[..], q))
      && free == FreeSet(bitmap[..], totalPages)
    }

    ghost predicate Valid()
      reads this, bitmap
    {
      Shape() && freeCount == |free|
    }

    constructor ()
      ensures Valid() && fresh(bitmap) && totalPages == freeCount == usablePages == 0
    {
      bitmap := new bv8[0];
      totalPages, freeCount, usablePages, free := 0, 0, 0, {};
    }

    /** Start-up. The static variables still have their initial values. The tracked pages are the fewest
        that cover memory, the bitmap has just enough bytes for them, and a page is free exactly if it is
        whole, at or above 1 MiB and shares no byte with the bitmap. */
    method InitPmm(entries: seq<MemmapEntry>) returns (r: Outcome<nat>)
      requires freeCount == 0 && usablePages == 0
      modifies this
      ensures var total := TotalPages(HighestEnd(entries));
        && (r.Done? <==> HighestEnd(entries) > 0 && BitmapPlace(entries, BitmapBytes(total)) != 0)
        && (r.Done? ==>
              && Shape() && fresh(bitmap) && totalPages == total
              && (forall n: nat :: totalPages <= n <==> Covers(entries, n))
              && 8 * bitmap.Length - 8 < totalPages <= 8 * bitmap.Length
              && r.value == BitmapPlace(entries, BitmapBytes(total)) && r.value % 4096 == 0
              && (forall p: nat :: p in free <==> Admitted(entries, r.value, bitmap.Length, p))
              && freeCount == usablePages
              && (Separate(entries) ==> Valid()))
    {
      hide Used, Separate, Allowed, BitmapPlace, Admitted, Covers;
      var highest := 0;
      for i := 0 to |entries|
        invariant highest == HighestEnd(entries[..i])
      {
        assert entries[..i + 1][..i] == entries[..i];
        if entries[i].End() > highest {
          highest := entries[i].End();
        }
      }
      assert entries[..|entries|] == entries;
      if highest == 0 {
        return Abort;
      }

      var total := TotalPages(highest);
      var bytes := BitmapBytes(total);
      var bitmapPhys := FindBitmapPlace(entries, bytes);
      if bitmapPhys == 0 {
        return Abort;
      }

      bitmap := new bv8[bytes](_ => 0xff);
      totalPages := total;
      free := {};
      AllUsed(bitmap[..], total);
      var bitmapEnd := bitmapPhys + BitmapPages(bytes) * PAGE_SIZE;
      for i := 0 to |entries|
        invariant Shape() && fresh(bitmap) && totalPages == total && freeCount == usablePages
        invariant Separate(entries) ==> freeCount == |free|
        invariant forall p: nat :: p in free <==> ShouldFree(entries, i, bitmapPhys, bitmapEnd, p)
      {
        if entries[i].usable {
          FreeRegion(entries, i, bitmapPhys, bitmapEnd);
        }
      }
      PlaceIsAligned(entries, bytes);
      SameFreed(entries, bitmapPhys, bytes);
      forall n: nat
        ensures totalPages <= n <==> Covers(entries, n)
      {
        MemoryMeasured(entries, n);
      }
      return Done(bitmapPhys);
    }

    /** The second scan of start-up: the address the bitmap is put at, or 0. */
    static method FindBitmapPlace(entries: seq<MemmapEntry>, bytes: nat) returns (bitmapPhys: nat)
      ensures bitmapPhys == BitmapPlace(entries, bytes)
    {
      bitmapPhys := 0;
      for i := 0 to |entries|
        invariant bitmapPhys == 0
        invariant BitmapPlace(entries[i..], bytes) == BitmapPlace(entries, bytes)
      {
        if !entries[i].usable {
          continue;
        }
        if entries[i].length >= bytes {
          var aligned := RoundUp(entries[i].base);
          if entries[i].End() >= aligned + bytes {
            bitmapPhys := aligned;
            break;
          }
        }
      }
    }

    /** The third scan of start-up, for one usable region. */
    method FreeRegion(entries: seq<MemmapEntry>, i: nat, bitmapPhys: nat, bitmapEnd: nat)
      requires i < |entries| && entries[i].usable
      requires Shape() && totalPages == TotalPages(HighestEnd(entries)) && freeCount == usablePages
      requires Separate(entries) ==> freeCount == |free|
      requires forall p: nat :: p in free <==> ShouldFree(entries, i, bitmapPhys, bitmapEnd, p)
      modifies this`freeCount, this`usablePages, this`free, bitmap
      ensures Shape() && freeCount == usablePages
      ensures Separate(entries) ==> freeCount == |free|
      ensures forall p: nat :: p in free <==> ShouldFree(entries, i + 1, bitmapPhys, bitmapEnd, p)
    {
      hide Used, Separate, ShouldFree, FreeSet;
      var page := entries[i].FirstPage();
      ghost var before := free;
      HighestEndBounds(entries, i);
      while page < entries[i].LastPage()
        invariant entries[i].FirstPage() <= page
        invariant page <= entries[i].LastPage() || page == entries[i].FirstPage()
        invariant Shape() && freeCount == usablePages
        invariant Separate(entries) ==> freeCount == |free|
        invariant forall p: nat :: p in free <==>
          p in before || (entries[i].FirstPage() <= p < page && Allowed(bitmapPhys, bitmapEnd, p))
      {
        var phys := page * PAGE_SIZE;
        page := page + 1;
        if phys == 0 {
          continue;
        }
        if phys < LOW_MEMORY {
          continue;
        }
        if phys >= bitmapPhys && phys < bitmapEnd {
          continue;
        }
        if page - 1 < totalPages {
          NotYetFreed(entries, i, bitmapPhys, bitmapEnd, page - 1);
          SetFree(page - 1);
          freeCount := freeCount + 1;
          usablePages := usablePages + 1;
        }
      }
      forall p: nat
        ensures p in free <==> ShouldFree(entries, i + 1, bitmapPhys, bitmapEnd, p)
      {
        OneMoreRegion(entries, i, bitmapPhys, bitmapEnd, p);
      }
    }

    method SetUsed(page: nat)
      requires Shape() && page < totalPages
      modifies this`free, bitmap
      ensures Shape()
      ensures bitmap[..] == MarkUsed(old(bitmap[..]), page)
      ensures free == old(free) - {page}
    {
      hide Bit, Mask, Used, FreeSet;
      UsedEffect(bitmap[..], totalPages, page);
      bitmap[page / 8] := bitmap[page / 8] | Mask(page % 8);
      free := free - {page};
      assert bitmap[..] == MarkUsed(old(bitmap[..]), page);
    }

    method SetFree(page: nat)
      requires Shape() && page < totalPages
      modifies this`free, bitmap
      ensures Shape()
      ensures bitmap[..] == MarkFree(old(bitmap[..]), page)
      ensures free == old(free) + {page}
    {
      hide Bit, Mask, Used, FreeSet;
      FreeEffect(bitmap[..], totalPages, page);
      bitmap[page / 8] := bitmap[page / 8] & !Mask(page % 8);
      free := free + {page};
      assert bitmap[..] == MarkFree(old(bitmap[..]), page);
    }

    method IsUsed(page: nat) returns (used: bool)
      requires Shape() && page < totalPages
      ensures used <==> page !in free
    {
      used := bitmap[page / 8] & Mask(page % 8) != 0;
      assert used == Used(bitmap[..], page);
    }

    method AllocPage() returns (r: Option<nat>)
      requires Valid()
      modifies this`freeCount, this`free, bitmap
      ensures Valid()
      ensures r.None? <==> old(free) == {}
      ensures r.None? ==> free == old(free) && bitmap[..] == old(bitmap[..])
      ensures r.Some? ==>
        && r.value % PAGE_SIZE == 0 && r.value < totalPages * PAGE_SIZE
        && r.value / PAGE_SIZE in old(free)
        && (forall p :: p in old(free) ==> r.value / PAGE_SIZE <= p)
        && free == old(free) - {r.value / PAGE_SIZE}
        && bitmap[..] == MarkUsed(old(bitmap[..]), r.value / PAGE_SIZE)
    {
      hide MarkUsed, Used, FreeSet;
      var page := FindFree();
      if page.None? {
        return None;
      }
      SetUsed(page.value);
      freeCount := freeCount - 1;
      return Some(page.value * PAGE_SIZE);
    }

    /** The byte scan of `alloc_page`: the lowest free page. */
    method FindFree() returns (r: Option<nat>)
      requires Shape()
      ensures r.None? <==> free == {}
      ensures r.Some? ==> r.value in free && r.value < totalPages && forall p :: p in free ==> r.value <= p
    {
      hide TrailingOnesFrom, Bit, Mask, Used, FreeSet;
      for i := 0 to bitmap.Length
        invariant forall q: nat :: q < 8 * i ==> Used(bitmap[..], q)
      {
        ScanByte(bitmap[..], i);
        var byte := bitmap[i];
        if byte == 0xff {
          continue;
        }
        var page := i * 8 + TrailingOnesFrom(byte, 0);
        if page >= totalPages {
          break;    // cannot happen: the padding bits are set
        }
        LowestFree(bitmap[..], totalPages, page);
        return Some(page);
      }
      NoneFree(bitmap[..], totalPages, 8 * bitmap.Length);
      return None;
    }

    method FreePage(phys: nat) returns (r: Outcome<()>)
      requires Valid()
      modifies this`freeCount, this`free, bitmap
      ensures Valid()
      ensures r.Abort? <==> phys % PAGE_SIZE != 0 || phys / PAGE_SIZE >= totalPages || phys / PAGE_SIZE in old(free)
      ensures r.Abort? ==> bitmap[..] == old(bitmap[..]) && free == old(free)
      ensures r.Done? ==>
        && free == old(free) + {phys / PAGE_SIZE}
        && bitmap[..] == MarkFree(old(bitmap[..]), phys / PAGE_SIZE)
    {
      if phys % PAGE_SIZE != 0 {
        return Abort;
      }
      var page := phys / PAGE_SIZE;
      if page >= totalPages {
        return Abort;
      }
      var used := IsUsed(page);
      if !used {
        return Abort;
      }
      SetFree(page);
      freeCount := freeCount + 1;
      return Done(());
    }
  }
}
