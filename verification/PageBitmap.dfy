/** The byte bitmap behind the physical page allocator: one bit per page, 1 meaning used. */
module PageBitmap {

  /** `1 << bit` on a byte. */
  function Mask(bit: nat): bv8
    requires bit < 8
  {
    match bit
    case 0 => 0x01
    case 1 => 0x02
    case 2 => 0x04
    case 3 => 0x08
    case 4 => 0x10
    case 5 => 0x20
    case 6 => 0x40
    case _ => 0x80
  }

  lemma MaskIsShift(bit: nat)
    requires bit < 8
    ensures Mask(bit) == 1 << bit
  {
    match bit
    case 0 =>
    case 1 =>
    case 2 =>
    case 3 =>
    case 4 =>
    case 5 =>
    case 6 =>
    case _ => assert bit == 7;
  }

  predicate Bit(b: bv8, bit: nat)
    requires bit < 8
  {
    b & Mask(bit) != 0
  }

  lemma SetBit(b: bv8, bit: nat, other: nat)
    requires bit < 8 && other < 8
    ensures Bit(b | Mask(bit), other) == (other == bit || Bit(b, other))
  {
    assert Mask(bit) & Mask(other) == if bit == other then Mask(bit) else 0;
  }

  lemma ClearBit(b: bv8, bit: nat, other: nat)
    requires bit < 8 && other < 8
    ensures Bit(b & !Mask(bit), other) == (other != bit && Bit(b, other))
  {
    assert Mask(bit) & Mask(other) == if bit == other then Mask(bit) else 0;
  }

  /** A byte is its eight bits. */
  lemma SameBits(a: bv8, b: bv8)
    requires forall k: nat :: k < 8 ==> Bit(a, k) == Bit(b, k)
    ensures a == b
  {
    assert Bit(a, 0) == Bit(b, 0) && Bit(a, 1) == Bit(b, 1) && Bit(a, 2) == Bit(b, 2) && Bit(a, 3) == Bit(b, 3);
    assert Bit(a, 4) == Bit(b, 4) && Bit(a, 5) == Bit(b, 5) && Bit(a, 6) == Bit(b, 6) && Bit(a, 7) == Bit(b, 7);
  }

  /** The number of consecutive 1 bits from bit `from` upwards, added to `from`. */
  function TrailingOnesFrom(b: bv8, from: nat): (n: nat)
    requires from <= 8
    ensures from <= n <= 8
    ensures forall k: nat :: from <= k < n ==> Bit(b, k)
    ensures n < 8 ==> !Bit(b, n)
    decreases 8 - from
  {
    if from == 8 || !Bit(b, from) then from else TrailingOnesFrom(b, from + 1)
  }

  /** Only 0xff has eight trailing ones. */
  lemma FullByte(b: bv8)
    ensures TrailingOnesFrom(b, 0) == 8 <==> b == 0xff
  {
    if b == 0xff {
      assert forall k: nat :: k < 8 ==> Bit(b, k);
    }
    if TrailingOnesFrom(b, 0) == 8 {
      assert forall k: nat :: k < 8 ==> Bit(0xff, k);
      SameBits(b, 0xff);
    }
  }

  predicate Used(bitmap: seq<bv8>, page: nat)
    requires page < 8 * |bitmap|
  {
    Bit(bitmap[page / 8], page % 8)
  }

  function MarkUsed(bitmap: seq<bv8>, page: nat): seq<bv8>
    requires page < 8 * |bitmap|
  {
    bitmap[page / 8 := bitmap[page / 8] | Mask(page % 8)]
  }

  function MarkFree(bitmap: seq<bv8>, page: nat): seq<bv8>
    requires page < 8 * |bitmap|
  {
    bitmap[page / 8 := bitmap[page / 8] & !Mask(page % 8)]
  }

  /** Marking a page used changes that page's bit and no other. */
  lemma MarkUsedAt(bitmap: seq<bv8>, page: nat, other: nat)
    requires page < 8 * |bitmap| && other < 8 * |bitmap|
    ensures Used(MarkUsed(bitmap, page), other) == (other == page || Used(bitmap, other))
  {
    if other / 8 == page / 8 {
      SetBit(bitmap[page / 8], page % 8, other % 8);
    }
  }

  /** Marking a page free changes that page's bit and no other. */
  lemma MarkFreeAt(bitmap: seq<bv8>, page: nat, other: nat)
    requires page < 8 * |bitmap| && other < 8 * |bitmap|
    ensures Used(MarkFree(bitmap, page), other) == (other != page && Used(bitmap, other))
  {
    if other / 8 == page / 8 {
      ClearBit(bitmap[page / 8], page % 8, other % 8);
    }
  }

  lemma MarkUsedAll(bitmap: seq<bv8>, page: nat)
    requires page < 8 * |bitmap|
    ensures forall q: nat :: q < 8 * |bitmap| ==> Used(MarkUsed(bitmap, page), q) == (q == page || Used(bitmap, q))
  {
    forall q: nat | q < 8 * |bitmap|
      ensures Used(MarkUsed(bitmap, page), q) == (q == page || Used(bitmap, q))
    {
      MarkUsedAt(bitmap, page, q);
    }
  }

  lemma MarkFreeAll(bitmap: seq<bv8>, page: nat)
    requires page < 8 * |bitmap|
    ensures forall q: nat :: q < 8 * |bitmap| ==> Used(MarkFree(bitmap, page), q) == (q != page && Used(bitmap, q))
  {
    forall q: nat | q < 8 * |bitmap|
      ensures Used(MarkFree(bitmap, page), q) == (q != page && Used(bitmap, q))
    {
      MarkFreeAt(bitmap, page, q);
    }
  }

  /** Two bitmaps with the same bits are the same bytes. */
  lemma SamePages(a: seq<bv8>, b: seq<bv8>)
    requires |a| == |b|
    requires forall q: nat :: q < 8 * |a| ==> Used(a, q) == Used(b, q)
    ensures a == b
  {
    forall i | 0 <= i < |a|
      ensures a[i] == b[i]
    {
      forall k: nat | k < 8
        ensures Bit(a[i], k) == Bit(b[i], k)
      {
        assert Used(a, 8 * i + k) == Used(b, 8 * i + k);
      }
      SameBits(a[i], b[i]);
    }
  }

  /** The scan step: with every page before byte `i` used, either all pages of byte `i` are used
      too, or its trailing ones locate the lowest free page. */
  lemma ScanByte(bitmap: seq<bv8>, i: nat)
    requires i < |bitmap|
    requires forall q: nat :: q < 8 * i ==> Used(bitmap, q)
    ensures bitmap[i] == 0xff <==> TrailingOnesFrom(bitmap[i], 0) == 8
    ensures forall q: nat :: q < 8 * i + TrailingOnesFrom(bitmap[i], 0) ==> Used(bitmap, q)
    ensures bitmap[i] != 0xff ==> !Used(bitmap, 8 * i + TrailingOnesFrom(bitmap[i], 0))
  {
    var bit := TrailingOnesFrom(bitmap[i], 0);
    FullByte(bitmap[i]);
    forall q: nat | q < 8 * i + bit
      ensures Used(bitmap, q)
    {
      if q >= 8 * i {
        assert q / 8 == i && Bit(bitmap[i], q - 8 * i);
      }
    }
    if bit < 8 {
      assert (8 * i + bit) / 8 == i && !Bit(bitmap[i], bit);
    }
  }

  /** Freeing a page right after taking it restores every byte of the bitmap. */
  lemma TakeThenRelease(bitmap: seq<bv8>, page: nat)
    requires page < 8 * |bitmap| && !Used(bitmap, page)
    ensures MarkFree(MarkUsed(bitmap, page), page) == bitmap
  {
    var taken := MarkUsed(bitmap, page);
    MarkUsedAll(bitmap, page);
    MarkFreeAll(taken, page);
    SamePages(MarkFree(taken, page), bitmap);
  }

  /** The pages below `total` whose bit is clear. */
  ghost function FreeSet(bitmap: seq<bv8>, total: nat): set<nat>
    requires total <= 8 * |bitmap|
  {
    set p: nat | p < total && !Used(bitmap, p)
  }
}
