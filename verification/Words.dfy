/** Bitwise operations on machine words kept as natural numbers, and the page-table masks. */
module Words {

  const PTE_PRESENT: nat := 0x1
  const PTE_WRITABLE: nat := 0x2
  const PTE_LARGE: nat := 0x80
  const PTE_NO_EXEC: nat := 0x8000_0000_0000_0000
  const ADDR_MASK: nat := 0x000f_ffff_ffff_f000
  const ADDR_LIMIT: nat := 0x10_0000_0000_0000

  function And(a: nat, b: nat): nat {
    if a == 0 || b == 0 then 0
    else (if a % 2 == 1 && b % 2 == 1 then 1 else 0) + 2 * And(a / 2, b / 2)
  }

  function Or(a: nat, b: nat): nat {
    if a == 0 then b
    else if b == 0 then a
    else (if a % 2 == 1 || b % 2 == 1 then 1 else 0) + 2 * Or(a / 2, b / 2)
  }

  function Shr(a: nat, n: nat): nat
    decreases n
  {
    if n == 0 then a else Shr(a / 2, n - 1)
  }

  function Shl(a: nat, n: nat): nat
    decreases n
  {
    if n == 0 then a else 2 * Shl(a, n - 1)
  }

  /** The low `n` bits of `a`. */
  function Low(a: nat, n: nat): nat
    decreases n
  {
    if n == 0 then 0 else a % 2 + 2 * Low(a / 2, n - 1)
  }

  /** `n` set bits. */
  function Ones(n: nat): nat {
    if n == 0 then 0 else 2 * Ones(n - 1) + 1
  }

  lemma AndHalves(a: nat, b: nat)
    ensures And(a, b) / 2 == And(a / 2, b / 2)
    ensures And(a, b) % 2 == if a % 2 == 1 && b % 2 == 1 then 1 else 0
  {
  }

  lemma OrHalves(a: nat, b: nat)
    ensures Or(a, b) / 2 == Or(a / 2, b / 2)
    ensures Or(a, b) % 2 == if a % 2 == 1 || b % 2 == 1 then 1 else 0
  {
  }

  /** `&` distributes over `|`. */
  lemma {:induction false} AndOr(a: nat, b: nat, mask: nat)
    ensures And(Or(a, b), mask) == Or(And(a, mask), And(b, mask))
    decreases mask
  {
    if mask != 0 {
      AndOr(a / 2, b / 2, mask / 2);
      OrHalves(a, b);
      AndHalves(Or(a, b), mask);
      AndHalves(a, mask);
      AndHalves(b, mask);
      OrHalves(And(a, mask), And(b, mask));
    }
  }

  lemma {:induction false} AndShl(a: nat, m: nat, n: nat)
    ensures And(a, Shl(m, n)) == Shl(And(Shr(a, n), m), n)
    decreases n
  {
    if n != 0 {
      AndShl(a / 2, m, n - 1);
      AndHalves(a, Shl(m, n));
    }
  }

  lemma {:induction false} AndOnes(a: nat, n: nat)
    ensures And(a, Ones(n)) == Low(a, n)
    decreases n
  {
    if n != 0 {
      AndOnes(a / 2, n - 1);
      AndHalves(a, Ones(n));
    }
  }

  /** A number is its high part and its low bits. */
  lemma {:induction false} Split(a: nat, n: nat)
    ensures a == Shl(Shr(a, n), n) + Low(a, n)
    ensures Low(a, n) <= Ones(n)
    decreases n
  {
    if n != 0 {
      Split(a / 2, n - 1);
    }
  }

  lemma {:induction false} LowKeeps(a: nat, n: nat)
    ensures Low(a, n) <= a
    ensures Low(a, n) == a <==> a <= Ones(n)
    decreases n
  {
    if n != 0 {
      LowKeeps(a / 2, n - 1);
    }
  }

  lemma {:induction false} ShlIsMul(a: nat, n: nat)
    ensures Shl(a, n) == a * Shl(1, n)
    decreases n
  {
    if n != 0 {
      ShlIsMul(a, n - 1);
    }
  }

  lemma MaskShape(low: nat, wide: nat)
    requires low == 12 && wide == 40
    ensures Shl(1, low) == 4096
    ensures Ones(low) == 4095 && Ones(wide) == 0xff_ffff_ffff
    ensures Shl(1, wide) == 0x100_0000_0000
  {
    assert Shl(1, 10) == 0x400;
    assert Shl(1, 20) == 0x10_0000;
    assert Shl(1, 30) == 0x4000_0000;
    assert Shl(1, 40) == 0x100_0000_0000;
    assert Ones(10) == 0x3ff && Ones(12) == 0xfff;
    assert Ones(20) == 0xf_ffff;
    assert Ones(30) == 0x3fff_ffff;
    assert Ones(40) == 0xff_ffff_ffff;
    assert Shl(1, 12) == 4096;
  }

  predicate Present(word: nat) { And(word, PTE_PRESENT) != 0 }

  function Address(word: nat): nat { And(word, ADDR_MASK) }

  /** Bit 7: the entry of a level 2 or 3 table maps a large page itself. */
  predicate Large(word: nat) { And(word, PTE_LARGE) != 0 }

  lemma AddressShape(word: nat, low: nat, wide: nat)
    requires low == 12 && wide == 40
    ensures Address(word) == 4096 * Low(Shr(word, low), wide)
    ensures word == 4096 * Shr(word, low) + Low(word, low)
    ensures Low(word, low) < 4096
    ensures Low(Shr(word, low), wide) <= Shr(word, low)
    ensures Low(Shr(word, low), wide) == Shr(word, low) <==> Shr(word, low) < 0x100_0000_0000
  {
    var high := Shr(word, low);
    MaskShape(low, wide);
    ShlIsMul(Ones(wide), low);
    AndShl(word, Ones(wide), low);
    AndOnes(high, wide);
    ShlIsMul(Low(high, wide), low);
    Split(word, low);
    ShlIsMul(high, low);
    LowKeeps(high, wide);
  }

  /** `w & ADDR_MASK` keeps bits 12 to 51: it is page aligned, and it is `w` itself exactly
      for page aligned words below 2^52. */
  lemma AddressIsMiddleBits(word: nat)
    ensures Address(word) % 4096 == 0
    ensures Address(word) <= word
    ensures Address(word) == word <==> word % 4096 == 0 && word < ADDR_LIMIT
  {
    MiddleBits(word, 12, 40);
  }

  lemma WideRemainder(a: nat, high: nat, rest: nat)
    requires a == high * 0x100_0000_0000 + rest && rest < 0x100_0000_0000
    ensures a % 0x100_0000_0000 == rest
  {
  }

  lemma LowIsWideRemainder(a: nat, low: nat, wide: nat)
    requires low == 12 && wide == 40
    ensures Low(a, wide) == a % 0x100_0000_0000
  {
    MaskShape(low, wide);
    Split(a, wide);
    ShlIsMul(Shr(a, wide), wide);
    WideRemainder(a, Shr(a, wide), Low(a, wide));
  }

  lemma FrameNumber(word: nat, low: nat, wide: nat)
    requires low == 12 && wide == 40
    ensures Address(word) == word / 4096 % 0x100_0000_0000 * 4096
  {
    AddressShape(word, low, wide);
    LowIsWideRemainder(Shr(word, low), low, wide);
    assert Shr(word, low) == word / 4096;
  }

  lemma MiddleBits(word: nat, low: nat, wide: nat)
    requires low == 12 && wide == 40
    ensures Address(word) % 4096 == 0
    ensures Address(word) <= word
    ensures Address(word) == word <==> word % 4096 == 0 && word < ADDR_LIMIT
  {
    AddressShape(word, low, wide);
    FromParts(word, Address(word), Shr(word, low), Low(word, low), Low(Shr(word, low), wide));
  }

  lemma FromParts(word: nat, address: nat, high: nat, rest: nat, kept: nat)
    requires word == 4096 * high + rest && rest < 4096 && address == 4096 * kept && kept <= high
    requires kept == high <==> high < 0x100_0000_0000
    ensures address % 4096 == 0 && address <= word
    ensures address == word <==> word % 4096 == 0 && word < ADDR_LIMIT
  {
  }

  lemma ZeroIsAbsent()
    ensures !Present(0)
  {
  }

  /** Present, writable and no-execute together touch no address bit. */
  lemma HeapFlagsAreNoAddress(flags: nat)
    requires flags == PTE_NO_EXEC + PTE_WRITABLE + PTE_PRESENT
    ensures And(flags, ADDR_MASK) == 0
  {
    FrameNumber(flags, 12, 40);
    assert Address(flags) == And(flags, ADDR_MASK);
  }

  lemma WritableIsNoAddress()
    ensures And(PTE_WRITABLE, ADDR_MASK) == 0
  {
  }

  /** The word `map_page` and `next_table_or_create` store. */
  function Entry(phys: nat, flags: nat): nat { Or(Or(phys, flags), PTE_PRESENT) }

  /** Every stored entry is present; with flags clear of the address bits, it reads back its
      frame exactly when the frame address is page aligned and below 2^52. */
  lemma EntryReadsBack(phys: nat, flags: nat)
    ensures Present(Entry(phys, flags))
    ensures And(flags, ADDR_MASK) == 0 ==> Address(Entry(phys, flags)) == Address(phys)
    ensures And(flags, ADDR_MASK) == 0 ==>
      (Address(Entry(phys, flags)) == phys <==> phys % 4096 == 0 && phys < ADDR_LIMIT)
  {
    AndOr(Or(phys, flags), PTE_PRESENT, PTE_PRESENT);
    assert And(PTE_PRESENT, PTE_PRESENT) == 1;
    OrHalves(And(Or(phys, flags), PTE_PRESENT), 1);
    AndOr(Or(phys, flags), PTE_PRESENT, ADDR_MASK);
    AndOr(phys, flags, ADDR_MASK);
    assert And(PTE_PRESENT, ADDR_MASK) == 0;
    AddressIsMiddleBits(phys);
  }

  lemma {:induction false} AndItself(a: nat)
    ensures And(a, a) == a
  {
    if a != 0 {
      AndItself(a / 2);
    }
  }

  /** `|` with bits already there changes nothing. */
  lemma {:induction false} OrAbsorbs(a: nat, b: nat)
    ensures Or(And(a, b), b) == b && Or(b, And(a, b)) == b
    decreases b
  {
    if b != 0 && a != 0 {
      OrAbsorbs(a / 2, b / 2);
      AndHalves(a, b);
      OrHalves(And(a, b), b);
      OrHalves(b, And(a, b));
    }
  }

  lemma {:induction false} OrAssociates(a: nat, b: nat, c: nat)
    ensures Or(Or(a, b), c) == Or(a, Or(b, c))
    decreases a
  {
    if a != 0 && b != 0 && c != 0 {
      OrAssociates(a / 2, b / 2, c / 2);
      OrHalves(a, b);
      OrHalves(b, c);
      OrHalves(Or(a, b), c);
      OrHalves(a, Or(b, c));
    }
  }

  /** `|` of two numbers without a common bit is their sum. */
  lemma {:induction false} OrOfDisjoint(a: nat, b: nat)
    requires And(a, b) == 0
    ensures Or(a, b) == a + b
    decreases a
  {
    if a != 0 && b != 0 {
      AndHalves(a, b);
      OrOfDisjoint(a / 2, b / 2);
      OrHalves(a, b);
    }
  }

  /** Bits inside a mask and bits outside it have none in common. */
  lemma {:induction false} InsideAndOutside(a: nat, b: nat, mask: nat)
    requires And(a, mask) == a && And(b, mask) == 0
    ensures And(a, b) == 0
    decreases a
  {
    if a != 0 && b != 0 {
      AndHalves(a, mask);
      AndHalves(b, mask);
      InsideAndOutside(a / 2, b / 2, mask / 2);
      AndHalves(a, b);
    }
  }

  /** A word with all bits of `flags` has all bits that `flags` has. */
  lemma {:induction false} FewerFlags(word: nat, flags: nat, bits: nat)
    requires And(word, flags) == flags && And(flags, bits) == bits
    ensures And(word, bits) == bits
    decreases bits
  {
    if bits != 0 {
      AndHalves(word, flags);
      AndHalves(flags, bits);
      FewerFlags(word / 2, flags / 2, bits / 2);
      AndHalves(word, bits);
    }
  }

  /** Every stored entry has all its flags. For an aligned frame below 2^52 and flags clear of the
      address bits, it is the frame, the flags and bit 0, and has no other bit. */
  lemma EntryHasFlags(phys: nat, flags: nat)
    ensures And(Entry(phys, flags), flags) == flags
    ensures phys % 4096 == 0 && phys < ADDR_LIMIT && And(flags, ADDR_MASK) == 0 ==>
      Entry(phys, flags) == phys + Or(flags, 1)
  {
    hide And, Or;
    AndOr(Or(phys, flags), PTE_PRESENT, flags);
    AndOr(phys, flags, flags);
    AndItself(flags);
    OrAbsorbs(phys, flags);
    OrAbsorbs(PTE_PRESENT, flags);
    if phys % 4096 == 0 && phys < ADDR_LIMIT && And(flags, ADDR_MASK) == 0 {
      FrameAndFlags(phys, flags);
    }
  }

  lemma FrameAndFlags(phys: nat, flags: nat)
    requires phys % 4096 == 0 && phys < ADDR_LIMIT && And(flags, ADDR_MASK) == 0
    ensures Or(Or(phys, flags), 1) == phys + Or(flags, 1)
  {
    OrAssociates(phys, flags, 1);
    AddressIsMiddleBits(phys);
    AndOr(flags, 1, ADDR_MASK);
    assert And(1, ADDR_MASK) == 0;
    InsideAndOutside(phys, Or(flags, 1), ADDR_MASK);
    OrOfDisjoint(phys, Or(flags, 1));
  }

  /** The word stored for a new table: its frame, present and writable. */
  lemma TableEntryWord(phys: nat)
    requires phys % 4096 == 0 && phys < ADDR_LIMIT
    ensures Entry(phys, PTE_WRITABLE) == phys + 3
  {
    WritableIsNoAddress();
    EntryHasFlags(phys, PTE_WRITABLE);
    assert Or(PTE_WRITABLE, 1) == 3;
  }

  /** An entry made for a new table is not one for a large page. */
  lemma TableEntryIsSmall(phys: nat)
    requires phys % 4096 == 0
    ensures !Large(Entry(phys, PTE_WRITABLE))
  {
    AndOr(Or(phys, PTE_WRITABLE), PTE_PRESENT, PTE_LARGE);
    AndOr(phys, PTE_WRITABLE, PTE_LARGE);
    assert And(PTE_PRESENT, PTE_LARGE) == 0 && And(PTE_WRITABLE, PTE_LARGE) == 0;
    AlignedHasNoLowBits(phys, 12, 7);
  }

  lemma AlignedHasNoLowBits(phys: nat, low: nat, bit: nat)
    requires phys % 4096 == 0 && low == 12 && bit == 7
    ensures And(phys, PTE_LARGE) == 0
  {
    AndShl(phys, 1, bit);
    ShlIsMul(1, bit);
    assert Shr(phys, 7) == phys / 128;
    AndHalves(Shr(phys, bit), 1);
  }

  /** `|` of a number with clear low bits and a number made of low bits is their sum. */
  lemma {:induction false} OrIsSum(a: nat, b: nat, n: nat)
    requires Low(a, n) == 0 && b <= Ones(n)
    ensures Or(a, b) == a + b
    decreases n
  {
    if n != 0 && a != 0 && b != 0 {
      OrIsSum(a / 2, b / 2, n - 1);
      OrHalves(a, b);
    }
  }

  /** `(w & ADDR_MASK) | (v & 0xfff)` puts the page offset of `v` under the frame of `w`. */
  lemma FrameAndOffset(word: nat, virt: nat)
    ensures Or(Address(word), And(virt, 0xfff)) == Address(word) + virt % 4096
  {
    AddressIsMiddleBits(word);
    OffsetBits(Address(word), virt, 0xfff, 12, 40);
  }

  /** The offset of an address within its page. */
  lemma OffsetIsLow(virt: nat, mask: nat, low: nat, wide: nat)
    requires mask == 0xfff && low == 12 && wide == 40
    ensures And(virt, mask) == Low(virt, low) == virt % 4096
  {
    LowIsRemainder(virt, low, wide);
    MaskShape(low, wide);
    AndOnes(virt, low);
  }

  lemma Remainder(a: nat, high: nat, rest: nat)
    requires a == 4096 * high + rest && rest < 4096
    ensures a % 4096 == rest
  {
  }

  lemma LowIsRemainder(a: nat, low: nat, wide: nat)
    requires low == 12 && wide == 40
    ensures Low(a, low) == a % 4096
  {
    AddressShape(a, low, wide);
    Remainder(a, Shr(a, low), Low(a, low));
  }

  lemma OffsetBits(frame: nat, virt: nat, mask: nat, low: nat, wide: nat)
    requires mask == 0xfff && low == 12 && wide == 40 && frame % 4096 == 0
    ensures Or(frame, And(virt, mask)) == frame + virt % 4096
  {
    LowIsRemainder(frame, low, wide);
    OffsetIsLow(virt, mask, low, wide);
    MaskShape(low, wide);
    OrIsSum(frame, Low(virt, low), low);
  }
}
