/** Page-table entries as 64-bit words: the fields the processor reads (Intel SDM Vol. 3A, section 4.5)
    and the mask expressions the kernel writes (kernel/arch/x86/paging.h, kernel/arch/x86/paging.c). */
module Entry {
  import opened Bits
  import opened Division

  const PTE_P: u64 := 0x1
  const PTE_W: u64 := 0x2
  const PTE_A: u64 := 0x20
  const PTE_PS: u64 := 0x80
  const PTE_G: u64 := 0x100
  const PTE_NX: u64 := 0x8000_0000_0000_0000
  const PTE_ADDR_MASK: u64 := 0x000F_FFFF_FFFF_F000
  const PAGE_SIZE: nat := 4096
  const FRAME_SPACE: nat := 0x100_0000_0000 // frames named by the 40-bit address field

  // ----- what the processor sees -----

  predicate Present(e: u64) { e % 2 == 1 }

  predicate Writable(e: u64) { e / 2 % 2 == 1 }

  predicate PageSize(e: u64) { e / 0x80 % 2 == 1 }

  predicate ExecuteDisabled(e: u64) { e / 0x8000_0000_0000_0000 == 1 }

  /** Bits 51..12. */
  function FrameOf(e: u64): (f: nat)
    ensures f < FRAME_SPACE
  {
    e / PAGE_SIZE % FRAME_SPACE
  }

  /** Everything but bits 51..12. */
  function Attributes(e: u64): (a: u64) {
    e - FrameOf(e) * PAGE_SIZE
  }

  // ----- what the kernel computes -----

  /** `pte_from_pa`. */
  function PteFromPa(pa: u64): u64 { And(pa, PTE_ADDR_MASK) }

  lemma OrOfWords(x: u64, y: u64)
    ensures Or(x, y) < TWO_64
  {
    Pow2Of64();
    OrIsWord(x, y, 64);
  }

  /** `pte_from_pa(pa) | flags`. */
  function MakePte(pa: u64, flags: u64): u64 {
    OrOfWords(PteFromPa(pa), flags);
    Or(PteFromPa(pa), flags)
  }

  /** `pte_from_pa(pa) | (pte & ~PTE_ADDR_MASK)`. */
  function Redirect(pte: u64, pa: u64): u64 {
    MakePte(pa, And(pte, Not(PTE_ADDR_MASK)))
  }

  // ----- the masks select the fields -----

  lemma AndDoubled(x: nat, y: nat)
    ensures And(x, 2 * y) == 2 * And(x / 2, y)
  {
    Halve(y, 0);
    AndStep(x, 2 * y);
  }

  lemma DoubledPart(q: nat, p: nat, r: nat)
    ensures q * (2 * p) == 2 * (q * p)
    ensures (q * (2 * p) + r) / 2 == q * p + r / 2 && (q * (2 * p) + r) % 2 == r % 2
  {
    DivMod(r, 2);
    Halve(q * p + r / 2, r % 2);
  }

  lemma ShiftedOnce(x: nat, h: nat, z: nat, a: nat)
    requires x / 2 == h && And(h, z) == a
    ensures And(x, 2 * z) == 2 * a
  {
    AndDoubled(x, z);
  }

  lemma SameFactor(a: nat, b: nat, c: nat)
    requires b == c
    ensures a * b == a * c
  {
  }

  /** A mask shifted left selects from the word shifted right. */
  lemma {:induction false} AndShifted(q: nat, r: nat, y: nat, n: nat)
    requires r < Pow2(n)
    ensures And(q * Pow2(n) + r, Pow2(n) * y) == Pow2(n) * And(q, y)
    decreases n
  {
    if n > 0 {
      var p := Pow2(n - 1);
      DoubledPart(q, p, r);
      AndShifted(q, r / 2, y, n - 1);
      ShiftedOnce(q * (2 * p) + r, q * p + r / 2, p * y, p * And(q, y));
      MulAssociates(2, p, y);
      MulAssociates(2, p, And(q, y));
      SameFactor(q, Pow2(n), 2 * p);
    }
  }

  /** A mask of `n` ones keeps the low part. */
  lemma {:induction false} AndOnes(x: nat, h: nat, l: nat, n: nat)
    requires l < Pow2(n) && x == h * Pow2(n) + l
    ensures And(x, Pow2(n) - 1) == l
  {
    if n > 0 {
      HalfShifted(h, Pow2(n - 1), l);
      AndOnes(x / 2, h, l / 2, n - 1);
      Halve(Pow2(n - 1) - 1, 1);
      AndStep(x, Pow2(n) - 1);
    }
  }

  lemma HalfOfComplement(p: nat, m: nat)
    requires m < 2 * p
    ensures (2 * p - 1 - m) / 2 == p - 1 - m / 2 && (2 * p - 1 - m) % 2 == 1 - m % 2
  {
    Halve(p - 1 - m / 2, 1 - m % 2);
  }

  lemma OddComplement(x: nat, m: nat, c: nat)
    requires c % 2 == 1 - m % 2
    ensures BothOdd(x, c) == x % 2 - BothOdd(x, m)
  {
  }

  lemma {:induction false} AndComplement(x: nat, m: nat, n: nat)
    requires x < Pow2(n) && m < Pow2(n)
    ensures And(x, Pow2(n) - 1 - m) == x - And(x, m)
  {
    if n > 0 {
      var c := Pow2(n) - 1 - m;
      HalfOfComplement(Pow2(n - 1), m);
      OddComplement(x, m, c);
      AndComplement(x / 2, m / 2, n - 1);
      AndStep(x, c);
      AndStep(x, m);
    }
  }

  lemma {:induction false} AndSelf(x: nat)
    ensures And(x, x) == x
  {
    if x > 0 {
      AndSelf(x / 2);
    }
  }

  /** A mask and its complement have no common bit. */
  lemma AndNot(m: u64)
    ensures And(m, Not(m)) == 0
  {
    Pow2Of64();
    AndComplement(m, m, 64);
    AndSelf(m);
  }

  lemma {:induction false} OrDisjoint(x: nat, y: nat)
    requires And(x, y) == 0
    ensures Or(x, y) == x + y
  {
    if x > 0 && y > 0 {
      OrDisjoint(x / 2, y / 2);
    }
  }

  /** What two masks without a common bit select has no common bit. */
  lemma {:induction false} AndOfApart(a: nat, b: nat, m: nat, c: nat)
    requires And(m, c) == 0
    ensures And(And(a, m), And(b, c)) == 0
  {
    if m > 0 && c > 0 {
      AndStep(m, c);
      AndOfApart(a / 2, b / 2, m / 2, c / 2);
      AndStep(a, m);
      AndStep(b, c);
      AndStep(And(a, m), And(b, c));
    }
  }

  lemma Pow2Of63()
    ensures Pow2(63) == 0x8000_0000_0000_0000 && Pow2(12) == PAGE_SIZE
  {
    Pow2Of64();
    assert Pow2(4) == 16;
    Pow2Adds(4, 4);
    Pow2Adds(4, 8);
  }

  /** A word by its top bit. */
  lemma TopBitSplit(x: nat, top: nat, k: nat)
    requires x < 0x8000_0000_0000_0000 && top <= 1 && k < 64
    ensures Bit(x + top * 0x8000_0000_0000_0000, k) == if k == 63 then top == 1 else Bit(x, k)
  {
    Pow2Of63();
    BitSplit(top, x, 63, k);
  }

  lemma {:induction false} BitIsQuotient(x: nat, k: nat)
    ensures Bit(x, k) <==> x / Pow2(k) % 2 == 1
  {
    if k > 0 {
      BitIsQuotient(x / 2, k - 1);
      DivideTwice(x, 2, Pow2(k - 1));
    }
  }

  /** A bit put above or below bit `n`. */
  lemma {:induction false} PutBitHigh(q: nat, r: nat, n: nat, j: nat, b: bool)
    requires r < Pow2(n)
    ensures PutBit(q * Pow2(n) + r, n + j, b) == PutBit(q, j, b) * Pow2(n) + r
    decreases n
  {
    if n > 0 {
      DoubledPart(q, Pow2(n - 1), r);
      PutBitHigh(q, r / 2, n - 1, j, b);
      DoubledPart(PutBit(q, j, b), Pow2(n - 1), r);
    }
  }

  lemma {:induction false} PutBitLow(q: nat, r: nat, n: nat, j: nat, b: bool)
    requires r < Pow2(n) && j < n
    ensures PutBit(q * Pow2(n) + r, j, b) == q * Pow2(n) + PutBit(r, j, b)
    decreases n
  {
    DoubledPart(q, Pow2(n - 1), r);
    if j > 0 {
      PutBitLow(q, r / 2, n - 1, j - 1, b);
    }
  }

  lemma Pow2Of40()
    ensures Pow2(40) == FRAME_SPACE
  {
    assert Pow2(5) == 32;
    Pow2Adds(5, 5);
    Pow2Adds(10, 10);
    Pow2Adds(20, 20);
  }

  lemma PutBelowPage(x: nat, j: nat, b: bool)
    requires j < 12
    ensures PutBit(x, j, b) / PAGE_SIZE == x / PAGE_SIZE
  {
    Pow2Of63();
    DivMod(x, PAGE_SIZE);
    PutBitLow(x / PAGE_SIZE, x % PAGE_SIZE, 12, j, b);
    PutBitBound(x % PAGE_SIZE, j, b, 12);
    QuotientUnique(PutBit(x, j, b), PAGE_SIZE, x / PAGE_SIZE, PutBit(x % PAGE_SIZE, j, b));
  }

  lemma PutAbovePage(x: nat, j: nat, b: bool)
    requires j >= 12
    ensures PutBit(x, j, b) / PAGE_SIZE == PutBit(x / PAGE_SIZE, j - 12, b)
  {
    Pow2Of63();
    DivMod(x, PAGE_SIZE);
    PutBitHigh(x / PAGE_SIZE, x % PAGE_SIZE, 12, j - 12, b);
    QuotientUnique(PutBit(x, j, b), PAGE_SIZE, PutBit(x / PAGE_SIZE, j - 12, b), x % PAGE_SIZE);
  }

  lemma PutAboveAddress(q: nat, j: nat, b: bool)
    requires j >= 40
    ensures PutBit(q, j, b) % FRAME_SPACE == q % FRAME_SPACE
  {
    Pow2Of40();
    DivMod(q, FRAME_SPACE);
    PutBitHigh(q / FRAME_SPACE, q % FRAME_SPACE, 40, j - 40, b);
    QuotientUnique(PutBit(q, j, b), FRAME_SPACE, PutBit(q / FRAME_SPACE, j - 40, b), q % FRAME_SPACE);
  }

  /** A bit outside the address field does not touch the address. */
  lemma PutBitKeepsFrame(x: nat, j: nat, b: bool)
    requires j < 12 || j >= 52
    ensures PutBit(x, j, b) / PAGE_SIZE % FRAME_SPACE == x / PAGE_SIZE % FRAME_SPACE
  {
    if j < 12 {
      PutBelowPage(x, j, b);
    } else {
      PutAbovePage(x, j, b);
      PutAboveAddress(x / PAGE_SIZE, j - 12, b);
    }
  }

  lemma AddressMask(e: u64)
    ensures And(e, PTE_ADDR_MASK) == FrameOf(e) * PAGE_SIZE
  {
    Pow2Of63();
    DivMod(e, PAGE_SIZE);
    AndShifted(e / PAGE_SIZE, e % PAGE_SIZE, FRAME_SPACE - 1, 12);
    Pow2Of40();
    DivMod(e / PAGE_SIZE, FRAME_SPACE);
    AndOnes(e / PAGE_SIZE, e / PAGE_SIZE / FRAME_SPACE, FrameOf(e), 40);
  }

  lemma AttributeMask(e: u64)
    ensures And(e, Not(PTE_ADDR_MASK)) == Attributes(e)
  {
    AddressMask(e);
    Pow2Of64();
    AndComplement(e, PTE_ADDR_MASK, 64);
  }

  /** The kernel's flag tests are the processor's. */
  lemma FlagMasks(e: u64)
    ensures (And(e, PTE_P) != 0) == Present(e)
    ensures (And(e, PTE_PS) != 0) == PageSize(e)
  {
    AndStep(e, 1);
    assert Pow2(7) == 0x80 by {
      assert Pow2(4) == 16;
    }
    DivMod(e, 0x80);
    AndShifted(e / 0x80, e % 0x80, 1, 7);
    AndStep(e / 0x80, 1);
  }

  lemma AddressApartFromFlags(pa: u64, flags: u64)
    requires FrameOf(flags) == 0
    ensures And(PteFromPa(pa), flags) == 0
  {
    AttributeMask(flags);
    AndNot(PTE_ADDR_MASK);
    AndOfApart(pa, flags, PTE_ADDR_MASK, Not(PTE_ADDR_MASK));
  }

  lemma FlagBits(m: nat, l: nat)
    requires l < PAGE_SIZE
    ensures var x := m * PAGE_SIZE + l;
            x % 2 == l % 2 && x / 2 % 2 == l / 2 % 2 && x / 0x80 % 2 == l / 0x80 % 2
  {
    var x := m * PAGE_SIZE + l;
    QuotientUnique(x, 2, m * 2048 + l / 2, l % 2);
    QuotientUnique(m * 2048 + l / 2, 2, m * 1024 + l / 2 / 2, l / 2 % 2);
    QuotientUnique(x, 0x80, m * 32 + l / 0x80, l % 0x80);
    QuotientUnique(m * 32 + l / 0x80, 2, m * 16 + l / 0x80 / 2, l / 0x80 % 2);
  }

  /** A word by its fields: above the address, the address, below the address. */
  lemma WordParts(h: nat, f: nat, l: nat)
    requires f < FRAME_SPACE && l < PAGE_SIZE
    ensures var x := (h * FRAME_SPACE + f) * PAGE_SIZE + l;
            && x / PAGE_SIZE == h * FRAME_SPACE + f && x / PAGE_SIZE % FRAME_SPACE == f && x % PAGE_SIZE == l
            && x % 2 == l % 2 && x / 2 % 2 == l / 2 % 2 && x / 0x80 % 2 == l / 0x80 % 2
  {
    var m := h * FRAME_SPACE + f;
    var x := m * PAGE_SIZE + l;
    QuotientUnique(x, PAGE_SIZE, m, l);
    QuotientUnique(m, FRAME_SPACE, h, f);
    FlagBits(m, l);
  }

  /** Adding an address to flags outside the address field. */
  lemma FrameOfSum(flags: u64, f: nat)
    requires FrameOf(flags) == 0 && f < FRAME_SPACE && flags + f * PAGE_SIZE < TWO_64
    ensures FrameOf(flags + f * PAGE_SIZE) == f
  {
    DivMod(flags, PAGE_SIZE);
    DivMod(flags / PAGE_SIZE, FRAME_SPACE);
    WordParts(flags / PAGE_SIZE / FRAME_SPACE, f, flags % PAGE_SIZE);
  }

  /** An entry built from an address and flags outside the address field has exactly those. */
  lemma MakePteFields(pa: u64, flags: u64)
    requires FrameOf(flags) == 0
    ensures MakePte(pa, flags) == FrameOf(pa) * PAGE_SIZE + flags
    ensures FrameOf(MakePte(pa, flags)) == FrameOf(pa)
    ensures Attributes(MakePte(pa, flags)) == flags
  {
    AddressMask(pa);
    AddressApartFromFlags(pa, flags);
    OrDisjoint(PteFromPa(pa), flags);
    FrameOfSum(flags, FrameOf(pa));
  }

  lemma FrameOfAddress(f: nat)
    requires f < FRAME_SPACE
    ensures f * PAGE_SIZE < TWO_64 && FrameOf(f * PAGE_SIZE) == f && f * PAGE_SIZE / PAGE_SIZE == f &&
            f * PAGE_SIZE % PAGE_SIZE == 0
  {
    WordParts(0, f, 0);
  }

  lemma LowBits(e: u64)
    ensures Present(e) == Present(Attributes(e))
    ensures PageSize(e) == PageSize(Attributes(e))
    ensures FrameOf(Attributes(e)) == 0
  {
    var h, l := e / PAGE_SIZE / FRAME_SPACE, e % PAGE_SIZE;
    DivMod(e, PAGE_SIZE);
    DivMod(e / PAGE_SIZE, FRAME_SPACE);
    WordParts(h, FrameOf(e), l);
    WordParts(h, 0, l);
    assert Attributes(e) == h * FRAME_SPACE * PAGE_SIZE + l;
  }

  /** Redirecting an entry replaces its address and keeps every other bit. */
  lemma RedirectFields(pte: u64, pa: u64)
    ensures FrameOf(Redirect(pte, pa)) == FrameOf(pa)
    ensures Attributes(Redirect(pte, pa)) == Attributes(pte)
    ensures Present(Redirect(pte, pa)) == Present(pte)
    ensures PageSize(Redirect(pte, pa)) == PageSize(pte)
  {
    AttributeMask(pte);
    LowBits(pte);
    MakePteFields(pa, Attributes(pte));
    LowBits(Redirect(pte, pa));
  }
}
