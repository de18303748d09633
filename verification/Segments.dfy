/** The loadable segments of the kernel image (bootloader/kernel_loader.c), and what it means that they
    are mapped, filled and protected. */
module Segments {
  import opened Bits
  import opened Division
  import opened Entry
  import opened BootTree
  import opened Mapper
  import opened Bytes

  const PT_LOAD: nat := 1
  const PAGE_SPACE: nat := 0x10_0000_0000 // page numbers that a 4-level walk tells apart

  datatype Phdr = Phdr(kind: nat, flags: nat, offset: nat, vaddr: u64, paddr: u64, filesz: nat, memsz: u64)
  {
    predicate IsLoad() { kind == PT_LOAD }

    /** Entries with `p_memsz == 0` are skipped when mapping and loading. */
    predicate Loadable() { IsLoad() && memsz > 0 }

    predicate Executable() { flags % 2 == 1 }

    predicate WritableSegment() { flags / 2 % 2 == 1 }

    /** `attr_from_phdr`. */
    function Attr(): PageAttr {
      if Executable() && WritableSegment() then RWX
      else if Executable() then RX
      else if WritableSegment() then RW
      else RO
    }

    /** `temp_attr_for_load`. */
    function TempAttr(): PageAttr { if Executable() then RWX else RW }

    /** What the loader takes for granted about an entry it uses: nothing wraps, addresses fit the
        processor, and the file part is no larger than the memory part. */
    predicate Fits() {
      && vaddr + memsz + 0x2000 < TWO_64
      && (Loadable() ==>
            paddr + memsz + 0x2000 < PHYS_LIMIT && filesz <= memsz && vaddr % PAGE_SIZE == paddr % PAGE_SIZE)
    }

    /** The rounded size: whole pages from the page of `vaddr`. */
    function RoundedSize(): (size: u64)
      requires Fits()
      ensures size % PAGE_SIZE == 0
    {
      PageDown(memsz + vaddr % PAGE_SIZE + 0xFFF)
    }

    function Pages(): nat
      requires Fits()
    {
      RoundedSize() / PAGE_SIZE
    }

    /** `va` is on a page that mapping or protecting the segment works on. */
    ghost predicate Touches(va: u64)
      requires Fits()
    {
      IsLoad() && InRun(PageDown(vaddr), Pages(), va)
    }
  }

  /** An empty entry touches no page if its address is page-aligned, and one page otherwise. */
  lemma EmptySegment(p: Phdr, va: u64)
    requires p.Fits() && p.IsLoad() && p.memsz == 0
    ensures p.Touches(va) <==> p.vaddr % PAGE_SIZE != 0 && PageNo(va) == PageNo(p.vaddr)
  {
    var lo := PageDown(p.vaddr);
    if p.vaddr % PAGE_SIZE == 0 {
      assert p.Pages() == 0;
    } else {
      assert p.Pages() == 1;
      assert PageAt(lo, 0) == lo;
      SamePageDown(p.vaddr);
    }
  }

  /** Every byte of a segment is on a page the segment touches, the `j`-th with `j` its page distance. */
  lemma ByteTouched(p: Phdr, va: u64) returns (j: nat)
    requires p.Fits() && p.Loadable() && p.vaddr <= va < p.vaddr + p.memsz
    ensures j < p.Pages() && PageAt(PageDown(p.vaddr), j) == PageDown(va) && p.Touches(va)
  {
    PageDownSteps(p.vaddr, va);
    j := (PageDown(va) - PageDown(p.vaddr)) / PAGE_SIZE;
    SamePageDown(va);
    assert PageAt(PageDown(p.vaddr), j) == PageDown(va);
  }

  /** A segment touches exactly the pages its bytes are on. */
  lemma TouchesBytes(p: Phdr, va: u64)
    requires p.Fits() && p.kind == 1 && p.memsz > 0
    ensures p.Touches(va) <==> exists x: u64 :: p.vaddr <= x < p.vaddr + p.memsz && PageNo(x) == PageNo(va)
  {
    assert p.Pages() == PagesOver(p.vaddr, p.memsz);
    RunOfBytes(p.vaddr, p.memsz, va);
  }

  /** Which page of a run from `lo` the page of `va` is, if it is in the run. */
  function PageIndex(lo: u64, va: u64): (j: nat)
    ensures j < PAGE_SPACE
  {
    (PageNo(va) + PAGE_SPACE - PageNo(lo)) % PAGE_SPACE
  }

  /** The index of the page at distance `j`, up to the wrap of page numbers. */
  lemma IndexOfPage(lo: u64, j: nat, va: u64)
    requires lo % PAGE_SIZE == 0 && PageAt(lo, j) < TWO_64 && PageNo(PageAt(lo, j)) == PageNo(va)
    ensures PageIndex(lo, va) <= j && (j < PAGE_SPACE ==> PageIndex(lo, va) == j)
  {
    var q := lo / PAGE_SIZE;
    var u, a, v, r := q / PAGE_SPACE, q % PAGE_SPACE, j / PAGE_SPACE, j % PAGE_SPACE;
    PageNoOf(q, 0);
    PageNoOf(q + j, 0);
    assert PageAt(lo, j) == (q + j) * PAGE_SIZE;
    var c := if a + r < PAGE_SPACE then 0 else 1;
    QuotientUnique(q + j, PAGE_SPACE, u + v + c, a + r - c * PAGE_SPACE);
    QuotientUnique(PageNo(va) + PAGE_SPACE - a, PAGE_SPACE, 1 - c, r);
  }

  lemma PageNoBound(va: u64)
    ensures PageNo(va) < PAGE_SPACE
  {
  }

  /** The page with a given index. */
  lemma PageOfIndex(lo: u64, va: u64)
    requires lo % PAGE_SIZE == 0 && PageAt(lo, PageIndex(lo, va)) < TWO_64
    ensures PageNo(PageAt(lo, PageIndex(lo, va))) == PageNo(va)
  {
    var q, j := lo / PAGE_SIZE, PageIndex(lo, va);
    var u, a, n := q / PAGE_SPACE, q % PAGE_SPACE, PageNo(va);
    PageNoOf(q, 0);
    PageNoOf(q + j, 0);
    assert PageAt(lo, j) == (q + j) * PAGE_SIZE;
    PageNoBound(va);
    if n >= a {
      QuotientUnique(n + PAGE_SPACE - a, PAGE_SPACE, 1, n - a);
      QuotientUnique(q + j, PAGE_SPACE, u, n);
    } else {
      QuotientUnique(n + PAGE_SPACE - a, PAGE_SPACE, 0, n + PAGE_SPACE - a);
      QuotientUnique(q + j, PAGE_SPACE, u + 1, n);
    }
  }

  /** A page of the first `k` has an index below `k`, and that page is the one. */
  lemma IndexBelow(lo: u64, k: nat, va: u64)
    requires lo % PAGE_SIZE == 0 && InRun(lo, k, va)
    ensures var j := PageIndex(lo, va);
            j < k && PageAt(lo, j) < TWO_64 && PageNo(PageAt(lo, j)) == PageNo(va)
  {
    var i: nat :| i < k && PageAt(lo, i) < TWO_64 && PageNo(PageAt(lo, i)) == PageNo(va);
    IndexOfPage(lo, i, va);
    PageOfIndex(lo, va);
  }

  /** Being in a run is a matter of the index. */
  lemma InRunIff(lo: u64, k: nat, va: u64)
    requires lo % PAGE_SIZE == 0 && forall j: nat | j < k :: PageAt(lo, j) < TWO_64
    ensures InRun(lo, k, va) <==> PageIndex(lo, va) < k
  {
    if InRun(lo, k, va) {
      IndexBelow(lo, k, va);
    }
    if PageIndex(lo, va) < k {
      PageOfIndex(lo, va);
    }
  }

  /** The frame address that mapping the segment gives to the page of `va`. */
  function TargetPage(p: Phdr, va: u64): nat {
    PageAt(PageDown(p.paddr), PageIndex(PageDown(p.vaddr), va))
  }

  /** The pages of a segment do not wrap, in either address space. */
  lemma PageBounds(p: Phdr, j: nat)
    requires p.Fits() && p.Loadable() && j < p.Pages()
    ensures PageAt(PageDown(p.vaddr), j) < TWO_64 && PageAt(PageDown(p.paddr), j) < 0x10_0000_0000_0000
    ensures PageAt(PageDown(p.vaddr), j) % PAGE_SIZE == 0 && PageAt(PageDown(p.paddr), j) % PAGE_SIZE == 0
    ensures j * PAGE_SIZE < p.RoundedSize()
  {
  }

  lemma TouchesIff(p: Phdr, va: u64)
    requires p.Fits() && p.Loadable()
    ensures p.Touches(va) <==> PageIndex(PageDown(p.vaddr), va) < p.Pages()
  {
    forall j: nat | j < p.Pages()
      ensures PageAt(PageDown(p.vaddr), j) < TWO_64
    {
      PageBounds(p, j);
    }
    InRunIff(PageDown(p.vaddr), p.Pages(), va);
  }

  /** The image lies in the 48 bits that a walk looks at. */
  predicate Short(p: Phdr) { p.paddr + p.memsz <= PAGE_SPACE * PAGE_SIZE }

  lemma IndexOfPageDown(lo: u64, j: nat, va: u64)
    requires lo % PAGE_SIZE == 0 && PageAt(lo, j) == PageDown(va)
    ensures j < PAGE_SPACE ==> PageIndex(lo, va) == j
  {
    SamePageDown(va);
    IndexOfPage(lo, j, va);
  }

  lemma PageDownAligned(x: u64)
    ensures PageDown(x) % PAGE_SIZE == 0
  {
  }

  lemma IndexOfByte(p: Phdr, va: u64) returns (j: nat)
    requires p.Fits() && p.Loadable() && p.vaddr <= va < p.vaddr + p.memsz
    ensures p.Touches(va) && j < p.Pages() && PageAt(PageDown(p.vaddr), j) == PageDown(va)
    ensures j < PAGE_SPACE ==> PageIndex(PageDown(p.vaddr), va) == j
  {
    j := ByteTouched(p, va);
    PageDownAligned(p.vaddr);
    IndexOfPageDown(PageDown(p.vaddr), j, va);
  }

  lemma NearByte(p: Phdr, va: u64, j: nat)
    requires p.Fits() && p.Loadable() && Short(p) && p.vaddr <= va < p.vaddr + p.memsz
    requires PageAt(PageDown(p.vaddr), j) == PageDown(va)
    ensures j < PAGE_SPACE && PageAt(PageDown(p.paddr), j) + va % PAGE_SIZE == p.paddr + (va - p.vaddr)
  {
  }

  /** The page of a byte of the segment goes to the frame of its physical address. */
  lemma TargetOfByte(p: Phdr, va: u64)
    requires p.Fits() && p.Loadable() && Short(p) && p.vaddr <= va < p.vaddr + p.memsz
    ensures p.Touches(va) && TargetPage(p, va) % PAGE_SIZE == 0 && TargetPage(p, va) < 0x10_0000_0000_0000
    ensures TargetPage(p, va) + va % PAGE_SIZE == p.paddr + (va - p.vaddr)
  {
    var j := IndexOfByte(p, va);
    NearByte(p, va, j);
    PageBounds(p, j);
  }

  lemma IndexInRun(p: Phdr, k: nat, va: u64)
    requires p.Fits() && p.Loadable() && k <= p.Pages() && InRun(PageDown(p.vaddr), k, va)
    ensures var lo := PageDown(p.vaddr); var j := PageIndex(lo, va);
            && j < k && PageAt(lo, j) < TWO_64 && PageNo(PageAt(lo, j)) == PageNo(va)
            && TargetPage(p, va) < 0x10_0000_0000_0000
  {
    PageDownAligned(p.vaddr);
    IndexBelow(PageDown(p.vaddr), k, va);
    PageBounds(p, PageIndex(PageDown(p.vaddr), va));
  }

  /** The `k`-th page starts before the segment ends. */
  lemma PageStarts(p: Phdr, k: nat)
    requires p.Fits() && p.Loadable() && k * PAGE_SIZE < p.RoundedSize()
    ensures PageAt(PageDown(p.paddr), k) < p.paddr + p.memsz
  {
  }
}
