/** The frames that the kernel image takes (bootloader/kernel_loader.c:113-149). */
module ImageFrames {
  import opened Bits
  import opened Division
  import opened Entry
  import opened Bitmap
  import opened Mmu
  import opened BootTree
  import opened Mapper
  import opened Bytes
  import opened ElfFile
  import opened Segments
  import opened SegmentMap
  import opened ImageFill

  const NO_PHYS: u64 := TWO_64 - 1

  function PageUp(x: u64): u64
    requires x + 0xFFF < TWO_64
  {
    PageDown(x + 0xFFF)
  }

  lemma RoundedUp(x: u64, m: nat)
    requires x + 0xFFF < TWO_64 && x <= m * PAGE_SIZE
    ensures x <= PageUp(x) <= m * PAGE_SIZE
  {
  }

  lemma RoundedDown(x: u64, m: nat)
    requires m * PAGE_SIZE <= x
    ensures m * PAGE_SIZE <= PageDown(x) <= x
  {
  }

  /** The smallest page-aligned physical range that holds the first `i` non-empty segments. */
  ghost predicate ImageRange(phdrs: seq<Phdr>, i: nat, lo: u64, hi: u64)
    requires AllFit(phdrs) && i <= |phdrs|
  {
    && (forall s | 0 <= s < i && phdrs[s].Loadable() ::
          lo <= PageDown(phdrs[s].paddr) && PageUp(phdrs[s].paddr + phdrs[s].memsz) <= hi)
    && (lo != NO_PHYS ==> exists s | 0 <= s < i && phdrs[s].Loadable() :: PageDown(phdrs[s].paddr) == lo)
    && (lo != NO_PHYS ==> exists s | 0 <= s < i && phdrs[s].Loadable() :: PageUp(phdrs[s].paddr + phdrs[s].memsz) == hi)
  }

  predicate SegmentInFrames(p: Phdr, start: nat, count: nat) {
    start * PAGE_SIZE <= p.paddr && p.paddr + p.memsz <= (start + count) * PAGE_SIZE
  }

  /** All segments lie in the frames `[start, start + count)`. */
  ghost predicate InFrames(phdrs: seq<Phdr>, start: nat, count: nat) {
    forall s | 0 <= s < |phdrs| && phdrs[s].Loadable() :: SegmentInFrames(phdrs[s], start, count)
  }

  lemma SegmentPages(p: Phdr)
    requires p.Fits() && p.Loadable()
    ensures PageDown(p.paddr) <= p.paddr && p.paddr + p.memsz <= PageUp(p.paddr + p.memsz)
    ensures PageDown(p.paddr) % PAGE_SIZE == 0 && PageUp(p.paddr + p.memsz) % PAGE_SIZE == 0
  {
  }

  lemma WholeFrames(lo: u64, hi: u64)
    requires lo <= hi && lo % PAGE_SIZE == 0 && hi % PAGE_SIZE == 0
    ensures lo / PAGE_SIZE * PAGE_SIZE == lo && (lo / PAGE_SIZE + (hi - lo) / PAGE_SIZE) * PAGE_SIZE == hi
  {
  }

  /** No page-aligned range inside it holds the image. */
  lemma RangeIsLeast(phdrs: seq<Phdr>, lo: u64, hi: u64, start: nat, count: nat)
    requires AllFit(phdrs) && ImageRange(phdrs, |phdrs|, lo, hi) && lo != NO_PHYS && InFrames(phdrs, start, count)
    ensures start * PAGE_SIZE <= lo && hi <= (start + count) * PAGE_SIZE
  {
    var s :| 0 <= s < |phdrs| && phdrs[s].Loadable() && PageDown(phdrs[s].paddr) == lo;
    var t :| 0 <= t < |phdrs| && phdrs[t].Loadable() && PageUp(phdrs[t].paddr + phdrs[t].memsz) == hi;
    assert SegmentInFrames(phdrs[s], start, count) && SegmentInFrames(phdrs[t], start, count);
    RoundedDown(phdrs[s].paddr, start);
    RoundedUp(phdrs[t].paddr + phdrs[t].memsz, start + count);
  }

  lemma RangeFrames(phdrs: seq<Phdr>, lo: u64, hi: u64)
    requires AllFit(phdrs) && ImageRange(phdrs, |phdrs|, lo, hi) && lo != NO_PHYS
    ensures lo <= hi && InFrames(phdrs, lo / PAGE_SIZE, (hi - lo) / PAGE_SIZE)
  {
    var s :| 0 <= s < |phdrs| && phdrs[s].Loadable() && PageDown(phdrs[s].paddr) == lo;
    var t :| 0 <= t < |phdrs| && phdrs[t].Loadable() && PageUp(phdrs[t].paddr + phdrs[t].memsz) == hi;
    SegmentPages(phdrs[s]);
    SegmentPages(phdrs[t]);
    assert lo <= PageDown(phdrs[t].paddr);
    WholeFrames(lo, hi);
    forall s | 0 <= s < |phdrs| && phdrs[s].Loadable()
      ensures SegmentInFrames(phdrs[s], lo / PAGE_SIZE, (hi - lo) / PAGE_SIZE)
    {
      SegmentPages(phdrs[s]);
    }
  }

  lemma ImageRangeStep(phdrs: seq<Phdr>, i: nat, lo: u64, hi: u64)
    requires AllFit(phdrs) && i < |phdrs| && phdrs[i].Loadable() && ImageRange(phdrs, i, lo, hi)
    requires lo == NO_PHYS ==> hi == 0
    ensures var segLo, segHi := PageDown(phdrs[i].paddr), PageUp(phdrs[i].paddr + phdrs[i].memsz);
            ImageRange(phdrs, i + 1, if segLo < lo then segLo else lo, if segHi > hi then segHi else hi)
  {
    SegmentPages(phdrs[i]);
    if lo != NO_PHYS {
      var s :| 0 <= s < i && phdrs[s].Loadable() && PageDown(phdrs[s].paddr) == lo;
      var t :| 0 <= t < i && phdrs[t].Loadable() && PageUp(phdrs[t].paddr + phdrs[t].memsz) == hi;
      assert s < i + 1 && t < i + 1;
    }
  }

  /** Frame `f` is in that range. */
  ghost predicate InSpan(phdrs: seq<Phdr>, f: nat)
    requires AllFit(phdrs)
  {
    && (exists s | 0 <= s < |phdrs| && phdrs[s].Loadable() :: PageDown(phdrs[s].paddr) <= f * PAGE_SIZE)
    && (exists s | 0 <= s < |phdrs| && phdrs[s].Loadable() :: f * PAGE_SIZE < PageUp(phdrs[s].paddr + phdrs[s].memsz))
  }

  lemma FrameBetween(lo: u64, hi: u64, f: nat)
    requires lo <= hi && lo % PAGE_SIZE == 0 && hi % PAGE_SIZE == 0 && lo <= f * PAGE_SIZE < hi
    ensures f in Run(lo / PAGE_SIZE, (hi - lo) / PAGE_SIZE)
  {
    WholeFrames(lo, hi);
  }

  lemma RangeAligned(phdrs: seq<Phdr>, lo: u64, hi: u64)
    requires AllFit(phdrs) && ImageRange(phdrs, |phdrs|, lo, hi) && lo != NO_PHYS
    ensures lo % PAGE_SIZE == 0 && hi % PAGE_SIZE == 0
  {
    var s :| 0 <= s < |phdrs| && phdrs[s].Loadable() && PageDown(phdrs[s].paddr) == lo;
    var t :| 0 <= t < |phdrs| && phdrs[t].Loadable() && PageUp(phdrs[t].paddr + phdrs[t].memsz) == hi;
    SegmentPages(phdrs[s]);
    SegmentPages(phdrs[t]);
  }

  lemma SpanInRange(phdrs: seq<Phdr>, lo: u64, hi: u64, f: nat)
    requires AllFit(phdrs) && ImageRange(phdrs, |phdrs|, lo, hi) && lo != NO_PHYS && lo <= hi && InSpan(phdrs, f)
    ensures f in Run(lo / PAGE_SIZE, (hi - lo) / PAGE_SIZE)
  {
    RangeAligned(phdrs, lo, hi);
    var u :| 0 <= u < |phdrs| && phdrs[u].Loadable() && PageDown(phdrs[u].paddr) <= f * PAGE_SIZE;
    var v :| 0 <= v < |phdrs| && phdrs[v].Loadable() && f * PAGE_SIZE < PageUp(phdrs[v].paddr + phdrs[v].memsz);
    assert lo <= PageDown(phdrs[u].paddr) && PageUp(phdrs[v].paddr + phdrs[v].memsz) <= hi;
    FrameBetween(lo, hi, f);
  }

  /** No non-empty segment is mapped over the address of a table, or of a frame that may become one: below the
      identity map's limit, a page is one of the image or is held for something else than a table. Without that a
      segment could hide a table from the mapper, which reaches tables by their addresses. */
  ghost predicate SparesTables(b: Boot, phdrs: seq<Phdr>)
    requires AllFit(phdrs)
  {
    forall s: nat, va: u64 | s < |phdrs| && phdrs[s].Loadable() && phdrs[s].Touches(va) && PageNo(va) < b.limit ::
      InSpan(phdrs, PageNo(va)) || (PageNo(va) in b.held && PageNo(va) !in b.layout)
  }

  /** `x` is the address of a table, or of a frame that may become one. */
  ghost predicate MayHoldTable(b: Boot, phdrs: seq<Phdr>, x: u64)
    requires AllFit(phdrs)
  {
    var f := x / PAGE_SIZE;
    x < b.limit * PAGE_SIZE && !InSpan(phdrs, f) && (f !in b.held || f in b.layout)
  }

  lemma PageBelowEnd(p: Phdr, j: nat)
    requires p.Fits() && p.Loadable() && j * PAGE_SIZE < p.RoundedSize()
    ensures PageDown(p.paddr) <= PageAt(PageDown(p.paddr), j) < PageUp(p.paddr + p.memsz)
  {
  }

  /** A page of a segment goes to a frame of the image. */
  lemma TargetInSpan(phdrs: seq<Phdr>, s: nat, va: u64)
    requires AllFit(phdrs) && s < |phdrs| && phdrs[s].Loadable() && phdrs[s].Touches(va)
    ensures TargetPage(phdrs[s], va) % PAGE_SIZE == 0 && InSpan(phdrs, TargetPage(phdrs[s], va) / PAGE_SIZE)
  {
    var p := phdrs[s];
    TouchesIff(p, va);
    PageBounds(p, PageIndex(PageDown(p.vaddr), va));
    PageBelowEnd(p, PageIndex(PageDown(p.vaddr), va));
    DivMod(TargetPage(p, va), PAGE_SIZE);
  }

  lemma TouchedPageMoved(b0: Boot, b: Boot, phdrs: seq<Phdr>, s: nat, va: u64)
    requires AllFit(phdrs) && ImageMapped(b0, b, phdrs, |phdrs|) && s < |phdrs| && phdrs[s].Loadable()
    requires phdrs[s].Touches(va) && !InSpan(phdrs, PageNo(va))
    ensures !b.Itself(PageNo(va) * PAGE_SIZE) && PageNo(va) * PAGE_SIZE / PAGE_SIZE == PageNo(va)
  {
    PageNoBound(va);
    PageStart(PageNo(va));
    var x: u64 := PageNo(va) * PAGE_SIZE;
    assert phdrs[s].Touches(x);
    assert PageInPlace(b, phdrs[s], x);
    TargetInSpan(phdrs, s, x);
    LeafForFields(TargetPage(phdrs[s], x), phdrs[s].TempAttr());
  }

  lemma SparedReached(b0: Boot, b: Boot, phdrs: seq<Phdr>, x: u64)
    requires AllFit(phdrs) && ImageMapped(b0, b, phdrs, |phdrs|) && b0.Flat() && b0.moved == {}
    requires SparesTables(b0, phdrs) && MayHoldTable(b0, phdrs, x)
    ensures b.Itself(x)
  {
    assert b0.Low(x) && b0.Itself(x);
    LowPage(b0, x);
    if TouchedBefore(phdrs, |phdrs|, x) {
      var s := WhoTouches(phdrs, |phdrs|, x);
      assert false;
    }
  }

  lemma HiddenTable(b0: Boot, b: Boot, phdrs: seq<Phdr>, s: nat, va: u64)
    requires AllFit(phdrs) && ImageMapped(b0, b, phdrs, |phdrs|) && s < |phdrs| && phdrs[s].Loadable()
    requires phdrs[s].Touches(va) && PageNo(va) < b0.limit
    requires !InSpan(phdrs, PageNo(va)) && (PageNo(va) !in b0.held || PageNo(va) in b0.layout)
    ensures exists x: u64 :: MayHoldTable(b0, phdrs, x) && !b.Itself(x)
  {
    TouchedPageMoved(b0, b, phdrs, s, va);
    assert MayHoldTable(b0, phdrs, PageNo(va) * PAGE_SIZE);
  }

  /** That condition is exact: after mapping, every address of a table or of a frame that may become one still leads
      to itself if and only if it holds. */
  lemma SparesTablesIff(b0: Boot, b: Boot, phdrs: seq<Phdr>)
    requires AllFit(phdrs) && ImageMapped(b0, b, phdrs, |phdrs|) && b0.Flat() && b0.moved == {}
    ensures SparesTables(b0, phdrs) <==> forall x: u64 | MayHoldTable(b0, phdrs, x) :: b.Itself(x)
  {
    if SparesTables(b0, phdrs) {
      forall x: u64 | MayHoldTable(b0, phdrs, x)
        ensures b.Itself(x)
      {
        SparedReached(b0, b, phdrs, x);
      }
    } else {
      var s: nat, va: u64 :| s < |phdrs| && phdrs[s].Loadable() && phdrs[s].Touches(va) && PageNo(va) < b0.limit &&
                             !InSpan(phdrs, PageNo(va)) && (PageNo(va) !in b0.held || PageNo(va) in b0.layout);
      HiddenTable(b0, b, phdrs, s, va);
    }
  }

  // ----- every store goes to a frame of the image -----

  lemma AlignedBelow(q: nat, x: u64)
    requires q * PAGE_SIZE <= x
    ensures q * PAGE_SIZE <= PageDown(x)
  {
    DivMod(x, PAGE_SIZE);
    assert q <= x / PAGE_SIZE;
  }

  /** Page `j` of the segment lies in the frames that hold the segment. */
  lemma PagesWithin(p: Phdr, j: nat, start: nat, count: nat)
    requires p.Fits() && p.Loadable() && SegmentInFrames(p, start, count) && j * PAGE_SIZE < p.RoundedSize()
    ensures start * PAGE_SIZE <= PageAt(PageDown(p.paddr), j) < (start + count) * PAGE_SIZE
  {
    PageStarts(p, j);
    AlignedBelow(start, p.paddr);
  }

  lemma TargetPageInFrames(p: Phdr, x: u64, start: nat, count: nat)
    requires p.Fits() && p.Loadable() && SegmentInFrames(p, start, count)
    requires PageIndex(PageDown(p.vaddr), x) < p.Pages()
    ensures TargetPage(p, x) < PHYS_LIMIT - x % PAGE_SIZE
    ensures (TargetPage(p, x) + x % PAGE_SIZE) / PAGE_SIZE in Run(start, count)
  {
    var j := PageIndex(PageDown(p.vaddr), x);
    PageBounds(p, j);
    PagesWithin(p, j, start, count);
    var f := TargetPage(p, x) / PAGE_SIZE;
    assert TargetPage(p, x) == f * PAGE_SIZE;
    QuotientUnique(TargetPage(p, x) + x % PAGE_SIZE, PAGE_SIZE, f, x % PAGE_SIZE);
  }

  lemma {:induction false} TargetInFrames(phdrs: seq<Phdr>, i: nat, x: u64, start: nat, count: nat)
    requires AllFit(phdrs) && i <= |phdrs| && InFrames(phdrs, start, count) && (start + count) * PAGE_SIZE <= PHYS_LIMIT
    requires start * PAGE_SIZE <= x < (start + count) * PAGE_SIZE
    ensures Target(phdrs, i, x) < PHYS_LIMIT && Target(phdrs, i, x) / PAGE_SIZE in Run(start, count)
  {
    if i > 0 {
      var p := phdrs[i - 1];
      if p.Loadable() && PageIndex(PageDown(p.vaddr), x) < p.Pages() {
        assert SegmentInFrames(p, start, count);
        TargetPageInFrames(p, x, start, count);
      } else {
        TargetInFrames(phdrs, i - 1, x, start, count);
      }
    }
  }

  lemma TargetsFirm(mem: Memory, cr3: u64, phdrs: seq<Phdr>, s: nat, frames: set<nat>)
    requires AllFit(phdrs) && s < |phdrs| && phdrs[s].Loadable()
    requires forall x: u64 | InSegment(phdrs, s, x) :: FirmAt(mem, cr3, x, Target(phdrs, |phdrs|, x), frames)
    ensures Firm(mem, cr3, phdrs[s].paddr, Targets(phdrs, phdrs[s]), frames)
  {
    var p := phdrs[s];
    forall i: nat | i < |Targets(phdrs, p)|
      ensures FirmByte(mem, cr3, p.paddr, Targets(phdrs, p), frames, i)
    {
      assert InSegment(phdrs, s, p.paddr + i);
    }
  }

  lemma StoreFirm(b0: Boot, b: Boot, phdrs: seq<Phdr>, s: nat, x: u64, start: nat, count: nat)
    requires AllFit(phdrs) && ImageMapped(b0, b, phdrs, |phdrs|) && StoresLand(b0, phdrs) && b.Sound()
    requires InSegment(phdrs, s, x) && InFrames(phdrs, start, count)
    requires (start + count) * PAGE_SIZE <= PHYS_LIMIT && Run(start, count) !! b.layout.Keys
    ensures FirmAt(b.mem, b.cr3, x, Target(phdrs, |phdrs|, x), Run(start, count))
  {
    assert SegmentInFrames(phdrs[s], start, count);
    assert b0.Itself(x);
    StoreGoesToTarget(b0, b, phdrs, x);
    TargetInFrames(phdrs, |phdrs|, x, start, count);
    forall mem': Memory | OnlyIn(b.mem, mem', Run(start, count))
      ensures LeadsTo(mem', b.cr3, x, Target(phdrs, |phdrs|, x))
    {
      WalkReadsTables(b.mem, mem', b.Top(), b.layout, b.Top(), x);
    }
  }

  /** With the segments mapped, the stores for a segment go where `Targets` says, and go on doing so whatever the
      frames of the image hold: no table is among them. */
  lemma StoresFirm(b0: Boot, b: Boot, phdrs: seq<Phdr>, s: nat, start: nat, count: nat)
    requires AllFit(phdrs) && ImageMapped(b0, b, phdrs, |phdrs|) && StoresLand(b0, phdrs) && b.Sound()
    requires s < |phdrs| && phdrs[s].Loadable() && InFrames(phdrs, start, count)
    requires (start + count) * PAGE_SIZE <= PHYS_LIMIT && Run(start, count) !! b.layout.Keys
    ensures Firm(b.mem, b.cr3, phdrs[s].paddr, Targets(phdrs, phdrs[s]), Run(start, count))
  {
    forall x: u64 | InSegment(phdrs, s, x)
      ensures FirmAt(b.mem, b.cr3, x, Target(phdrs, |phdrs|, x), Run(start, count))
    {
      StoreFirm(b0, b, phdrs, s, x, start, count);
    }
    TargetsFirm(b.mem, b.cr3, phdrs, s, Run(start, count));
  }
}
