/** What mapping and protecting the segments of the kernel image does to the translations
    (bootloader/kernel_loader.c). */
module SegmentMap {
  import opened Bits
  import opened Entry
  import opened Mmu
  import opened BootTree
  import opened Mapper
  import opened Segments
  import opened Wrappers

  // ----- mapping -----

  /** `k` pages from `lo` are mapped to the frames from `pa`; none of them had a mapping with bit 7 before,
      and no other translation has changed. */
  ghost predicate PagesMapped(b0: Boot, b: Boot, lo: u64, pa: u64, k: nat, attr: PageAttr) {
    && (forall j: nat | j < k && PageAt(lo, j) < TWO_64 && PageAt(pa, j) < TWO_64 ::
          MapsPage(b.mem, b.Top(), PageAt(lo, j), LeafFor(PageAt(pa, j), attr)))
    && (forall va: u64 :: if InRun(lo, k, va) then !Settable(b0, va) else b.Walk(va) == b0.Walk(va))
  }

  /** Mapping a segment goes through its pages in order and stops at the first failure. */
  ghost predicate SegmentPartlyMapped(b0: Boot, b: Boot, p: Phdr)
    requires p.Fits()
  {
    exists k: nat :: k <= p.Pages() && PagesMapped(b0, b, PageDown(p.vaddr), PageDown(p.paddr), k, p.TempAttr())
  }

  ghost predicate SegmentMapped(b0: Boot, b: Boot, p: Phdr)
    requires p.Fits()
  {
    PagesMapped(b0, b, PageDown(p.vaddr), PageDown(p.paddr), p.Pages(), p.TempAttr())
  }

  lemma EarlierPageKept(b: Boot, b': Boot, page: u64, earlier: u64, leaf: u64)
    requires b'.cr3 == b.cr3 && OnlyPage(b, b', page) && PageNo(page) != PageNo(earlier)
    requires MapsPage(b.mem, b.Top(), earlier, leaf)
    ensures MapsPage(b'.mem, b'.Top(), earlier, leaf)
  {
    forall va: u64 | PageNo(va) == PageNo(earlier)
      ensures MappedBy(WalkFrom(b'.mem, 4, b'.Top(), va), leaf, va)
    {
      assert b'.Walk(va) == b.Walk(va);
    }
  }

  /** A page that does not carry bit 7 yet is none of the pages mapped so far. */
  lemma PageIsNew(b: Boot, lo: u64, pa: u64, k: nat, attr: PageAttr, j: nat)
    requires j < k && PageAt(lo, k) < TWO_64 && PageAt(lo, j) < TWO_64 && PageAt(pa, j) < 0x10_0000_0000_0000
    requires MapsPage(b.mem, b.Top(), PageAt(lo, j), LeafFor(PageAt(pa, j), attr))
    requires !Settable(b, PageAt(lo, k))
    ensures PageNo(PageAt(lo, k)) != PageNo(PageAt(lo, j))
  {
    LeafForFields(PageAt(pa, j), attr);
  }

  lemma PagesMappedStep(b0: Boot, b: Boot, b': Boot, lo: u64, pa: u64, k: nat, attr: PageAttr)
    requires PageAt(lo, k) < TWO_64 && PageAt(pa, k) < 0x10_0000_0000_0000
    requires PagesMapped(b0, b, lo, pa, k, attr) && b'.cr3 == b.cr3
    requires forall j: nat | j < k :: PageAt(lo, j) < TWO_64 && PageAt(pa, j) < 0x10_0000_0000_0000
    requires !Settable(b, PageAt(lo, k)) && OnlyPage(b, b', PageAt(lo, k))
    requires MapsPage(b'.mem, b'.Top(), PageAt(lo, k), LeafFor(PageAt(pa, k), attr))
    ensures PagesMapped(b0, b', lo, pa, k + 1, attr)
  {
    forall j: nat | j < k + 1
      ensures MapsPage(b'.mem, b'.Top(), PageAt(lo, j), LeafFor(PageAt(pa, j), attr))
    {
      if j < k {
        PageIsNew(b, lo, pa, k, attr, j);
        EarlierPageKept(b, b', PageAt(lo, k), PageAt(lo, j), LeafFor(PageAt(pa, j), attr));
      }
    }
    forall va: u64
      ensures if InRun(lo, k + 1, va) then !Settable(b0, va) else b'.Walk(va) == b0.Walk(va)
    {
      InRunStep(lo, k, va);
      if !InRun(lo, k, va) && PageNo(PageAt(lo, k)) == PageNo(va) {
        SamePageSettable(b, PageAt(lo, k), va);
      }
    }
  }

  /** Pages that carry bit 7, or are not mapped, are not huge. */
  ghost predicate NoNewHuge(b: Boot, b': Boot) {
    forall va: u64 :: b.NotHuge(va) ==> b'.NotHuge(va)
  }

  ghost predicate UntouchedSame(b: Boot, b': Boot, p: Phdr)
    requires p.Fits()
  {
    forall va: u64 :: !p.Touches(va) ==> b'.Walk(va) == b.Walk(va)
  }

  lemma InRunShorter(lo: u64, k: nat, n: nat, va: u64)
    requires k <= n && InRun(lo, k, va)
    ensures InRun(lo, n, va)
  {
    var j: nat :| j < k && PageAt(lo, j) < TWO_64 && PageNo(PageAt(lo, j)) == PageNo(va);
    assert j < n;
  }

  /** The level-1 entry that maps the page of `va`, if `va` is on a page of the segment. */
  ghost predicate PageInPlace(b: Boot, p: Phdr, va: u64) {
    TargetPage(p, va) < 0x10_0000_0000_0000 && MappedBy(b.Walk(va), LeafFor(TargetPage(p, va), p.TempAttr()), va)
  }

  /** What a page of the run walks to. */
  lemma RunPage(b0: Boot, b: Boot, p: Phdr, k: nat, va: u64)
    requires p.Fits() && p.Loadable() && k <= p.Pages() && InRun(PageDown(p.vaddr), k, va)
    requires PagesMapped(b0, b, PageDown(p.vaddr), PageDown(p.paddr), k, p.TempAttr())
    ensures PageInPlace(b, p, va) && Settable(b, va)
  {
    var lo := PageDown(p.vaddr);
    var j := PageIndex(lo, va);
    IndexInRun(p, k, va);
    LeafForFields(PageAt(PageDown(p.paddr), j), p.TempAttr());
    assert MapsPage(b.mem, b.Top(), PageAt(lo, j), LeafFor(PageAt(PageDown(p.paddr), j), p.TempAttr()));
  }

  lemma PartlyMappedLocal(b0: Boot, b: Boot, p: Phdr)
    requires p.Fits() && p.Loadable() && SegmentPartlyMapped(b0, b, p)
    ensures UntouchedSame(b0, b, p) && NoNewHuge(b0, b)
  {
    var k: nat :| k <= p.Pages() && PagesMapped(b0, b, PageDown(p.vaddr), PageDown(p.paddr), k, p.TempAttr());
    var lo := PageDown(p.vaddr);
    forall va: u64
      ensures !p.Touches(va) ==> b.Walk(va) == b0.Walk(va)
      ensures b0.NotHuge(va) ==> b.NotHuge(va)
    {
      if InRun(lo, k, va) {
        InRunShorter(lo, k, p.Pages(), va);
        RunPage(b0, b, p, k, va);
      }
    }
  }

  /** Every page of the segment is mapped where the program header says, by an entry that carries bit 7. */
  ghost predicate InPlace(b: Boot, p: Phdr)
    requires p.Fits()
  {
    forall va: u64 :: p.Touches(va) ==> PageInPlace(b, p, va) && Settable(b, va)
  }

  lemma SegmentMappedInPlace(b0: Boot, b: Boot, p: Phdr)
    requires p.Fits() && p.Loadable() && SegmentMapped(b0, b, p)
    ensures InPlace(b, p)
  {
    forall va: u64 | p.Touches(va)
      ensures PageInPlace(b, p, va) && Settable(b, va)
    {
      RunPage(b0, b, p, p.Pages(), va);
    }
  }

  /** A byte of a segment in place is at its physical address. */
  lemma ByteInPlace(b: Boot, p: Phdr, va: u64)
    requires p.Fits() && p.Loadable() && Short(p) && InPlace(b, p) && p.vaddr <= va < p.vaddr + p.memsz
    ensures p.Touches(va) && Settable(b, va) && b.Walk(va).pa == p.paddr + (va - p.vaddr)
    ensures Writable(b.Walk(va).leaf) && ExecuteDisabled(b.Walk(va).leaf) == !p.Executable()
  {
    TargetOfByte(p, va);
    assert PageInPlace(b, p, va);
    LeafForFields(TargetPage(p, va), p.TempAttr());
  }

  // ----- all segments -----

  /** Every program header of type PT_LOAD fits. */
  ghost predicate AllFit(phdrs: seq<Phdr>) {
    forall s | 0 <= s < |phdrs| && phdrs[s].IsLoad() :: phdrs[s].Fits()
  }

  /** Some non-empty segment before the `i`-th touches the page of `va`. */
  ghost predicate TouchedBefore(phdrs: seq<Phdr>, i: nat, va: u64)
    requires AllFit(phdrs) && i <= |phdrs|
  {
    i > 0 && (TouchedBefore(phdrs, i - 1, va) || (phdrs[i - 1].Loadable() && phdrs[i - 1].Touches(va)))
  }

  ghost predicate Apart(p: Phdr, q: Phdr)
    requires p.Fits() && q.Fits()
  {
    forall va: u64 :: p.Touches(va) ==> !q.Touches(va)
  }

  ghost predicate PagesApart(phdrs: seq<Phdr>, i: nat)
    requires AllFit(phdrs) && i <= |phdrs|
  {
    forall s, t | 0 <= s < t < i && phdrs[s].Loadable() && phdrs[t].Loadable() :: Apart(phdrs[s], phdrs[t])
  }

  /** The first `i` segments are in place, on pages of their own; other translations are as before. */
  ghost predicate ImageMapped(b0: Boot, b: Boot, phdrs: seq<Phdr>, i: nat)
    requires AllFit(phdrs) && i <= |phdrs|
  {
    && (forall s | 0 <= s < i && phdrs[s].Loadable() :: InPlace(b, phdrs[s]))
    && PagesApart(phdrs, i)
    && (forall va: u64 :: !TouchedBefore(phdrs, i, va) ==> b.Walk(va) == b0.Walk(va))
  }

  /** A segment that could be mapped lies on pages that no segment in place uses, and disturbs none. */
  lemma InPlaceKept(b: Boot, b': Boot, p: Phdr, q: Phdr)
    requires p.Fits() && p.Loadable() && InPlace(b, p) && q.Fits() && q.Loadable() && SegmentMapped(b, b', q)
    ensures InPlace(b', p) && Apart(p, q)
  {
    forall va: u64 | p.Touches(va)
      ensures !q.Touches(va) && b'.Walk(va) == b.Walk(va)
    {
      assert Settable(b, va);
    }
    forall va: u64 | p.Touches(va)
      ensures PageInPlace(b', p, va) && Settable(b', va)
    {
      assert PageInPlace(b, p, va) && b'.Walk(va) == b.Walk(va);
    }
  }

  lemma ImageMappedStep(b0: Boot, b: Boot, b': Boot, phdrs: seq<Phdr>, i: nat)
    requires AllFit(phdrs) && i < |phdrs| && phdrs[i].Loadable() && ImageMapped(b0, b, phdrs, i)
    requires SegmentMapped(b, b', phdrs[i])
    ensures ImageMapped(b0, b', phdrs, i + 1)
  {
    SegmentMappedInPlace(b, b', phdrs[i]);
    forall s | 0 <= s < i && phdrs[s].Loadable()
      ensures InPlace(b', phdrs[s]) && Apart(phdrs[s], phdrs[i])
    {
      InPlaceKept(b, b', phdrs[s], phdrs[i]);
    }
    forall va: u64 | !TouchedBefore(phdrs, i + 1, va)
      ensures b'.Walk(va) == b0.Walk(va)
    {
      assert !phdrs[i].Touches(va);
    }
  }

  lemma ImageMappedSkip(b0: Boot, b: Boot, phdrs: seq<Phdr>, i: nat)
    requires AllFit(phdrs) && i < |phdrs| && !phdrs[i].Loadable() && ImageMapped(b0, b, phdrs, i)
    ensures ImageMapped(b0, b, phdrs, i + 1)
  {
  }

  // ----- protecting -----

  /** The attribute of the last of the first `i` PT_LOAD entries, empty ones included, that touches `va`. */
  ghost function LastAttr(phdrs: seq<Phdr>, i: nat, va: u64): Option<PageAttr>
    requires AllFit(phdrs) && i <= |phdrs|
  {
    if i == 0 then None
    else if phdrs[i - 1].IsLoad() && phdrs[i - 1].Touches(va) then Some(phdrs[i - 1].Attr())
    else LastAttr(phdrs, i - 1, va)
  }

  ghost predicate PageProtected(b0: Boot, b: Boot, va: u64, attr: Option<PageAttr>) {
    match attr
    case None => b.Walk(va) == b0.Walk(va)
    case Some(a) => b0.Walk(va).Mapped? && MappedBy(b.Walk(va), ApplyAttr(b0.Walk(va).leaf, a), va)
  }

  /** Every page has the permissions of the last entry that touches it, and is otherwise as before. */
  ghost predicate Protected(b0: Boot, b: Boot, phdrs: seq<Phdr>, i: nat)
    requires AllFit(phdrs) && i <= |phdrs|
  {
    forall va: u64 :: PageProtected(b0, b, va, LastAttr(phdrs, i, va))
  }

  lemma ProtectedStep(b0: Boot, b: Boot, b': Boot, phdrs: seq<Phdr>, i: nat)
    requires AllFit(phdrs) && i < |phdrs| && phdrs[i].IsLoad() && Protected(b0, b, phdrs, i)
    requires RangeDone(b, b', PageDown(phdrs[i].vaddr), phdrs[i].Pages(), phdrs[i].Attr())
    ensures Protected(b0, b', phdrs, i + 1)
  {
    var n := i + 1;
    forall va: u64
      ensures PageProtected(b0, b', va, LastAttr(phdrs, n, va))
    {
      assert PageProtected(b0, b, va, LastAttr(phdrs, i, va));
      if phdrs[i].Touches(va) && LastAttr(phdrs, i, va).Some? {
        ApplyAttrTwice(b0.Walk(va).leaf, LastAttr(phdrs, i, va).value, phdrs[i].Attr());
      }
    }
  }

  lemma ProtectedSkip(b0: Boot, b: Boot, phdrs: seq<Phdr>, i: nat)
    requires AllFit(phdrs) && i < |phdrs| && !phdrs[i].IsLoad() && Protected(b0, b, phdrs, i)
    ensures Protected(b0, b, phdrs, i + 1)
  {
    var n := i + 1;
    forall va: u64
      ensures PageProtected(b0, b, va, LastAttr(phdrs, n, va))
    {
      assert PageProtected(b0, b, va, LastAttr(phdrs, i, va));
    }
  }

  /** The number of pages protected is the number mapped. */
  lemma ProtectedPages(p: Phdr)
    requires p.Fits()
    ensures PageDown(p.vaddr) + p.RoundedSize() + 0xFFF < TWO_64
    ensures PageDown(PageDown(p.vaddr)) == PageDown(p.vaddr)
    ensures PagesOver(PageDown(p.vaddr), p.RoundedSize()) == p.Pages()
  {
  }

  /** A byte of the image after loading: where it is, and what may be done with its page. */
  ghost predicate ByteReady(b: Boot, phdrs: seq<Phdr>, p: Phdr, va: u64)
    requires AllFit(phdrs) && p.vaddr <= va < p.vaddr + p.memsz
  {
    && b.Walk(va).Mapped? && b.Walk(va).level == 1 && b.Walk(va).pa == p.paddr + (va - p.vaddr)
    && LastAttr(phdrs, |phdrs|, va).Some?
    && Writable(b.Walk(va).leaf) == LastAttr(phdrs, |phdrs|, va).value.CanWrite()
    && ExecuteDisabled(b.Walk(va).leaf) == LastAttr(phdrs, |phdrs|, va).value.NoExecute()
  }

  lemma {:induction false} TouchedHasAttr(phdrs: seq<Phdr>, i: nat, s: nat, va: u64)
    requires AllFit(phdrs) && s < i <= |phdrs| && phdrs[s].IsLoad() && phdrs[s].Touches(va)
    ensures LastAttr(phdrs, i, va).Some?
  {
    if s < i - 1 {
      TouchedHasAttr(phdrs, i - 1, s, va);
    }
  }

  /** Protection moves no byte of the image. */
  lemma ImageReady(b: Boot, b': Boot, phdrs: seq<Phdr>, s: nat, va: u64)
    requires AllFit(phdrs) && s < |phdrs| && phdrs[s].Loadable() && Short(phdrs[s]) && InPlace(b, phdrs[s])
    requires Protected(b, b', phdrs, |phdrs|)
    requires phdrs[s].vaddr <= va < phdrs[s].vaddr + phdrs[s].memsz
    ensures ByteReady(b', phdrs, phdrs[s], va)
  {
    ByteInPlace(b, phdrs[s], va);
    TouchedHasAttr(phdrs, |phdrs|, s, va);
    assert PageProtected(b, b', va, LastAttr(phdrs, |phdrs|, va));
    ApplyAttrFields(b.Walk(va).leaf, LastAttr(phdrs, |phdrs|, va).value);
    SettableTarget(b, va);
  }

  /** The attribute of the last empty PT_LOAD entry after the `s`-th that sits, at an unaligned address,
      on the page of `va`. */
  function Override(phdrs: seq<Phdr>, i: nat, s: nat, va: u64): Option<PageAttr>
    requires s < i <= |phdrs|
  {
    var p := phdrs[i - 1];
    if s == i - 1 then None
    else if p.IsLoad() && p.memsz == 0 && p.vaddr % PAGE_SIZE != 0 && PageNo(p.vaddr) == PageNo(va) then Some(p.Attr())
    else Override(phdrs, i - 1, s, va)
  }

  /** A page of a segment gets the permissions of its own segment unless such an empty entry follows. */
  lemma {:induction false} LastAttrIsOwn(phdrs: seq<Phdr>, i: nat, s: nat, va: u64)
    requires AllFit(phdrs) && s < i <= |phdrs| && phdrs[s].Loadable() && phdrs[s].Touches(va) && PagesApart(phdrs, i)
    ensures LastAttr(phdrs, i, va) ==
            if Override(phdrs, i, s, va).None? then Some(phdrs[s].Attr()) else Override(phdrs, i, s, va)
  {
    if s < i - 1 {
      var p := phdrs[i - 1];
      if p.Loadable() {
        assert Apart(phdrs[s], p);
      } else if p.IsLoad() {
        EmptySegment(p, va);
      }
      LastAttrIsOwn(phdrs, i - 1, s, va);
    }
  }

  /** An executable page at 0x400000, and after it an empty writable entry in the middle of that page. */
  function TrailingEmpty(): seq<Phdr> {
    [Phdr(PT_LOAD, 5, 0, 0x40_0000, 0x40_0000, 0x1000, 0x1000), Phdr(PT_LOAD, 6, 0, 0x40_0010, 0x40_0010, 0, 0)]
  }

  /** The page ends up writable and not executable. */
  lemma EmptyEntryOverrides(va: u64)
    requires PageNo(va) == 0x400
    ensures AllFit(TrailingEmpty()) && TrailingEmpty()[0].Attr() == RX && TrailingEmpty()[0].Touches(va)
    ensures Override(TrailingEmpty(), 2, 0, va) == Some(RW) && LastAttr(TrailingEmpty(), 2, va) == Some(RW)
  {
    var p, q := TrailingEmpty()[0], TrailingEmpty()[1];
    PageNoOf(0x400, 0);
    PageNoOf(0x400, 0x10);
    EmptySegment(q, va);
    assert PageAt(PageDown(p.vaddr), 0) == 0x40_0000 && p.Pages() == 1;
  }
}
