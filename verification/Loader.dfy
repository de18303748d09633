/** Loading the kernel image (bootloader/kernel_loader.c): reserve its frames, map every segment, fill it
    from the file, then give its pages their final protection. */
module Loader {
  import opened Bits
  import opened Division
  import opened Entry
  import opened Bitmap
  import opened Mmu
  import opened BootTree
  import opened Permissions
  import opened Efi
  import opened Mapper
  import opened Bytes
  import opened ElfFile
  import opened Segments
  import opened SegmentMap
  import opened ImageFill
  import opened ImageFrames
  import opened LoadCauses
  import opened Wrappers

  // ----- what a completed load means -----

  ghost predicate SegmentPlaced(b: Boot, phdrs: seq<Phdr>, p: Phdr)
    requires AllFit(phdrs)
  {
    forall va: u64 :: p.vaddr <= va < p.vaddr + p.memsz ==> ByteReady(b, phdrs, p, va)
  }

  /** Every byte of every segment is at its virtual address, on a page with the permissions of the last entry
      that touches it, and pages outside the segments translate as before, except for the permissions that
      empty entries set. */
  ghost predicate ImagePlaced(b0: Boot, b: Boot, phdrs: seq<Phdr>)
    requires AllFit(phdrs)
  {
    && PagesApart(phdrs, |phdrs|)
    && (forall s | 0 <= s < |phdrs| && phdrs[s].Loadable() :: SegmentPlaced(b, phdrs, phdrs[s]))
    && (forall va: u64 :: !TouchedBefore(phdrs, |phdrs|, va) ==> PageProtected(b0, b, va, LastAttr(phdrs, |phdrs|, va)))
  }

  /** A load from `va` yields `v`. */
  predicate Reads(b: Boot, va: u64, v: u8) {
    b.Walk(va).Mapped? && b.Walk(va).pa < PHYS_LIMIT && ByteAt(b.mem, b.Walk(va).pa) == v
  }

  predicate ReadsRight(b: Boot, data: seq<u8>, p: Phdr, va: u64)
    requires p.vaddr <= va
  {
    Reads(b, va, Value(data, SourceOf(p, va - p.vaddr)))
  }

  ghost predicate SegmentReads(b: Boot, data: seq<u8>, p: Phdr) {
    forall va: u64 :: p.vaddr <= va < p.vaddr + p.memsz ==> ReadsRight(b, data, p, va)
  }

  /** And what is read there, through the tables, is the byte of the file, or zero. */
  ghost predicate ImageLoaded(b0: Boot, b: Boot, data: seq<u8>, phdrs: seq<Phdr>)
    requires AllFit(phdrs)
  {
    && ImagePlaced(b0, b, phdrs) && FileHolds(phdrs, data)
    && forall s | 0 <= s < |phdrs| && phdrs[s].Loadable() :: SegmentReads(b, data, phdrs[s])
  }

  /** In the terms of the ELF specification: byte `va - p_vaddr` of the segment is at `p_paddr + (va - p_vaddr)`, and is
      the byte of the file at `p_offset + (va - p_vaddr)`, or zero behind the first `p_filesz`. */
  ghost predicate ByteInMemory(b: Boot, data: seq<u8>, p: Phdr, va: u64)
    requires p.vaddr <= va
  {
    var k, t := va - p.vaddr, b.Walk(va);
    && t.Mapped? && t.pa == p.paddr + k < PHYS_LIMIT
    && if k < p.filesz then p.offset + k < |data| && ByteAt(b.mem, t.pa) == data[p.offset + k]
       else ByteAt(b.mem, t.pa) == 0
  }

  /** That holds of every byte of every entry of type 1, PT_LOAD. */
  ghost predicate ImageInMemory(b: Boot, data: seq<u8>, phdrs: seq<Phdr>) {
    forall s: nat, va: u64 |
      s < |phdrs| && phdrs[s].kind == 1 && phdrs[s].vaddr <= va < phdrs[s].vaddr + phdrs[s].memsz ::
      ByteInMemory(b, data, phdrs[s], va)
  }

  lemma LoadedInMemory(b0: Boot, b: Boot, data: seq<u8>, phdrs: seq<Phdr>)
    requires AllFit(phdrs) && ImageLoaded(b0, b, data, phdrs)
    ensures ImageInMemory(b, data, phdrs)
  {
    forall s: nat, va: u64 |
      s < |phdrs| && phdrs[s].kind == 1 && phdrs[s].vaddr <= va < phdrs[s].vaddr + phdrs[s].memsz
      ensures ByteInMemory(b, data, phdrs[s], va)
    {
      assert SegmentReads(b, data, phdrs[s]) && ReadsRight(b, data, phdrs[s], va);
      assert SegmentPlaced(b, phdrs, phdrs[s]) && ByteReady(b, phdrs, phdrs[s], va);
    }
  }

  ghost predicate AllShort(phdrs: seq<Phdr>) {
    forall s | 0 <= s < |phdrs| && phdrs[s].Loadable() :: Short(phdrs[s])
  }

  lemma ByteReads(b: Boot, data: seq<u8>, phdrs: seq<Phdr>, s: nat, va: u64)
    requires AllFit(phdrs) && s < |phdrs| && phdrs[s].Loadable() && SegmentPlaced(b, phdrs, phdrs[s])
    requires phdrs[s].vaddr <= va < phdrs[s].vaddr + phdrs[s].memsz
    ensures var x := phdrs[s].paddr + (va - phdrs[s].vaddr);
            && InSegment(phdrs, s, x) && x < PHYS_LIMIT
            && (ReadsRight(b, data, phdrs[s], va) <==> ByteRight(data, b.mem, phdrs[s], x))
  {
    assert ByteReady(b, phdrs, phdrs[s], va);
  }

  /** A placed image reads right if and only if its physical bytes are right. */
  lemma LoadedIffRight(b0: Boot, b: Boot, data: seq<u8>, phdrs: seq<Phdr>)
    requires AllFit(phdrs) && ImagePlaced(b0, b, phdrs) && FileHolds(phdrs, data)
    ensures ImageLoaded(b0, b, data, phdrs) <==> ImageRight(phdrs, data, b.mem)
  {
    if ImageRight(phdrs, data, b.mem) {
      forall s | 0 <= s < |phdrs| && phdrs[s].Loadable()
        ensures SegmentReads(b, data, phdrs[s])
      {
        forall va: u64 | phdrs[s].vaddr <= va < phdrs[s].vaddr + phdrs[s].memsz
          ensures ReadsRight(b, data, phdrs[s], va)
        {
          ByteReads(b, data, phdrs, s, va);
        }
      }
    }
    if ImageLoaded(b0, b, data, phdrs) {
      forall s: nat, x: u64 | InSegment(phdrs, s, x)
        ensures ByteRight(data, b.mem, phdrs[s], x)
      {
        assert SegmentReads(b, data, phdrs[s]);
        ByteReads(b, data, phdrs, s, phdrs[s].vaddr + (x - phdrs[s].paddr));
      }
    }
  }

  /** The bytes of the image are the same in two memories. */
  ghost predicate SameImage(phdrs: seq<Phdr>, mem: Memory, mem': Memory)
    requires AllFit(phdrs)
  {
    forall s: nat, x: u64 | InSegment(phdrs, s, x) :: ByteAt(mem', x) == ByteAt(mem, x)
  }

  lemma SameImageRight(phdrs: seq<Phdr>, data: seq<u8>, mem: Memory, mem': Memory)
    requires AllFit(phdrs) && SameImage(phdrs, mem, mem')
    ensures ImageRight(phdrs, data, mem) <==> ImageRight(phdrs, data, mem')
  {
    forall s: nat, x: u64 | InSegment(phdrs, s, x)
      ensures ByteRight(data, mem, phdrs[s], x) <==> ByteRight(data, mem', phdrs[s], x)
    {
      assert ByteAt(mem', x) == ByteAt(mem, x);
    }
  }

  lemma SameFramesSameImage(phdrs: seq<Phdr>, mem: Memory, mem': Memory, start: nat, count: nat)
    requires AllFit(phdrs) && InFrames(phdrs, start, count)
    requires forall f | f in Run(start, count) && f < FRAME_SPACE :: mem'[f] == mem[f]
    ensures SameImage(phdrs, mem, mem')
  {
    forall s: nat, x: u64 | InSegment(phdrs, s, x)
      ensures ByteAt(mem', x) == ByteAt(mem, x)
    {
      assert SegmentInFrames(phdrs[s], start, count);
      assert x / PAGE_SIZE in Run(start, count);
    }
  }

  /** A loaded segment has exactly the permissions of its program header on a page if and only if no later
      empty entry sets others there. */
  lemma OwnPermissions(b0: Boot, b: Boot, phdrs: seq<Phdr>, s: nat, va: u64)
    requires AllFit(phdrs) && ImagePlaced(b0, b, phdrs) && s < |phdrs| && phdrs[s].Loadable()
    requires phdrs[s].vaddr <= va < phdrs[s].vaddr + phdrs[s].memsz
    ensures b.Walk(va).Mapped? && b.Walk(va).pa == phdrs[s].paddr + (va - phdrs[s].vaddr)
    ensures (Writable(b.Walk(va).leaf) == (phdrs[s].flags / 2 % 2 == 1) &&
             ExecuteDisabled(b.Walk(va).leaf) == (phdrs[s].flags % 2 == 0))
            <==> Override(phdrs, |phdrs|, s, va) in {None, Some(phdrs[s].Attr())}
  {
    assert SegmentPlaced(b, phdrs, phdrs[s]);
    assert ByteReady(b, phdrs, phdrs[s], va);
    var j := ByteTouched(phdrs[s], va);
    LastAttrIsOwn(phdrs, |phdrs|, s, va);
  }

  /** And these are its effective permissions, if no table entry takes any away: `LoadKernel` keeps that. */
  lemma EffectivePermissions(b0: Boot, b: Boot, phdrs: seq<Phdr>, s: nat, va: u64)
    requires AllFit(phdrs) && ImagePlaced(b0, b, phdrs) && s < |phdrs| && phdrs[s].Loadable()
    requires phdrs[s].vaddr <= va < phdrs[s].vaddr + phdrs[s].memsz && b.Sound() && b.Open()
    ensures (MayWrite(b.Walk(va)) == (phdrs[s].flags / 2 % 2 == 1) &&
             MayExecute(b.Walk(va)) == (phdrs[s].flags % 2 == 1))
            <==> Override(phdrs, |phdrs|, s, va) in {None, Some(phdrs[s].Attr())}
  {
    OwnPermissions(b0, b, phdrs, s, va);
    OpenWalk(b.mem, b.Top(), b.layout, b.Top(), va);
  }

  // ----- the mapping pass -----

  /** A page that the mapper can map and go on: no larger page covers it, and it hides no table, or the segment is
      linked where it is loaded, so that the page is mapped to itself. */
  predicate CanMap(b: Boot, p: Phdr, va: u64) {
    b.NotHuge(va) && (Mappable(b, va) || (p.vaddr == p.paddr && Short(p)))
  }

  /** `k` pages of the segment are mapped. */
  ghost predicate Mapping(b0: Boot, b: Boot, p: Phdr, k: nat)
    requires p.Fits()
  {
    && k <= p.Pages() && b.Ready() && Kept(b0, b)
    && PagesMapped(b0, b, PageDown(p.vaddr), PageDown(p.paddr), k, p.TempAttr())
    && forall va: u64 :: p.Touches(va) ==> CanMap(b, p, va)
  }

  ghost predicate AllCanBeMapped(b: Boot, phdrs: seq<Phdr>)
    requires AllFit(phdrs)
  {
    forall s: nat, va: u64 | s < |phdrs| && phdrs[s].Loadable() && phdrs[s].Touches(va) :: CanMap(b, phdrs[s], va)
  }

  lemma MapStep(b0: Boot, b: Boot, b': Boot, p: Phdr, k: nat)
    requires p.Fits() && p.Loadable() && Mapping(b0, b, p, k) && k < p.Pages() && b'.Ready() && Kept(b, b')
    requires PageAt(PageDown(p.vaddr), k) < TWO_64 && PageAt(PageDown(p.paddr), k) < 0x10_0000_0000_0000
    requires !Settable(b, PageAt(PageDown(p.vaddr), k)) && OnlyPage(b, b', PageAt(PageDown(p.vaddr), k))
    requires MapsPage(b'.mem, b'.Top(), PageAt(PageDown(p.vaddr), k),
                      LeafFor(PageAt(PageDown(p.paddr), k), p.TempAttr()))
    ensures Mapping(b0, b', p, k + 1)
  {
    KeptTwice(b0, b, b');
    forall j: nat | j < k
      ensures PageAt(PageDown(p.vaddr), j) < TWO_64 && PageAt(PageDown(p.paddr), j) < 0x10_0000_0000_0000
    {
      PageBounds(p, j);
    }
    PagesMappedStep(b0, b, b', PageDown(p.vaddr), PageDown(p.paddr), k, p.TempAttr());
  }

  lemma PageTouched(p: Phdr, k: nat)
    requires p.Fits() && p.Loadable() && k < p.Pages() && PageAt(PageDown(p.vaddr), k) < TWO_64
    ensures p.Touches(PageAt(PageDown(p.vaddr), k))
  {
  }

  lemma SamePageMapped(b: Boot, b': Boot, page: u64, leaf: u64)
    requires SameWalks(b, b') && MapsPage(b.mem, b.Top(), page, leaf)
    ensures MapsPage(b'.mem, b'.Top(), page, leaf)
  {
    forall va: u64 | PageNo(va) == PageNo(page)
      ensures MappedBy(WalkFrom(b'.mem, 4, b'.Top(), va), leaf, va)
    {
      assert b'.Walk(va) == b.Walk(va);
    }
  }

  lemma OwnPageNo(x: u64)
    requires x < 0x1_0000_0000_0000 && x % PAGE_SIZE == 0
    ensures x == PageNo(x) * PAGE_SIZE
  {
    DivMod(x, PAGE_SIZE);
    QuotientUnique(x, 0x1_0000_0000_0000, 0, x);
  }

  lemma OwnPage(p: Phdr, k: nat)
    requires p.Fits() && p.Loadable() && k < p.Pages() && p.vaddr == p.paddr && Short(p)
    ensures PageAt(PageDown(p.paddr), k) < TWO_64
    ensures PageAt(PageDown(p.paddr), k) == PageNo(PageAt(PageDown(p.paddr), k)) * PAGE_SIZE
  {
    PageBounds(p, k);
    PageStarts(p, k);
    OwnPageNo(PageAt(PageDown(p.paddr), k));
  }

  lemma MapStopped(b0: Boot, b: Boot, b': Boot, p: Phdr, k: nat)
    requires p.Fits() && p.Loadable() && Mapping(b0, b, p, k) && Kept(b, b') && SameWalks(b, b')
    ensures Kept(b0, b') && SegmentPartlyMapped(b0, b', p)
  {
    KeptTwice(b0, b, b');
    var lo, pa := PageDown(p.vaddr), PageDown(p.paddr);
    forall j: nat | j < k && PageAt(lo, j) < TWO_64 && PageAt(pa, j) < TWO_64
      ensures MapsPage(b'.mem, b'.Top(), PageAt(lo, j), LeafFor(PageAt(pa, j), p.TempAttr()))
    {
      SamePageMapped(b, b', PageAt(lo, j), LeafFor(PageAt(pa, j), p.TempAttr()));
    }
    assert PagesMapped(b0, b', lo, pa, k, p.TempAttr());
  }

  /** The first `i` segments are mapped. */
  ghost predicate MappingAll(b0: Boot, b: Boot, phdrs: seq<Phdr>, i: nat)
    requires AllFit(phdrs)
  {
    i <= |phdrs| && b.Ready() && Kept(b0, b) && ImageMapped(b0, b, phdrs, i) && AllCanBeMapped(b, phdrs)
  }

  lemma StillMappable(b: Boot, b': Boot, phdrs: seq<Phdr>)
    requires AllFit(phdrs) && AllCanBeMapped(b, phdrs) && Kept(b, b') && NoNewHuge(b, b')
    ensures AllCanBeMapped(b', phdrs)
  {
    forall s: nat, va: u64 | s < |phdrs| && phdrs[s].Loadable() && phdrs[s].Touches(va)
      ensures CanMap(b', phdrs[s], va)
    {
      assert CanMap(b, phdrs[s], va);
    }
  }

  lemma MapAllStep(b0: Boot, b: Boot, b': Boot, phdrs: seq<Phdr>, i: nat)
    requires AllFit(phdrs) && MappingAll(b0, b, phdrs, i) && i < |phdrs| && phdrs[i].Loadable()
    requires b'.Ready() && Kept(b, b') && SegmentMapped(b, b', phdrs[i])
    ensures MappingAll(b0, b', phdrs, i + 1)
  {
    KeptTwice(b0, b, b');
    ImageMappedStep(b0, b, b', phdrs, i);
    PartlyMappedLocal(b, b', phdrs[i]);
    StillMappable(b, b', phdrs);
  }

  lemma StartMapping(b: Boot, phdrs: seq<Phdr>)
    requires AllFit(phdrs) && b.Ready() && AllCanBeMapped(b, phdrs)
    ensures MappingAll(b, b, phdrs, 0)
  {
  }

  // ----- the filling pass -----

  lemma TreeReadsTables(mem: Memory, mem': Memory, top: nat, layout: Layout)
    requires TreeOk(mem, top, layout)
    requires forall f | f in layout && f < FRAME_SPACE :: mem'[f] == mem[f]
    ensures TreeOk(mem', top, layout)
  {
    forall f, i | f in layout && 0 <= i < ENTRIES
      ensures EntryPlaced(mem', layout, f, i)
    {
      assert EntryPlaced(mem, layout, f, i);
    }
    forall g | g in layout && g != top
      ensures Referenced(mem', layout, g)
    {
      assert Referenced(mem, layout, g);
      var f, i :| RefersTo(mem, layout, f, i, g);
      assert RefersTo(mem', layout, f, i, g);
    }
  }

  /** Writes that miss every table change no translation and leave the tree as it is. */
  lemma TablesMissed(b: Boot, b': Boot, start: nat, count: nat)
    requires b.Sound() && b' == b.(mem := b'.mem) && Run(start, count) !! b.layout.Keys
    requires OnlyIn(b.mem, b'.mem, Run(start, count))
    ensures b'.Sound() && SameWalks(b, b')
  {
    assert forall f | f in b.layout && f < FRAME_SPACE :: b'.mem[f] == b.mem[f];
    forall va: u64
      ensures b'.Walk(va) == b.Walk(va)
    {
      WalkReadsTables(b.mem, b'.mem, b.Top(), b.layout, b.Top(), va);
    }
    TreeReadsTables(b.mem, b'.mem, b.Top(), b.layout);
  }

  function Zeros(n: nat): seq<u8> { seq(n, _ => 0) }

  /** Reading the file part stores what belongs there, and so does clearing the rest. */
  lemma FilePartStored(phdrs: seq<Phdr>, data: seq<u8>, p: Phdr, got: seq<u8>, mem0: Memory, mem: Memory)
    requires AllFit(phdrs) && p.Fits() && p.Loadable() && |got| == p.filesz && IsPart(data, p.offset, got)
    requires mem == Apply(mem0, Log(Targets(phdrs, p), 0, got))
    ensures mem == Stored(phdrs, data, p, p.filesz, mem0)
  {
    StoredByLog(phdrs, data, p, 0, got, mem0);
  }

  lemma RestStored(phdrs: seq<Phdr>, data: seq<u8>, p: Phdr, mem0: Memory, mem: Memory, mem': Memory)
    requires AllFit(phdrs) && p.Fits() && p.Loadable() && mem == Stored(phdrs, data, p, p.filesz, mem0)
    requires mem' == Apply(mem, Log(Targets(phdrs, p), p.filesz, Zeros(p.memsz - p.filesz)))
    ensures mem' == Stored(phdrs, data, p, p.memsz, mem0)
  {
    StoredByLog(phdrs, data, p, p.filesz, Zeros(p.memsz - p.filesz), mem0);
  }

  /** The first `i` segments are filled. */
  ghost predicate FilledFirst(phdrs: seq<Phdr>, i: nat, data: seq<u8>, before: Memory, mem: Memory)
    requires AllFit(phdrs)
  {
    FileHoldsFirst(phdrs, i, data) && mem == FillImage(phdrs, data, before, i)
  }

  /** The segment is filled, and the file has what it takes. */
  ghost predicate SegmentStored(phdrs: seq<Phdr>, data: seq<u8>, p: Phdr, mem: Memory, mem': Memory)
    requires AllFit(phdrs) && p.paddr + p.memsz <= TWO_64
  {
    (p.filesz > 0 ==> p.offset + p.filesz <= |data|) && mem' == Stored(phdrs, data, p, p.memsz, mem)
  }

  lemma NextFilled(phdrs: seq<Phdr>, i: nat, data: seq<u8>, before: Memory, mem: Memory, mem': Memory)
    requires AllFit(phdrs) && i < |phdrs| && FilledFirst(phdrs, i, data, before, mem)
    requires if phdrs[i].Loadable() then SegmentStored(phdrs, data, phdrs[i], mem, mem') else mem' == mem
    ensures FilledFirst(phdrs, i + 1, data, before, mem')
  {
    FileHoldsNext(phdrs, i, data);
  }

  // ----- all passes -----

  /** Frames that were in use, and are no tables, keep their contents. */
  ghost predicate FramesKept(b: Boot, b': Boot) {
    && b.held <= b'.held && b'.layout.Keys <= b.layout.Keys + (b'.held - b.held)
    && forall f | f in b.held && f !in b.layout && f < FRAME_SPACE :: b'.mem[f] == b.mem[f]
  }

  lemma StillKept(b: Boot, b': Boot, b'': Boot)
    requires FramesKept(b, b') && Kept(b', b'')
    ensures FramesKept(b, b'')
  {
  }

  /** Writing the image disturbs no frame that was in use before its frames were reserved. */
  lemma FillKeepsFrames(b: Boot, b': Boot, b'': Boot, image: set<nat>)
    requires FramesKept(b, b') && image !! b.held
    requires b'' == b'.(mem := b''.mem) && OnlyIn(b'.mem, b''.mem, image)
    ensures FramesKept(b, b'')
  {
  }

  ghost predicate NothingHuge(b: Boot, phdrs: seq<Phdr>)
    requires AllFit(phdrs)
  {
    forall s: nat, va: u64 | s < |phdrs| && phdrs[s].Loadable() && phdrs[s].Touches(va) :: b.NotHuge(va)
  }

  /** Reserving the image's frames makes its segments mappable. */
  lemma ReservedCanBeMapped(b0: Boot, b: Boot, phdrs: seq<Phdr>, image: set<nat>)
    requires AllFit(phdrs) && SameWalks(b0, b) && b.limit == b0.limit
    requires NothingHuge(b0, phdrs) && SparesTables(b0, phdrs)
    requires image <= b.moved && forall f | InSpan(phdrs, f) :: f in image
    requires forall f | f in b0.held && f !in b0.layout :: f in b.moved
    ensures AllCanBeMapped(b, phdrs)
  {
    forall s: nat, va: u64 | s < |phdrs| && phdrs[s].Loadable() && phdrs[s].Touches(va)
      ensures CanMap(b, phdrs[s], va)
    {
      assert b0.NotHuge(va) && b.Walk(va) == b0.Walk(va);
    }
  }

  /** Below the limit every byte of the reserved image was mapped to itself. */
  lemma ReservedLands(b0: Boot, b: Boot, phdrs: seq<Phdr>, start: nat, count: nat)
    requires AllFit(phdrs) && b0.Flat() && b0.moved == {} && SameWalks(b0, b)
    requires InFrames(phdrs, start, count) && start + count <= b0.limit
    ensures StoresLand(b, phdrs) && AllShort(phdrs)
  {
    forall s: nat, x: u64 | InSegment(phdrs, s, x)
      ensures b.Itself(x)
    {
      assert SegmentInFrames(phdrs[s], start, count);
      assert b0.Low(x) && b0.Itself(x);
    }
    forall s | 0 <= s < |phdrs| && phdrs[s].Loadable()
      ensures Short(phdrs[s])
    {
      assert SegmentInFrames(phdrs[s], start, count);
    }
  }

  /** Letting the addresses of frames that are held, and are no tables, be mapped elsewhere keeps the rest of the
      identity map. */
  lemma ReservedFlat(b: Boot, b': Boot, image: set<nat>)
    requires b.Ready() && b.moved == {} && image !! b.held
    requires b' == b.(held := b.held + image, moved := b.held + image - b.layout.Keys)
    ensures b'.Ready() && SameWalks(b, b')
  {
    forall x: u64 | b'.Low(x)
      ensures b'.Itself(x)
    {
      assert b.Low(x) && b.Itself(x);
    }
  }

  /** The frames of the image are set aside, and whatever is no table may be mapped elsewhere. */
  ghost predicate SetAside(b0: Boot, b: Boot, phdrs: seq<Phdr>, start: nat, count: nat)
    requires AllFit(phdrs)
  {
    && InFrames(phdrs, start, count) && Run(start, count) !! b0.held
    && Run(start, count) <= b.moved && start + count <= b.limit
    && (forall f | f in b0.held && f !in b0.layout :: f in b.moved)
    && forall f | InSpan(phdrs, f) :: f in Run(start, count)
  }

  lemma FramesSetAside(b0: Boot, b: Boot, b': Boot, phdrs: seq<Phdr>, lo: u64, hi: u64, start: nat, count: nat)
    requires AllFit(phdrs) && ImageRange(phdrs, |phdrs|, lo, hi) && lo != NO_PHYS && InFrames(phdrs, start, count)
    requires lo <= hi && start == lo / PAGE_SIZE && count == (hi - lo) / PAGE_SIZE && start + count <= b.limit
    requires b.Ready() && b.moved == {} && Run(start, count) !! b.held && FramesKept(b0, b)
    requires b' == b.(held := b.held + Run(start, count), moved := b.held + Run(start, count) - b.layout.Keys)
    ensures b'.Ready() && SameWalks(b, b') && FramesKept(b0, b') && SetAside(b0, b', phdrs, start, count)
    ensures b.Open() ==> b'.Open()
  {
    ReservedFlat(b, b', Run(start, count));
    forall f | InSpan(phdrs, f)
      ensures f in Run(start, count)
    {
      SpanInRange(phdrs, lo, hi, f);
    }
  }

  lemma FilledReady(b: Boot, b': Boot, start: nat, count: nat)
    requires b.Ready() && b' == b.(mem := b'.mem) && Run(start, count) !! b.layout.Keys
    requires OnlyIn(b.mem, b'.mem, Run(start, count))
    ensures b'.Ready() && SameWalks(b, b') && (b.Open() ==> b'.Open())
  {
    TablesMissed(b, b', start, count);
    StaysFlat(b, b');
  }

  lemma InPlaceSameWalks(b: Boot, b': Boot, p: Phdr)
    requires p.Fits() && InPlace(b, p) && SameWalks(b, b')
    ensures InPlace(b', p)
  {
    forall va: u64 | p.Touches(va)
      ensures PageInPlace(b', p, va) && Settable(b', va)
    {
      assert b'.Walk(va) == b.Walk(va) && Settable(b, va);
    }
  }

  /** Mapping and protecting all segments, with stores to the image in between, place the image. */
  lemma PassesPlaceImage(b0: Boot, b1: Boot, mapped: Boot, filled: Boot, b: Boot, phdrs: seq<Phdr>)
    requires AllFit(phdrs) && AllShort(phdrs) && SameWalks(b0, b1) && ImageMapped(b1, mapped, phdrs, |phdrs|)
    requires SameWalks(mapped, filled) && Protected(filled, b, phdrs, |phdrs|)
    ensures ImagePlaced(b0, b, phdrs)
  {
    forall s | 0 <= s < |phdrs| && phdrs[s].Loadable()
      ensures SegmentPlaced(b, phdrs, phdrs[s])
    {
      InPlaceSameWalks(mapped, filled, phdrs[s]);
      forall va: u64 | phdrs[s].vaddr <= va < phdrs[s].vaddr + phdrs[s].memsz
        ensures ByteReady(b, phdrs, phdrs[s], va)
      {
        ImageReady(filled, b, phdrs, s, va);
      }
    }
    forall va: u64 | !TouchedBefore(phdrs, |phdrs|, va)
      ensures PageProtected(b0, b, va, LastAttr(phdrs, |phdrs|, va))
    {
      assert filled.Walk(va) == mapped.Walk(va) == b1.Walk(va) == b0.Walk(va);
      assert PageProtected(filled, b, va, LastAttr(phdrs, |phdrs|, va));
    }
  }

  /** The image read back is right exactly if what the filling pass left in memory is. */
  lemma ReadsWhatWasFilled(b0: Boot, b: Boot, data: seq<u8>, phdrs: seq<Phdr>, before: Memory, start: nat, count: nat)
    requires AllFit(phdrs) && ImagePlaced(b0, b, phdrs) && FileHolds(phdrs, data) && InFrames(phdrs, start, count)
    requires var filled := FillImage(phdrs, data, before, |phdrs|);
             forall f | f in Run(start, count) && f < FRAME_SPACE :: b.mem[f] == filled[f]
    ensures ImageLoaded(b0, b, data, phdrs) <==> ImageRight(phdrs, data, FillImage(phdrs, data, before, |phdrs|))
  {
    SameFramesSameImage(phdrs, FillImage(phdrs, data, before, |phdrs|), b.mem, start, count);
    SameImageRight(phdrs, data, FillImage(phdrs, data, before, |phdrs|), b.mem);
    LoadedIffRight(b0, b, data, phdrs);
  }

  lemma PassesDone(b0: Boot, b1: Boot, mapped: Boot, filled: Boot, b: Boot, data: seq<u8>, phdrs: seq<Phdr>,
                   start: nat, count: nat)
    requires AllFit(phdrs) && AllShort(phdrs) && SameWalks(b0, b1) && ImageMapped(b1, mapped, phdrs, |phdrs|)
    requires SameWalks(mapped, filled) && Protected(filled, b, phdrs, |phdrs|)
    requires FileHolds(phdrs, data) && InFrames(phdrs, start, count)
    requires var right := FillImage(phdrs, data, mapped.mem, |phdrs|);
             forall f | f in Run(start, count) && f < FRAME_SPACE :: b.mem[f] == right[f]
    ensures ImagePlaced(b0, b, phdrs)
    ensures ImageLoaded(b0, b, data, phdrs) <==> ImageRight(phdrs, data, FillImage(phdrs, data, mapped.mem, |phdrs|))
  {
    PassesPlaceImage(b0, b1, mapped, filled, b, phdrs);
    ReadsWhatWasFilled(b0, b, data, phdrs, mapped.mem, start, count);
  }

  lemma ProtectFailsIff(b0: Boot, b1: Boot, mapped: Boot, filled: Boot, phdrs: seq<Phdr>)
    requires AllFit(phdrs) && SameWalks(b0, b1) && ImageMapped(b1, mapped, phdrs, |phdrs|) && SameWalks(mapped, filled)
    ensures Protectable(filled, phdrs, |phdrs|) <==> EmptyEntriesSettable(b0, phdrs)
  {
    ProtectableIff(b1, mapped, filled, phdrs);
    EmptyEntriesSame(b0, b1, phdrs);
  }

  /** Every store of the filling pass goes where `Targets` says, whatever the frames of the image hold. */
  ghost predicate AllFirm(mem: Memory, cr3: u64, phdrs: seq<Phdr>, image: set<nat>)
    requires AllFit(phdrs)
  {
    forall s | 0 <= s < |phdrs| && phdrs[s].Loadable() ::
      Firm(mem, cr3, phdrs[s].paddr, Targets(phdrs, phdrs[s]), image)
  }

  lemma AllStoresFirm(b0: Boot, b: Boot, phdrs: seq<Phdr>, start: nat, count: nat)
    requires AllFit(phdrs) && ImageMapped(b0, b, phdrs, |phdrs|) && StoresLand(b0, phdrs) && b.Sound()
    requires InFrames(phdrs, start, count)
    requires (start + count) * PAGE_SIZE <= PHYS_LIMIT && Run(start, count) !! b.layout.Keys
    ensures AllFirm(b.mem, b.cr3, phdrs, Run(start, count))
  {
    forall s | 0 <= s < |phdrs| && phdrs[s].Loadable()
      ensures Firm(b.mem, b.cr3, phdrs[s].paddr, Targets(phdrs, phdrs[s]), Run(start, count))
    {
      StoresFirm(b0, b, phdrs, s, start, count);
    }
  }

  class KernelLoader {
    const mapper: Mapper
    const file: File

    constructor (mapper: Mapper, file: File)
      ensures this.mapper == mapper && this.file == file
    {
      this.mapper, this.file := mapper, file;
    }

    ghost function View(): Boot
      reads mapper, mapper.machine, mapper.firmware
    {
      mapper.View()
    }

    /** Page `k` in the loop of `map_segment_for_load`. */
    method MapNextPage(p: Phdr, ghost b0: Boot, k: nat) returns (st: Status)
      requires p.Fits() && p.Loadable() && k < p.Pages() && Mapping(b0, View(), p, k)
      modifies mapper`layout, mapper.machine`mem, mapper.firmware
      ensures View().Ready() && Kept(b0, View()) && SegmentPartlyMapped(b0, View(), p)
      ensures st.Success? ==> Mapping(b0, View(), p, k + 1)
      ensures old(mapper.firmware.refusals) <= mapper.firmware.refusals
      ensures st.Success? ==> mapper.firmware.refusals == old(mapper.firmware.refusals)
      ensures !st.Success? ==>
                mapper.firmware.refusals > old(mapper.firmware.refusals) || (Short(p) ==> Taken(b0, p))
    {
      ghost var b := View();
      PageBounds(p, k);
      var page: u64, frame: u64 := PageAt(PageDown(p.vaddr), k), PageAt(PageDown(p.paddr), k);
      assert CanMap(b, p, page) by {
        PageTouched(p, k);
      }
      if !Mappable(b, page) {
        OwnPage(p, k);
      }
      st := mapper.Map4kTo(page, frame, p.TempAttr());
      if st.Success? {
        MapStep(b0, b, View(), p, k);
      } else {
        MapStopped(b0, b, View(), p, k);
        if st.AlreadyStarted? && Short(p) {
          PageTaken(b0, b, p, k);
        }
      }
    }

    /** `map_segment_for_load`. */
    method MapSegment(p: Phdr) returns (st: Status)
      requires View().Ready() && p.Fits() && p.Loadable()
      requires forall va: u64 | p.Touches(va) :: CanMap(View(), p, va)
      modifies mapper`layout, mapper.machine`mem, mapper.firmware
      ensures View().Ready() && Kept(old(View()), View())
      ensures SegmentPartlyMapped(old(View()), View(), p)
      ensures st.Success? ==> SegmentMapped(old(View()), View(), p)
      ensures old(mapper.firmware.refusals) <= mapper.firmware.refusals
      ensures st.Success? ==> mapper.firmware.refusals == old(mapper.firmware.refusals)
      ensures !st.Success? ==>
                mapper.firmware.refusals > old(mapper.firmware.refusals) || (Short(p) ==> Taken(old(View()), p))
    {
      ghost var b0 := View();
      var size, k := p.RoundedSize(), 0;
      while k * PAGE_SIZE < size
        invariant Mapping(b0, View(), p, k) && mapper.firmware.refusals == old(mapper.firmware.refusals)
        decreases p.Pages() - k
      {
        st := MapNextPage(p, b0, k);
        if !st.Success? {
          return;
        }
        k := k + 1;
      }
      return Success;
    }

    /** Mapping all non-empty segments. */
    method MapAll(phdrs: seq<Phdr>) returns (st: Status)
      requires AllFit(phdrs) && View().Ready() && AllCanBeMapped(View(), phdrs)
      modifies mapper`layout, mapper.machine`mem, mapper.firmware
      ensures View().Ready() && Kept(old(View()), View())
      ensures st.Success? ==> ImageMapped(old(View()), View(), phdrs, |phdrs|)
      ensures old(mapper.firmware.refusals) <= mapper.firmware.refusals
      ensures AllShort(phdrs) ==>
                (st.Success? <==> mapper.firmware.refusals == old(mapper.firmware.refusals) &&
                                  !ImageTaken(old(View()), phdrs))
    {
      ghost var b0 := View();
      StartMapping(b0, phdrs);
      for i := 0 to |phdrs|
        invariant MappingAll(b0, View(), phdrs, i) && SegmentsFree(b0, phdrs, i)
        invariant mapper.firmware.refusals == old(mapper.firmware.refusals)
      {
        ghost var b := View();
        if !phdrs[i].Loadable() {
          ImageMappedSkip(b0, b, phdrs, i);
          continue;
        }
        st := MapSegment(phdrs[i]);
        if !st.Success? {
          KeptTwice(b0, b, View());
          if Taken(b, phdrs[i]) {
            TakenInImage(b0, b, phdrs, i);
          }
          return;
        }
        MapAllStep(b0, b, View(), phdrs, i);
        OneMoreFree(b0, b, View(), phdrs, i);
      }
      return Success;
    }

    /** The physical range of the image. */
    static method RangeOfImage(phdrs: seq<Phdr>) returns (lo: u64, hi: u64)
      requires AllFit(phdrs)
      ensures ImageRange(phdrs, |phdrs|, lo, hi)
      ensures lo == NO_PHYS <==> forall s | 0 <= s < |phdrs| :: !phdrs[s].Loadable()
    {
      lo, hi := NO_PHYS, 0;
      for i := 0 to |phdrs|
        invariant ImageRange(phdrs, i, lo, hi)
        invariant lo == NO_PHYS <==> forall s | 0 <= s < i :: !phdrs[s].Loadable()
        invariant lo == NO_PHYS ==> hi == 0
      {
        if phdrs[i].Loadable() {
          var segLo, segHi := PageDown(phdrs[i].paddr), PageUp(phdrs[i].paddr + phdrs[i].memsz);
          SegmentPages(phdrs[i]);
          ImageRangeStep(phdrs, i, lo, hi);
          if segLo < lo { lo := segLo; }
          if segHi > hi { hi := segHi; }
        }
      }
    }

    /** Reading the file part of a segment through the pointer `p_paddr`. */
    method FillFilePart(phdrs: seq<Phdr>, p: Phdr, ghost before: Memory, ghost image: set<nat>) returns (st: Status)
      requires AllFit(phdrs) && p.Fits() && p.Loadable()
      requires Firm(before, mapper.machine.cr3, p.paddr, Targets(phdrs, p), image)
      requires OnlyIn(before, mapper.machine.mem, image)
      modifies mapper.machine`mem, file
      ensures OnlyIn(before, mapper.machine.mem, image)
      ensures st.Success? ==>
                && (p.filesz > 0 ==> p.offset + p.filesz <= |file.data|)
                && mapper.machine.mem == Stored(phdrs, file.data, p, p.filesz, old(mapper.machine.mem))
      ensures st.Success? <==>
                file.faults == old(file.faults) && (p.filesz > 0 ==> p.offset + p.filesz <= |file.data|)
    {
      if p.filesz == 0 {
        return Success;
      }
      ghost var mem0, targets, got := mapper.machine.mem, Targets(phdrs, p), [];
      st, got := ReadAt(mapper.machine, file, p.offset, p.paddr, p.filesz, before, targets, image);
      if st.Success? {
        FilePartStored(phdrs, file.data, p, got, mem0, mapper.machine.mem);
      }
    }

    /** Clearing the rest of a segment. */
    method ClearRest(phdrs: seq<Phdr>, p: Phdr, ghost before: Memory, ghost image: set<nat>, ghost mem0: Memory)
      requires AllFit(phdrs) && p.Fits() && p.Loadable()
      requires Firm(before, mapper.machine.cr3, p.paddr, Targets(phdrs, p), image)
      requires OnlyIn(before, mapper.machine.mem, image)
      requires mapper.machine.mem == Stored(phdrs, file.data, p, p.filesz, mem0)
      modifies mapper.machine`mem
      ensures OnlyIn(before, mapper.machine.mem, image)
      ensures mapper.machine.mem == Stored(phdrs, file.data, p, p.memsz, mem0)
    {
      ghost var mem := mapper.machine.mem;
      WriteBytes(mapper.machine, p.paddr, p.filesz, Zeros(p.memsz - p.filesz), before, Targets(phdrs, p), image);
      RestStored(phdrs, file.data, p, mem0, mem, mapper.machine.mem);
    }

    /** Both, for one segment. */
    method FillSegment(phdrs: seq<Phdr>, p: Phdr, ghost before: Memory, ghost image: set<nat>) returns (st: Status)
      requires AllFit(phdrs) && p.Fits() && p.Loadable()
      requires Firm(before, mapper.machine.cr3, p.paddr, Targets(phdrs, p), image)
      requires OnlyIn(before, mapper.machine.mem, image)
      modifies mapper.machine`mem, file
      ensures OnlyIn(before, mapper.machine.mem, image)
      ensures st.Success? ==> SegmentStored(phdrs, file.data, p, old(mapper.machine.mem), mapper.machine.mem)
      ensures st.Success? <==>
                file.faults == old(file.faults) && (p.filesz > 0 ==> p.offset + p.filesz <= |file.data|)
    {
      ghost var mem0 := mapper.machine.mem;
      st := FillFilePart(phdrs, p, before, image);
      if st.Success? && p.memsz > p.filesz {
        ClearRest(phdrs, p, before, image, mem0);
      }
    }

    /** Reading and clearing all non-empty segments. */
    method FillAll(phdrs: seq<Phdr>, ghost image: set<nat>) returns (st: Status)
      requires AllFit(phdrs) && AllFirm(mapper.machine.mem, mapper.machine.cr3, phdrs, image)
      modifies mapper.machine`mem, file
      ensures OnlyIn(old(mapper.machine.mem), mapper.machine.mem, image)
      ensures st.Success? ==> FilledFirst(phdrs, |phdrs|, file.data, old(mapper.machine.mem), mapper.machine.mem)
      ensures st.Success? <==> file.faults == old(file.faults) && FileHolds(phdrs, file.data)
    {
      ghost var before := mapper.machine.mem;
      for i := 0 to |phdrs|
        invariant OnlyIn(before, mapper.machine.mem, image)
        invariant FilledFirst(phdrs, i, file.data, before, mapper.machine.mem) && file.faults == old(file.faults)
      {
        ghost var mem := mapper.machine.mem;
        if phdrs[i].Loadable() {
          st := FillSegment(phdrs, phdrs[i], before, image);
          if !st.Success? {
            return;
          }
        }
        NextFilled(phdrs, i, file.data, before, mem, mapper.machine.mem);
      }
      return Success;
    }

    /** `finalize_segment_protection` for every PT_LOAD entry, empty ones included. */
    method ProtectAll(phdrs: seq<Phdr>) returns (st: Status)
      requires AllFit(phdrs) && View().Ready()
      modifies mapper.machine`mem
      ensures View().Ready() && Kept(old(View()), View())
      ensures st.Success? ==> Protected(old(View()), View(), phdrs, |phdrs|)
      ensures st.Success? <==> Protectable(old(View()), phdrs, |phdrs|)
    {
      ghost var b0 := View();
      for i := 0 to |phdrs|
        invariant View().Ready() && Kept(b0, View()) && Protected(b0, View(), phdrs, i) && Protectable(b0, phdrs, i)
      {
        ghost var b := View();
        if !phdrs[i].IsLoad() {
          ProtectedSkip(b0, b, phdrs, i);
          continue;
        }
        ProtectedPages(phdrs[i]);
        st := mapper.ApplyAttrRange(PageDown(phdrs[i].vaddr), phdrs[i].RoundedSize(), phdrs[i].Attr());
        KeptTwice(b0, b, View());
        NextProtectable(b0, b, phdrs, i);
        if !st.Success? {
          NotProtectable(b0, phdrs, i + 1);
          return;
        }
        ProtectedStep(b0, b, View(), phdrs, i);
      }
      return Success;
    }

    /** Allocating the frames from `lo` to `hi`. */
    method TakeFrames(phdrs: seq<Phdr>, lo: u64, hi: u64, ghost b0: Boot)
      returns (st: Status, ghost start: nat, ghost count: nat)
      requires AllFit(phdrs) && ImageRange(phdrs, |phdrs|, lo, hi) && lo != NO_PHYS && HasSegment(phdrs)
      requires View().Ready() && mapper.moved == {} && FramesKept(b0, View())
      modifies mapper`moved, mapper.firmware
      ensures View().Ready() && SameWalks(old(View()), View()) && FramesKept(b0, View())
      ensures old(View()).Open() ==> View().Open()
      ensures mapper.firmware.refusals == old(mapper.firmware.refusals) + if st.Success? then 0 else 1
      ensures st.Success? ==> SetAside(b0, View(), phdrs, start, count)
    {
      ghost var b := View();
      RangeFrames(phdrs, lo, hi);
      start, count := lo / PAGE_SIZE, (hi - lo) / PAGE_SIZE;
      st := mapper.firmware.AllocateRunAt(lo / PAGE_SIZE, (hi - lo) / PAGE_SIZE);
      if st.Success? {
        mapper.moved := mapper.firmware.held - mapper.layout.Keys;
        FramesSetAside(b0, b, View(), phdrs, lo, hi, start, count);
      }
    }

    /** `page_set_lv4_writable`, then reserving the frames of the image. */
    method Reserve(phdrs: seq<Phdr>) returns (st: Status, stage: Stage, ghost start: nat, ghost count: nat)
      requires AllFit(phdrs) && View().Ready() && mapper.moved == {}
      modifies mapper, mapper.machine, mapper.firmware
      ensures View().Ready() && SameWalks(old(View()), View()) && FramesKept(old(View()), View())
      ensures old(View()).Open() ==> View().Open()
      ensures st.Success? <==> stage.Done?
      ensures stage.NothingToLoad? ==> st == LoadError
      ensures stage.Done? || stage.NothingToLoad? || stage.NotWritable? || stage.NoFrames?
      ensures mapper.firmware.refusals == old(mapper.firmware.refusals) +
                                         if stage.NotWritable? || stage.NoFrames? then 1 else 0
      ensures stage.NotWritable? || (stage.NothingToLoad? <==> !HasSegment(phdrs))
      ensures st.Success? ==> SetAside(old(View()), View(), phdrs, start, count)
    {
      ghost var b0 := View();
      start, count := 0, 0;
      st := mapper.SetLv4Writable();
      if !st.Success? {
        return st, NotWritable, start, count;
      }
      var lo, hi := RangeOfImage(phdrs);
      if lo == NO_PHYS {
        return LoadError, NothingToLoad, start, count;
      }
      st, start, count := TakeFrames(phdrs, lo, hi, b0);
      stage := if st.Success? then Done else NoFrames;
    }

    /** The last two passes of `load_kernel_elf`. */
    method FillAndProtect(phdrs: seq<Phdr>, ghost b0: Boot, ghost first: nat, ghost count: nat)
      returns (st: Status, stage: Stage, ghost filled: Boot)
      requires AllFit(phdrs) && View().Ready() && FramesKept(b0, View())
      requires AllFirm(mapper.machine.mem, mapper.machine.cr3, phdrs, Run(first, count))
      requires Run(first, count) !! View().layout.Keys && Run(first, count) <= View().held - b0.held
      modifies mapper.machine`mem, file
      ensures View().Ready() && FramesKept(b0, View()) && (old(View()).Open() ==> View().Open())
      ensures (stage.ReadFailed? && !st.Success?) || (st.Success? && (stage.ProtectFailed? || stage.Done?))
      ensures st.Success? <==> file.faults == old(file.faults) && FileHolds(phdrs, file.data)
      ensures stage.Done? <==> st.Success? && Protectable(filled, phdrs, |phdrs|)
      ensures SameWalks(old(View()), filled)
      ensures stage.Done? ==>
                && FileHolds(phdrs, file.data) && Protected(filled, View(), phdrs, |phdrs|)
                && var right := FillImage(phdrs, file.data, old(mapper.machine.mem), |phdrs|);
                   forall f | f in Run(first, count) && f < FRAME_SPACE :: mapper.machine.mem[f] == right[f]
    {
      ghost var b := View();
      st := FillAll(phdrs, Run(first, count));
      filled := View();
      FilledReady(b, filled, first, count);
      FillKeepsFrames(b0, b, filled, Run(first, count));
      if !st.Success? {
        return st, ReadFailed, filled;
      }
      var inner := ProtectAll(phdrs);
      StillKept(b0, filled, View());
      stage := if inner.Success? then Done else ProtectFailed;
    }

    /** The passes of `load_kernel_elf` over the image, once its frames are reserved. */
    method LoadReserved(phdrs: seq<Phdr>, ghost b0: Boot, ghost first: nat, ghost count: nat)
      returns (stage: Stage, ghost before: Memory, st: Status)
      requires AllFit(phdrs) && View().Ready() && AllCanBeMapped(View(), phdrs) && HasSegment(phdrs)
      requires StoresLand(View(), phdrs) && AllShort(phdrs) && InFrames(phdrs, first, count)
      requires (first + count) * PAGE_SIZE <= PHYS_LIMIT
      requires FramesKept(b0, View()) && SameWalks(b0, View())
      requires Run(first, count) <= View().held - b0.held && Run(first, count) !! View().layout.Keys
      modifies mapper`layout, mapper.machine`mem, mapper.firmware, file
      ensures View().Ready() && FramesKept(b0, View()) && (old(View()).Open() ==> View().Open())
      ensures st.Success? <==> !stage.ReadFailed?
      ensures stage.MapFailed? || stage.ReadFailed? || stage.ProtectFailed? || stage.Done?
      ensures Explains(stage, mapper.firmware.refusals != old(mapper.firmware.refusals),
                       file.faults != old(file.faults), b0, phdrs, file.data)
      ensures stage.Done? ==>
                && ImagePlaced(b0, View(), phdrs)
                && (ImageLoaded(b0, View(), file.data, phdrs) <==>
                    ImageRight(phdrs, file.data, FillImage(phdrs, file.data, before, |phdrs|)))
    {
      ghost var b1 := View();
      TakenSame(b0, b1, phdrs);
      var inner := MapAll(phdrs);
      ghost var b2 := View();
      before := b2.mem;
      StillKept(b0, b1, b2);
      if !inner.Success? {
        return MapFailed, before, Success;
      }
      AllStoresFirm(b1, b2, phdrs, first, count);
      ghost var filled;
      st, stage, filled := FillAndProtect(phdrs, b0, first, count);
      ProtectFailsIff(b0, b1, b2, filled, phdrs);
      if stage.Done? {
        PassesDone(b0, b1, b2, filled, View(), file.data, phdrs, first, count);
      }
    }

    /** `load_kernel_elf` from the program headers on. The image is read back as the file says if and only if what
        the filling pass leaves in memory is right, which is so for every file if every byte of the image arrives.
        The status of a failed mapping or protection pass is lost: a second variable named `st` hides the one that
        is returned. */
    method LoadKernel(phdrs: seq<Phdr>, start: u64)
      returns (st: Status, entry: Option<u64>, ghost stage: Stage, ghost before: Memory)
      requires AllFit(phdrs) && View().Ready() && mapper.moved == {} && NothingHuge(View(), phdrs)
      requires SparesTables(View(), phdrs)
      modifies mapper, mapper.machine, mapper.firmware, file
      ensures View().Ready() && FramesKept(old(View()), View()) && (old(View()).Open() ==> View().Open())
      ensures st.Success? <==> stage.MapFailed? || stage.ProtectFailed? || stage.Done?
      ensures entry == if stage.Done? then Some(start) else None
      ensures stage.Done? ==> ImagePlaced(old(View()), View(), phdrs) && FileHolds(phdrs, file.data)
      ensures stage.Done? ==>
                (ImageLoaded(old(View()), View(), file.data, phdrs) <==>
                 ImageRight(phdrs, file.data, FillImage(phdrs, file.data, before, |phdrs|)))
      ensures stage.Done? && EveryByteArrives(phdrs) ==>
                ImageLoaded(old(View()), View(), file.data, phdrs) && ImageInMemory(View(), file.data, phdrs)
      ensures stage.NotWritable? || stage.NothingToLoad? || stage.NoFrames? ==> SameWalks(old(View()), View())
      ensures Explains(stage, mapper.firmware.refusals != old(mapper.firmware.refusals),
                       file.faults != old(file.faults), old(View()), phdrs, file.data)
      ensures entry.Some? <==>
                && mapper.firmware.refusals == old(mapper.firmware.refusals) && file.faults == old(file.faults)
                && CanLoad(old(View()), phdrs, file.data)
    {
      ghost var b0 := View();
      before := b0.mem;
      var reached;
      ghost var first, count;
      st, reached, first, count := Reserve(phdrs);
      if !st.Success? {
        return st, None, reached, before;
      }
      ghost var b1 := View();
      ReservedCanBeMapped(b0, b1, phdrs, Run(first, count));
      ReservedLands(b0, b1, phdrs, first, count);
      reached, before, st := LoadReserved(phdrs, b0, first, count);
      if !reached.Done? {
        return st, None, reached, before;
      }
      if EveryByteArrives(phdrs) {
        ArrivesRight(phdrs, file.data, before);
        LoadedInMemory(b0, View(), file.data, phdrs);
      }
      return st, Some(start), reached, before;
    }
  }
}
