/** The bootloader's page mapper (bootloader/arch/x86/arch_x86_page.c). Table frames are reached through
    the firmware's identity map, so a table is the frame its address names. */
module Mapper {
  import opened Bits
  import opened Division
  import opened Entry
  import opened Mmu
  import opened Machine
  import opened BootTree
  import opened Permissions
  import opened Efi

  datatype PageAttr = RO | RW | RX | RWX
  {
    predicate CanWrite() { RW? || RWX? }

    predicate NoExecute() { RO? || RW? }
  }

  /** `entry_addr`, as a frame number: the 51-bit address field. */
  function AddressField(e: u64): nat { e / PAGE_SIZE % 0x8_0000_0000_0000 }

  lemma PlainAddressField(e: u64)
    requires PlainAddress(e)
    ensures AddressField(e) == FrameOf(e)
  {
    var q := e / PAGE_SIZE;
    assert q / FRAME_SPACE == e / 0x10_0000_0000_0000;
    assert q == q / FRAME_SPACE * FRAME_SPACE + q % FRAME_SPACE;
    var h := q / FRAME_SPACE;
    assert h == h / 0x800 * 0x800;
    assert q == h / 0x800 * 0x8_0000_0000_0000 + q % FRAME_SPACE;
  }

  /** `pte_apply_attr`: assign the R/W bit and the XD bit. */
  function ApplyAttr(e: u64, attr: PageAttr): (r: u64) {
    Pow2Of64();
    PutBitBound(e, 1, attr.CanWrite(), 64);
    PutBitBound(PutBit(e, 1, attr.CanWrite()), 63, attr.NoExecute(), 64);
    PutBit(PutBit(e, 1, attr.CanWrite()), 63, attr.NoExecute())
  }

  /** Applying an attribute assigns bits 1 and 63 and leaves every other bit of the entry alone. */
  lemma ApplyAttrBits(e: u64, attr: PageAttr, k: nat)
    ensures Bit(ApplyAttr(e, attr), k) ==
            if k == 1 then attr.CanWrite() else if k == 63 then attr.NoExecute() else Bit(e, k)
  {
    BitOfPutBit(e, 1, attr.CanWrite(), k);
    BitOfPutBit(PutBit(e, 1, attr.CanWrite()), 63, attr.NoExecute(), k);
  }

  /** The last attribute applied wins. */
  lemma ApplyAttrTwice(e: u64, first: PageAttr, second: PageAttr)
    ensures ApplyAttr(ApplyAttr(e, first), second) == ApplyAttr(e, second)
  {
    var x := PutBit(e, 1, first.CanWrite());
    PutBitSwap(x, 63, 1, first.NoExecute(), second.CanWrite());
    PutBitTwice(e, 1, first.CanWrite(), second.CanWrite());
    PutBitTwice(PutBit(e, 1, second.CanWrite()), 63, first.NoExecute(), second.NoExecute());
  }

  /** The flags of an entry are bits of it. */
  lemma FlagsAreBits(e: u64)
    ensures Present(e) == Bit(e, 0) && Writable(e) == Bit(e, 1) && PageSize(e) == Bit(e, 7)
    ensures ExecuteDisabled(e) == Bit(e, 63)
  {
    BitIsQuotient(e, 7);
    BitIsQuotient(e, 63);
    Pow2Of63();
    assert Pow2(7) == 128 by {
      assert Pow2(4) == 16;
    }
  }

  lemma ApplyAttrFlags(e: u64, attr: PageAttr)
    ensures var r := ApplyAttr(e, attr);
            Present(r) == Present(e) && PageSize(r) == PageSize(e) &&
            Writable(r) == attr.CanWrite() && ExecuteDisabled(r) == attr.NoExecute()
  {
    FlagsAreBits(e);
    FlagsAreBits(ApplyAttr(e, attr));
    ApplyAttrBits(e, attr, 0);
    ApplyAttrBits(e, attr, 1);
    ApplyAttrBits(e, attr, 7);
    ApplyAttrBits(e, attr, 63);
  }

  /** In the processor's terms: address, presence and PS bit stay, R/W and XD are those of the attribute. */
  lemma ApplyAttrFields(e: u64, attr: PageAttr)
    ensures var r := ApplyAttr(e, attr);
            FrameOf(r) == FrameOf(e) && Present(r) == Present(e) && PageSize(r) == PageSize(e) &&
            Writable(r) == attr.CanWrite() && ExecuteDisabled(r) == attr.NoExecute()
  {
    ApplyAttrFlags(e, attr);
    PutBitKeepsFrame(e, 1, attr.CanWrite());
    PutBitKeepsFrame(PutBit(e, 1, attr.CanWrite()), 63, attr.NoExecute());
  }

  /** The level-1 entry that `page_map4k_to` writes. */
  function LeafFor(phys: u64, attr: PageAttr): u64 {
    ApplyAttr(Pack(true, true, phys / PAGE_SIZE, false), attr)
  }

  lemma LeafForFields(phys: u64, attr: PageAttr)
    requires phys < 0x10_0000_0000_0000
    ensures var e := LeafFor(phys, attr);
            Present(e) && PageSize(e) && FrameOf(e) == phys / PAGE_SIZE &&
            Writable(e) == attr.CanWrite() && ExecuteDisabled(e) == attr.NoExecute()
  {
    PackFields(true, true, phys / PAGE_SIZE, false);
    ApplyAttrFields(Pack(true, true, phys / PAGE_SIZE, false), attr);
  }

  /** All bits of the entry: P, PS, the frame, and what the attribute says. */
  lemma LeafForBits(phys: u64, attr: PageAttr, k: nat)
    requires phys < 0x10_0000_0000_0000 && k < 64
    ensures Bit(LeafFor(phys, attr), k) ==
            if k == 1 then attr == RW || attr == RWX
            else if k == 63 then attr == RO || attr == RW
            else if k < 12 then k == 0 || k == 7
            else Bit(phys / PAGE_SIZE, k - 12)
  {
    PackBits(true, true, phys / PAGE_SIZE, false, k);
    ApplyAttrBits(Pack(true, true, phys / PAGE_SIZE, false), attr, k);
  }

  /** Memory, CR3, the frames firmware has handed out or keeps for good, where the tables are, how far the identity
      map reaches, and the frames below that whose own addresses may be mapped elsewhere. */
  datatype Boot = Boot(mem: Memory, cr3: u64, held: set<nat>, layout: Layout, limit: nat, moved: set<nat>)
  {
    function Top(): (top: nat)
      ensures top < FRAME_SPACE
    {
      FrameOf(cr3)
    }

    ghost predicate Sound() {
      cr3 < 0x10_0000_0000_0000 && TreeOk(mem, Top(), layout) && layout.Keys <= held
    }

    predicate Low(x: u64) { x < limit * PAGE_SIZE && x / PAGE_SIZE !in moved }

    predicate Itself(x: u64) { Walk(x).Mapped? && Walk(x).pa == x }

    /** Below the limit an address is mapped to itself unless its frame may be mapped elsewhere, and no table is
        in such a frame: a pointer to a table is the table's address. */
    ghost predicate Flat() {
      && limit <= 0x10_0000_0000 && moved <= held && moved !! layout.Keys
      && (forall f | f in layout :: f < limit)
      && (forall x: u64 | Low(x) :: Itself(x))
    }

    ghost predicate Ready() { Sound() && Flat() }

    ghost predicate Open() { Permissions.Open(mem, layout) }

    function Walk(va: u64): Translation { WalkFrom(mem, 4, Top(), va) }

    /** No page larger than 4 KiB covers `va`. */
    predicate NotHuge(va: u64) { Walk(va).Mapped? ==> Walk(va).level == 1 }
  }

  ghost predicate SameWalks(b: Boot, b': Boot) {
    forall va: u64 :: b'.Walk(va) == b.Walk(va)
  }

  /** No translation has changed but that of the page of `virt`. */
  ghost predicate OnlyPage(b: Boot, b': Boot, virt: u64) {
    forall va: u64 :: PageNo(va) != PageNo(virt) ==> b'.Walk(va) == b.Walk(va)
  }

  /** What every call of the mapper leaves alone: frames that were in use and are no tables keep their
      contents, new tables are frames that were not in use, and table entries take no permission away if they did
      not before. */
  ghost predicate Kept(b: Boot, b': Boot) {
    && b'.cr3 == b.cr3 && b.held <= b'.held && b'.limit == b.limit && b'.moved == b.moved
    && b.layout.Keys <= b'.layout.Keys <= b.layout.Keys + (b'.held - b.held)
    && (b.Open() ==> b'.Open())
    && forall f | f in b.held && f !in b.layout && f < FRAME_SPACE :: b'.mem[f] == b.mem[f]
  }

  lemma KeptTwice(b: Boot, b': Boot, b'': Boot)
    requires Kept(b, b') && Kept(b', b'')
    ensures Kept(b, b'')
  {
  }

  /** Cutting in a new table at `f` does not disturb the path down to `f`. */
  lemma {:induction false} PathKept(mem: Memory, mem': Memory, top: nat, layout: Layout, f: nat, i: nat, va: u64,
                                  level: nat)
    requires TreeOk(mem, top, layout) && f in layout && Edited(mem, mem', layout, f, i)
    requires IsLevel(level) && layout[f].level <= level
    ensures PathFrame(mem', top, va, level) == PathFrame(mem, top, va, level)
    decreases 4 - level
  {
    if level < 4 {
      PathKept(mem, mem', top, layout, f, i, va, level + 1);
      if PathFrame(mem, top, va, level + 1).At? {
        PathServes(mem, top, layout, va, level + 1);
      }
    }
  }

  ghost function MovedTop(layout: Layout, top: nat, t: nat): Layout {
    (layout - {top})[t := Place(4, 0)]
  }

  /** Walks read nothing but tables. */
  lemma {:induction false} WalkReadsTables(mem: Memory, mem': Memory, top: nat, layout: Layout, g: nat, va: u64)
    requires TreeOk(mem, top, layout) && g in layout
    requires forall f | f in layout && f < FRAME_SPACE :: mem'[f] == mem[f]
    ensures WalkFrom(mem', layout[g].level, g, va) == WalkFrom(mem, layout[g].level, g, va)
    decreases layout[g].level
  {
    var j := IndexAt(layout[g].level, va);
    assert EntryPlaced(mem, layout, g, j);
    if IsTable(layout[g].level, mem[g][j]) {
      WalkReadsTables(mem, mem', top, layout, FrameOf(mem[g][j]), va);
    }
  }

  lemma MovedTopWalk(b: Boot, t: nat, mem': Memory, va: u64)
    requires b.Sound() && t !in b.held && t < FRAME_SPACE && mem' == b.mem[t := b.mem[b.Top()]]
    ensures WalkFrom(mem', 4, t, va) == b.Walk(va)
  {
    WalkReadsTables(b.mem, mem', b.Top(), b.layout, b.Top(), va);
  }

  lemma MovedTopTree(b: Boot, t: nat, mem': Memory)
    requires b.Sound() && t !in b.held && t < FRAME_SPACE && mem' == b.mem[t := b.mem[b.Top()]]
    ensures TreeOk(mem', t, MovedTop(b.layout, b.Top(), t))
  {
    var top, layout' := b.Top(), MovedTop(b.layout, b.Top(), t);
    forall g, j | g in layout' && 0 <= j < ENTRIES
      ensures EntryPlaced(mem', layout', g, j)
    {
      assert EntryPlaced(b.mem, b.layout, if g == t then top else g, j);
    }
    forall g | g in layout' && g != t
      ensures Referenced(mem', layout', g)
    {
      assert Referenced(b.mem, b.layout, g);
      var f, i :| RefersTo(b.mem, b.layout, f, i, g);
      assert RefersTo(mem', layout', if f == top then t else f, i, g);
    }
    forall g | g in b.layout && b.layout[g] == Place(4, 0)
      ensures g == top
    {
    }
  }

  lemma NewCr3(t: nat)
    requires t < FRAME_SPACE
    ensures t * PAGE_SIZE < 0x10_0000_0000_0000 && FrameOf(t * PAGE_SIZE) == t
  {
  }

  lemma TopCopied(b: Boot, t: nat, mem': Memory)
    requires b.Sound() && 0 < t < FRAME_SPACE && t !in b.held && mem' == b.mem[t := b.mem[b.Top()]]
    ensures var b' := Boot(mem', t * PAGE_SIZE, b.held + {t}, MovedTop(b.layout, b.Top(), t), b.limit, b.moved);
            b'.Sound() && SameWalks(b, b') && (b.Open() ==> b'.Open())
  {
    MovedTopTree(b, t, mem');
    NewCr3(t);
    forall va: u64
      ensures WalkFrom(mem', 4, t, va) == b.Walk(va)
    {
      MovedTopWalk(b, t, mem', va);
    }
  }

  /** Table memory is reached by its own address in any memory with these tables. */
  lemma EntryReached(b: Boot, mem': Memory, f: nat, i: nat)
    requires b.Ready() && f < b.limit && f !in b.moved && i < ENTRIES
    requires forall g | g in b.layout && g < FRAME_SPACE :: mem'[g] == b.mem[g]
    ensures var va := f * PAGE_SIZE + 8 * i;
            && va < TWO_64 && Walk(mem', b.cr3, va).Mapped? && Walk(mem', b.cr3, va).pa == va
            && va / PAGE_SIZE == f && va % PAGE_SIZE / 8 == i
  {
    var va := f * PAGE_SIZE + 8 * i;
    QuotientUnique(va, PAGE_SIZE, f, 8 * i);
    assert b.Low(va);
    WalkReadsTables(b.mem, mem', b.Top(), b.layout, b.Top(), va);
  }

  /** Changes that alter no translation keep the identity map; new tables come from below the limit. */
  lemma StaysFlat(b: Boot, b': Boot)
    requires b.Flat() && SameWalks(b, b') && b'.limit == b.limit && b'.moved == b.moved && b.held <= b'.held
    requires forall f | f in b'.layout :: f in b.layout || (f !in b.held && f < b.limit)
    ensures b'.Flat()
  {
    forall x: u64 | b'.Low(x)
      ensures b'.Itself(x)
    {
      assert b.Low(x) && b.Itself(x);
    }
  }

  /** An address outside the identity map, or in a frame that may be mapped elsewhere. */
  predicate Mappable(b: Boot, virt: u64) {
    PageNo(virt) >= b.limit || PageNo(virt) in b.moved
  }

  lemma LowPage(b: Boot, x: u64)
    requires b.limit <= 0x10_0000_0000 && b.Low(x)
    ensures PageNo(x) == x / PAGE_SIZE && !Mappable(b, x)
  {
    DivMod(x, PAGE_SIZE);
    QuotientUnique(x, 0x1_0000_0000_0000, 0, x);
  }

  lemma PageEditKeepsFlat(b: Boot, b': Boot, virt: u64)
    requires b.Flat() && Kept(b, b') && b'.layout == b.layout && OnlyPage(b, b', virt)
    requires Mappable(b, virt) || forall va: u64 | PageNo(va) == PageNo(virt) && b.Low(va) :: b'.Itself(va)
    ensures b'.Flat()
  {
    forall x: u64 | b'.Low(x)
      ensures b'.Itself(x)
    {
      assert b.Low(x) && b.Itself(x);
      LowPage(b, x);
    }
  }

  lemma PageStart(n: nat)
    requires n < 0x10_0000_0000
    ensures n * PAGE_SIZE < 0x1_0000_0000_0000 && n * PAGE_SIZE / PAGE_SIZE == n && n * PAGE_SIZE % PAGE_SIZE == 0
    ensures PageNo(n * PAGE_SIZE) == n
  {
    PageNoOf(n, 0);
  }

  lemma MappedToItself(b: Boot, x: u64, phys: u64, leaf: u64)
    requires b.limit <= 0x10_0000_0000 && b.Low(x) && phys == PageNo(x) * PAGE_SIZE
    requires FrameOf(leaf) == phys / PAGE_SIZE
    ensures FrameOf(leaf) * PAGE_SIZE + x % PAGE_SIZE == x
  {
    LowPage(b, x);
    PageStart(x / PAGE_SIZE);
    DivMod(x, PAGE_SIZE);
  }

  /** After mapping a page the identity map is as good as before if and only if the page is one that may be mapped
      elsewhere, or has been mapped to itself. */
  lemma FlatAfterMapping(b: Boot, b': Boot, virt: u64, phys: u64, leaf: u64)
    requires b.Flat() && Kept(b, b') && b'.layout == b.layout && OnlyPage(b, b', virt)
    requires MapsPage(b'.mem, b'.Top(), virt, leaf) && FrameOf(leaf) == phys / PAGE_SIZE && phys % PAGE_SIZE == 0
    ensures b'.Flat() <==> Mappable(b, virt) || phys == PageNo(virt) * PAGE_SIZE
  {
    if phys == PageNo(virt) * PAGE_SIZE {
      forall x: u64 | PageNo(x) == PageNo(virt) && b.Low(x)
        ensures b'.Itself(x)
      {
        MappedToItself(b, x, phys, leaf);
      }
    }
    if Mappable(b, virt) || phys == PageNo(virt) * PAGE_SIZE {
      PageEditKeepsFlat(b, b', virt);
    } else {
      var page: u64 := PageNo(virt) * PAGE_SIZE;
      PageStart(PageNo(virt));
      DivMod(phys, PAGE_SIZE);
      assert b'.Low(page) && !b'.Itself(page);
    }
  }

  /** `x & ~0xFFF`. */
  function PageDown(x: u64): u64 { x - x % PAGE_SIZE }

  /** The number of pages from the page of `vaddr` to the end of `size` bytes there. */
  function PagesOver(vaddr: u64, size: u64): nat
    requires vaddr + size + 0xFFF < TWO_64
  {
    (PageDown(vaddr + size + 0xFFF) - PageDown(vaddr)) / PAGE_SIZE
  }

  /** The address of the `j`-th page from `lo`. */
  function PageAt(lo: u64, j: nat): nat { lo + j * PAGE_SIZE }

  /** `va` lies in one of `k` pages from `lo`. */
  ghost predicate InRun(lo: u64, k: nat, va: u64) {
    exists j: nat :: j < k && PageAt(lo, j) < TWO_64 && PageNo(PageAt(lo, j)) == PageNo(va)
  }

  /** The pages of the run have the attribute, with their addresses and other bits as before; every other
      page is as before. */
  ghost predicate RangeDone(b0: Boot, b: Boot, lo: u64, k: nat, attr: PageAttr) {
    forall va: u64 ::
      if InRun(lo, k, va) then b0.Walk(va).Mapped? && MappedBy(b.Walk(va), ApplyAttr(b0.Walk(va).leaf, attr), va)
      else b.Walk(va) == b0.Walk(va)
  }

  ghost predicate RangePartlyDone(b0: Boot, b: Boot, lo: u64, n: nat, attr: PageAttr) {
    exists k: nat :: k <= n && RangeDone(b0, b, lo, k, attr)
  }

  /** `va` is mapped by a 4 KiB entry that carries bit 7. */
  predicate Settable(b: Boot, va: u64) {
    b.Walk(va).Mapped? && b.Walk(va).level == 1 && PageSize(b.Walk(va).leaf)
  }

  /** Every page of the run is mapped by a 4 KiB entry that carries bit 7. */
  ghost predicate AllSettable(b: Boot, lo: u64, k: nat) {
    forall va: u64 | InRun(lo, k, va) :: Settable(b, va)
  }

  lemma NothingDone(b: Boot, lo: u64, attr: PageAttr)
    ensures RangeDone(b, b, lo, 0, attr)
  {
  }

  lemma PageCount(vaddr: u64, size: u64, k: nat)
    requires vaddr + size + 0xFFF < TWO_64
    ensures var end := PageDown(vaddr + size + 0xFFF);
            && (PageAt(PageDown(vaddr), k) < end <==> k < PagesOver(vaddr, size))
            && (k <= PagesOver(vaddr, size) ==> PageAt(PageDown(vaddr), k) <= end)
    ensures PageAt(PageDown(vaddr), k + 1) == PageAt(PageDown(vaddr), k) + PAGE_SIZE
  {
    var lo, end := PageDown(vaddr), PageDown(vaddr + size + 0xFFF);
    assert lo % PAGE_SIZE == 0 && end % PAGE_SIZE == 0 && lo <= end;
  }

  lemma SamePageDown(va: u64)
    ensures PageNo(PageDown(va)) == PageNo(va)
  {
    var q, r := va / PAGE_SIZE, va % PAGE_SIZE;
    assert va == q * PAGE_SIZE + r && PageDown(va) == q * PAGE_SIZE;
    PageNoOf(q, r);
    PageNoOf(q, 0);
  }

  lemma PageDownSteps(lo: u64, hi: u64)
    requires lo <= hi
    ensures PageDown(lo) <= PageDown(hi)
    ensures (PageDown(hi) - PageDown(lo)) / PAGE_SIZE * PAGE_SIZE == PageDown(hi) - PageDown(lo)
  {
  }

  lemma RunOfByte(vaddr: u64, size: u64, x: u64, va: u64)
    requires vaddr + size + 0xFFF < TWO_64 && vaddr <= x < vaddr + size && PageNo(x) == PageNo(va)
    ensures InRun(PageDown(vaddr), PagesOver(vaddr, size), va)
  {
    var j := (PageDown(x) - PageDown(vaddr)) / PAGE_SIZE;
    PageDownSteps(vaddr, x);
    SamePageDown(x);
    PageCount(vaddr, size, j);
    assert PageAt(PageDown(vaddr), j) == PageDown(x);
  }

  lemma ByteOfRun(vaddr: u64, size: u64, va: u64)
    requires vaddr + size + 0xFFF < TWO_64 && size > 0 && InRun(PageDown(vaddr), PagesOver(vaddr, size), va)
    ensures exists x: u64 :: vaddr <= x < vaddr + size && PageNo(x) == PageNo(va)
  {
    var lo := PageDown(vaddr);
    var j: nat :| j < PagesOver(vaddr, size) && PageAt(lo, j) < TWO_64 && PageNo(PageAt(lo, j)) == PageNo(va);
    SamePageDown(vaddr);
    var x: u64 := if j == 0 then vaddr else PageAt(lo, j);
    assert vaddr <= x < vaddr + size && PageNo(x) == PageNo(va);
  }

  /** The run of pages of a range of addresses: those that some byte of the range is on. */
  lemma RunOfBytes(vaddr: u64, size: u64, va: u64)
    requires vaddr + size + 0xFFF < TWO_64 && size > 0
    ensures InRun(PageDown(vaddr), PagesOver(vaddr, size), va) <==>
              exists x: u64 :: vaddr <= x < vaddr + size && PageNo(x) == PageNo(va)
  {
    if InRun(PageDown(vaddr), PagesOver(vaddr, size), va) {
      ByteOfRun(vaddr, size, va);
    } else if exists x: u64 :: vaddr <= x < vaddr + size && PageNo(x) == PageNo(va) {
      var x: u64 :| vaddr <= x < vaddr + size && PageNo(x) == PageNo(va);
      RunOfByte(vaddr, size, x, va);
    }
  }

  /** A page is mapped by one entry. */
  lemma {:induction false} SamePageLeaf(b: Boot, level: nat, f: nat, va: u64, va': u64)
    requires PageNo(va) == PageNo(va') && IsLevel(level) && f < FRAME_SPACE
    ensures var t, t' := WalkFrom(b.mem, level, f, va), WalkFrom(b.mem, level, f, va');
            t.Mapped? == t'.Mapped? && (t.Mapped? ==> t.leaf == t'.leaf && t.level == t'.level)
  {
    SamePageIndices(va, va', level);
    var e := b.mem[f][IndexAt(level, va)];
    if IsTable(level, e) {
      SamePageLeaf(b, level - 1, FrameOf(e), va, va');
    }
  }

  lemma InRunStep(lo: u64, k: nat, va: u64)
    requires PageAt(lo, k) < TWO_64
    ensures InRun(lo, k + 1, va) <==> InRun(lo, k, va) || PageNo(PageAt(lo, k)) == PageNo(va)
  {
    if InRun(lo, k, va) {
      var j: nat :| j < k && PageAt(lo, j) < TWO_64 && PageNo(PageAt(lo, j)) == PageNo(va);
      assert j < k + 1;
    }
  }

  /** Setting attributes makes no page settable, and none unsettable. */
  lemma SettableAsBefore(b0: Boot, b: Boot, lo: u64, k: nat, attr: PageAttr, va: u64)
    requires RangeDone(b0, b, lo, k, attr) && AllSettable(b0, lo, k)
    ensures Settable(b, va) == Settable(b0, va)
  {
    if InRun(lo, k, va) {
      ApplyAttrFields(b0.Walk(va).leaf, attr);
    }
  }

  lemma SamePageSettable(b: Boot, va: u64, va': u64)
    requires PageNo(va) == PageNo(va')
    ensures Settable(b, va) == Settable(b, va')
  {
    SamePageLeaf(b, 4, b.Top(), va, va');
  }

  lemma NextSettable(b: Boot, lo: u64, k: nat)
    requires PageAt(lo, k) < TWO_64 && AllSettable(b, lo, k) && Settable(b, PageAt(lo, k))
    ensures AllSettable(b, lo, k + 1)
  {
    forall va: u64 | InRun(lo, k + 1, va)
      ensures Settable(b, va)
    {
      InRunStep(lo, k, va);
      if PageNo(PageAt(lo, k)) == PageNo(va) {
        SamePageSettable(b, PageAt(lo, k), va);
      }
    }
  }

  lemma NotAllSettable(b: Boot, lo: u64, k: nat, n: nat)
    requires k < n && PageAt(lo, k) < TWO_64 && !Settable(b, PageAt(lo, k))
    ensures !AllSettable(b, lo, n)
  {
    assert InRun(lo, n, PageAt(lo, k));
  }

  lemma NextPageDone(b0: Boot, b: Boot, b': Boot, lo: u64, k: nat, attr: PageAttr)
    requires PageAt(lo, k) < TWO_64 && RangeDone(b0, b, lo, k, attr) && Settable(b, PageAt(lo, k))
    requires OnlyPage(b, b', PageAt(lo, k)) && b'.cr3 == b.cr3
    requires MapsPage(b'.mem, b.Top(), PageAt(lo, k), ApplyAttr(b.Walk(PageAt(lo, k)).leaf, attr))
    ensures RangeDone(b0, b', lo, k + 1, attr)
  {
    var page: u64 := PageAt(lo, k);
    forall va: u64
      ensures if InRun(lo, k + 1, va)
              then b0.Walk(va).Mapped? && MappedBy(b'.Walk(va), ApplyAttr(b0.Walk(va).leaf, attr), va)
              else b'.Walk(va) == b0.Walk(va)
    {
      InRunStep(lo, k, va);
      if PageNo(page) == PageNo(va) {
        SamePageLeaf(b, 4, b.Top(), page, va);
        if InRun(lo, k, va) {
          ApplyAttrTwice(b0.Walk(va).leaf, attr, attr);
        }
      }
    }
  }

  /** If the path ends above level 1, no 4 KiB entry maps the address. */
  lemma {:induction false} PathTooShort(b: Boot, va: u64, level: nat)
    requires 1 <= level <= 3 && PathFrame(b.mem, b.Top(), va, level) == Stop
    ensures !(b.Walk(va).Mapped? && b.Walk(va).level <= level)
    decreases 4 - level
  {
    if PathFrame(b.mem, b.Top(), va, level + 1) == Stop {
      PathTooShort(b, va, level + 1);
    } else {
      PathContinues(b.mem, b.Top(), va, level + 1);
    }
  }

  /** The level-1 entry on the path decides the translation. */
  lemma LeafOnPath(b: Boot, virt: u64, f: nat)
    requires PathFrame(b.mem, b.Top(), virt, 1) == At(f)
    ensures var e := b.mem[f][IndexAt(1, virt)];
            if Present(e) then MappedBy(b.Walk(virt), e, virt) else b.Walk(virt) == NotMapped
  {
    PathContinues(b.mem, b.Top(), virt, 1);
    LeafTarget(b.mem[f][IndexAt(1, virt)], virt);
  }

  /** A page mapped at level 1 goes to the frame of its leaf. */
  lemma SettableTarget(b: Boot, va: u64)
    requires Settable(b, va)
    ensures MappedBy(b.Walk(va), b.Walk(va).leaf, va)
  {
    if PathFrame(b.mem, b.Top(), va, 1) == Stop {
      PathTooShort(b, va, 1);
    } else {
      LeafOnPath(b, va, PathFrame(b.mem, b.Top(), va, 1).frame);
    }
  }

  /** A new leaf with the old frame sends every address of the page where it went before. */
  lemma SameAddresses(b: Boot, b': Boot, va: u64, leaf: u64)
    requires Settable(b, va) && MapsPage(b'.mem, b'.Top(), va, leaf) && FrameOf(leaf) == FrameOf(b.Walk(va).leaf)
    ensures forall x: u64 | PageNo(x) == PageNo(va) :: b.Itself(x) ==> b'.Itself(x)
  {
    forall x: u64 | PageNo(x) == PageNo(va)
      ensures b.Itself(x) ==> b'.Itself(x)
    {
      SamePageLeaf(b, 4, b.Top(), va, x);
      SettableTarget(b, x);
    }
  }

  /** A path that stops at some level reaches no table below it. */
  lemma {:induction false} PathStops(b: Boot, va: u64, level: nat)
    requires 2 <= level <= 4 && PathFrame(b.mem, b.Top(), va, level).At?
    requires !IsTable(level, b.mem[PathFrame(b.mem, b.Top(), va, level).frame][IndexAt(level, va)])
    ensures PathFrame(b.mem, b.Top(), va, 1) == Stop
  {
    var m := level - 1;
    while m > 1
      invariant 1 <= m < level && PathFrame(b.mem, b.Top(), va, m) == Stop
    {
      m := m - 1;
    }
  }

  lemma EntryNotHuge(b: Boot, virt: u64, level: nat, f: nat)
    requires b.Sound() && b.NotHuge(virt) && 2 <= level <= 4
    requires PathFrame(b.mem, b.Top(), virt, level) == At(f) && Present(b.mem[f][IndexAt(level, virt)])
    ensures IsTable(level, b.mem[f][IndexAt(level, virt)]) && PlainAddress(b.mem[f][IndexAt(level, virt)])
  {
    PathServes(b.mem, b.Top(), b.layout, virt, level);
    PathContinues(b.mem, b.Top(), virt, level);
    assert EntryPlaced(b.mem, b.layout, f, IndexAt(level, virt));
  }

  /** A cleared frame linked into an empty entry changes no translation. */
  lemma NewTableLinked(b: Boot, f: nat, i: nat, t: nat)
    requires b.Sound() && f in b.layout && i < ENTRIES && b.layout[f].level >= 2
    requires !Present(b.mem[f][i]) && t !in b.layout && t < FRAME_SPACE
    ensures var b' := b.(mem := WithTable(b.mem, f, i, t), layout := GrownLayout(b.layout, f, i, t));
            TreeOk(b'.mem, b'.Top(), b'.layout) && SameWalks(b, b') && (b.Open() ==> b'.Open())
  {
    NewTableKeepsTree(b.mem, b.Top(), b.layout, f, i, t);
    forall va: u64
      ensures WalkFrom(WithTable(b.mem, f, i, t), 4, b.Top(), va) == b.Walk(va)
    {
      NewTableKeepsWalks(b.mem, b.Top(), b.layout, f, i, t, va);
    }
    if b.Open() {
      NewTableStaysOpen(b.mem, b.layout, f, i, t);
    }
  }

  ghost function Grown(b: Boot, f: nat, i: nat, t: nat): Boot
    requires f in b.layout && f < FRAME_SPACE && b.layout[f].level > 0 && i < ENTRIES && t < FRAME_SPACE
  {
    b.(mem := WithTable(b.mem, f, i, t), held := b.held + {t}, layout := GrownLayout(b.layout, f, i, t))
  }

  lemma NewTableReady(b: Boot, f: nat, i: nat, t: nat)
    requires b.Ready() && f in b.layout && i < ENTRIES && b.layout[f].level >= 2
    requires !Present(b.mem[f][i]) && t !in b.held && t < FRAME_SPACE && t < b.limit
    ensures Grown(b, f, i, t).Ready() && Kept(b, Grown(b, f, i, t)) && SameWalks(b, Grown(b, f, i, t))
    ensures Edited(b.mem, WithTable(b.mem, f, i, t), b.layout, f, i)
  {
    NewTableLinked(b, f, i, t);
    assert SameWalks(b, Grown(b, f, i, t));
    StaysFlat(b, Grown(b, f, i, t));
  }

  class Mapper {
    const machine: Machine
    const firmware: PageFirmware
    ghost var layout: Layout
    ghost var moved: set<nat>

    constructor (machine: Machine, firmware: PageFirmware, ghost layout: Layout)
      ensures this.machine == machine && this.firmware == firmware && this.layout == layout && moved == {}
    {
      this.machine, this.firmware, this.layout, moved := machine, firmware, layout, {};
    }

    ghost function View(): Boot
      reads this, machine, firmware
    {
      Boot(machine.mem, machine.cr3, firmware.held, layout, firmware.limit, moved)
    }

    /** Read entry `i` of the table at `f` by its address; the tables are those of `b`. */
    method ReadEntry(f: nat, i: nat, ghost b: Boot) returns (e: u64)
      requires b.Ready() && f < b.limit && f !in b.moved && i < ENTRIES && machine.cr3 == b.cr3
      requires forall g | g in b.layout && g < FRAME_SPACE :: machine.mem[g] == b.mem[g]
      ensures e == machine.mem[f][i]
    {
      EntryReached(b, machine.mem, f, i);
      e := machine.LoadWord(f * PAGE_SIZE + 8 * i);
    }

    method WriteEntry(f: nat, i: nat, e: u64, ghost b: Boot)
      requires b.Ready() && f < b.limit && f !in b.moved && i < ENTRIES && machine.cr3 == b.cr3
      requires forall g | g in b.layout && g < FRAME_SPACE :: machine.mem[g] == b.mem[g]
      modifies machine`mem
      ensures machine.mem == old(machine.mem)[f := old(machine.mem)[f][i := e]]
    {
      EntryReached(b, machine.mem, f, i);
      machine.StoreWord(f * PAGE_SIZE + 8 * i, e);
    }

    /** `clear_page`. */
    method ClearTable(t: nat, ghost b: Boot)
      requires b.Ready() && t < b.limit && t !in b.moved && machine.cr3 == b.cr3 && machine.mem == b.mem
      modifies machine`mem
      ensures machine.mem == old(machine.mem)[t := ZeroPage()]
    {
      EntryReached(b, machine.mem, t, 0);
      FrameOfAddress(t);
      machine.ClearPage(t * PAGE_SIZE);
    }

    /** `page_set_lv4_writable`: copy the top table and switch to the copy. */
    method SetLv4Writable() returns (st: Status)
      requires View().Ready()
      modifies this`layout, machine, firmware
      ensures View().Ready() && SameWalks(old(View()), View()) && (old(View()).Open() ==> View().Open())
      ensures st.Success? || (st.OutOfResources? && View() == old(View()))
      ensures firmware.refusals == old(firmware.refusals) + if st.OutOfResources? then 1 else 0
      ensures st.Success? ==>
                View().Top() !in old(firmware.held) && machine.mem[View().Top()] == old(machine.mem)[old(View()).Top()]
      ensures forall f | f in old(firmware.held) && f < FRAME_SPACE :: machine.mem[f] == old(machine.mem)[f]
      ensures old(firmware.held) <= firmware.held &&
              layout.Keys <= old(layout.Keys) + (firmware.held - old(firmware.held))
    {
      ghost var b := View();
      var page := firmware.AllocateAnyPage();
      if page.None? {
        return OutOfResources;
      }
      var t, top := page.value, FrameOf(machine.cr3);
      ghost var mem' := machine.mem[t := machine.mem[top]];
      TopCopied(b, t, mem');
      var i := 0;
      while i < ENTRIES
        invariant i <= ENTRIES && machine.cr3 == b.cr3 && layout == b.layout && firmware.held == b.held + {t}
        invariant firmware.refusals == old(firmware.refusals)
        invariant forall j | 0 <= j < i :: machine.mem[t][j] == b.mem[top][j]
        invariant machine.mem == b.mem[t := machine.mem[t]]
      {
        var e := ReadEntry(top, i, b);
        WriteEntry(t, i, e, b);
        i := i + 1;
      }
      assert machine.mem[t] == b.mem[top];
      assert machine.mem == mem';
      layout := MovedTop(layout, top, t);
      NewCr3(t);
      machine.cr3 := t * PAGE_SIZE;
      StaysFlat(b, View());
      return Success;
    }

    /** `alloc_new_table` for entry `i` of the table at `f`. */
    method AllocNewTable(f: nat, i: nat) returns (st: Status)
      requires View().Ready() && f in layout && layout[f].level >= 2 && i < ENTRIES && !Present(machine.mem[f][i])
      modifies this`layout, machine`mem, firmware
      ensures View().Ready() && Kept(old(View()), View()) && SameWalks(old(View()), View())
      ensures st.Success? ==>
                && Edited(old(machine.mem), machine.mem, old(layout), f, i)
                && IsTable(old(layout)[f].level, machine.mem[f][i]) && PlainAddress(machine.mem[f][i])
                && Writable(machine.mem[f][i]) && !ExecuteDisabled(machine.mem[f][i])
                && FrameOf(machine.mem[f][i]) !in old(firmware.held)
      ensures st.Success? || st.OutOfResources?
      ensures firmware.refusals == old(firmware.refusals) + if st.OutOfResources? then 1 else 0
    {
      ghost var b := View();
      var page := firmware.AllocateAnyPage();
      if page.None? {
        return OutOfResources;
      }
      var t := page.value;
      NewTableReady(b, f, i, t);
      PackFields(true, false, t, false);
      ClearTable(t, b);
      WriteEntry(f, i, Pack(true, false, t, false), b);
      layout := GrownLayout(layout, f, i, t);
      assert View() == Grown(b, f, i, t);
      return Success;
    }

    /** One step down in `page_map4k_to`: from the table at `f`, make the next one if it is missing. */
    method Descend(level: nat, f: nat, virt: u64) returns (st: Status, next: nat)
      requires View().Ready() && View().NotHuge(virt) && 2 <= level <= 4
      requires PathFrame(machine.mem, View().Top(), virt, level) == At(f)
      modifies this`layout, machine`mem, firmware
      ensures View().Ready() && Kept(old(View()), View()) && SameWalks(old(View()), View())
      ensures st.Success? ==> PathFrame(machine.mem, View().Top(), virt, level - 1) == At(next)
      ensures st.Success? || st.OutOfResources?
      ensures firmware.refusals == old(firmware.refusals) + if st.OutOfResources? then 1 else 0
      ensures old(View()).Walk(virt).Mapped? ==> st.Success?
    {
      ghost var b := View();
      var i := IndexAt(level, virt);
      PathServes(b.mem, b.Top(), layout, virt, level);
      st := Success;
      var e := ReadEntry(f, i, b);
      if !Present(e) {
        PathContinues(b.mem, b.Top(), virt, level);
        st := AllocNewTable(f, i);
        if !st.Success? {
          return st, 0;
        }
        PathKept(b.mem, machine.mem, b.Top(), b.layout, f, i, virt, level);
      } else {
        EntryNotHuge(b, virt, level, f);
      }
      e := ReadEntry(f, i, View());
      next := AddressField(e);
      PlainAddressField(e);
    }

    /** The descent of `page_map4k_to` to the level-1 table for `virt`. */
    method DescendToLeaf(virt: u64) returns (st: Status, f: nat)
      requires View().Ready() && View().NotHuge(virt)
      modifies this`layout, machine`mem, firmware
      ensures View().Ready() && Kept(old(View()), View()) && SameWalks(old(View()), View())
      ensures st.Success? ==> PathFrame(machine.mem, View().Top(), virt, 1) == At(f)
      ensures st.Success? || st.OutOfResources?
      ensures firmware.refusals == old(firmware.refusals) + if st.OutOfResources? then 1 else 0
      ensures old(View()).Walk(virt).Mapped? ==> st.Success?
    {
      ghost var b0 := View();
      f := FrameOf(machine.cr3);
      st, f := Descend(4, f, virt);
      if !st.Success? {
        return;
      }
      ghost var b1 := View();
      assert b1.Walk(virt) == b0.Walk(virt);
      st, f := Descend(3, f, virt);
      KeptTwice(b0, b1, View());
      if !st.Success? {
        return;
      }
      ghost var b2 := View();
      assert b2.Walk(virt) == b0.Walk(virt);
      st, f := Descend(2, f, virt);
      KeptTwice(b0, b2, View());
    }

    /** The steps of `page_map4k_to` up to its last test: the level-1 table, if its entry is not taken. */
    method SlotFor(virt: u64) returns (st: Status, f: nat)
      requires View().Ready() && View().NotHuge(virt)
      modifies this`layout, machine`mem, firmware
      ensures View().Ready() && Kept(old(View()), View()) && SameWalks(old(View()), View())
      ensures st.Success? ==> PathFrame(machine.mem, View().Top(), virt, 1) == At(f)
      ensures st.Success? || st.AlreadyStarted? || st.OutOfResources?
      ensures st.AlreadyStarted? <==> Settable(old(View()), virt)
      ensures st.OutOfResources? ==> old(View()).Walk(virt) == NotMapped
      ensures firmware.refusals == old(firmware.refusals) + if st.OutOfResources? then 1 else 0
    {
      ghost var b := View();
      st, f := DescendToLeaf(virt);
      if !st.Success? {
        return;
      }
      ghost var b' := View();
      assert b'.Walk(virt) == b.Walk(virt);
      LeafOnPath(b', virt, f);
      PathServes(b'.mem, b'.Top(), layout, virt, 1);
      var e1 := ReadEntry(f, IndexAt(1, virt), b');
      if Present(e1) && PageSize(e1) {
        st := AlreadyStarted;
      }
    }

    /** Writing the level-1 entry on the path of `virt`. */
    method WriteLeaf(f: nat, i: nat, ghost virt: u64, e: u64)
      requires View().Ready() && PathFrame(machine.mem, View().Top(), virt, 1) == At(f) && i == IndexAt(1, virt)
      requires Present(e)
      modifies machine`mem
      ensures View().Sound() && Kept(old(View()), View())
      ensures OnlyPage(old(View()), View(), virt)
      ensures MapsPage(machine.mem, View().Top(), virt, e)
    {
      ghost var b := View();
      PathServes(b.mem, b.Top(), layout, virt, 1);
      LeafEditKeepsTree(b.mem, b.Top(), layout, f, i, e);
      if b.Open() {
        LeafEditStaysOpen(b.mem, layout, f, i, e);
      }
      WriteEntry(f, i, e, b);
      forall va: u64
        ensures PageNo(va) != PageNo(virt) ==> View().Walk(va) == b.Walk(va)
        ensures PageNo(va) == PageNo(virt) ==> MappedBy(View().Walk(va), e, va)
      {
        LeafEdit(b.mem, b.Top(), layout, virt, e, va);
      }
    }

    /** `page_map4k_to`. */
    method Map4kTo(virt: u64, phys: u64, attr: PageAttr) returns (st: Status)
      requires View().Ready() && View().NotHuge(virt) && phys < 0x10_0000_0000_0000
      modifies this`layout, machine`mem, firmware
      ensures View().Sound() && Kept(old(View()), View())
      ensures !st.Success? ==> View().Ready()
      ensures st.Success? ==> (View().Ready() <==> Mappable(old(View()), virt) || phys == PageNo(virt) * PAGE_SIZE)
      ensures st == InvalidParameter <==> virt % PAGE_SIZE != 0 || phys % PAGE_SIZE != 0
      ensures st == AlreadyStarted <==> virt % PAGE_SIZE == 0 && phys % PAGE_SIZE == 0 && Settable(old(View()), virt)
      ensures st == OutOfResources ==> old(View()).Walk(virt) == NotMapped
      ensures st.Success? || st.InvalidParameter? || st.AlreadyStarted? || st.OutOfResources?
      ensures firmware.refusals == old(firmware.refusals) + if st.OutOfResources? then 1 else 0
      ensures !st.Success? ==> SameWalks(old(View()), View())
      ensures st.Success? ==>
                && MapsPage(machine.mem, View().Top(), virt, LeafFor(phys, attr))
                && OnlyPage(old(View()), View(), virt)
    {
      if virt % PAGE_SIZE != 0 || phys % PAGE_SIZE != 0 {
        return InvalidParameter;
      }
      ghost var b := View();
      var f;
      st, f := SlotFor(virt);
      if !st.Success? {
        return;
      }
      ghost var b' := View();
      LeafForFields(phys, attr);
      WriteLeaf(f, IndexAt(1, virt), virt, LeafFor(phys, attr));
      FlatAfterMapping(b', View(), virt, phys, LeafFor(phys, attr));
      KeptTwice(b, b', View());
    }

    /** `l1_entry_for_va`: the level-1 table on the path of `va`. */
    method L1TableFor(va: u64) returns (s: Step)
      requires View().Ready()
      ensures s == PathFrame(machine.mem, View().Top(), va, 1)
    {
      var f := FrameOf(machine.cr3);
      ghost var b := View();
      var level := 4;
      while level > 1
        invariant 1 <= level <= 4 && PathFrame(b.mem, b.Top(), va, level) == At(f)
      {
        PathServes(b.mem, b.Top(), layout, va, level);
        var e := ReadEntry(f, IndexAt(level, va), b);
        assert EntryPlaced(b.mem, layout, f, IndexAt(level, va));
        if !Present(e) || (level < 4 && PageSize(e)) {
          PathStops(b, va, level);
          return Stop;
        }
        PlainAddressField(e);
        f, level := AddressField(e), level - 1;
      }
      return At(f);
    }

    /** `page_set_attr_4k`: succeeds exactly on pages mapped by an entry with bit 7 set. */
    method SetAttr4k(va: u64, attr: PageAttr) returns (st: Status)
      requires View().Ready()
      modifies machine`mem
      ensures View().Ready() && Kept(old(View()), View())
      ensures st.Success? || st.NotFound?
      ensures st.Success? <==> Settable(old(View()), va)
      ensures st.NotFound? ==> machine.mem == old(machine.mem)
      ensures st.Success? ==>
                && OnlyPage(old(View()), View(), va)
                && MapsPage(machine.mem, View().Top(), va, ApplyAttr(old(View()).Walk(va).leaf, attr))
    {
      ghost var b := View();
      var s := L1TableFor(va);
      if s.Stop? {
        PathTooShort(b, va, 1);
        return NotFound;
      }
      var f, i := s.frame, IndexAt(1, va);
      LeafOnPath(b, va, f);
      PathServes(b.mem, b.Top(), layout, va, 1);
      var e := ReadEntry(f, i, b);
      if !Present(e) || !PageSize(e) {
        return NotFound;
      }
      ApplyAttrFields(e, attr);
      WriteLeaf(f, i, va, ApplyAttr(e, attr));
      SameAddresses(b, View(), va, ApplyAttr(e, attr));
      PageEditKeepsFlat(b, View(), va);
      return Success;
    }

    /** `page_apply_attr_range`. */
    method ApplyAttrRange(vaddr: u64, size: u64, attr: PageAttr) returns (st: Status)
      requires View().Ready() && vaddr + size + 0xFFF < TWO_64
      modifies machine`mem
      ensures View().Ready() && Kept(old(View()), View()) && (st.Success? || st.NotFound?)
      ensures st.Success? ==>
                RangeDone(old(View()), View(), PageDown(vaddr), PagesOver(vaddr, size), attr)
      ensures RangePartlyDone(old(View()), View(), PageDown(vaddr), PagesOver(vaddr, size), attr)
      ensures st.Success? <==> AllSettable(old(View()), PageDown(vaddr), PagesOver(vaddr, size))
    {
      ghost var b0 := View();
      var va, end := PageDown(vaddr), PageDown(vaddr + size + 0xFFF);
      ghost var lo, k, n := va, 0, PagesOver(vaddr, size);
      NothingDone(b0, lo, attr);
      PageCount(vaddr, size, 0);
      while va < end
        invariant k <= n && va == PageAt(lo, k) && (va < end <==> k < n)
        invariant View().Ready() && Kept(b0, View()) && RangeDone(b0, View(), lo, k, attr)
        invariant AllSettable(b0, lo, k)
        decreases n - k
      {
        ghost var b := View();
        PageCount(vaddr, size, k);
        PageCount(vaddr, size, k + 1);
        st := SetAttr4k(va, attr);
        KeptTwice(b0, b, View());
        SettableAsBefore(b0, b, lo, k, attr, va);
        if !st.Success? {
          NotAllSettable(b0, lo, k, n);
          return;
        }
        NextSettable(b0, lo, k);
        NextPageDone(b0, b, View(), lo, k, attr);
        va, k := va + PAGE_SIZE, k + 1;
      }
      return Success;
    }
  }
}
