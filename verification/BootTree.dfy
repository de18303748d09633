/** The shape of the table tree that the bootloader edits (bootloader/arch/x86/arch_x86_page.c): every
    table has one place in the tree, so an edit of one entry concerns one range of addresses. */
module BootTree {
  import opened Bits
  import opened Division
  import opened Entry
  import opened Mmu

  /** Where a table sits: its level, and the number of the range of addresses it serves among all ranges
      of that size in the 48-bit space. */
  datatype Place = Place(level: nat, prefix: nat)

  type Layout = map<nat, Place>

  /** The number of the range of `Span(level)` bytes that `va` lies in. */
  function RangeOf(level: nat, va: u64): nat
    requires IsLevel(level)
  {
    va % 0x1_0000_0000_0000 / Span(level)
  }

  /** The page number: what a 4-level walk looks at. */
  function PageNo(va: u64): nat { RangeOf(1, va) }

  lemma PageNoOf(q: nat, r: nat)
    requires r < PAGE_SIZE && q * PAGE_SIZE + r < TWO_64
    ensures PageNo(q * PAGE_SIZE + r) == q % 0x10_0000_0000
  {
    var va := q * PAGE_SIZE + r;
    var a, b := q / 0x10_0000_0000, q % 0x10_0000_0000;
    assert va == a * 0x1_0000_0000_0000 + (b * PAGE_SIZE + r);
    assert b * PAGE_SIZE + r < 0x1_0000_0000_0000;
    assert va % 0x1_0000_0000_0000 == b * PAGE_SIZE + r;
  }

  lemma LowDigit(a: nat, k: nat)
    ensures (a * 512 + k) % 512 == k % 512
  {
  }

  lemma WholeTable(v: nat, span: nat, k: nat, r: nat)
    requires r < span && v == k * span + r
    ensures v / (span * 512) == k / 512
  {
    var a, b := k / 512, k % 512;
    assert k == a * 512 + b;
    assert k * span == a * (span * 512) + b * span;
    MulMonotone(b, 511, span);
    QuotientUnique(v, span * 512, a, b * span + r);
  }

  lemma SpanQuotient(q: nat, k: nat, r: nat, span: nat, m: nat)
    requires r < span
    ensures (q * (m * span) + (k * span + r)) / span == q * m + k
  {
    MulAssociates(q, m, span);
    Distribute(q * m, k, span);
    QuotientUnique(q * (m * span) + (k * span + r), span, q * m + k, r);
  }

  /** `2^48` is a multiple `c` of the span of a whole table. */
  lemma RangeStep(va: u64, span: nat, c: nat)
    requires span > 0 && c * 512 * span == 0x1_0000_0000_0000
    ensures var v := va % 0x1_0000_0000_0000;
            v / span == v / (span * ENTRIES) * ENTRIES + va / span % ENTRIES
  {
    var q, v := va / 0x1_0000_0000_0000, va % 0x1_0000_0000_0000;
    DivMod(va, 0x1_0000_0000_0000);
    DivMod(v, span);
    SpanQuotient(q, v / span, v % span, span, c * 512);
    MulAssociates(q, c, 512);
    LowDigit(q * c, v / span);
    WholeTable(v, span, v / span, v % span);
  }

  lemma RangeSteps(level: nat, va: u64)
    requires 2 <= level <= 4
    ensures RangeOf(level - 1, va) == RangeOf(level, va) * ENTRIES + IndexAt(level - 1, va)
  {
    match level
    case 2 => RangeStep(va, 0x1000, 0x800_0000);
    case 3 => RangeStep(va, 0x20_0000, 0x4_0000);
    case _ => RangeStep(va, 0x4000_0000, 0x200);
  }

  lemma TopRange(va: u64)
    ensures RangeOf(4, va) == IndexAt(4, va)
  {
  }

  // ----- the tree -----

  /** The bootloader reads a 51-bit address field; in a table reference its top bits must be clear. */
  predicate PlainAddress(e: u64) {
    e / 0x10_0000_0000_0000 % 0x800 == 0
  }

  /** The range of addresses behind entry `i` of a table at `place`. */
  function EntryRange(place: Place, i: nat): nat { place.prefix * ENTRIES + i }

  ghost predicate EntryPlaced(mem: Memory, layout: Layout, f: nat, i: nat)
    requires f in layout && f < FRAME_SPACE && i < ENTRIES
  {
    var e, place := mem[f][i], layout[f];
    IsTable(place.level, e) ==>
      PlainAddress(e) && place.level > 0 && FrameOf(e) in layout &&
      layout[FrameOf(e)] == Place(place.level - 1, EntryRange(place, i))
  }

  ghost predicate RefersTo(mem: Memory, layout: Layout, f: nat, i: nat, g: nat) {
    f in layout && f < FRAME_SPACE && i < ENTRIES && IsTable(layout[f].level, mem[f][i]) && FrameOf(mem[f][i]) == g
  }

  ghost predicate Referenced(mem: Memory, layout: Layout, g: nat) {
    exists f, i :: RefersTo(mem, layout, f, i, g)
  }

  /** Every table the tree refers to has the place its parent entry gives it, and no two tables share a
      place: no table has two parent entries. */
  ghost predicate TreeOk(mem: Memory, top: nat, layout: Layout) {
    && top in layout && layout[top] == Place(4, 0)
    && (forall f | f in layout :: f < FRAME_SPACE && IsLevel(layout[f].level))
    && (forall f, i | f in layout && 0 <= i < ENTRIES :: EntryPlaced(mem, layout, f, i))
    && (forall f, g | f in layout && g in layout && layout[f] == layout[g] :: f == g)
    && (forall g {:trigger Referenced(mem, layout, g)} | g in layout && g != top :: Referenced(mem, layout, g))
  }

  lemma NoSharedTable(mem: Memory, top: nat, layout: Layout, f: nat, i: nat, g: nat, j: nat)
    requires TreeOk(mem, top, layout) && f in layout && g in layout && i < ENTRIES && j < ENTRIES
    requires IsTable(layout[f].level, mem[f][i]) && IsTable(layout[g].level, mem[g][j])
    requires FrameOf(mem[f][i]) == FrameOf(mem[g][j])
    ensures f == g && i == j
  {
    assert EntryPlaced(mem, layout, f, i) && EntryPlaced(mem, layout, g, j);
  }

  /** The table at `f` serves `va`. */
  predicate Serves(layout: Layout, f: nat, va: u64) {
    f in layout && IsLevel(layout[f].level) &&
    layout[f].prefix == if layout[f].level == 4 then 0 else RangeOf(layout[f].level + 1, va)
  }

  lemma ServedEntry(layout: Layout, f: nat, va: u64)
    requires Serves(layout, f, va)
    ensures EntryRange(layout[f], IndexAt(layout[f].level, va)) == RangeOf(layout[f].level, va)
  {
    if layout[f].level == 4 {
      TopRange(va);
    } else {
      RangeSteps(layout[f].level + 1, va);
    }
  }

  /** Memory has changed at entry `i` of the table at `f`, and otherwise in no table of the tree. */
  ghost predicate Edited(mem: Memory, mem': Memory, layout: Layout, f: nat, i: nat) {
    forall g, j | g in layout && g < FRAME_SPACE && 0 <= j < ENTRIES && !(g == f && j == i) :: mem'[g][j] == mem[g][j]
  }

  /** An edit concerns only the range behind the entry, and not even that if the entry means the same. */
  lemma {:induction false} EditIsLocal(mem: Memory, mem': Memory, top: nat, layout: Layout, f: nat, i: nat,
                                       g: nat, va: u64)
    requires TreeOk(mem, top, layout) && f in layout && i < ENTRIES && Edited(mem, mem', layout, f, i)
    requires Serves(layout, g, va)
    requires var n := layout[f].level;
             RangeOf(n, va) != EntryRange(layout[f], i) ||
             WalkEntry(mem', n, mem'[f][i], va) == WalkEntry(mem, n, mem[f][i], va)
    ensures WalkFrom(mem', layout[g].level, g, va) == WalkFrom(mem, layout[g].level, g, va)
    decreases layout[g].level
  {
    var m := layout[g].level;
    var j := IndexAt(m, va);
    ServedEntry(layout, g, va);
    if !(g == f && j == i) {
      var e := mem[g][j];
      assert EntryPlaced(mem, layout, g, j);
      if IsTable(m, e) {
        EditIsLocal(mem, mem', top, layout, f, i, FrameOf(e), va);
      }
    }
  }

  // ----- the two edits the mapper makes -----

  /** The bit-field entry of the bootloader. */
  function Pack(rw: bool, ps: bool, phys: nat, xd: bool): (e: u64) {
    1 + (if rw then 2 else 0) + (if ps then 0x80 else 0) + phys % 0x8_0000_0000_0000 * PAGE_SIZE +
    (if xd then 0x8000_0000_0000_0000 else 0)
  }

  /** A word from its low twelve bits, a 40-bit frame number and its top bit. */
  lemma TopBitField(low: nat, phys: nat, high: nat)
    requires low < PAGE_SIZE && phys < FRAME_SPACE && high <= 1
    ensures var e := low + phys * PAGE_SIZE + high * 0x8000_0000_0000_0000;
            e < TWO_64 && FrameOf(e) == phys && PlainAddress(e) && e / 0x8000_0000_0000_0000 == high &&
            e % 2 == low % 2 && e / 2 % 2 == low / 2 % 2 && e / 0x80 % 2 == low / 0x80 % 2
  {
    var e, rest := low + phys * PAGE_SIZE + high * 0x8000_0000_0000_0000, low + phys * PAGE_SIZE;
    WordParts(high * 0x800, phys, low);
    QuotientUnique(e, 0x8000_0000_0000_0000, high, rest);
    QuotientUnique(e, 0x10_0000_0000_0000, high * 0x800, rest);
    QuotientUnique(high * 0x800, 0x800, high, 0);
  }

  lemma PackFields(rw: bool, ps: bool, phys: nat, xd: bool)
    requires phys < FRAME_SPACE
    ensures var e := Pack(rw, ps, phys, xd);
            Present(e) && PageSize(e) == ps && FrameOf(e) == phys && PlainAddress(e) &&
            Writable(e) == rw && ExecuteDisabled(e) == xd
  {
    var low := 1 + (if rw then 2 else 0) + if ps then 0x80 else 0;
    var high := if xd then 1 else 0;
    TopBitField(low, phys, high);
  }

  lemma LowFlags(rw: bool, ps: bool, k: nat)
    requires k < 12
    ensures Bit(1 + (if rw then 2 else 0) + (if ps then 0x80 else 0), k) <==> k == 0 || (k == 1 && rw) || (k == 7 && ps)
  {
    var r, s := if rw then 1 else 0, if ps then 1 else 0;
    assert Pow2(7) == 128 by {
      assert Pow2(4) == 16;
    }
    BitSplit(s, 1 + 2 * r, 7, k);
    BitSplit(r, 1, 1, k);
    if k >= 7 {
      BitSplit(0, s, 1, k - 7);
      BitOfZero(k - 7);
    }
    BitSplit(0, 1, 1, k);
    BitSplit(0, r, 1, if k > 0 then k - 1 else 0);
    BitOfZero(k);
  }

  lemma AddressBits(phys: nat, low: nat, k: nat)
    requires low < PAGE_SIZE
    ensures Bit(phys * PAGE_SIZE + low, k) == if k < 12 then Bit(low, k) else Bit(phys, k - 12)
  {
    Pow2Of63();
    BitSplit(phys, low, 12, k);
  }

  /** Bit by bit: the entry has the bits asked for and no others. */
  lemma PackBits(rw: bool, ps: bool, phys: nat, xd: bool, k: nat)
    requires phys < FRAME_SPACE && k < 64
    ensures Bit(Pack(rw, ps, phys, xd), k) ==
            if k < 12 then k == 0 || (k == 1 && rw) || (k == 7 && ps)
            else if k < 63 then Bit(phys, k - 12)
            else xd
  {
    var low := 1 + (if rw then 2 else 0) + if ps then 0x80 else 0;
    assert Pack(rw, ps, phys, xd) == (phys * PAGE_SIZE + low) + (if xd then 1 else 0) * 0x8000_0000_0000_0000;
    TopBitSplit(phys * PAGE_SIZE + low, if xd then 1 else 0, k);
    AddressBits(phys, low, k);
    if k < 12 {
      LowFlags(rw, ps, k);
    }
  }

  /** `alloc_new_table`: a cleared frame `t` linked into the empty entry `i` of the table at `f`. */
  ghost function WithTable(mem: Memory, f: nat, i: nat, t: nat): Memory
    requires f < FRAME_SPACE && i < ENTRIES && t < FRAME_SPACE
  {
    mem[t := ZeroPage()][f := mem[f][i := Pack(true, false, t, false)]]
  }

  ghost function GrownLayout(layout: Layout, f: nat, i: nat, t: nat): Layout
    requires f in layout && layout[f].level > 0
  {
    layout[t := Place(layout[f].level - 1, EntryRange(layout[f], i))]
  }

  lemma NewTableKeepsWalks(mem: Memory, top: nat, layout: Layout, f: nat, i: nat, t: nat, va: u64)
    requires TreeOk(mem, top, layout) && f in layout && i < ENTRIES && layout[f].level >= 2
    requires !Present(mem[f][i]) && t !in layout && t < FRAME_SPACE
    ensures WalkFrom(WithTable(mem, f, i, t), 4, top, va) == WalkFrom(mem, 4, top, va)
  {
    var mem' := WithTable(mem, f, i, t);
    PackFields(true, false, t, false);
    assert WalkFrom(mem', layout[f].level - 1, t, va) == NotMapped;
    EditIsLocal(mem, mem', top, layout, f, i, top, va);
  }

  /** No table has the place of a new one yet. */
  lemma PlaceIsNew(mem: Memory, top: nat, layout: Layout, f: nat, i: nat, g: nat)
    requires TreeOk(mem, top, layout) && f in layout && i < ENTRIES && layout[f].level >= 2
    requires !Present(mem[f][i]) && g in layout
    ensures layout[g] != Place(layout[f].level - 1, EntryRange(layout[f], i))
  {
    if g != top {
      assert Referenced(mem, layout, g);
      var f', i' :| RefersTo(mem, layout, f', i', g);
      assert EntryPlaced(mem, layout, f', i');
      assert f' != f || i' != i;
    }
  }

  lemma NewTableKeepsTree(mem: Memory, top: nat, layout: Layout, f: nat, i: nat, t: nat)
    requires TreeOk(mem, top, layout) && f in layout && i < ENTRIES && layout[f].level >= 2
    requires !Present(mem[f][i]) && t !in layout && t < FRAME_SPACE
    ensures TreeOk(WithTable(mem, f, i, t), top, GrownLayout(layout, f, i, t))
  {
    var mem', layout' := WithTable(mem, f, i, t), GrownLayout(layout, f, i, t);
    PackFields(true, false, t, false);
    forall g, j | g in layout' && 0 <= j < ENTRIES
      ensures EntryPlaced(mem', layout', g, j)
    {
      if g != t && !(g == f && j == i) {
        assert EntryPlaced(mem, layout, g, j);
      }
    }
    forall g, h | g in layout' && h in layout' && layout'[g] == layout'[h]
      ensures g == h
    {
      if g == t && h != t {
        PlaceIsNew(mem, top, layout, f, i, h);
      } else if h == t && g != t {
        PlaceIsNew(mem, top, layout, f, i, g);
      }
    }
    forall g | g in layout' && g != top
      ensures Referenced(mem', layout', g)
    {
      if g == t {
        assert RefersTo(mem', layout', f, i, t);
      } else {
        assert Referenced(mem, layout, g);
        var f', i' :| RefersTo(mem, layout, f', i', g);
        assert RefersTo(mem', layout', f', i', g);
      }
    }
  }

  /** An entry of a level-1 table can be replaced by any entry: the tree stays as it is. */
  lemma LeafEditKeepsTree(mem: Memory, top: nat, layout: Layout, f: nat, i: nat, e: u64)
    requires TreeOk(mem, top, layout) && f in layout && i < ENTRIES && layout[f].level == 1
    ensures TreeOk(mem[f := mem[f][i := e]], top, layout)
  {
    var mem' := mem[f := mem[f][i := e]];
    forall g, j | g in layout && 0 <= j < ENTRIES
      ensures EntryPlaced(mem', layout, g, j)
    {
      assert EntryPlaced(mem, layout, g, j);
    }
    forall g | g in layout && g != top
      ensures Referenced(mem', layout, g)
    {
      assert Referenced(mem, layout, g);
      var f', i' :| RefersTo(mem, layout, f', i', g);
      assert RefersTo(mem', layout, f', i', g);
    }
  }

  // ----- the path of an address through the tree -----

  datatype Step = Stop | At(frame: nat)

  /** The table of the given level on the path of `va`, if the path gets that far. */
  function PathFrame(mem: Memory, top: nat, va: u64, level: nat): (s: Step)
    requires IsLevel(level) && top < FRAME_SPACE
    ensures s.At? ==> s.frame < FRAME_SPACE
    decreases 4 - level
  {
    if level == 4 then At(top)
    else
      match PathFrame(mem, top, va, level + 1)
      case Stop => Stop
      case At(g) =>
        var e := mem[g][IndexAt(level + 1, va)];
        if IsTable(level + 1, e) then At(FrameOf(e)) else Stop
  }

  /** Two translations with the same target. */
  predicate SameTarget(t: Translation, t': Translation) {
    t.Mapped? == t'.Mapped? && (t.Mapped? ==> t.pa == t'.pa && t.level == t'.level && t.leaf == t'.leaf)
  }

  lemma {:induction false} PathContinues(mem: Memory, top: nat, va: u64, level: nat)
    requires IsLevel(level) && top < FRAME_SPACE && PathFrame(mem, top, va, level).At?
    ensures SameTarget(WalkFrom(mem, 4, top, va), WalkFrom(mem, level, PathFrame(mem, top, va, level).frame, va))
    decreases 4 - level
  {
    if level < 4 {
      PathContinues(mem, top, va, level + 1);
    }
  }

  lemma {:induction false} PathServes(mem: Memory, top: nat, layout: Layout, va: u64, level: nat)
    requires TreeOk(mem, top, layout) && IsLevel(level) && PathFrame(mem, top, va, level).At?
    ensures var f := PathFrame(mem, top, va, level).frame;
            Serves(layout, f, va) && layout[f].level == level
    decreases 4 - level
  {
    if level < 4 {
      PathServes(mem, top, layout, va, level + 1);
      var g := PathFrame(mem, top, va, level + 1).frame;
      ServedEntry(layout, g, va);
      assert EntryPlaced(mem, layout, g, IndexAt(level + 1, va));
    }
  }

  /** Addresses of one page take the same entries everywhere. */
  lemma SamePageIndices(va: u64, va': u64, level: nat)
    requires PageNo(va) == PageNo(va') && IsLevel(level)
    ensures RangeOf(level, va) == RangeOf(level, va') && IndexAt(level, va) == IndexAt(level, va')
    decreases level
  {
    if level > 1 {
      SamePageIndices(va, va', level - 1);
      RangeSteps(level, va);
      RangeSteps(level, va');
    }
    if level < 4 {
      RangeSteps(level + 1, va);
      RangeSteps(level + 1, va');
    } else {
      TopRange(va);
      TopRange(va');
    }
  }

  lemma {:induction false} SamePagePath(mem: Memory, mem': Memory, top: nat, layout: Layout, f: nat, i: nat,
                                        va: u64, va': u64, level: nat)
    requires TreeOk(mem, top, layout) && f in layout && layout[f].level == 1 && Edited(mem, mem', layout, f, i)
    requires PageNo(va) == PageNo(va') && IsLevel(level)
    ensures PathFrame(mem', top, va', level) == PathFrame(mem, top, va, level)
    decreases 4 - level
  {
    if level < 4 {
      SamePagePath(mem, mem', top, layout, f, i, va, va', level + 1);
      SamePageIndices(va, va', level + 1);
      if PathFrame(mem, top, va, level + 1).At? {
        PathServes(mem, top, layout, va, level + 1);
      }
    }
  }

  predicate MappedBy(t: Translation, leaf: u64, va: u64) {
    t.Mapped? && t.level == 1 && t.leaf == leaf && t.pa == FrameOf(leaf) * PAGE_SIZE + va % PAGE_SIZE
  }

  /** The page of `virt` is mapped by the 4 KiB entry `leaf`. */
  ghost predicate MapsPage(mem: Memory, top: nat, virt: u64, leaf: u64)
    requires top < FRAME_SPACE
  {
    forall va: u64 :: PageNo(va) == PageNo(virt) ==> MappedBy(WalkFrom(mem, 4, top, va), leaf, va)
  }

  lemma LeafTarget(e: u64, va: u64)
    ensures LeafAddress(1, e, va) == FrameOf(e) * PAGE_SIZE + va % PAGE_SIZE
  {
  }

  /** The edit of the level-1 entry for `virt` maps that page by `e` and leaves every other page alone. */
  lemma LeafEdit(mem: Memory, top: nat, layout: Layout, virt: u64, e: u64, va: u64)
    requires TreeOk(mem, top, layout) && PathFrame(mem, top, virt, 1).At? && Present(e)
    ensures var f, i := PathFrame(mem, top, virt, 1).frame, IndexAt(1, virt);
            var mem' := mem[f := mem[f][i := e]];
            if PageNo(va) == PageNo(virt) then MappedBy(WalkFrom(mem', 4, top, va), e, va)
            else WalkFrom(mem', 4, top, va) == WalkFrom(mem, 4, top, va)
  {
    var f, i := PathFrame(mem, top, virt, 1).frame, IndexAt(1, virt);
    var mem' := mem[f := mem[f][i := e]];
    PathServes(mem, top, layout, virt, 1);
    ServedEntry(layout, f, virt);
    if PageNo(va) == PageNo(virt) {
      SamePagePath(mem, mem', top, layout, f, i, virt, va, 1);
      SamePageIndices(virt, va, 1);
      PathContinues(mem', top, va, 1);
      LeafTarget(e, va);
    } else {
      EditIsLocal(mem, mem', top, layout, f, i, top, va);
    }
  }
}
