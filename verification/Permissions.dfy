/** What may be done at a virtual address (Intel SDM Vol. 3A, section 4.6 "Access Rights"): every entry on the path
    has a say, not only the one that maps the page. */
module Permissions {
  import opened Bits
  import opened Division
  import opened Entry
  import opened Mmu
  import opened BootTree

  /** A write is allowed if every entry allows it; `path` holds the attributes of the table entries. */
  predicate MayWrite(t: Translation) {
    t.Mapped? && Writable(t.leaf) && forall k | 0 <= k < |t.path| :: Writable(t.path[k])
  }

  predicate MayExecute(t: Translation) {
    t.Mapped? && !ExecuteDisabled(t.leaf) && forall k | 0 <= k < |t.path| :: !ExecuteDisabled(t.path[k])
  }

  predicate OpenEntry(level: nat, e: u64) { IsTable(level, e) ==> Writable(e) && !ExecuteDisabled(e) }

  /** No entry that refers to a table takes a permission away. */
  ghost predicate Open(mem: Memory, layout: Layout) {
    forall f, i | f in layout && f < FRAME_SPACE && 0 <= i < ENTRIES :: OpenEntry(layout[f].level, mem[f][i])
  }

  lemma TopOfWord(h: nat, f: nat, l: nat)
    requires f < FRAME_SPACE && l < PAGE_SIZE
    ensures (h * FRAME_SPACE * PAGE_SIZE + f * PAGE_SIZE + l) / 0x8000_0000_0000_0000 == h / 0x800
  {
    var x := h * FRAME_SPACE * PAGE_SIZE + f * PAGE_SIZE + l;
    QuotientUnique(x, 0x10_0000_0000_0000, h, f * PAGE_SIZE + l);
    DivideTwice(x, 0x10_0000_0000_0000, 0x800);
  }

  lemma AttributesKeepFlags(e: u64)
    ensures Writable(Attributes(e)) == Writable(e) && ExecuteDisabled(Attributes(e)) == ExecuteDisabled(e)
  {
    var h, f, l := e / PAGE_SIZE / FRAME_SPACE, FrameOf(e), e % PAGE_SIZE;
    DivMod(e, PAGE_SIZE);
    DivMod(e / PAGE_SIZE, FRAME_SPACE);
    assert e == h * FRAME_SPACE * PAGE_SIZE + f * PAGE_SIZE + l;
    assert Attributes(e) == h * FRAME_SPACE * PAGE_SIZE + 0 * PAGE_SIZE + l;
    WordParts(h, f, l);
    WordParts(h, 0, l);
    TopOfWord(h, f, l);
    TopOfWord(h, 0, l);
  }

  lemma OneMoreEntry(t: Translation, a: u64)
    requires t.Mapped? && Writable(a) && !ExecuteDisabled(a)
    ensures MayWrite(t.Below(a)) == MayWrite(t) && MayExecute(t.Below(a)) == MayExecute(t)
  {
    assert forall k | 0 <= k < |t.path| :: t.Below(a).path[k + 1] == t.path[k];
  }

  /** With such tables the entry that maps a page decides alone. */
  lemma {:induction false} OpenWalk(mem: Memory, top: nat, layout: Layout, g: nat, va: u64)
    requires TreeOk(mem, top, layout) && Open(mem, layout) && g in layout
    ensures var t := WalkFrom(mem, layout[g].level, g, va);
            t.Mapped? ==> MayWrite(t) == Writable(t.leaf) && MayExecute(t) == !ExecuteDisabled(t.leaf)
    decreases layout[g].level
  {
    var j := IndexAt(layout[g].level, va);
    var e := mem[g][j];
    assert EntryPlaced(mem, layout, g, j);
    if IsTable(layout[g].level, e) {
      assert OpenEntry(layout[g].level, e);
      AttributesKeepFlags(e);
      OpenWalk(mem, top, layout, FrameOf(e), va);
      if WalkFrom(mem, layout[g].level - 1, FrameOf(e), va).Mapped? {
        OneMoreEntry(WalkFrom(mem, layout[g].level - 1, FrameOf(e), va), Attributes(e));
      }
    }
  }

  lemma NewTableStaysOpen(mem: Memory, layout: Layout, f: nat, i: nat, t: nat)
    requires Open(mem, layout) && f in layout && f < FRAME_SPACE && i < ENTRIES && layout[f].level >= 2
    requires t !in layout && t < FRAME_SPACE
    ensures Open(WithTable(mem, f, i, t), GrownLayout(layout, f, i, t))
  {
    PackFields(true, false, t, false);
  }

  lemma LeafEditStaysOpen(mem: Memory, layout: Layout, f: nat, i: nat, e: u64)
    requires Open(mem, layout) && f in layout && f < FRAME_SPACE && i < ENTRIES && layout[f].level == 1
    ensures Open(mem[f := mem[f][i := e]], layout)
  {
  }
}
