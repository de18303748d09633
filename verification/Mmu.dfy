/** Physical memory as 4 KiB frames of 512 words, and the processor's 4-level walk over it
    (Intel SDM Vol. 3A, section 4.5 "4-Level Paging"). The walk is what a set of page tables means. */
module Mmu {
  import opened Bits
  import opened Entry

  const ENTRIES: nat := 512

  type Page = p: seq<u64> | |p| == ENTRIES witness seq(ENTRIES, _ => 0)

  function ZeroPage(): Page { seq(ENTRIES, _ => 0) }

  /** Every frame a 40-bit address field can name. */
  type Memory = m: seq<Page> | |m| == FRAME_SPACE witness seq<Page>(FRAME_SPACE, _ => ZeroPage())

  /** Where a virtual address leads: the physical address, the entry that maps it and its level, and
      the attribute bits of the tables passed on the way down. */
  datatype Translation =
    | NotMapped
    | Mapped(pa: nat, level: nat, leaf: u64, path: seq<u64>)
  {
    function Below(attributes: u64): Translation {
      match this
      case NotMapped => NotMapped
      case Mapped(_, _, _, _) => this.(path := [attributes] + path)
    }
  }

  predicate IsLevel(level: nat) { 1 <= level <= 4 }

  /** Bytes of address space behind one entry of a table of this level. */
  function Span(level: nat): (s: nat)
    requires IsLevel(level)
    ensures s > 0
  {
    match level
    case 1 => 0x1000
    case 2 => 0x20_0000
    case 3 => 0x4000_0000
    case 4 => 0x80_0000_0000
  }

  /** `idx_lv1` .. `idx_lv4`. */
  function IndexAt(level: nat, va: u64): (i: nat)
    requires IsLevel(level)
    ensures i < ENTRIES
  {
    va / Span(level) % ENTRIES
  }

  /** A present entry refers to a table unless it maps a page: always at level 1, by the PS bit at
      levels 2 and 3, never at level 4. */
  predicate IsTable(level: nat, e: u64) {
    Present(e) && (level == 4 || (level > 1 && !PageSize(e)))
  }

  function LeafAddress(level: nat, e: u64, va: u64): nat
    requires IsLevel(level)
  {
    FrameOf(e) * PAGE_SIZE / Span(level) * Span(level) + va % Span(level)
  }

  function WalkFrom(mem: Memory, level: nat, frame: nat, va: u64): Translation
    requires IsLevel(level) && frame < FRAME_SPACE
    decreases level, 1
  {
    WalkEntry(mem, level, mem[frame][IndexAt(level, va)], va)
  }

  function WalkEntry(mem: Memory, level: nat, e: u64, va: u64): Translation
    requires IsLevel(level)
    decreases level, 0
  {
    if !Present(e) then NotMapped
    else if IsTable(level, e) then WalkFrom(mem, level - 1, FrameOf(e), va).Below(Attributes(e))
    else Mapped(LeafAddress(level, e, va), level, e, [])
  }

  /** The processor's translation of `va` with `cr3` loaded. */
  function Walk(mem: Memory, cr3: u64, va: u64): Translation {
    WalkFrom(mem, 4, FrameOf(cr3), va)
  }

  // ----- which frames a walk can touch -----

  /** Every table at or below `frame` lies in `tables`. */
  ghost predicate Within(mem: Memory, level: nat, frame: nat, tables: set<nat>)
    requires IsLevel(level)
    decreases level, 1
  {
    frame < FRAME_SPACE && frame in tables &&
    forall i | 0 <= i < ENTRIES :: EntryWithin(mem, level, mem[frame][i], tables)
  }

  ghost predicate EntryWithin(mem: Memory, level: nat, e: u64, tables: set<nat>)
    requires IsLevel(level)
    decreases level, 0
  {
    IsTable(level, e) ==> Within(mem, level - 1, FrameOf(e), tables)
  }

  /** Two memories agree on a set of frames. */
  ghost predicate AgreeOn(mem: Memory, mem': Memory, frames: set<nat>) {
    forall f | f in frames && f < FRAME_SPACE :: mem'[f] == mem[f]
  }

  ghost predicate SameBelow(mem: Memory, e: u64, mem': Memory, e': u64, level: nat)
    requires IsLevel(level)
  {
    forall va: u64 :: WalkEntry(mem', level, e', va) == WalkEntry(mem, level, e, va)
  }

  ghost predicate SameTables(mem: Memory, frame: nat, mem': Memory, frame': nat, level: nat)
    requires IsLevel(level) && frame < FRAME_SPACE && frame' < FRAME_SPACE
  {
    forall va: u64 :: WalkFrom(mem', level, frame', va) == WalkFrom(mem, level, frame, va)
  }

  /** Writes outside the tables change no translation. */
  lemma {:induction false} WalkUnaffected(mem: Memory, mem': Memory, level: nat, frame: nat, tables: set<nat>)
    requires IsLevel(level) && Within(mem, level, frame, tables) && AgreeOn(mem, mem', tables)
    ensures Within(mem', level, frame, tables)
    ensures SameTables(mem, frame, mem', frame, level)
    decreases level, 1
  {
    forall i | 0 <= i < ENTRIES
      ensures EntryWithin(mem', level, mem'[frame][i], tables)
      ensures SameBelow(mem, mem[frame][i], mem', mem'[frame][i], level)
    {
      EntryUnaffected(mem, mem', level, mem[frame][i], tables);
    }
    forall va: u64
      ensures WalkFrom(mem', level, frame, va) == WalkFrom(mem, level, frame, va)
    {
      assert SameBelow(mem, mem[frame][IndexAt(level, va)], mem', mem'[frame][IndexAt(level, va)], level);
    }
  }

  lemma {:induction false} EntryUnaffected(mem: Memory, mem': Memory, level: nat, e: u64, tables: set<nat>)
    requires IsLevel(level) && EntryWithin(mem, level, e, tables) && AgreeOn(mem, mem', tables)
    ensures EntryWithin(mem', level, e, tables)
    ensures SameBelow(mem, e, mem', e, level)
    decreases level, 0
  {
    if IsTable(level, e) {
      WalkUnaffected(mem, mem', level - 1, FrameOf(e), tables);
      forall va: u64
        ensures WalkEntry(mem', level, e, va) == WalkEntry(mem, level, e, va)
      {
        assert WalkFrom(mem', level - 1, FrameOf(e), va) == WalkFrom(mem, level - 1, FrameOf(e), va);
      }
    }
  }

  lemma {:induction false} WithinLarger(mem: Memory, level: nat, frame: nat, tables: set<nat>, more: set<nat>)
    requires IsLevel(level) && Within(mem, level, frame, tables) && tables <= more
    ensures Within(mem, level, frame, more)
    decreases level, 1
  {
    forall i | 0 <= i < ENTRIES
      ensures EntryWithin(mem, level, mem[frame][i], more)
    {
      EntryWithinLarger(mem, level, mem[frame][i], tables, more);
    }
  }

  lemma {:induction false} EntryWithinLarger(mem: Memory, level: nat, e: u64, tables: set<nat>, more: set<nat>)
    requires IsLevel(level) && EntryWithin(mem, level, e, tables) && tables <= more
    ensures EntryWithin(mem, level, e, more)
    decreases level, 0
  {
    if IsTable(level, e) {
      WithinLarger(mem, level - 1, FrameOf(e), tables, more);
    }
  }
}
