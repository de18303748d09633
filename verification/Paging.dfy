/** Page-table reconstruction (kernel/arch/x86/paging.c). */
module Paging {
  import opened Bits
  import opened Division
  import opened Entry
  import opened Mmu
  import opened Machine
  import opened Bitmap
  import opened AddressMap
  import opened PageAlloc
  import opened TableClone
  import opened BootPointers
  import opened Permissions

  const PTE_FLAGS_1G: u64 := PTE_P + PTE_W + PTE_A + PTE_PS + PTE_G
  const DIRECT_FLAGS: u64 := PTE_P + PTE_W + PTE_A + PTE_G + PTE_NX
  const DIRECT_SLOT: nat := 273

  lemma DirectFlags()
    ensures FrameOf(PTE_FLAGS_1G) == 0 && Present(PTE_FLAGS_1G) && PageSize(PTE_FLAGS_1G)
    ensures FrameOf(DIRECT_FLAGS) == 0 && Present(DIRECT_FLAGS)
  {
    assert PTE_FLAGS_1G == 0x1A3;
    WordParts(0, 0, 0x1A3);
    assert DIRECT_FLAGS == 0x800 * FRAME_SPACE * PAGE_SIZE + 0x123;
    WordParts(0x800, 0, 0x123);
  }

  lemma DirectPointer(d: nat)
    requires d < FRAME_SPACE
    ensures var e := MakePte(d * PAGE_SIZE, DIRECT_FLAGS);
            FrameOf(e) == d && Present(e) && Attributes(e) == DIRECT_FLAGS
  {
    FrameOfAddress(d);
    DirectFlags();
    MakePteFields(d * PAGE_SIZE, DIRECT_FLAGS);
    LowBits(MakePte(d * PAGE_SIZE, DIRECT_FLAGS));
  }

  /** Entry `l3` maps the `l3`-th GiB of physical memory. */
  ghost predicate IsDirectTable(page: Page) {
    forall j | 0 <= j < ENTRIES :: page[j] == MakePte(j * Span(3), PTE_FLAGS_1G)
  }

  /** The frame that slot 273 of the top table refers to. */
  function DirectFrame(mem: Memory, top: nat): nat
    requires top < FRAME_SPACE
  {
    FrameOf(mem[top][DIRECT_SLOT])
  }

  /** One fresh frame has become the direct-map table, linked into slot 273 of `lv4`. */
  ghost predicate DirectMapped(mem0: Memory, free0: set<nat>, lv4: nat, mem: Memory, free: set<nat>)
    requires lv4 < FRAME_SPACE
  {
    && DirectFrame(mem, lv4) in free0 && 0 < DirectFrame(mem, lv4) && DirectFrame(mem, lv4) != lv4
    && free == free0 - {DirectFrame(mem, lv4)}
    && Present(mem[lv4][DIRECT_SLOT]) && Attributes(mem[lv4][DIRECT_SLOT]) == DIRECT_FLAGS
    && IsDirectTable(mem[DirectFrame(mem, lv4)])
    && mem == mem0[DirectFrame(mem, lv4) := mem[DirectFrame(mem, lv4)]]
                  [lv4 := mem0[lv4][DIRECT_SLOT := mem[lv4][DIRECT_SLOT]]]
  }

  lemma DirectLinked(mem0: Memory, free0: set<nat>, lv4: nat, d: nat, mem: Memory, free: set<nat>)
    requires lv4 < FRAME_SPACE && lv4 != d && 0 < d < FRAME_SPACE && d in free0 && free == free0 - {d}
    requires IsDirectTable(mem[d])
    requires mem[lv4][DIRECT_SLOT] == MakePte(d * PAGE_SIZE, DIRECT_FLAGS)
    requires mem == mem0[d := mem[d]][lv4 := mem0[lv4][DIRECT_SLOT := mem[lv4][DIRECT_SLOT]]]
    ensures DirectMapped(mem0, free0, lv4, mem, free)
  {
    DirectPointer(d);
  }

  const UPPER_SLOT: nat := 274

  /** The slots above the direct map. */
  lemma UpperStart()
    ensures IndexAt(4, DIRECT_MAP_BASE) == DIRECT_SLOT && DIRECT_MAP_SIZE / Span(4) == 1
    ensures IndexAt(4, DIRECT_MAP_BASE) + DIRECT_MAP_SIZE / Span(4) == UPPER_SLOT
  {
  }

  /** The tables the upper half is cloned from are out of the way of the copy. */
  ghost predicate CanClone(mem: Memory, free: set<nat>, oldTop: nat, newTop: nat, tables: set<nat>)
    requires oldTop < FRAME_SPACE && newTop < FRAME_SPACE
  {
    && newTop !in free && oldTop in tables
    && OldTables(mem, free, 4, mem[oldTop], UPPER_SLOT, newTop, tables)
    && forall j | UPPER_SLOT <= j < ENTRIES :: mem[newTop][j] == 0
  }

  /** Two tables for the top and the direct map, and one for every table in use above it. */
  ghost function TablesNeeded(mem: Memory, cr3: u64): nat {
    2 + NodesBelow(mem, 4, mem[FrameOf(cr3)], UPPER_SLOT, ENTRIES)
  }

  /** The direct map: the offset into the region is the physical address, in 1 GiB pages whose entries have P, W, A,
      PS and G, under a table entry with P, W, A, G and NX. */
  ghost function DirectTranslation(va: u64): Translation {
    var pa := va % 0x80_0000_0000;
    Mapped(pa, 3, pa / 0x4000_0000 * 0x4000_0000 + 0x1A3, [0x8000_0000_0000_0123])
  }

  /** Data may be written there, and nothing executed. */
  lemma DirectAccess(va: u64)
    ensures MayWrite(DirectTranslation(va)) && !MayExecute(DirectTranslation(va))
  {
    var t := DirectTranslation(va);
    var q := t.pa / 0x4000_0000;
    QuotientUnique(t.leaf, 2, q * 0x2000_0000 + 0xD1, 1);
    QuotientUnique(0x8000_0000_0000_0123, 2, 0x4000_0000_0000_0091, 1);
    assert ExecuteDisabled(t.path[0]);
  }

  /** The meaning of the new tables in terms of the old ones, for every virtual address: nothing below slot 273, there
      all of memory below 512 GiB as data, and above it what there was. */
  ghost predicate Translates(mem0: Memory, cr30: u64, mem: Memory, cr3: u64, va: u64) {
    var t := Walk(mem, cr3, va);
    if IndexAt(4, va) < 273 then t == NotMapped
    else if IndexAt(4, va) == 273 then t == DirectTranslation(va) && MayWrite(t) && !MayExecute(t)
    else t == Walk(mem0, cr30, va)
  }

  /** A finished reconstruction: every translation is as stated, the tables are fresh frames, exactly as
      many as there are tables to copy plus two, and nothing else in memory has changed. */
  ghost predicate Reconstructed(mem0: Memory, cr30: u64, free0: set<nat>, mem: Memory, cr3: u64, free: set<nat>) {
    && Extends(mem0, free0, mem, free)
    && (forall va: u64 :: Translates(mem0, cr30, mem, cr3, va))
    && Within(mem, 4, FrameOf(cr3), free0 - free)
    && |free0 - free| == TablesNeeded(mem0, cr30)
  }

  lemma CopyLinked(mem0: Memory, free0: set<nat>, level: nat, page: Page, base: Page, lo: nat,
                   mem: Memory, free: set<nat>, new_: nat, i: nat, tables: set<nat>,
                   mem': Memory, free': set<nat>, child: u64, mem'': Memory)
    requires IsLevel(level) && i < ENTRIES && IsTable(level, page[i])
    requires Progress(mem0, free0, level, page, base, lo, mem, free, new_, i)
    requires OldTables(mem0, free0, level, page, lo, new_, tables)
    requires child % PAGE_SIZE == 0
    requires Cloned(mem, free, level - 1, FrameOf(page[i]), mem', free', child / PAGE_SIZE)
    requires mem'' == mem'[new_ := mem'[new_][i := Redirect(page[i], child)]]
    ensures Progress(mem0, free0, level, page, base, lo, mem'', free', new_, i + 1)
  {
    RedirectedToFrame(level, page[i], child / PAGE_SIZE);
    CloneEntry(mem0, free0, level, page, base, lo, mem, free, new_, i, tables,
               mem', free', child / PAGE_SIZE, mem'', Redirect(page[i], child));
  }

  lemma TablePointer(pte: u64)
    ensures And(pte, PTE_ADDR_MASK) / PAGE_SIZE == FrameOf(pte) && And(pte, PTE_ADDR_MASK) % PAGE_SIZE == 0
  {
    AddressMask(pte);
    FrameOfAddress(FrameOf(pte));
  }

  lemma TopPointer(p: u64, f: nat)
    requires f < FRAME_SPACE && p == f * PAGE_SIZE
    ensures FrameOf(And(p, PTE_ADDR_MASK)) == f
  {
    AddressMask(p);
    FrameOfAddress(f);
  }

  lemma CopyMade(mem0: Memory, free0: set<nat>, level: nat, old_: nat, tables: set<nat>, new_: nat, mem1: Memory)
    requires IsLevel(level) && Within(mem0, level, old_, tables) && tables !! free0
    requires new_ in free0 && 0 < new_ < FRAME_SPACE && mem1 == mem0[new_ := mem0[old_]]
    ensures var page, free1 := mem0[old_], free0 - {new_};
            && Progress(mem1, free1, level, page, page, 0, mem1, free1, new_, 0)
            && OldTables(mem1, free1, level, page, 0, new_, tables)
  {
    var page, free1 := mem0[old_], free0 - {new_};
    assert free1 - free1 == {};
    forall j | 0 <= j < ENTRIES
      ensures EntryWithin(mem1, level, page[j], tables)
    {
      EntryUnaffected(mem0, mem1, level, page[j], tables);
    }
  }

  lemma CopyFailed(mem0: Memory, free0: set<nat>, level: nat, old_: nat, tables: set<nat>, new_: nat, mem1: Memory,
                   mem: Memory, free: set<nat>)
    requires IsLevel(level) && Within(mem0, level, old_, tables) && tables !! free0
    requires new_ in free0 && 0 < new_ < FRAME_SPACE && mem1 == mem0[new_ := mem0[old_]]
    requires Confined(mem1, free0 - {new_}, mem, free, new_) && free <= {0}
    requires |free0 - {new_} - {0}| < NodesBelow(mem1, level, mem0[old_], 0, ENTRIES)
    ensures OutOfFrames(mem0, free0, mem, free, Nodes(mem0, level, old_))
  {
    assert AgreeOn(mem0, mem1, tables);
    NodesBelowUnaffected(mem0, mem1, level, old_, ENTRIES, tables);
    assert free0 - {0} == (free0 - {new_} - {0}) + {new_};
  }

  /** What granting one unaligned frame means: failure is exhaustion. */
  lemma SingleFrame(free: set<nat>, end: nat, ptr: u64, free': set<nat>)
    requires Granted(free, end, 1, 1, false, ptr, free')
    requires forall f :: f in free ==> f < end
    requires end <= FRAME_COUNT
    ensures if ptr == 0 then free <= {0} && free' == free
            else var f := ptr / PAGE_SIZE;
              ptr == f * PAGE_SIZE && 0 < f < FRAME_COUNT && f in free && free' == free - {f}
  {
    if ptr == 0 {
      forall f | f in free
        ensures f == 0
      {
        assert Run(f, 1) <= free;
        assert !Candidate(free, 1, end, 1, 1, f);
      }
    } else {
      var f := ptr / PAGE_SIZE;
      assert Candidate(free, 1, end, 1, 1, f);
      assert Run(f, 1) == {f};
    }
  }

  function Zeroed(mem: Memory, frame: nat): Memory
    requires frame < FRAME_SPACE
  {
    mem[frame := ZeroPage()]
  }

  /** The state in which the upper half is cloned. */
  ghost predicate TopStarted(o: Origin, f4: nat, mem1: Memory, free1: set<nat>) {
    && Within(o.mem, 4, FrameOf(o.cr3), o.tables) && o.tables !! o.free
    && f4 in o.free && 0 < f4 < FRAME_SPACE
    && DirectMapped(Zeroed(o.mem, f4), o.free - {f4}, f4, mem1, free1)
  }

  lemma {:induction false} UpperNodesUnaffected(mem: Memory, mem': Memory, frame: nat, hi: nat, tables: set<nat>)
    requires UPPER_SLOT <= hi <= ENTRIES && Within(mem, 4, frame, tables) && AgreeOn(mem, mem', tables)
    ensures NodesBelow(mem', 4, mem'[frame], UPPER_SLOT, hi) == NodesBelow(mem, 4, mem[frame], UPPER_SLOT, hi)
    decreases hi
  {
    if hi > UPPER_SLOT {
      UpperNodesUnaffected(mem, mem', frame, hi - 1, tables);
      NodesUnaffected(mem, mem', 4, mem[frame][hi - 1], tables);
    }
  }

  lemma TopReady(o: Origin, f4: nat, mem1: Memory, free1: set<nat>)
    requires TopStarted(o, f4, mem1, free1)
    ensures AgreeOn(o.mem, mem1, o.tables)
    ensures CanClone(mem1, free1, FrameOf(o.cr3), f4, o.tables)
    ensures NodesBelow(mem1, 4, mem1[FrameOf(o.cr3)], UPPER_SLOT, ENTRIES) ==
            NodesBelow(o.mem, 4, o.mem[FrameOf(o.cr3)], UPPER_SLOT, ENTRIES)
  {
    WalkUnaffected(o.mem, mem1, 4, FrameOf(o.cr3), o.tables);
    UpperNodesUnaffected(o.mem, mem1, FrameOf(o.cr3), ENTRIES, o.tables);
  }

  /** What the phases have done to memory outside the frames they took. */
  lemma TopExtends(o: Origin, f4: nat, mem1: Memory, free1: set<nat>, mem: Memory, free: set<nat>)
    requires TopStarted(o, f4, mem1, free1)
    requires Confined(mem1, free1, mem, free, f4)
    ensures Extends(o.mem, o.free, mem, free)
    ensures o.free - free == (free1 - free) + {f4, DirectFrame(mem1, f4)}
    ensures free1 - free !! {f4, DirectFrame(mem1, f4)} && f4 != DirectFrame(mem1, f4)
    ensures mem[DirectFrame(mem1, f4)] == mem1[DirectFrame(mem1, f4)]
  {
    var d := DirectFrame(mem1, f4);
    forall f | 0 <= f < FRAME_SPACE && f !in o.free - free
      ensures mem[f] == o.mem[f]
    {
      assert f != f4 && f != d && f !in free1 - free;
      assert mem1[f] == Zeroed(o.mem, f4)[f];
    }
  }

  lemma TopFrames(o: Origin, f4: nat, mem1: Memory, free1: set<nat>)
    requires TopStarted(o, f4, mem1, free1)
    ensures var d := DirectFrame(mem1, f4);
            o.free - {0} == (free1 - {0}) + {f4, d} && free1 - {0} !! {f4, d} && f4 != d
  {
  }

  /** Running out before the clone has begun: at most one frame could be had. */
  lemma NoTopTable(o: Origin)
    requires o.free <= {0}
    ensures OutOfFrames(o.mem, o.free, o.mem, o.free, TablesNeeded(o.mem, o.cr3))
  {
    assert o.free - {0} == {};
  }

  lemma NoDirectTable(o: Origin, f4: nat, mem: Memory, free: set<nat>)
    requires f4 in o.free && free == o.free - {f4} && free <= {0} && Extends(o.mem, o.free, mem, free)
    ensures OutOfFrames(o.mem, o.free, mem, free, TablesNeeded(o.mem, o.cr3))
  {
    assert o.free - {0} == {f4};
  }

  lemma TopIsStarted(o: Origin, f4: nat, mem1: Memory, free1: set<nat>)
    requires o.Sees() && f4 in o.free && 0 < f4 < FRAME_SPACE
    requires DirectMapped(Zeroed(o.mem, f4), o.free - {f4}, f4, mem1, free1)
    ensures TopStarted(o, f4, mem1, free1)
  {
  }

  lemma TwoMore(s: set<nat>, a: nat, b: nat, t: set<nat>)
    requires a != b && s !! {a, b} && t == s + {a, b}
    ensures |t| == |s| + 2
  {
    assert t == s + {a} + {b};
  }

  lemma TopFailed(o: Origin, f4: nat, mem1: Memory, free1: set<nat>, mem: Memory, free: set<nat>)
    requires TopStarted(o, f4, mem1, free1)
    requires Confined(mem1, free1, mem, free, f4) && free <= {0}
    requires |free1 - {0}| < NodesBelow(mem1, 4, mem1[FrameOf(o.cr3)], UPPER_SLOT, ENTRIES)
    ensures OutOfFrames(o.mem, o.free, mem, free, TablesNeeded(o.mem, o.cr3))
  {
    TopReady(o, f4, mem1, free1);
    TopExtends(o, f4, mem1, free1, mem, free);
    TopFrames(o, f4, mem1, free1);
    TwoMore(free1 - {0}, f4, DirectFrame(mem1, f4), o.free - {0});
  }

  /** The upper half has been cloned. */
  ghost predicate TopDone(o: Origin, f4: nat, mem1: Memory, free1: set<nat>, mem: Memory, free: set<nat>) {
    && TopStarted(o, f4, mem1, free1)
    && Progress(mem1, free1, 4, mem1[FrameOf(o.cr3)], mem1[f4], UPPER_SLOT, mem, free, f4, ENTRIES)
  }

  lemma DirectEntry(j: nat)
    requires j < ENTRIES
    ensures var e := MakePte(j * Span(3), PTE_FLAGS_1G);
            Present(e) && PageSize(e) && FrameOf(e) * PAGE_SIZE == j * Span(3) && e == j * Span(3) + 0x1A3
  {
    var f := 0x4_0000 * j;
    assert f * PAGE_SIZE == j * Span(3);
    FrameOfAddress(f);
    DirectFlags();
    MakePteFields(f * PAGE_SIZE, PTE_FLAGS_1G);
    LowBits(MakePte(f * PAGE_SIZE, PTE_FLAGS_1G));
  }

  lemma DirectWithin(mem: Memory, d: nat, tables: set<nat>)
    requires d < FRAME_SPACE && d in tables && IsDirectTable(mem[d])
    ensures Within(mem, 3, d, tables)
  {
    forall j | 0 <= j < ENTRIES
      ensures EntryWithin(mem, 3, mem[d][j], tables)
    {
      DirectEntry(j);
    }
  }

  /** Below the upper half only the direct map is present. */
  lemma LowerEntry(mem0: Memory, f4: nat, mem1: Memory, j: nat)
    requires f4 < FRAME_SPACE && j < UPPER_SLOT
    requires mem1[f4] == Zeroed(mem0, f4)[f4][DIRECT_SLOT := mem1[f4][DIRECT_SLOT]]
    ensures j == DIRECT_SLOT || !Present(mem1[f4][j])
  {
  }

  lemma TopWithin(o: Origin, f4: nat, mem1: Memory, free1: set<nat>, mem: Memory, free: set<nat>)
    requires TopDone(o, f4, mem1, free1, mem, free)
    ensures Within(mem, 4, f4, o.free - free)
  {
    TopExtends(o, f4, mem1, free1, mem, free);
    var d := DirectFrame(mem1, f4);
    DirectWithin(mem, d, o.free - free);
    forall j | 0 <= j < ENTRIES
      ensures EntryWithin(mem, 4, mem[f4][j], o.free - free)
    {
      if j >= UPPER_SLOT {
        EntryWithinLarger(mem, 4, mem[f4][j], free1 - free, o.free - free);
      } else {
        assert mem[f4][j] == mem1[f4][j];
        LowerEntry(o.mem, f4, mem1, j);
      }
    }
  }

  lemma DirectOffset(va: u64)
    ensures var pa := va % DIRECT_MAP_SIZE;
            pa / Span(3) == IndexAt(3, va) && pa % Span(3) == va % Span(3)
  {
    DivideTwice(va, 0x4000_0000, 512);
    var pa := va % DIRECT_MAP_SIZE;
    QuotientUnique(pa, 0x4000_0000, va / 0x4000_0000 % 512, va % 0x4000_0000);
  }

  lemma DirectLeaf(e: u64, va: u64)
    requires FrameOf(e) * PAGE_SIZE == IndexAt(3, va) * Span(3)
    ensures LeafAddress(3, e, va) == va % DIRECT_MAP_SIZE
  {
    DirectOffset(va);
  }

  /** Slot 273 is the direct map. */
  lemma DirectWalk(mem: Memory, f4: nat, d: nat, va: u64)
    requires f4 < FRAME_SPACE && d == DirectFrame(mem, f4) && IsDirectTable(mem[d])
    requires Present(mem[f4][DIRECT_SLOT]) && Attributes(mem[f4][DIRECT_SLOT]) == DIRECT_FLAGS
    requires IndexAt(4, va) == DIRECT_SLOT
    ensures WalkFrom(mem, 4, f4, va) == DirectTranslation(va)
    ensures MayWrite(WalkFrom(mem, 4, f4, va)) && !MayExecute(WalkFrom(mem, 4, f4, va))
  {
    var j := IndexAt(3, va);
    DirectOffset(va);
    DirectEntry(j);
    DirectLeaf(mem[d][j], va);
    DirectAccess(va);
    assert WalkFrom(mem, 3, d, va) == Mapped(va % DIRECT_MAP_SIZE, 3, mem[d][j], []);
  }

  /** Above the direct map an address means what it meant in the old tables. */
  lemma UpperMeaning(o: Origin, f4: nat, mem1: Memory, free1: set<nat>, mem: Memory, free: set<nat>, va: u64)
    requires TopDone(o, f4, mem1, free1, mem, free) && IndexAt(4, va) >= UPPER_SLOT
    ensures WalkFrom(mem, 4, f4, va) == Walk(o.mem, o.cr3, va)
  {
    TopReady(o, f4, mem1, free1);
    var j, page := IndexAt(4, va), o.mem[FrameOf(o.cr3)];
    EntryUnaffected(o.mem, mem1, 4, page[j], o.tables);
    assert SameBelow(o.mem, page[j], mem1, page[j], 4);
    assert SameBelow(mem1, page[j], mem, mem[f4][j], 4);
  }

  /** Below it nothing is mapped. */
  lemma LowerMeaning(o: Origin, f4: nat, mem1: Memory, free1: set<nat>, mem: Memory, free: set<nat>, va: u64)
    requires TopDone(o, f4, mem1, free1, mem, free) && IndexAt(4, va) < UPPER_SLOT
    ensures WalkFrom(mem, 4, f4, va) == if IndexAt(4, va) == DIRECT_SLOT then DirectTranslation(va) else NotMapped
    ensures IndexAt(4, va) == DIRECT_SLOT ==>
              MayWrite(WalkFrom(mem, 4, f4, va)) && !MayExecute(WalkFrom(mem, 4, f4, va))
  {
    TopExtends(o, f4, mem1, free1, mem, free);
    var j := IndexAt(4, va);
    assert mem[f4][j] == mem1[f4][j];
    if j == DIRECT_SLOT {
      DirectWalk(mem, f4, DirectFrame(mem1, f4), va);
    } else {
      LowerEntry(o.mem, f4, mem1, j);
    }
  }

  lemma TopMeaning(o: Origin, f4: nat, mem1: Memory, free1: set<nat>, mem: Memory, free: set<nat>, cr3: u64, va: u64)
    requires TopDone(o, f4, mem1, free1, mem, free) && FrameOf(cr3) == f4
    ensures Translates(o.mem, o.cr3, mem, cr3, va)
  {
    if IndexAt(4, va) >= UPPER_SLOT {
      UpperMeaning(o, f4, mem1, free1, mem, free, va);
    } else {
      LowerMeaning(o, f4, mem1, free1, mem, free, va);
    }
  }

  lemma TopFinished(o: Origin, f4: nat, mem1: Memory, free1: set<nat>, mem: Memory, cr3: u64, free: set<nat>)
    requires TopDone(o, f4, mem1, free1, mem, free) && FrameOf(cr3) == f4
    ensures Reconstructed(o.mem, o.cr3, o.free, mem, cr3, free)
  {
    TopReady(o, f4, mem1, free1);
    TopExtends(o, f4, mem1, free1, mem, free);
    TopWithin(o, f4, mem1, free1, mem, free);
    TwoMore(free1 - free, f4, DirectFrame(mem1, f4), o.free - free);
    forall va: u64
      ensures Translates(o.mem, o.cr3, mem, cr3, va)
    {
      TopMeaning(o, f4, mem1, free1, mem, free, cr3, va);
    }
  }

  class Paging {
    const machine: Machine
    const pages: PageAllocator
    const mode: AddressMode
    var newLv4: u64            // g_new_lv4

    constructor (machine: Machine, pages: PageAllocator)
      ensures this.machine == machine && this.pages == pages && mode == pages.mode && newLv4 == 0
    {
      this.machine, this.pages, this.mode, newLv4 := machine, pages, pages.mode, 0;
    }

    /** Before the switch: pointers are physical addresses. */
    ghost predicate Booting()
      reads this, mode, pages, pages.bitmap
    {
      pages.mode == mode && pages.Valid() && !mode.reconstructed
    }

    /** While the new tables are built: the firmware's are in force and as they were. */
    ghost predicate Building(o: Origin)
      reads this, mode, pages, pages.bitmap, machine
    {
      Booting() && machine.cr3 == o.cr3 && o.Sees() && Extends(o.mem, o.free, machine.mem, pages.Free())
    }

    /** `p` points to a table that reconstruction may read. */
    ghost predicate Table(o: Origin, p: u64) {
      p % PAGE_SIZE == 0 && p / PAGE_SIZE < FRAME_SPACE && o.Known(p / PAGE_SIZE)
    }

    /** `p` points to a frame that has been taken for a new table. */
    ghost predicate NewTable(o: Origin, p: u64)
      reads pages, pages.bitmap
      requires pages.Valid()
    {
      Table(o, p) && p / PAGE_SIZE in o.free && p / PAGE_SIZE !in pages.Free()
    }

    method ReadEntry(p: u64, i: nat, ghost o: Origin) returns (e: u64)
      requires Building(o) && Table(o, p) && i < ENTRIES
      ensures e == machine.mem[p / PAGE_SIZE][i]
    {
      EntryReaches(o, machine.mem, pages.Free(), p / PAGE_SIZE, i);
      e := machine.LoadWord(p + 8 * i);
    }

    method WriteEntry(p: u64, i: nat, e: u64, ghost o: Origin)
      requires Building(o) && NewTable(o, p) && i < ENTRIES
      modifies machine`mem
      ensures Building(o)
      ensures machine.mem == old(machine.mem)[p / PAGE_SIZE := old(machine.mem)[p / PAGE_SIZE][i := e]]
    {
      ghost var mem, f := machine.mem, p / PAGE_SIZE;
      EntryReaches(o, mem, pages.Free(), f, i);
      machine.StoreWord(p + 8 * i, e);
      OwnFrameWritten(o, mem, pages.Free(), f, machine.mem[f]);
    }

    /** `memcpy` of a table into a new one. */
    method CopyTable(to: u64, from: u64, ghost o: Origin)
      requires Building(o) && NewTable(o, to) && Table(o, from)
      modifies machine`mem
      ensures Building(o)
      ensures machine.mem == old(machine.mem)[to / PAGE_SIZE := old(machine.mem)[from / PAGE_SIZE]]
    {
      ghost var mem, f := machine.mem, to / PAGE_SIZE;
      AgreesBeforeSwitch(o, mem, pages.Free(), to);
      AgreesBeforeSwitch(o, mem, pages.Free(), from);
      machine.CopyPage(to, from);
      OwnFrameWritten(o, mem, pages.Free(), f, machine.mem[f]);
    }

    /** `memset` of a new table to zero. */
    method ClearTable(p: u64, ghost o: Origin)
      requires Building(o) && NewTable(o, p)
      modifies machine`mem
      ensures Building(o) && machine.mem == Zeroed(old(machine.mem), p / PAGE_SIZE)
    {
      ghost var mem, f := machine.mem, p / PAGE_SIZE;
      AgreesBeforeSwitch(o, mem, pages.Free(), p);
      machine.ClearPage(p);
      OwnFrameWritten(o, mem, pages.Free(), f, machine.mem[f]);
    }

    /** `pt_from_pte`. */
    function TableFromPte(pte: u64): (p: u64)
      reads mode
      ensures !mode.reconstructed ==> p / PAGE_SIZE == FrameOf(pte) && p % PAGE_SIZE == 0
    {
      TablePointer(pte);
      PhysToVirt(mode.reconstructed, And(pte, PTE_ADDR_MASK))
    }

    /** `alloc_pt_zeroed`. */
    method AllocPtZeroed(ghost o: Origin) returns (p: u64)
      requires Building(o)
      modifies machine`mem, pages.bitmap
      ensures Building(o)
      ensures p == 0 ==> pages.Free() == old(pages.Free()) <= {0} && machine.mem == old(machine.mem)
      ensures p != 0 ==>
                var f := p / PAGE_SIZE;
                && p == f * PAGE_SIZE && 0 < f < FRAME_COUNT && f in old(pages.Free())
                && pages.Free() == old(pages.Free()) - {f}
                && machine.mem == Zeroed(old(machine.mem), f) && NewTable(o, p)
    {
      ghost var free := pages.Free();
      p := pages.Alloc4kAligned();
      SingleFrame(free, pages.frameEnd, p, pages.Free());
      if p == 0 {
        return;
      }
      FrameTaken(o, machine.mem, free, p / PAGE_SIZE);
      ClearTable(p, o);
    }

    /** A frame for a new table, and the old one copied into it. */
    method NewCopy(oldTable: u64, ghost o: Origin) returns (newTable: u64)
      requires Building(o) && Table(o, oldTable) && oldTable / PAGE_SIZE in o.tables
      modifies machine`mem, pages.bitmap
      ensures Building(o)
      ensures newTable == 0 ==> pages.Free() == old(pages.Free()) <= {0} && machine.mem == old(machine.mem)
      ensures newTable != 0 ==>
                var f := newTable / PAGE_SIZE;
                && NewTable(o, newTable) && 0 < f && f in old(pages.Free()) && pages.Free() == old(pages.Free()) - {f}
                && machine.mem == old(machine.mem)[f := old(machine.mem)[oldTable / PAGE_SIZE]]
    {
      newTable := AllocPtZeroed(o);
      if newTable != 0 {
        CopyTable(newTable, oldTable, o);
      }
    }

    /** `clone_lv1`, `clone_lv2` and `clone_lv3`: copy the table, then clone below every entry that
        refers to another table. At level 1 no entry does. */
    method CloneTable(level: nat, oldTable: u64, ghost o: Origin) returns (newTable: u64)
      requires Building(o) && 1 <= level <= 3 && oldTable % PAGE_SIZE == 0 && oldTable / PAGE_SIZE < FRAME_SPACE
      requires Within(machine.mem, level, oldTable / PAGE_SIZE, o.tables)
      modifies machine`mem, pages.bitmap
      ensures Building(o)
      ensures newTable == 0 ==>
                OutOfFrames(old(machine.mem), old(pages.Free()), machine.mem, pages.Free(),
                            Nodes(old(machine.mem), level, oldTable / PAGE_SIZE))
      ensures newTable != 0 ==>
                newTable % PAGE_SIZE == 0 &&
                Cloned(old(machine.mem), old(pages.Free()), level, oldTable / PAGE_SIZE,
                       machine.mem, pages.Free(), newTable / PAGE_SIZE)
      decreases level, 1
    {
      ghost var mem0, free0, old_ := machine.mem, pages.Free(), oldTable / PAGE_SIZE;
      newTable := NewCopy(oldTable, o);
      if newTable == 0 {
        return;
      }
      ghost var new_, mem1, page := newTable / PAGE_SIZE, machine.mem, mem0[old_];
      CopyMade(mem0, free0, level, old_, o.tables, new_, mem1);
      var ok := CloneEntries(level, newTable, page, o);
      if !ok {
        CopyFailed(mem0, free0, level, old_, o.tables, new_, mem1, machine.mem, pages.Free());
        return 0;
      }
      TableCloned(mem0, free0, level, old_, o.tables, new_, mem1, machine.mem, pages.Free());
    }

    /** The loop of `clone_lv1`, `clone_lv2` and `clone_lv3` over the copied table. */
    method CloneEntries(level: nat, newTable: u64, ghost page: Page, ghost o: Origin) returns (ok: bool)
      requires Building(o) && 1 <= level <= 3 && NewTable(o, newTable)
      requires Progress(machine.mem, pages.Free(), level, page, page, 0, machine.mem, pages.Free(),
                        newTable / PAGE_SIZE, 0)
      requires OldTables(machine.mem, pages.Free(), level, page, 0, newTable / PAGE_SIZE, o.tables)
      modifies machine`mem, pages.bitmap
      ensures Building(o)
      ensures ok ==>
                Progress(old(machine.mem), old(pages.Free()), level, page, page, 0, machine.mem, pages.Free(),
                         newTable / PAGE_SIZE, ENTRIES)
      ensures !ok ==>
                Confined(old(machine.mem), old(pages.Free()), machine.mem, pages.Free(), newTable / PAGE_SIZE) &&
                pages.Free() <= {0} &&
                |old(pages.Free()) - {0}| < NodesBelow(old(machine.mem), level, page, 0, ENTRIES)
      decreases level, 0, 2
    {
      ghost var mem1, free1, new_ := machine.mem, pages.Free(), newTable / PAGE_SIZE;
      for i := 0 to ENTRIES
        invariant Building(o)
        invariant Progress(mem1, free1, level, page, page, 0, machine.mem, pages.Free(), new_, i)
      {
        var pte := ReadEntry(newTable, i, o);
        ok := CloneBelow(level, newTable, i, pte, mem1, free1, page, page, 0, o);
        if !ok {
          return;
        }
      }
      ok := true;
    }

    /** One turn of the cloning loops: if `pte` refers to a table, clone the tree under it and link the
        copy into entry `i`; otherwise leave the entry. */
    method CloneBelow(level: nat, newTable: u64, i: nat, pte: u64, ghost mem0: Memory, ghost free0: set<nat>,
                      ghost page: Page, ghost base: Page, ghost lo: nat, ghost o: Origin) returns (ok: bool)
      requires Building(o) && IsLevel(level) && NewTable(o, newTable)
      requires lo <= i < ENTRIES && pte == page[i]
      requires Progress(mem0, free0, level, page, base, lo, machine.mem, pages.Free(), newTable / PAGE_SIZE, i)
      requires OldTables(mem0, free0, level, page, lo, newTable / PAGE_SIZE, o.tables)
      requires !IsTable(level, pte) ==> base[i] == pte || (!Present(pte) && !Present(base[i]))
      modifies machine`mem, pages.bitmap
      ensures Building(o)
      ensures ok ==>
                Progress(mem0, free0, level, page, base, lo, machine.mem, pages.Free(), newTable / PAGE_SIZE, i + 1)
      ensures !ok ==>
                Confined(mem0, free0, machine.mem, pages.Free(), newTable / PAGE_SIZE) && pages.Free() <= {0} &&
                |free0 - {0}| < NodesBelow(mem0, level, page, lo, ENTRIES)
      decreases level, 0, 1
    {
      ghost var mem, free, new_ := machine.mem, pages.Free(), newTable / PAGE_SIZE;
      var refers := RefersToTable(level, pte);
      if !refers {
        KeepEntry(mem0, free0, level, page, base, lo, mem, free, new_, i);
        return true;
      }
      OldEntryReadable(mem0, free0, level, page, base, lo, mem, free, new_, i, o.tables);
      var child, mem' := LinkClone(level, newTable, i, pte, o);
      if child == 0 {
        NoFrameForEntry(mem0, free0, level, page, base, lo, mem, free, new_, i, o.tables, machine.mem, pages.Free());
        return false;
      }
      CopyLinked(mem0, free0, level, page, base, lo, mem, free, new_, i, o.tables, mem', pages.Free(), child,
                 machine.mem);
      return true;
    }

    /** Clone the tree that `pte` refers to and link the copy into entry `i`. */
    method LinkClone(level: nat, newTable: u64, i: nat, pte: u64, ghost o: Origin)
      returns (child: u64, ghost mem': Memory)
      requires Building(o) && 2 <= level <= 4 && NewTable(o, newTable) && i < ENTRIES
      requires Within(machine.mem, level - 1, FrameOf(pte), o.tables)
      modifies machine`mem, pages.bitmap
      ensures Building(o)
      ensures child == 0 ==>
                OutOfFrames(old(machine.mem), old(pages.Free()), machine.mem, pages.Free(),
                            Nodes(old(machine.mem), level - 1, FrameOf(pte)))
      ensures child != 0 ==>
                && child % PAGE_SIZE == 0
                && Cloned(old(machine.mem), old(pages.Free()), level - 1, FrameOf(pte), mem', pages.Free(),
                          child / PAGE_SIZE)
                && var f := newTable / PAGE_SIZE; machine.mem == mem'[f := mem'[f][i := Redirect(pte, child)]]
      decreases level, 0, 0
    {
      child := CloneTable(level - 1, TableFromPte(pte), o);
      mem' := machine.mem;
      if child != 0 {
        WriteEntry(newTable, i, Redirect(pte, VirtToPhys(mode.reconstructed, child)), o);
      }
    }

    /** The tests the cloning loops make on an entry; nothing below level 1 is a table. */
    method RefersToTable(level: nat, pte: u64) returns (refers: bool)
      requires IsLevel(level)
      ensures refers == IsTable(level, pte)
    {
      FlagMasks(pte);
      refers := level > 1 && And(pte, PTE_P) != 0 && (level == 4 || And(pte, PTE_PS) == 0);
    }

    /** The loop over the 1 GiB entries in `map_direct_region_1g`. */
    method FillDirectTable(lv3: u64, ghost o: Origin)
      requires Building(o) && NewTable(o, lv3)
      modifies machine`mem
      ensures Building(o) && IsDirectTable(machine.mem[lv3 / PAGE_SIZE])
      ensures machine.mem == old(machine.mem)[lv3 / PAGE_SIZE := machine.mem[lv3 / PAGE_SIZE]]
    {
      ghost var mem0, d := machine.mem, lv3 / PAGE_SIZE;
      for l3 := 0 to ENTRIES
        invariant Building(o) && machine.mem == mem0[d := machine.mem[d]]
        invariant forall j :: 0 <= j < l3 ==> machine.mem[d][j] == MakePte(j * Span(3), PTE_FLAGS_1G)
      {
        WriteEntry(lv3, l3, MakePte(l3 * Span(3), PTE_FLAGS_1G), o);
      }
    }

    /** `map_direct_region_1g`. The direct map takes one Lv4 entry, so the loop there has one turn. */
    method MapDirectRegion1g(lv4: u64, ghost o: Origin) returns (ok: bool)
      requires Building(o) && NewTable(o, lv4)
      modifies machine`mem, pages.bitmap
      ensures Building(o)
      ensures !ok ==> pages.Free() == old(pages.Free()) <= {0} && machine.mem == old(machine.mem)
      ensures ok ==> DirectMapped(old(machine.mem), old(pages.Free()), lv4 / PAGE_SIZE, machine.mem, pages.Free())
    {
      UpperStart();
      var l4 := IndexAt(4, DIRECT_MAP_BASE);
      var l4End := l4 + DIRECT_MAP_SIZE / Span(4);
      assert l4 == DIRECT_SLOT && l4End == l4 + 1;
      var lv3 := AllocPtZeroed(o);
      if lv3 == 0 {
        return false;
      }
      FillDirectTable(lv3, o);
      WriteEntry(lv4, l4, MakePte(VirtToPhys(mode.reconstructed, lv3), DIRECT_FLAGS), o);
      DirectLinked(old(machine.mem), old(pages.Free()), lv4 / PAGE_SIZE, lv3 / PAGE_SIZE, machine.mem, pages.Free());
      ok := true;
    }

    /** `clone_kernel_upper_half`: the entries above the direct map, from the tables CR3 points at. */
    method CloneKernelUpperHalf(newTop: u64, ghost f4: nat, ghost o: Origin) returns (ok: bool)
      requires Building(o) && f4 < FRAME_SPACE && newTop == f4 * PAGE_SIZE && NewTable(o, newTop)
      requires CanClone(machine.mem, pages.Free(), FrameOf(machine.cr3), f4, o.tables)
      modifies machine`mem, pages.bitmap
      ensures Building(o)
      ensures !ok ==>
                Confined(old(machine.mem), old(pages.Free()), machine.mem, pages.Free(), f4) && pages.Free() <= {0} &&
                |old(pages.Free()) - {0}| <
                  NodesBelow(old(machine.mem), 4, old(machine.mem[FrameOf(machine.cr3)]), UPPER_SLOT, ENTRIES)
      ensures ok ==>
                Progress(old(machine.mem), old(pages.Free()), 4, old(machine.mem[FrameOf(machine.cr3)]),
                         old(machine.mem[f4]), UPPER_SLOT, machine.mem, pages.Free(), f4, ENTRIES)
    {
      var oldTop := TableFromPte(machine.cr3);
      FrameOfAddress(f4);
      UpperStart();
      ok := CloneEntriesFrom(IndexAt(4, DIRECT_MAP_BASE) + DIRECT_MAP_SIZE / Span(4), oldTop, newTop, o);
    }

    /** The loop of `clone_kernel_upper_half`. */
    method CloneEntriesFrom(start: nat, oldTop: u64, newTop: u64, ghost o: Origin) returns (ok: bool)
      requires Building(o) && start == UPPER_SLOT && Table(o, oldTop) && NewTable(o, newTop)
      requires CanClone(machine.mem, pages.Free(), oldTop / PAGE_SIZE, newTop / PAGE_SIZE, o.tables)
      modifies machine`mem, pages.bitmap
      ensures Building(o)
      ensures !ok ==>
                Confined(old(machine.mem), old(pages.Free()), machine.mem, pages.Free(), newTop / PAGE_SIZE) &&
                pages.Free() <= {0} &&
                |old(pages.Free()) - {0}| < NodesBelow(old(machine.mem), 4, old(machine.mem[oldTop / PAGE_SIZE]),
                                                       UPPER_SLOT, ENTRIES)
      ensures ok ==>
                Progress(old(machine.mem), old(pages.Free()), 4, old(machine.mem[oldTop / PAGE_SIZE]),
                         old(machine.mem[newTop / PAGE_SIZE]), UPPER_SLOT, machine.mem, pages.Free(),
                         newTop / PAGE_SIZE, ENTRIES)
    {
      ghost var mem0, free0, old_, new_ := machine.mem, pages.Free(), oldTop / PAGE_SIZE, newTop / PAGE_SIZE;
      ghost var page, base := mem0[old_], mem0[new_];
      assert free0 - free0 == {};
      for l4 := start to ENTRIES
        invariant Building(o)
        invariant Progress(mem0, free0, 4, page, base, UPPER_SLOT, machine.mem, pages.Free(), new_, l4)
      {
        var pte := ReadEntry(oldTop, l4, o);
        ok := CloneBelow(4, newTop, l4, pte, mem0, free0, page, base, UPPER_SLOT, o);
        if !ok {
          return;
        }
      }
      ok := true;
    }

    /** The first half of `paging_reconstruct`: the new top table, with the direct map in it. */
    method StartTop(ghost o: Origin) returns (ok: bool, ghost f4: nat)
      requires Building(o) && machine.mem == o.mem && pages.Free() == o.free
      modifies this`newLv4, machine`mem, pages.bitmap
      ensures Building(o)
      ensures !ok ==> OutOfFrames(o.mem, o.free, machine.mem, pages.Free(), TablesNeeded(o.mem, o.cr3))
      ensures ok ==> newLv4 == f4 * PAGE_SIZE && NewTable(o, newLv4) && TopStarted(o, f4, machine.mem, pages.Free())
    {
      newLv4 := AllocPtZeroed(o);
      f4 := newLv4 / PAGE_SIZE;
      if newLv4 == 0 {
        NoTopTable(o);
        return false, f4;
      }
      ok := MapDirectRegion1g(newLv4, o);
      if !ok {
        NoDirectTable(o, f4, machine.mem, pages.Free());
        return;
      }
      TopIsStarted(o, f4, machine.mem, pages.Free());
    }

    /** `paging_reconstruct`. */
    method Reconstruct(ghost tables: set<nat>) returns (ok: bool)
      requires Booting() && Origin(machine.mem, machine.cr3, pages.Free(), tables).Sees()
      modifies this`newLv4, machine, pages.bitmap
      ensures Booting()
      ensures !ok ==>
                && machine.cr3 == old(machine.cr3)
                && OutOfFrames(old(machine.mem), old(pages.Free()), machine.mem, pages.Free(),
                               TablesNeeded(old(machine.mem), old(machine.cr3)))
      ensures ok ==>
                Reconstructed(old(machine.mem), old(machine.cr3), old(pages.Free()),
                              machine.mem, machine.cr3, pages.Free())
    {
      ghost var o := Origin(machine.mem, machine.cr3, pages.Free(), tables);
      ghost var f4;
      ok, f4 := StartTop(o);
      if !ok {
        return;
      }
      ghost var mem1, free1 := machine.mem, pages.Free();
      TopReady(o, f4, mem1, free1);
      ok := CloneKernelUpperHalf(newLv4, f4, o);
      if !ok {
        TopFailed(o, f4, mem1, free1, machine.mem, pages.Free());
        return;
      }
      SwitchTo(newLv4, f4, o, mem1, free1);
    }

    /** The last step of `paging_reconstruct`: `write_cr3`. */
    method SwitchTo(top: u64, ghost f4: nat, ghost o: Origin, ghost mem1: Memory, ghost free1: set<nat>)
      requires Booting() && top == f4 * PAGE_SIZE && TopDone(o, f4, mem1, free1, machine.mem, pages.Free())
      modifies machine`cr3
      ensures Booting() && Reconstructed(o.mem, o.cr3, o.free, machine.mem, machine.cr3, pages.Free())
    {
      var newCr3 := And(VirtToPhys(mode.reconstructed, top), PTE_ADDR_MASK);
      TopPointer(top, f4);
      TopFinished(o, f4, mem1, free1, machine.mem, newCr3, pages.Free());
      machine.cr3 := newCr3;
    }

    /** `paging_reconstruct_and_mark`. */
    method ReconstructAndMark(ghost tables: set<nat>) returns (ok: bool)
      requires Booting() && Origin(machine.mem, machine.cr3, pages.Free(), tables).Sees()
      modifies this`newLv4, machine, pages.bitmap, mode
      ensures pages.mode == mode && pages.Valid() && mode.reconstructed == ok
      ensures !ok ==>
                && machine.cr3 == old(machine.cr3)
                && OutOfFrames(old(machine.mem), old(pages.Free()), machine.mem, pages.Free(),
                               TablesNeeded(old(machine.mem), old(machine.cr3)))
      ensures ok ==>
                Reconstructed(old(machine.mem), old(machine.cr3), old(pages.Free()),
                              machine.mem, machine.cr3, pages.Free())
    {
      ok := Reconstruct(tables);
      if ok {
        mode.reconstructed := true;
      }
    }
  }
}
