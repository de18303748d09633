/** Pointers before the new tables are in force (kernel/arch/x86/paging.c:169-200): the firmware's tables
    translate them, and the kernel takes a physical address for a pointer to it. */
module BootPointers {
  import opened Bits
  import opened Division
  import opened Entry
  import opened Mmu
  import opened AddressMap
  import opened TableClone

  /** The processor takes `va` to the physical address `pa`. */
  ghost predicate Reaches(mem: Memory, cr3: u64, va: u64, pa: nat) {
    var t := Walk(mem, cr3, va);
    t.Mapped? && t.pa == pa
  }

  /** Memory, CR3, the free frames and the firmware's tables when reconstruction starts. */
  datatype Origin = Origin(mem: Memory, cr3: u64, free: set<nat>, tables: set<nat>)
  {
    /** A frame that reconstruction may read or take. */
    predicate Known(f: nat) { f in free || f in tables }

    ghost predicate Identity() {
      forall x: u64 | Known(x / PAGE_SIZE) :: Reaches(mem, cr3, x, x)
    }

    /** The firmware maps its own tables and the free frames to themselves (UEFI 2.10, section 2.3.4). */
    ghost predicate Sees() {
      Within(mem, 4, FrameOf(cr3), tables) && tables !! free && Identity()
    }
  }

  /** Until CR3 is switched, whatever has been written to frames that were free, the conversion of every physical
      address reconstruction may use is a pointer to that address. */
  lemma AgreesBeforeSwitch(o: Origin, mem: Memory, free: set<nat>, pa: u64)
    requires o.Sees() && Extends(o.mem, o.free, mem, free) && o.Known(pa / PAGE_SIZE)
    ensures Reaches(mem, o.cr3, PhysToVirt(false, pa), pa)
  {
    WalkUnaffected(o.mem, mem, 4, FrameOf(o.cr3), o.tables);
    assert WalkFrom(mem, 4, FrameOf(o.cr3), pa) == WalkFrom(o.mem, 4, FrameOf(o.cr3), pa);
    assert Reaches(o.mem, o.cr3, pa, pa);
  }

  /** In particular entry `i` of a table at `f` is reached by its address. */
  lemma EntryReaches(o: Origin, mem: Memory, free: set<nat>, f: nat, i: nat)
    requires o.Sees() && Extends(o.mem, o.free, mem, free) && o.Known(f) && f < FRAME_SPACE && i < ENTRIES
    ensures var va := f * PAGE_SIZE + 8 * i;
            va < TWO_64 && Reaches(mem, o.cr3, va, va) && va / PAGE_SIZE == f && va % PAGE_SIZE / 8 == i
  {
    var va := f * PAGE_SIZE + 8 * i;
    QuotientUnique(va, PAGE_SIZE, f, 8 * i);
    AgreesBeforeSwitch(o, mem, free, va);
  }

  lemma FrameTaken(o: Origin, mem: Memory, free: set<nat>, f: nat)
    requires Extends(o.mem, o.free, mem, free) && f in free && f != 0
    ensures Extends(o.mem, o.free, mem, free - {f}) && f in o.free
  {
  }

  lemma OwnFrameWritten(o: Origin, mem: Memory, free: set<nat>, f: nat, page: Page)
    requires Extends(o.mem, o.free, mem, free) && f < FRAME_SPACE && f in o.free && f !in free
    ensures Extends(o.mem, o.free, mem[f := page], free)
  {
  }
}
