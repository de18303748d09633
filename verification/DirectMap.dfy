/** Where the kernel's address conversion (kernel/arch/x86/paging.c:167-209) agrees with the processor. */
module DirectMap {
  import opened Bits
  import opened Division
  import opened Entry
  import opened Mmu
  import opened AddressMap
  import opened BootPointers
  import opened Paging
  import opened Heap
  import opened HeapPointers
  import opened Permissions
  import opened KernelRun

  ghost predicate NewTables(mem0: Memory, cr30: u64, mem: Memory, cr3: u64) {
    forall va: u64 :: Translates(mem0, cr30, mem, cr3, va)
  }

  lemma LowIndex(pa: u64)
    requires pa < DIRECT_SLOT * Span(4)
    ensures IndexAt(4, pa) < DIRECT_SLOT
  {
    var q := pa / 0x80_0000_0000;
    DivMod(pa, 0x80_0000_0000);
    QuotientUnique(q, ENTRIES, 0, q);
  }

  /** With the new tables in force and the mode not yet changed, the conversion is wrong: no low address
      is mapped at all. */
  lemma DisagreesInBetween(mem0: Memory, cr30: u64, mem: Memory, cr3: u64, pa: u64)
    requires NewTables(mem0, cr30, mem, cr3) && pa < DIRECT_SLOT * Span(4)
    ensures Walk(mem, cr3, PhysToVirt(false, pa)) == NotMapped
  {
    LowIndex(pa);
    assert Translates(mem0, cr30, mem, cr3, pa);
  }

  lemma DirectReached(mem0: Memory, cr30: u64, mem: Memory, cr3: u64, va: u64)
    requires NewTables(mem0, cr30, mem, cr3) && IndexAt(4, va) == DIRECT_SLOT
    ensures Reaches(mem, cr3, va, va % DIRECT_MAP_SIZE)
  {
    assert Translates(mem0, cr30, mem, cr3, va);
  }

  ghost predicate DataAt(mem: Memory, cr3: u64, va: u64) {
    var t := Walk(mem, cr3, va);
    t.Mapped? && t.pa == va % 0x80_0000_0000 && MayWrite(t) && !MayExecute(t)
  }

  /** Every address of slot 273 is mapped, to its offset there, for reading and writing and not for execution. */
  ghost predicate DataMap(mem: Memory, cr3: u64) {
    forall va: u64 | IndexAt(4, va) == 273 :: DataAt(mem, cr3, va)
  }

  lemma NewTablesMapData(mem0: Memory, cr30: u64, mem: Memory, cr3: u64)
    requires NewTables(mem0, cr30, mem, cr3)
    ensures DataMap(mem, cr3)
  {
    forall va: u64 | IndexAt(4, va) == 273
      ensures DataAt(mem, cr3, va)
    {
      assert Translates(mem0, cr30, mem, cr3, va);
    }
  }

  /** The direct map lies in slot 273, below the kernel image. */
  lemma DirectAddress(pa: u64)
    requires pa < DIRECT_MAP_SIZE
    ensures var va := DIRECT_MAP_BASE + pa;
            va < KERNEL_BASE && va % DIRECT_MAP_SIZE == pa && IndexAt(4, va) == DIRECT_SLOT &&
            PhysToVirt(true, pa) == va
  {
    QuotientUnique(DIRECT_MAP_BASE + pa, DIRECT_MAP_SIZE, 0x1FF_FF11, pa);
  }

  /** Once the mode is changed it is right for all of the direct map, and the two directions agree. */
  lemma AgreesAfterMark(mem0: Memory, cr30: u64, mem: Memory, cr3: u64, pa: u64)
    requires NewTables(mem0, cr30, mem, cr3) && pa < DIRECT_MAP_SIZE
    ensures Reaches(mem, cr3, PhysToVirt(true, pa), pa)
    ensures VirtToPhys(true, PhysToVirt(true, pa)) == pa
  {
    DirectAddress(pa);
    DirectReached(mem0, cr30, mem, cr3, DIRECT_MAP_BASE + pa);
    RoundTrip(true, pa);
  }

  /** So the heap's pointers are right with the new tables in force. */
  lemma NewTablesInForce(mem0: Memory, cr30: u64, mem: Memory, cr3: u64, tables: set<nat>)
    requires NewTables(mem0, cr30, mem, cr3) && Within(mem, 4, FrameOf(cr3), tables)
    ensures InForce(mem, cr3, tables)
  {
    forall va: u64 | Managed(va)
      ensures ReachesWord(mem, cr3, va)
    {
      DirectAddress(va - DIRECT_MAP_BASE);
      DirectReached(mem0, cr30, mem, cr3, va);
      Decompose(va);
    }
  }

  /** In every state of every run after boot the processor finds the word the heap means by a pointer. */
  lemma HeapPointersReach(states: seq<Kernel>, events: seq<Event>, m: nat)
    requires IsRun(states, events) && Inv(states[0]) && m <= |events|
    requires InForce(states[0].heap.mem, states[0].cr3, states[0].tables)
    ensures InForce(states[m].heap.mem, states[m].cr3, states[m].tables)
  {
    RunIsSafe(states, events, m);
    forall va: u64 | Managed(va)
      ensures ReachesWord(states[m].heap.mem, states[m].cr3, va)
    {
      assert ReachesWord(states[0].heap.mem, states[0].cr3, va);
      assert Walk(states[m].heap.mem, states[0].cr3, va) == Walk(states[0].heap.mem, states[0].cr3, va);
    }
  }

  /** And it may write there, and execute nothing, in every state of every run. */
  lemma DataMapStays(states: seq<Kernel>, events: seq<Event>, m: nat)
    requires IsRun(states, events) && Inv(states[0]) && m <= |events|
    requires DataMap(states[0].heap.mem, states[0].cr3)
    ensures DataMap(states[m].heap.mem, states[m].cr3)
  {
    RunIsSafe(states, events, m);
    forall va: u64 | IndexAt(4, va) == 273
      ensures DataAt(states[m].heap.mem, states[m].cr3, va)
    {
      assert DataAt(states[0].heap.mem, states[0].cr3, va);
      assert Walk(states[m].heap.mem, states[0].cr3, va) == Walk(states[0].heap.mem, states[0].cr3, va);
    }
  }
}
