/** Pointers after the new tables are in force (kernel/arch/x86/paging.c:187-194): the heap's addresses are
    translated by the direct map, which stays as long as no table is written. */
module HeapPointers {
  import opened Bits
  import opened Division
  import opened Entry
  import opened Mmu
  import opened Bytes
  import opened BootPointers
  import opened Heap

  /** The processor takes `va` to the word the heap means by it. */
  ghost predicate ReachesWord(mem: Memory, cr3: u64, va: u64)
    requires Managed(va)
  {
    Reaches(mem, cr3, va, FrameOfVa(va) * PAGE_SIZE + va % PAGE_SIZE)
  }

  /** So it does for every address of managed memory. */
  ghost predicate DirectlyMapped(mem: Memory, cr3: u64) {
    forall va: u64 {:trigger ReachesWord(mem, cr3, va)} | Managed(va) :: ReachesWord(mem, cr3, va)
  }

  /** The tables at CR3 lie in `tables` and hold the direct map. */
  ghost predicate InForce(mem: Memory, cr3: u64, tables: set<nat>) {
    Within(mem, 4, FrameOf(cr3), tables) && DirectlyMapped(mem, cr3)
  }

  /** The tables are apart from the heap's frames and from free ones. */
  ghost predicate Clear(tables: set<nat>, owned: set<nat>, free: set<nat>) {
    forall f {:trigger f in tables} | f in tables :: f !in owned && f !in free
  }

  lemma ClearOfRun(tables: set<nat>, owned: set<nat>, free: set<nat>, run: set<nat>)
    requires Clear(tables, owned, free) && run <= owned
    ensures Clear(tables, owned - run, free + run)
  {
  }

  lemma StaysInForce(mem: Memory, mem': Memory, cr3: u64, tables: set<nat>)
    requires InForce(mem, cr3, tables) && AgreeOn(mem, mem', tables)
    ensures InForce(mem', cr3, tables)
  {
    WalkUnaffected(mem, mem', 4, FrameOf(cr3), tables);
    forall va: u64 | Managed(va)
      ensures ReachesWord(mem', cr3, va)
    {
      assert ReachesWord(mem, cr3, va);
      assert WalkFrom(mem', 4, FrameOf(cr3), va) == WalkFrom(mem, 4, FrameOf(cr3), va);
    }
  }

  /** So a load or a store of a word by the processor is the heap's. */
  lemma WordReached(mem: Memory, cr3: u64, va: u64, v: u64)
    requires DirectlyMapped(mem, cr3) && Managed(va)
    ensures Walk(mem, cr3, va).Mapped? && Walk(mem, cr3, va).pa < PHYS_LIMIT
    ensures WordAt(mem, Walk(mem, cr3, va).pa) == Load(mem, va)
    ensures WithWord(mem, Walk(mem, cr3, va).pa, v) == Heap.Store(mem, va, v)
  {
    var pa := FrameOfVa(va) * PAGE_SIZE + va % PAGE_SIZE;
    assert ReachesWord(mem, cr3, va);
    QuotientUnique(pa, PAGE_SIZE, FrameOfVa(va), va % PAGE_SIZE);
  }
}
