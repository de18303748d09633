/** The processor state the memory stack depends on, physical memory and CR3, and accesses by address: an
    address reaches the physical memory that the tables in force say. */
module Machine {
  import opened Bits
  import opened Entry
  import opened Mmu
  import opened Bytes

  class Machine {
    var mem: Memory
    var cr3: u64

    constructor (mem: Memory, cr3: u64)
      ensures this.mem == mem && this.cr3 == cr3
    {
      this.mem, this.cr3 := mem, cr3;
    }

    function Lookup(va: u64): (t: Translation)
      reads this
      ensures t == Walk(mem, cr3, va) && (t.Mapped? ==> t.pa < PHYS_LIMIT)
    {
      WalkInMemory(mem, 4, FrameOf(cr3), va);
      Walk(mem, cr3, va)
    }

    method LoadWord(va: u64) returns (w: u64)
      requires Lookup(va).Mapped?
      ensures w == WordAt(mem, Lookup(va).pa)
    {
      w := WordAt(mem, Lookup(va).pa);
    }

    method StoreWord(va: u64, w: u64)
      requires Lookup(va).Mapped?
      modifies `mem
      ensures mem == WithWord(old(mem), old(Lookup(va).pa), w)
    {
      mem := WithWord(mem, Lookup(va).pa, w);
    }

    method StoreByte(va: u64, b: u8)
      requires Lookup(va).Mapped?
      modifies `mem
      ensures mem == WithByte(old(mem), old(Lookup(va).pa), b)
    {
      mem := WithByte(mem, Lookup(va).pa, b);
    }

    /** Clear the page at `va`. */
    method ClearPage(va: u64)
      requires Lookup(va).Mapped? && Lookup(va).pa % PAGE_SIZE == 0
      modifies `mem
      ensures mem == old(mem)[old(Lookup(va).pa) / PAGE_SIZE := ZeroPage()]
    {
      mem := mem[Lookup(va).pa / PAGE_SIZE := ZeroPage()];
    }

    /** Copy the page at `from` to the page at `to`. */
    method CopyPage(to: u64, from: u64)
      requires Lookup(to).Mapped? && Lookup(to).pa % PAGE_SIZE == 0
      requires Lookup(from).Mapped? && Lookup(from).pa % PAGE_SIZE == 0
      modifies `mem
      ensures mem == old(mem)[old(Lookup(to).pa) / PAGE_SIZE := old(mem)[old(Lookup(from).pa) / PAGE_SIZE]]
    {
      mem := mem[Lookup(to).pa / PAGE_SIZE := mem[Lookup(from).pa / PAGE_SIZE]];
    }
  }
}
