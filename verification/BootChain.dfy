/** From the bootloader to the running kernel (bootloader/kernel_loader.c, kernel/main.c:91-101): what the loader has
    put in place is what the kernel finds, through its own tables and for as long as it runs. */
module BootChain {
  import opened Bits
  import opened Entry
  import opened Bitmap
  import opened Mmu
  import opened AddressMap
  import opened Bytes
  import opened BootPointers
  import opened BootTree
  import opened Mapper
  import opened Segments
  import opened SegmentMap
  import opened ImageFrames
  import opened Loader
  import opened PageAlloc
  import opened Paging
  import opened DirectMap
  import opened KernelRun
  import opened KernelMain

  /** The frames a tree of tables is made of. */
  lemma {:induction false} TreeWithin(mem: Memory, top: nat, layout: Layout, g: nat)
    requires TreeOk(mem, top, layout) && g in layout
    ensures Within(mem, layout[g].level, g, layout.Keys)
    decreases layout[g].level
  {
    forall i | 0 <= i < ENTRIES
      ensures EntryWithin(mem, layout[g].level, mem[g][i], layout.Keys)
    {
      assert EntryPlaced(mem, layout, g, i);
      if IsTable(layout[g].level, mem[g][i]) {
        TreeWithin(mem, top, layout, FrameOf(mem[g][i]));
      }
    }
  }

  /** What happens between the two leaves the loader's tables and the image alone. */
  ghost predicate HandedOver(b: Boot, mem: Memory, image: set<nat>) {
    AgreeOn(b.mem, mem, b.layout.Keys) && AgreeOn(b.mem, mem, image)
  }

  /** The firmware's final map calls usable only frames that are still mapped to themselves. */
  ghost predicate UsableIsLow(b: Boot, records: seq<Descriptor>) {
    forall f: nat | InUsable(records, f) :: f < b.limit && f !in b.moved
  }

  lemma FrameBelow(x: u64, limit: nat)
    ensures x / PAGE_SIZE < limit ==> x < limit * PAGE_SIZE
  {
  }

  /** The loader leaves tables that the kernel can start from. */
  lemma TablesForKernel(b: Boot, mem: Memory, image: set<nat>, records: seq<Descriptor>)
    requires b.Ready() && HandedOver(b, mem, image) && UsableIsLow(b, records)
    ensures Within(mem, 4, FrameOf(b.cr3), b.layout.Keys) && FirmwareMaps(mem, b.cr3, records, b.layout.Keys)
    ensures forall va: u64 :: Walk(mem, b.cr3, va) == b.Walk(va)
  {
    TreeWithin(b.mem, b.Top(), b.layout, b.Top());
    WalkUnaffected(b.mem, mem, 4, b.Top(), b.layout.Keys);
    forall va: u64
      ensures Walk(mem, b.cr3, va) == b.Walk(va)
    {
      assert WalkFrom(mem, 4, b.Top(), va) == WalkFrom(b.mem, 4, b.Top(), va);
    }
    forall x: u64 | x / PAGE_SIZE in b.layout.Keys || InUsable(records, x / PAGE_SIZE)
      ensures Reaches(mem, b.cr3, x, x)
    {
      FrameBelow(x, b.limit);
      assert b.Low(x) && b.Itself(x);
    }
  }

  /** The kernel finds the byte of the file, or zero, at `va`, on the page the loader gave it. */
  ghost predicate KernelFinds(k: Kernel, b: Boot, data: seq<u8>, p: Phdr, va: u64)
    requires p.vaddr <= va
  {
    var t, i := Walk(k.heap.mem, k.cr3, va), va - p.vaddr;
    && t == b.Walk(va) && t.Mapped? && t.pa == p.paddr + i < PHYS_LIMIT
    && if i < p.filesz then p.offset + i < |data| && ByteAt(k.heap.mem, t.pa) == data[p.offset + i]
       else ByteAt(k.heap.mem, t.pa) == 0
  }

  /** `va` is an address of the segment in the part of the address space that the new tables take over. */
  predicate InUpperHalf(p: Phdr, va: u64) { p.vaddr <= va < p.vaddr + p.memsz && IndexAt(4, va) >= 274 }

  ghost predicate KernelFindsImage(k: Kernel, b: Boot, data: seq<u8>, phdrs: seq<Phdr>) {
    forall s: nat, va: u64 | s < |phdrs| && phdrs[s].kind == 1 && InUpperHalf(phdrs[s], va) ::
      KernelFinds(k, b, data, phdrs[s], va)
  }

  lemma ImageByteFound(b0: Boot, b: Boot, data: seq<u8>, phdrs: seq<Phdr>, start: nat, count: nat, mem: Memory,
                       k: Kernel, s: nat, va: u64)
    requires AllFit(phdrs) && ImageLoaded(b0, b, data, phdrs) && InFrames(phdrs, start, count)
    requires forall va: u64 :: Walk(mem, b.cr3, va) == b.Walk(va)
    requires NewTables(mem, b.cr3, k.heap.mem, k.cr3) && AgreeOn(b.mem, k.heap.mem, Run(start, count))
    requires s < |phdrs| && phdrs[s].kind == 1 && InUpperHalf(phdrs[s], va)
    ensures KernelFinds(k, b, data, phdrs[s], va)
  {
    assert Translates(mem, b.cr3, k.heap.mem, k.cr3, va) && Walk(mem, b.cr3, va) == b.Walk(va);
    assert SegmentReads(b, data, phdrs[s]) && ReadsRight(b, data, phdrs[s], va);
    assert SegmentPlaced(b, phdrs, phdrs[s]) && ByteReady(b, phdrs, phdrs[s], va);
    assert SegmentInFrames(phdrs[s], start, count);
    assert b.Walk(va).pa / PAGE_SIZE in Run(start, count);
  }

  lemma ImageFound(b0: Boot, b: Boot, data: seq<u8>, phdrs: seq<Phdr>, start: nat, count: nat, mem: Memory, k: Kernel)
    requires AllFit(phdrs) && ImageLoaded(b0, b, data, phdrs) && InFrames(phdrs, start, count)
    requires HandedOver(b, mem, Run(start, count)) && AgreeOn(mem, k.heap.mem, Run(start, count))
    requires forall va: u64 :: Walk(mem, b.cr3, va) == b.Walk(va)
    requires NewTables(mem, b.cr3, k.heap.mem, k.cr3)
    ensures KernelFindsImage(k, b, data, phdrs)
  {
    forall s: nat, va: u64 | s < |phdrs| && phdrs[s].kind == 1 && InUpperHalf(phdrs[s], va)
      ensures KernelFinds(k, b, data, phdrs[s], va)
    {
      ImageByteFound(b0, b, data, phdrs, start, count, mem, k, s, va);
    }
  }

  /** In every state of every run of the kernel each byte of the image is where the loader put it, reads back as the
      file says, and is on a page with the permissions the loader gave it. */
  lemma ImageSurvives(b: Boot, data: seq<u8>, phdrs: seq<Phdr>, start: nat, count: nat, states: seq<Kernel>,
                      events: seq<Event>, m: nat)
    requires IsRun(states, events) && Inv(states[0]) && m <= |events| && InFrames(phdrs, start, count)
    requires AllFit(phdrs) && Reserved(states[0], Run(start, count)) && KernelFindsImage(states[0], b, data, phdrs)
    ensures KernelFindsImage(states[m], b, data, phdrs)
  {
    RunIsSafe(states, events, m);
    RunSparesReserved(states, events, Run(start, count), m);
    forall s: nat, va: u64 | s < |phdrs| && phdrs[s].kind == 1 && InUpperHalf(phdrs[s], va)
      ensures KernelFinds(states[m], b, data, phdrs[s], va)
    {
      assert KernelFinds(states[0], b, data, phdrs[s], va);
      assert SegmentInFrames(phdrs[s], start, count);
      assert b.Walk(va).pa / PAGE_SIZE in Run(start, count);
    }
  }

  /** The conversion of kernel/arch/x86/paging.c:182-184 takes an address of the image to its physical address if and
      only if the segment is linked at 0xFFFFFFFF80000000 plus its physical address. */
  lemma ImageConvertedIff(k: Kernel, b: Boot, data: seq<u8>, p: Phdr, va: u64)
    requires p.vaddr <= va && KernelFinds(k, b, data, p, va) && va >= 0xFFFF_FFFF_8000_0000
    ensures VirtToPhys(true, va) == Walk(k.heap.mem, k.cr3, va).pa <==> p.vaddr == 0xFFFF_FFFF_8000_0000 + p.paddr
  {
  }

  /** The image of kernel/linker.ld is not: the addresses come out 0x1F00000 too low. */
  lemma LinkedImageMisconverted(k: Kernel, b: Boot, data: seq<u8>, p: Phdr, va: u64)
    requires 0xFFFF_FFFF_8010_0000 <= p.vaddr <= va && KernelFinds(k, b, data, p, va)
    requires p.paddr == 0x200_0000 + (p.vaddr - 0xFFFF_FFFF_8010_0000)
    ensures VirtToPhys(true, va) + 0x1F0_0000 == Walk(k.heap.mem, k.cr3, va).pa
  {
  }

  /** The kernel's phases of boot on what the loader has left: if they succeed, the image is there, and its frames
      belong to nobody. */
  method StartKernel(kernel: KernelMemory, memmap: MemoryMap, ghost b0: Boot, ghost b: Boot, ghost data: seq<u8>,
                     ghost phdrs: seq<Phdr>, ghost start: nat, ghost count: nat) returns (ok: bool)
    requires kernel.Wired() && kernel.pages.Allocated() && !kernel.mode.reconstructed && memmap.Valid()
    requires b.Ready() && AllFit(phdrs) && ImageLoaded(b0, b, data, phdrs) && InFrames(phdrs, start, count)
    requires kernel.machine.cr3 == b.cr3 && HandedOver(b, kernel.machine.mem, Run(start, count))
    requires NoOverlap(memmap.Records()) && NotUsable(memmap.Records(), b.layout.Keys)
    requires Unreleased(memmap.Records(), Run(start, count)) && UsableIsLow(b, memmap.Records())
    modifies kernel, kernel.machine, kernel.mode, kernel.pages, kernel.pages.bitmap, kernel.paging, kernel.heap,
             kernel.heap.heads
    ensures ok ==>
              && kernel.Running() && Reserved(kernel.View(), Run(start, count))
              && KernelFindsImage(kernel.View(), b, data, phdrs)
              && FreeAfterBoot(memmap.Records(), old(kernel.machine.mem), b.cr3, kernel.heap.tables,
                               kernel.pages.Free())
    ensures ok <==> Enough(memmap.Records(), old(kernel.machine.mem), b.cr3)
  {
    ghost var mem, image := kernel.machine.mem, Run(start, count);
    TablesForKernel(b, mem, image, memmap.Records());
    ghost var records := memmap.Records();
    ok := kernel.Boot(memmap, b.layout.Keys);
    if ok {
      assert Unreleased(records, image);
      ImageFound(b0, b, data, phdrs, start, count, mem, kernel.View());
    }
  }
}
