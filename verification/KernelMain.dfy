/** The phases of kernel/main.c:91-101 and the allocator calls after them, as one object. */
module KernelMain {
  import opened Bits
  import opened Entry
  import opened Bitmap
  import opened Mmu
  import opened Machine
  import opened AddressMap
  import opened PageAlloc
  import opened BootPointers
  import opened Paging
  import opened Heap
  import opened HeapPointers
  import opened TableClone
  import opened DirectMap
  import opened Alignment
  import opened BinAlloc
  import opened KernelRun
  import opened Wrappers

  /** No frame is in two records of the firmware's map. */
  ghost predicate NoOverlap(records: seq<Descriptor>) {
    forall j, k, f: nat | 0 <= j < k < |records| :: !(records[j].Holds(f) && records[k].Holds(f))
  }

  ghost predicate InUsable(records: seq<Descriptor>, f: nat) {
    exists k :: 0 <= k < |records| && records[k].Claimable() && records[k].Holds(f)
  }

  /** The firmware's tables are not in memory the map calls usable. */
  ghost predicate NotUsable(records: seq<Descriptor>, tables: set<nat>) {
    forall f | f in tables :: !InUsable(records, f)
  }

  /** Frames that the map calls neither usable nor BootServicesData: the kernel's image, what firmware keeps. */
  ghost predicate Unreleased(records: seq<Descriptor>, frames: set<nat>) {
    NotUsable(records, frames) && frames !! BootData(records)
  }

  /** The managed frames that the map calls usable. */
  ghost function UsableFrames(records: seq<Descriptor>): set<nat> {
    set f: nat | f < FRAME_COUNT && InUsable(records, f)
  }

  /** The firmware maps to themselves the frames its map calls usable, and its own tables. */
  ghost predicate FirmwareMaps(mem: Memory, cr3: u64, records: seq<Descriptor>, tables: set<nat>) {
    forall x: u64 | x / PAGE_SIZE in tables || InUsable(records, x / PAGE_SIZE) :: Reaches(mem, cr3, x, x)
  }

  /** In a map without overlap, a frame of a record is free after initialization exactly when the record is usable. */
  lemma FreeIffUsable(records: seq<Descriptor>, free: set<nat>, k: nat, f: nat)
    requires NoOverlap(records) && Decided(records, free)
    requires k < |records| && records[k].Holds(f)
    ensures f in free <==> records[k].Claimable()
  {
    assert LastToHold(records, k, f);
  }

  lemma UsableIsManaged(records: seq<Descriptor>)
    ensures forall f: nat | InUsable(records, f) :: f < FRAME_COUNT
  {
  }

  /** So exactly the usable frames are. */
  lemma FreeIsUsable(records: seq<Descriptor>, free: set<nat>)
    requires NoOverlap(records) && Decided(records, free)
    ensures free == UsableFrames(records)
  {
    forall f: nat
      ensures f in free <==> InUsable(records, f)
    {
      if f in free {
        var k :| 0 <= k < |records| && records[k].Holds(f);
        FreeIffUsable(records, free, k, f);
      }
      if InUsable(records, f) {
        var k :| 0 <= k < |records| && records[k].Claimable() && records[k].Holds(f);
        FreeIffUsable(records, free, k, f);
      }
    }
    UsableIsManaged(records);
  }

  /** What is free after initialization is not what is released later. */
  lemma ReleasedLater(records: seq<Descriptor>, free: set<nat>)
    requires NoOverlap(records) && Decided(records, free)
    ensures free !! BootData(records)
  {
    forall f | HoldsBootData(records, f)
      ensures f !in free
    {
      var k :| 0 <= k < |records| && records[k].Releasable() && records[k].Holds(f);
      FreeIffUsable(records, free, k, f);
    }
  }

  /** So reconstruction finds what it needs mapped to itself. */
  lemma OriginSees(mem: Memory, cr3: u64, records: seq<Descriptor>, free: set<nat>, tables: set<nat>)
    requires NoOverlap(records) && NotUsable(records, tables) && Decided(records, free)
    requires Within(mem, 4, FrameOf(cr3), tables) && FirmwareMaps(mem, cr3, records, tables)
    ensures Origin(mem, cr3, free, tables).Sees()
  {
    FreeIsUsable(records, free);
  }

  lemma EmptyIsSound(k: Kernel)
    requires Sound(k.heap) && k.heap.owned == {} && k.runs == map[]
    requires Within(k.heap.mem, 4, FrameOf(k.cr3), k.tables) && k.tables !! k.heap.free
    ensures Inv(k)
  {
  }

  /** Frames the map does not call usable are not free and have kept their contents. */
  ghost predicate OthersKept(records: seq<Descriptor>, mem0: Memory, mem: Memory, free: set<nat>) {
    forall frames: set<nat> | NotUsable(records, frames) :: frames !! free && AgreeOn(mem0, mem, frames)
  }

  /** And those that are not released later either belong to nobody when boot is over. */
  ghost predicate UnreleasedKept(records: seq<Descriptor>, mem0: Memory, k: Kernel) {
    forall frames: set<nat> | Unreleased(records, frames) :: Reserved(k, frames) && AgreeOn(mem0, k.heap.mem, frames)
  }

  /** There are enough usable frames, frame 0 apart, for the new tables. */
  ghost predicate Enough(records: seq<Descriptor>, mem: Memory, cr3: u64) {
    TablesNeeded(mem, cr3) <= |UsableFrames(records) - {0}|
  }

  /** The new tables have taken as many of the usable frames as they need, and the others are free. */
  ghost predicate TablesTaken(records: seq<Descriptor>, mem0: Memory, cr30: u64, tables: set<nat>, free: set<nat>) {
    tables !! free && tables + free == UsableFrames(records) && |tables| == TablesNeeded(mem0, cr30)
  }

  /** The same once the frames of the BootServicesData records have been released. */
  ghost predicate FreeAfterBoot(records: seq<Descriptor>, mem0: Memory, cr30: u64, tables: set<nat>, free: set<nat>) {
    && tables !! free && tables + free == UsableFrames(records) + BootData(records)
    && BootData(records) <= free && |tables| == TablesNeeded(mem0, cr30)
  }

  lemma TablesApart(records: seq<Descriptor>, mem0: Memory, free0: set<nat>, mem: Memory, free: set<nat>)
    requires NoOverlap(records) && Decided(records, free0) && Extends(mem0, free0, mem, free)
    ensures free0 - free !! BootData(records) && OthersKept(records, mem0, mem, free)
  {
    ReleasedLater(records, free0);
    FreeIsUsable(records, free0);
    forall frames: set<nat> | NotUsable(records, frames)
      ensures frames !! free && AgreeOn(mem0, mem, frames)
    {
    }
  }

  lemma Smaller(a: set<nat>, b: set<nat>)
    requires a <= b
    ensures |a| <= |b|
  {
    assert b == a + (b - a);
  }

  lemma WereEnough(records: seq<Descriptor>, mem0: Memory, cr30: u64, free0: set<nat>, mem: Memory, cr3: u64,
                   free: set<nat>)
    requires NoOverlap(records) && Decided(records, free0)
    requires Reconstructed(mem0, cr30, free0, mem, cr3, free)
    ensures Enough(records, mem0, cr30) && TablesTaken(records, mem0, cr30, free0 - free, free)
  {
    FreeIsUsable(records, free0);
    Smaller(free0 - free, free0 - {0});
  }

  lemma WereNotEnough(records: seq<Descriptor>, mem0: Memory, cr30: u64, free0: set<nat>, mem: Memory, free: set<nat>)
    requires NoOverlap(records) && Decided(records, free0)
    requires OutOfFrames(mem0, free0, mem, free, TablesNeeded(mem0, cr30))
    ensures !Enough(records, mem0, cr30)
  {
    FreeIsUsable(records, free0);
  }

  lemma Released(records: seq<Descriptor>, mem0: Memory, cr30: u64, tables: set<nat>, free: set<nat>)
    requires TablesTaken(records, mem0, cr30, tables, free) && tables !! BootData(records)
    ensures FreeAfterBoot(records, mem0, cr30, tables, free + BootData(records))
  {
  }

  lemma NothingReleased(records: seq<Descriptor>, mem0: Memory, free: set<nat>, k: Kernel)
    requires OthersKept(records, mem0, k.heap.mem, free) && k.heap.free == free + BootData(records)
    requires k.runs == map[] && k.heap.owned == {}
    ensures UnreleasedKept(records, mem0, k)
  {
    forall frames: set<nat> | Unreleased(records, frames)
      ensures Reserved(k, frames) && AgreeOn(mem0, k.heap.mem, frames)
    {
      assert NotUsable(records, frames);
    }
  }

  /** A kernel that holds nothing yet. */
  ghost predicate Started(k: Kernel, mem: Memory, cr3: u64, tables: set<nat>, free: set<nat>) {
    && Sound(k.heap) && k.heap.chunks == map[] && k.heap.owned == {} && k.heap.lost == 0 && k.runs == map[]
    && k.heap.mem == mem && k.cr3 == cr3 && k.tables == tables && k.heap.free == free
  }

  /** What boot leaves: an empty heap and the frames that are not tables. */
  lemma BootOver(records: seq<Descriptor>, mem0: Memory, cr30: u64, tables: set<nat>, free: set<nat>, k: Kernel)
    requires OthersKept(records, mem0, k.heap.mem, free) && TablesTaken(records, mem0, cr30, tables, free)
    requires tables !! BootData(records) && Within(k.heap.mem, 4, FrameOf(k.cr3), tables)
    requires Started(k, k.heap.mem, k.cr3, tables, free + BootData(records))
    ensures Inv(k) && UnreleasedKept(records, mem0, k)
    ensures FreeAfterBoot(records, mem0, cr30, tables, k.heap.free)
  {
    Released(records, mem0, cr30, tables, free);
    EmptyIsSound(k);
    NothingReleased(records, mem0, free, k);
  }

  /** A word of a block is in a frame of the heap. */
  lemma BlockWord(k: Kernel, p: u64, va: u64)
    requires Inv(k) && p in k.heap.chunks && Managed(va) && va % 8 == 0
    requires p <= va && va + 8 <= p + SizeOf(k.heap.chunks[p])
    ensures FrameOfVa(va) in k.heap.owned
  {
    assert ChunkOk(p, k.heap.chunks[p], k.heap.owned);
    AddressOfWord(va);
    if FrameOfVa(va) !in k.heap.owned {
      WordOutside(p, SizeOf(k.heap.chunks[p]), k.heap.owned, FrameOfVa(va), WordOfVa(va));
    }
  }

  class KernelMemory {
    const machine: Machine
    const mode: AddressMode
    const pages: PageAllocator
    const paging: Paging
    const heap: BinAllocator
    ghost var runs: map<nat, nat>

    constructor (mem: Memory, cr3: u64)
      ensures Wired() && pages.Allocated() && !mode.reconstructed
      ensures machine.mem == mem && machine.cr3 == cr3
    {
      var ram := new Machine(mem, cr3);
      var how := new AddressMode();
      var frames := new PageAllocator(how);
      var tree := new Paging(ram, frames);
      var bins := new BinAllocator(ram, frames);
      machine, mode, pages, paging, heap := ram, how, frames, tree, bins;
      runs := map[];
    }

    ghost predicate Wired() {
      && pages.mode == mode && paging.machine == machine && paging.pages == pages && paging.mode == mode
      && heap.machine == machine && heap.pages == pages
      && heap.heads.Length == BIN_COUNT && heap.heads != pages.bitmap
    }

    ghost function View(): Kernel
      reads this, machine, heap, heap.heads, pages, pages.bitmap
      requires Wired() && pages.Allocated()
    {
      Kernel(heap.View(), machine.cr3, runs, heap.tables)
    }

    ghost predicate Running()
      reads this, machine, mode, heap, heap.heads, pages, pages.bitmap
    {
      Wired() && heap.Ready() && heap.Translated() && Inv(View())
    }

    /** kernel/main.c:91-97: initialize the frame allocator and put new page tables in force. */
    method BootTables(memmap: MemoryMap, ghost oldTables: set<nat>) returns (ok: bool, ghost tables: set<nat>)
      requires Wired() && pages.Allocated() && !mode.reconstructed && memmap.Valid()
      requires NoOverlap(memmap.Records()) && NotUsable(memmap.Records(), oldTables)
      requires Within(machine.mem, 4, FrameOf(machine.cr3), oldTables)
      requires FirmwareMaps(machine.mem, machine.cr3, memmap.Records(), oldTables)
      modifies machine, mode, pages, pages.bitmap, paging
      ensures pages.Valid() && mode.reconstructed == ok
      ensures !ok ==> machine.cr3 == old(machine.cr3)
      ensures ok ==>
                && Within(machine.mem, 4, FrameOf(machine.cr3), tables)
                && tables !! pages.Free() && tables !! BootData(memmap.Records())
                && NewTables(old(machine.mem), old(machine.cr3), machine.mem, machine.cr3)
                && OthersKept(memmap.Records(), old(machine.mem), machine.mem, pages.Free())
                && TablesTaken(memmap.Records(), old(machine.mem), old(machine.cr3), tables, pages.Free())
      ensures ok <==> Enough(memmap.Records(), old(machine.mem), old(machine.cr3))
    {
      pages.Init(memmap);
      ghost var mem0, cr30, free0 := machine.mem, machine.cr3, pages.Free();
      OriginSees(machine.mem, machine.cr3, memmap.Records(), free0, oldTables);
      ok := paging.ReconstructAndMark(oldTables);
      tables := free0 - pages.Free();
      if ok {
        TablesApart(memmap.Records(), mem0, free0, machine.mem, pages.Free());
        WereEnough(memmap.Records(), mem0, cr30, free0, machine.mem, machine.cr3, pages.Free());
      } else {
        WereNotEnough(memmap.Records(), mem0, cr30, free0, machine.mem, pages.Free());
      }
    }

    /** kernel/main.c:98-101: release what the firmware's tables were in, and start the heap. */
    method StartHeap(memmap: MemoryMap, ghost tables: set<nat>)
      requires Wired() && pages.Valid() && mode.reconstructed && memmap.Valid()
      requires InForce(machine.mem, machine.cr3, tables) && tables !! pages.Free() + BootData(memmap.Records())
      modifies this`runs, pages`frameEnd, pages.bitmap, heap, heap.heads
      ensures Wired() && heap.Ready() && heap.Translated()
      ensures Started(View(), machine.mem, machine.cr3, tables, old(pages.Free()) + BootData(memmap.Records()))
    {
      runs := map[];
      pages.ReleaseBootServicesData(Some(memmap));
      heap.Init(tables);
    }

    /** kernel/main.c:91-101: the phases together. Boot fails exactly for want of frames for the tables, and otherwise
        every usable frame that is not a table is free, and so is every frame of a BootServicesData record. */
    method Boot(memmap: MemoryMap, ghost oldTables: set<nat>) returns (ok: bool)
      requires Wired() && pages.Allocated() && !mode.reconstructed && memmap.Valid()
      requires NoOverlap(memmap.Records()) && NotUsable(memmap.Records(), oldTables)
      requires Within(machine.mem, 4, FrameOf(machine.cr3), oldTables)
      requires FirmwareMaps(machine.mem, machine.cr3, memmap.Records(), oldTables)
      modifies this, machine, mode, pages, pages.bitmap, paging, heap, heap.heads
      ensures !ok ==> machine.cr3 == old(machine.cr3) && !mode.reconstructed
      ensures ok ==>
                && Running() && runs == map[] && heap.chunks == map[] && heap.lost == 0
                && NewTables(old(machine.mem), old(machine.cr3), machine.mem, machine.cr3)
                && DataMap(machine.mem, machine.cr3)
                && UnreleasedKept(memmap.Records(), old(machine.mem), View())
                && FreeAfterBoot(memmap.Records(), old(machine.mem), old(machine.cr3), heap.tables, pages.Free())
      ensures ok <==> Enough(memmap.Records(), old(machine.mem), old(machine.cr3))
    {
      ghost var mem0, cr30, tables := machine.mem, machine.cr3, {};
      ok, tables := BootTables(memmap, oldTables);
      if !ok {
        return;
      }
      ghost var free := pages.Free();
      NewTablesInForce(mem0, cr30, machine.mem, machine.cr3, tables);
      NewTablesMapData(mem0, cr30, machine.mem, machine.cr3);
      StartHeap(memmap, tables);
      BootOver(memmap.Records(), mem0, cr30, tables, free, View());
    }

    // ----- the allocator calls are steps of the state machine -----

    method AllocBytes(nbytes: u64) returns (ptr: u64)
      requires Running() && nbytes + PAGE_SIZE - 1 < TWO_64
      modifies this`runs, pages.bitmap
      ensures Running()
      ensures if nbytes == 0 then ptr == 0 && View() == old(View())
              else Step(old(View()), AllocRun(FramesFor(nbytes), 1, ptr), View())
    {
      ghost var k := View();
      FramesForCovers(nbytes);
      ptr := pages.AllocBytes(nbytes);
      if nbytes != 0 {
        TrackRun(k, FramesFor(nbytes), 1, ptr);
      }
    }

    method AllocPages(numPages: u64, alignBytes: u64) returns (ptr: u64)
      requires Running() && numPages + AlignFrames(alignBytes) + 2 * FRAME_COUNT < TWO_64
      modifies this`runs, pages.bitmap
      ensures Running()
      ensures if numPages == 0 then ptr == 0 && View() == old(View())
              else Step(old(View()), AllocRun(numPages, AtLeastOne(AlignFrames(alignBytes)), ptr), View())
    {
      ghost var k := View();
      ptr := pages.AllocPages(numPages, alignBytes);
      if numPages != 0 {
        TrackRun(k, numPages, AtLeastOne(AlignFrames(alignBytes)), ptr);
      }
    }

    /** The books of who holds which run. */
    ghost method TrackRun(k: Kernel, needed: nat, frames: nat, ptr: u64)
      requires Wired() && heap.Ready() && heap.Translated() && Inv(k) && needed > 0 && frames > 0
      requires View() == k.(heap := k.heap.(free := pages.Free()))
      requires Granted(k.heap.free, k.heap.frameEnd, needed, frames, true, ptr, pages.Free())
      modifies this`runs
      ensures Running() && Step(k, AllocRun(needed, frames, ptr), View())
    {
      if ptr != 0 {
        runs := runs[FrameAt(true, ptr) := needed];
      }
      StepKeepsInv(k, AllocRun(needed, frames, ptr), View());
    }

    method FreeBytes(ptr: u64, nbytes: u64)
      requires Running()
      requires ptr != 0 && nbytes != 0 ==>
                 var start := FrameAt(true, PageBase(ptr));
                 start in runs && runs[start] == FramesFor(nbytes)
      modifies this`runs, pages.bitmap
      ensures Running()
      ensures if ptr == 0 || nbytes == 0 then View() == old(View())
              else Step(old(View()), FreeRun(FrameAt(true, PageBase(ptr))), View())
    {
      if ptr == 0 || nbytes == 0 {
        return;
      }
      ghost var k, start := View(), FrameAt(true, PageBase(ptr));
      assert RunOk(k, start, runs[start]);
      pages.FreeBytes(ptr, nbytes);
      runs := runs - {start};
      StepKeepsInv(k, FreeRun(start), View());
    }

    method Kmalloc(n: u64, align: u64) returns (ptr: u64)
      requires Running() && n + PAGE_SIZE - 1 < TWO_64
      modifies machine`mem, heap, heap.heads, pages.bitmap
      ensures Running() && Step(old(View()), Malloc(n, align, ptr), View())
      ensures ptr != 0 ==> Chosen(old(View()).heap, n, align, ptr, View().heap)
      ensures ptr != 0 && PowerOfTwo(align) ==> ptr % align == 0
    {
      ghost var k := View();
      ptr := heap.Kmalloc(n, align);
      StepKeepsInv(k, Malloc(n, align, ptr), View());
    }

    method Kfree(p: u64, n: u64)
      requires Running() && (p != 0 && n != 0 ==> IsBlock(heap.View(), p, n))
      modifies machine`mem, heap, heap.heads, pages.bitmap
      ensures Running()
      ensures if p == 0 || n == 0 then View() == old(View()) else Step(old(View()), Free(p, n), View())
    {
      ghost var k := View();
      heap.Kfree(p, n);
      if p != 0 && n != 0 {
        StepKeepsInv(k, Free(p, n), View());
      }
    }

    /** The holder of the block at `p` stores a word into it. */
    method WriteBlockWord(p: u64, va: u64, v: u64)
      requires Running() && p in heap.chunks && heap.chunks[p].Live?
      requires Managed(va) && va % 8 == 0 && p <= va && va + 8 <= p + heap.chunks[p].size
      modifies machine`mem
      ensures Running() && Step(old(View()), WriteBlock(p), View())
      ensures machine.mem == Heap.Store(old(machine.mem), va, v)
    {
      ghost var k := View();
      BlockWord(k, p, va);
      heap.StoreWord(va, v);
      StoreChangesOnly(k.heap.mem, va, v);
      StepKeepsInv(k, WriteBlock(p), View());
    }

    /** The holder of the run at `start` stores a word into it. */
    method WriteRunWord(ghost start: nat, va: u64, v: u64)
      requires Running() && start in runs && Managed(va) && FrameOfVa(va) in Run(start, runs[start])
      modifies machine`mem
      ensures Running() && Step(old(View()), WriteRun(start), View())
      ensures machine.mem == Heap.Store(old(machine.mem), va, v)
    {
      ghost var k := View();
      assert RunOk(k, start, runs[start]);
      heap.StoreWord(va, v);
      StepKeepsInv(k, WriteRun(start), View());
    }
  }
}
