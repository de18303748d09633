/** The bin allocator of kernel/bin_alloc.c, once the direct map is in force. */
module BinAlloc {
  import opened Bits
  import opened Division
  import opened Entry
  import opened Bitmap
  import opened Machine
  import opened AddressMap
  import opened PageAlloc
  import opened Heap
  import opened HeapPointers
  import opened Alignment

  lemma SmallBlockBack(h: State, p: u64, n: u64, bin: BinIndex)
    requires Sound(h) && IsBlock(h, p, n) && IsBinFor(n, bin)
    ensures HeapOk(h.mem, h.heads, h.lists, h.chunks - {p}, h.owned)
    ensures Spare(h.chunks - {p}, h.owned, p, BinSize(bin)) && 8 <= BinSize(bin) <= h.chunks[p].size
    ensures Managed(p) && p % 8 == 0
  {
    DropLive(h.mem, h.heads, h.lists, h.chunks, h.owned, p);
    assert ChunkOk(p, h.chunks[p], h.owned);
    BinFitsBlock(p, n, h.chunks[p].size, bin);
    PartOfSpare(h.chunks - {p}, h.owned, p, h.chunks[p].size, p, BinSize(bin));
    GrainIsWordMultiple(bin, p);
  }

  lemma BlocksWithout(chunks: Chunks, p: u64)
    ensures Blocks(chunks - {p}) == Blocks(chunks) - {p}
  {
  }

  lemma NodeBalanced(h: State, p: u64, bin: BinIndex)
    requires p in h.chunks
    ensures Total((h.chunks - {p})[p := FreeNode(bin)]) + SizeOf(h.chunks[p]) == Total(h.chunks) + BinSize(bin)
  {
    TotalWithout(h.chunks, p);
    TotalWith(h.chunks - {p}, p, FreeNode(bin));
  }

  lemma BlocksWithNode(chunks: Chunks, n: u64, bin: BinIndex)
    requires n !in chunks
    ensures Blocks(chunks[n := FreeNode(bin)]) == Blocks(chunks)
  {
  }

  lemma NodeTakenBack(h: State, h': State, p: u64, n: u64, bin: BinIndex)
    requires Balanced(h) && IsBlock(h, p, n) && IsBinFor(n, bin) && n <= LARGEST_BIN && Managed(p) && p % 8 == 0
    requires 8 <= BinSize(bin) <= h.chunks[p].size && |h.heads| == BIN_COUNT
    requires HeapOk(h'.mem, h'.heads, h'.lists, h'.chunks, h'.owned)
    requires h'.chunks == (h.chunks - {p})[p := FreeNode(bin)] && h'.mem == Store(h.mem, p, h.heads[bin])
    requires h'.owned == h.owned && h'.free == h.free && h'.frameEnd == h.frameEnd
    requires h'.lost == h.lost + h.chunks[p].size - BinSize(bin)
    ensures Frees(h, p, n, h')
  {
    NodeBalanced(h, p, bin);
    BlocksWithNode(h.chunks - {p}, p, bin);
    BlocksWithout(h.chunks, p);
    StoreChangesOnly(h.mem, p, h.heads[bin]);
    WiderChange(h.mem, h'.mem, p, 8, h.chunks[p].size);
  }

  lemma NodeReturned(h: State, k: State, p: u64, n: u64, bin: BinIndex) returns (h': State)
    requires Balanced(h) && IsBlock(h, p, n) && IsBinFor(n, bin) && Managed(p) && p % 8 == 0
    requires 8 <= BinSize(bin) <= h.chunks[p].size && |h.heads| == BIN_COUNT
    requires HeapOk(k.mem, k.heads, k.lists, k.chunks, k.owned)
    requires k.chunks == (h.chunks - {p})[p := FreeNode(bin)] && k.mem == Store(h.mem, p, h.heads[bin])
    requires k.owned == h.owned && k.free == h.free && k.frameEnd == h.frameEnd && k.lost == h.lost
    ensures h' == k.(lost := h'.lost) && Sound(h') && Frees(h, p, n, h')
  {
    h' := k.(lost := h.lost + h.chunks[p].size - BinSize(bin));
    NodeTakenBack(h, h', p, n, bin);
  }

  ghost function WithoutRun(h: State, p: u64, count: nat): State
    requires Managed(p)
  {
    var run := Run(FrameOfVa(p), count);
    h.(chunks := h.chunks - {p}, owned := h.owned - run, free := h.free + run)
  }

  lemma LargeIsWhole(n: u64, size: nat)
    requires size == FramesFor(n) * PAGE_SIZE && size > 0
    ensures size >= PAGE_SIZE && size / PAGE_SIZE == FramesFor(n) > 0
  {
  }

  lemma FrameOfBase(p: u64)
    requires Managed(p)
    ensures FrameAt(true, PageBase(p)) == FrameOfVa(p)
  {
    Decompose(p);
    assert PageBase(p) == DIRECT_MAP_BASE + FrameOfVa(p) * PAGE_SIZE;
  }

  lemma LargeBlock(h: State, p: u64, n: u64)
    requires ChunksOk(h.chunks, h.owned) && (forall f | f in h.owned :: f < h.frameEnd)
    requires IsBlock(h, p, n) && n > LARGEST_BIN
    ensures ChunkOk(p, h.chunks[p], h.owned) && Managed(p) && FrameAt(true, PageBase(p)) == FrameOfVa(p)
    ensures h.chunks[p].size == FramesFor(n) * PAGE_SIZE && h.chunks[p].size / PAGE_SIZE == FramesFor(n) > 0
    ensures FrameOfVa(p) + FramesFor(n) <= h.frameEnd && Run(FrameOfVa(p), FramesFor(n)) <= h.owned
  {
    assert ChunkOk(p, h.chunks[p], h.owned);
    LargeIsWhole(n, h.chunks[p].size);
    FrameOfBase(p);
    assert FrameOfVa(p) + FramesFor(n) - 1 in Run(FrameOfVa(p), FramesFor(n));
  }

  lemma RunBalancedBack(h: State, p: u64, n: u64)
    requires Balanced(h) && IsBlock(h, p, n) && n > LARGEST_BIN && ChunkOk(p, h.chunks[p], h.owned)
    ensures Managed(p) && FrameOfVa(p) + FramesFor(n) <= h.frameEnd
    ensures Balanced(WithoutRun(h, p, FramesFor(n)))
  {
    var count := FramesFor(n);
    var run := Run(FrameOfVa(p), count);
    assert count > 0 && run <= h.owned;
    assert FrameOfVa(p) + count - 1 in run;
    TotalWithout(h.chunks, p);
    RunSize(FrameOfVa(p), count);
    assert |h.owned - run| == |h.owned| - count;
  }

  lemma LargeBlockBack(h: State, p: u64, n: u64, h': State)
    requires HeapOk(h.mem, h.heads, h.lists, h.chunks, h.owned) && Balanced(h) && IsBlock(h, p, n) && n > LARGEST_BIN
    requires Managed(p) && h' == WithoutRun(h, p, FramesFor(n))
    ensures Frees(h, p, n, h')
  {
    LargeBlock(h, p, n);
    DropLive(h.mem, h.heads, h.lists, h.chunks, h.owned, p);
    GiveUpPages(h.mem, h.heads, h.lists, h.chunks - {p}, h.owned, p, h.chunks[p].size);
    RunBalancedBack(h, p, n);
    BlocksWithout(h.chunks, p);
  }

  lemma RunForgotten(h: State, p: u64, n: u64, free: set<nat>, tables: set<nat>) returns (h': State)
    requires Sound(h) && IsBlock(h, p, n) && n > LARGEST_BIN && Clear(tables, h.owned, h.free)
    requires Managed(p) && free == h.free + Run(FrameOfVa(p), FramesFor(n))
    ensures h' == h.(chunks := h'.chunks, owned := h'.owned, free := free)
    ensures Sound(h') && Frees(h, p, n, h') && Clear(tables, h'.owned, h'.free)
  {
    h' := WithoutRun(h, p, FramesFor(n));
    LargeBlockBack(h, p, n, h');
    LargeBlock(h, p, n);
    ClearOfRun(tables, h.owned, h.free, Run(FrameOfVa(p), FramesFor(n)));
  }

  lemma RouteAligned(ptr: u64, align: u64)
    requires PowerOfTwo(align) && Managed(ptr) && ptr == DIRECT_MAP_BASE + FrameOfVa(ptr) * PAGE_SIZE
    requires ptr % PAGE_SIZE == 0 && FrameOfVa(ptr) > 0 && FrameOfVa(ptr) % RouteAlign(align) == 0
    ensures ptr % align == 0
  {
    if align > PAGE_SIZE {
      RunAligned(FrameOfVa(ptr), align);
    } else {
      PageAligned(ptr, align);
    }
  }

  lemma BlocksWithLive(chunks: Chunks, p: u64, n: u64, size: nat)
    requires p !in chunks
    ensures Blocks(chunks[p := Live(n, size)]) == Blocks(chunks)[p := Live(n, size)]
    ensures p !in Blocks(chunks)
  {
  }

  lemma BlocksWithoutNode(chunks: Chunks, p: u64)
    requires p in chunks && chunks[p].FreeNode?
    ensures Blocks(chunks - {p}) == Blocks(chunks)
  {
  }

  /** A free node becomes a block with the same room. */
  lemma NodeHandedOut(h: State, h': State, p: u64, bin: BinIndex, n: u64)
    requires Balanced(h) && p in h.chunks && h.chunks[p] == FreeNode(bin)
    requires h'.chunks == (h.chunks - {p})[p := Live(n, BinSize(bin))]
    requires h' == h.(heads := h'.heads, lists := h'.lists, chunks := h'.chunks)
    ensures Balanced(h') && p !in Blocks(h.chunks)
    ensures Blocks(h'.chunks) == Blocks(h.chunks)[p := Live(n, BinSize(bin))]
  {
    TotalWithout(h.chunks, p);
    TotalWith(h.chunks - {p}, p, Live(n, BinSize(bin)));
    BlocksWithoutNode(h.chunks, p);
    BlocksWithLive(h.chunks - {p}, p, n, BinSize(bin));
  }

  /** `ptr` is a new block for `n` bytes from the bin. */
  ghost predicate NewBlock(h: State, h': State, bin: BinIndex, n: u64, ptr: u64) {
    && Grew(h, h') && ptr !in Blocks(h.chunks) && ptr in h'.chunks && h'.chunks[ptr] == Live(n, BinSize(bin))
    && Blocks(h'.chunks) == Blocks(h.chunks)[ptr := h'.chunks[ptr]] && ptr % BinSize(bin) == 0
  }

  lemma BlockAfterGrowth(h: State, h1: State, h2: State, bin: BinIndex, n: u64, ptr: u64)
    requires Grew(h, h1) && Blocks(h1.chunks) == Blocks(h.chunks) && NewBlock(h1, h2, bin, n, ptr)
    requires h2.free == h1.free
    ensures NewBlock(h, h2, bin, n, ptr)
  {
  }

  /** The route through a bin has an outcome `kmalloc` may have. */
  lemma SmallServed(h: State, h': State, bin: BinIndex, n: u64, align: u64, ptr: u64)
    requires n > 0 && IsBinOf(n, align, bin) && |h.heads| == BIN_COUNT && Sound(h')
    requires ptr == 0 ==> h' == h && h.heads[bin] == 0 && h.free <= {0}
    requires ptr != 0 ==>
               && NewBlock(h, h', bin, n, ptr)
               && if h.heads[bin] == 0 then TookOne(h.free, h'.free, BinSize(bin), ptr)
                  else ptr == h.heads[bin] && h'.free == h.free && h'.mem == h.mem
    ensures Allocates(h, n, align, ptr, h') && (ptr != 0 ==> Chosen(h, n, align, ptr, h'))
  {
    NeedIsBoth(n, align, bin);
  }

  lemma NodeBooked(h: State, k: State, p: u64, bin: BinIndex, n: u64) returns (h': State)
    requires Balanced(h) && p in h.chunks && h.chunks[p] == FreeNode(bin) && k.chunks == h.chunks - {p}
    requires k == h.(heads := k.heads, lists := k.lists, chunks := k.chunks) && 0 < n <= BinSize(bin)
    requires HeapOk(k.mem, k.heads, k.lists, k.chunks, k.owned) && Spare(k.chunks, k.owned, p, BinSize(bin))
    ensures h' == k.(chunks := h'.chunks) && Sound(h') && Grew(h, h')
    ensures p !in Blocks(h.chunks) && p in h'.chunks && h'.chunks[p] == Live(n, BinSize(bin))
    ensures Blocks(h'.chunks) == Blocks(h.chunks)[p := Live(n, BinSize(bin))]
  {
    h' := k.(chunks := k.chunks[p := Live(n, BinSize(bin))]);
    AddLive(k.mem, k.heads, k.lists, k.chunks, k.owned, p, n, BinSize(bin));
    NodeHandedOut(h, h', p, bin, n);
  }

  ghost function WithRun(h: State, p: u64, n: u64, count: nat, size: nat): State
    requires Managed(p)
  {
    var run := Run(FrameOfVa(p), count);
    h.(chunks := h.chunks[p := Live(n, size)], owned := h.owned + run, free := h.free - run)
  }

  lemma RunBalanced(h: State, p: u64, n: u64, count: nat, size: nat)
    requires Balanced(h) && Managed(p) && p !in h.chunks && size == count * PAGE_SIZE
    requires Run(FrameOfVa(p), count) <= h.free && 0 < FrameOfVa(p)
    ensures Balanced(WithRun(h, p, n, count, size)) && Grew(h, WithRun(h, p, n, count, size))
  {
    var h' := WithRun(h, p, n, count, size);
    TotalWith(h.chunks, p, Live(n, size));
    assert h.free - h'.free == Run(FrameOfVa(p), count);
    RunSize(FrameOfVa(p), count);
    assert |h'.owned| == |h.owned| + count;
  }

  /** A run of free frames becomes a block. */
  lemma RunHandedOut(h: State, p: u64, n: u64, count: nat, size: nat)
    requires HeapOk(h.mem, h.heads, h.lists, h.chunks, h.owned) && Balanced(h)
    requires count > 0 && 0 < n <= size == count * PAGE_SIZE && count == FramesFor(n)
    requires Managed(p) && p % PAGE_SIZE == 0 && 0 < FrameOfVa(p) && FrameOfVa(p) + count <= FRAME_COUNT
    requires Run(FrameOfVa(p), count) <= h.free
    ensures Sound(WithRun(h, p, n, count, size)) && Grew(h, WithRun(h, p, n, count, size))
    ensures p !in Blocks(h.chunks)
    ensures Blocks(h.chunks[p := Live(n, size)]) == Blocks(h.chunks)[p := Live(n, size)]
  {
    var run := Run(FrameOfVa(p), count);
    FreshPages(h.mem, h.heads, h.lists, h.chunks, h.owned, p, count);
    AddLive(h.mem, h.heads, h.lists, h.chunks, h.owned + run, p, n, size);
    BlocksWithLive(h.chunks, p, n, size);
    RunBalanced(h, p, n, count, size);
  }

  lemma RunBooked(h: State, p: u64, n: u64, count: nat, size: nat, free: set<nat>, tables: set<nat>)
    returns (h': State)
    requires HeapOk(h.mem, h.heads, h.lists, h.chunks, h.owned) && Balanced(h)
    requires count > 0 && 0 < n <= size == count * PAGE_SIZE && count == FramesFor(n)
    requires Managed(p) && p % PAGE_SIZE == 0 && 0 < FrameOfVa(p) && FrameOfVa(p) + count <= FRAME_COUNT
    requires Run(FrameOfVa(p), count) <= h.free && free == h.free - Run(FrameOfVa(p), count)
    requires Clear(tables, {}, h.free) && Clear(tables, h.owned, free)
    ensures h' == h.(chunks := h'.chunks, owned := h'.owned, free := free)
    ensures Sound(h') && Grew(h, h') && Clear(tables, h'.owned, h'.free)
    ensures p !in Blocks(h.chunks) && p in h'.chunks && h'.chunks[p] == Live(n, size)
    ensures Blocks(h'.chunks) == Blocks(h.chunks)[p := Live(n, size)]
  {
    h' := WithRun(h, p, n, count, size);
    RunHandedOut(h, p, n, count, size);
  }

  /** The books stay balanced when a frame of chunks is added. */
  lemma PageAdded(h: State, h': State, f: nat)
    requires Balanced(h) && f in h.free && 0 < f
    requires h'.free == h.free - {f} && h'.owned == h.owned + {f}
    requires h'.frameEnd == h.frameEnd && h'.lost == h.lost && Total(h'.chunks) == Total(h.chunks) + PAGE_SIZE
    requires forall g | 0 <= g < FRAME_SPACE && g != f :: h'.mem[g] == h.mem[g]
    ensures Balanced(h') && Grew(h, h')
  {
    assert h.free - h'.free == {f};
    assert |h'.owned| == |h.owned| + 1;
  }

  /** What granting a run of frames means for the pointer returned, in the direct map. */
  lemma RunGranted(free: set<nat>, end: nat, needed: nat, align: nat, ptr: u64, free': set<nat>)
    requires align > 0 && needed > 0 && end <= FRAME_COUNT && Granted(free, end, needed, align, true, ptr, free')
    ensures ptr == 0 ==> NoFit(free, 1, end, needed, align) && free' == free
    ensures ptr != 0 ==>
              && Managed(ptr) && ptr == DIRECT_MAP_BASE + FrameOfVa(ptr) * PAGE_SIZE && ptr % PAGE_SIZE == 0
              && FrameOfVa(ptr) > 0 && FrameOfVa(ptr) % align == 0 && FrameOfVa(ptr) + needed <= end
              && Run(FrameOfVa(ptr), needed) <= free && free' == free - Run(FrameOfVa(ptr), needed)
              && FirstFit(free, 1, end, needed, align, FrameOfVa(ptr))
  {
    if ptr != 0 {
      var start := FrameAt(true, ptr);
      assert Candidate(free, 1, end, needed, align, start);
      assert ptr == DIRECT_MAP_BASE + start * PAGE_SIZE;
    }
  }

  lemma OnePage(free: set<nat>, end: nat, ptr: u64, free': set<nat>)
    requires end <= FRAME_COUNT && (forall f :: f in free ==> f < end)
    requires Granted(free, end, 1, AtLeastOne(AlignFrames(PAGE_SIZE)), true, ptr, free')
    ensures ptr == 0 ==> free <= {0} && free' == free
    ensures ptr != 0 ==>
              && Managed(ptr) && ptr % PAGE_SIZE == 0 && 0 < FrameOfVa(ptr) && FrameOfVa(ptr) < end
              && LeastFree(free, FrameOfVa(ptr)) && free' == free - {FrameOfVa(ptr)}
  {
    RunGranted(free, end, 1, 1, ptr, free');
    if ptr == 0 {
      forall f | f in free
        ensures f == 0
      {
        assert Run(f, 1) <= free;
        assert !Candidate(free, 1, end, 1, 1, f);
      }
    } else {
      assert Run(FrameOfVa(ptr), 1) == {FrameOfVa(ptr)};
      forall f | f in free && f > 0
        ensures FrameOfVa(ptr) <= f
      {
        assert f < FrameOfVa(ptr) ==> !Candidate(free, 1, end, 1, 1, f);
      }
    }
  }

  lemma PageTakenForNodes(free: set<nat>, free': set<nat>, page: u64, size: nat)
    requires Managed(page) && page % PAGE_SIZE == 0 && LeastFree(free, FrameOfVa(page)) && size <= PAGE_SIZE
    requires free' == free - {FrameOfVa(page)} && page + (PAGE_SIZE - size) < TWO_64
    ensures TookOne(free, free', size, page + (PAGE_SIZE - size))
  {
    Decompose(page);
  }

  /** Address of the `i`-th node of a page cut for a bin. */
  function NodeAt(page: u64, bin: BinIndex, i: nat): nat {
    page + i * BinSize(bin)
  }

  /** The nodes from the `i`-th on are still spare. */
  ghost predicate SpareFrom(chunks: Chunks, pages: set<nat>, page: u64, bin: BinIndex, i: nat) {
    forall j: nat | i <= j < PAGE_SIZE / BinSize(bin) ::
      NodeAt(page, bin, j) < TWO_64 && Spare(chunks, pages, NodeAt(page, bin, j), BinSize(bin))
  }

  /** The nodes fill the page exactly. */
  lemma NodesInPage(bin: BinIndex)
    ensures PAGE_SIZE / BinSize(bin) * BinSize(bin) == PAGE_SIZE && PAGE_SIZE / BinSize(bin) > 0
  {
  }

  lemma NodeStep(page: u64, bin: BinIndex, i: nat, j: nat)
    requires i < j
    ensures NodeAt(page, bin, i) + BinSize(bin) <= NodeAt(page, bin, j)
  {
    MulMonotone(i + 1, j, BinSize(bin));
  }

  lemma NodeInPage(page: u64, bin: BinIndex, j: nat)
    requires j < PAGE_SIZE / BinSize(bin) && page % PAGE_SIZE == 0
    ensures page <= NodeAt(page, bin, j) && NodeAt(page, bin, j) + BinSize(bin) <= page + PAGE_SIZE
    ensures NodeAt(page, bin, j) % BinSize(bin) == 0
  {
    NodesInPage(bin);
    NodeStep(page, bin, j, PAGE_SIZE / BinSize(bin));
    PageDivides(page, bin);
    var q := page / BinSize(bin);
    assert NodeAt(page, bin, j) == (q + j) * BinSize(bin);
    MultipleHasNoRemainder(q + j, BinSize(bin));
  }

  lemma AllSpare(chunks: Chunks, pages: set<nat>, page: u64, bin: BinIndex)
    requires Spare(chunks, pages, page, PAGE_SIZE)
    ensures SpareFrom(chunks, pages, page, bin, 0)
  {
    NodesInPage(bin);
    forall j: nat | j < PAGE_SIZE / BinSize(bin)
      ensures NodeAt(page, bin, j) < TWO_64 && Spare(chunks, pages, NodeAt(page, bin, j), BinSize(bin))
    {
      NodeInPage(page, bin, j);
      PartOfSpare(chunks, pages, page, PAGE_SIZE, NodeAt(page, bin, j), BinSize(bin));
    }
  }

  lemma SameFrame(page: u64, va: u64)
    requires Managed(page) && page % PAGE_SIZE == 0 && page <= va < page + PAGE_SIZE
    ensures Managed(va) && FrameOfVa(va) == FrameOfVa(page)
  {
    Decompose(page);
    QuotientUnique(va - DIRECT_MAP_BASE, PAGE_SIZE, FrameOfVa(page), va - page);
  }

  lemma NodePlace(chunks: Chunks, pages: set<nat>, page: u64, bin: BinIndex, i: nat)
    requires SpareFrom(chunks, pages, page, bin, i) && i < PAGE_SIZE / BinSize(bin)
    requires Managed(page) && page % PAGE_SIZE == 0
    ensures NodeAt(page, bin, i) < TWO_64 && Spare(chunks, pages, NodeAt(page, bin, i), BinSize(bin))
    ensures FrameOfVa(NodeAt(page, bin, i)) == FrameOfVa(page)
    ensures NodeAt(page, bin, i + 1) == NodeAt(page, bin, i) + BinSize(bin)
  {
    NodeInPage(page, bin, i);
    SameFrame(page, NodeAt(page, bin, i));
  }

  lemma NodeTaken(chunks: Chunks, pages: set<nat>, page: u64, bin: BinIndex, i: nat)
    requires SpareFrom(chunks, pages, page, bin, i) && i < PAGE_SIZE / BinSize(bin)
    ensures NodeAt(page, bin, i) < TWO_64
    ensures SpareFrom(chunks[NodeAt(page, bin, i) := FreeNode(bin)], pages, page, bin, i + 1)
  {
    assert Spare(chunks, pages, NodeAt(page, bin, i), BinSize(bin));
    forall j: nat | i + 1 <= j < PAGE_SIZE / BinSize(bin)
      ensures NodeAt(page, bin, j) < TWO_64
      ensures Spare(chunks[NodeAt(page, bin, i) := FreeNode(bin)], pages, NodeAt(page, bin, j), BinSize(bin))
    {
      NodeStep(page, bin, i, j);
      assert Spare(chunks, pages, NodeAt(page, bin, j), BinSize(bin));
    }
  }

  lemma SpareIsNew(chunks: Chunks, pages: set<nat>, va: u64, size: nat)
    requires Spare(chunks, pages, va, size)
    ensures va !in chunks
  {
  }

  class BinAllocator {
    const machine: Machine
    const pages: PageAllocator
    const heads: array<u64>          // g_free_heads
    ghost var lists: seq<seq<u64>>
    ghost var chunks: Chunks
    ghost var owned: set<nat>
    ghost var lost: nat
    ghost var tables: set<nat>       // the page tables in force

    ghost predicate Wired()
      reads this, pages, pages.bitmap, pages.mode
    {
      pages.Valid() && pages.mode.reconstructed && heads.Length == BIN_COUNT && heads != pages.bitmap
    }

    /** And the page tables are apart from the heap and from free memory. */
    ghost predicate Ready()
      reads this, pages, pages.bitmap, pages.mode
    {
      Wired() && Clear(tables, owned, pages.Free())
    }

    /** The direct map is in force: what every access by a pointer needs. */
    ghost predicate Translated()
      reads this, machine
    {
      InForce(machine.mem, machine.cr3, tables)
    }

    ghost function View(): State
      reads this, machine, heads, pages, pages.bitmap
      requires pages.Allocated()
    {
      State(machine.mem, heads[..], lists, chunks, owned, lost, pages.Free(), pages.frameEnd)
    }

    ghost predicate Valid()
      reads this, machine, heads, pages, pages.bitmap, pages.mode
    {
      Ready() && Sound(View())
    }

    constructor (machine: Machine, pages: PageAllocator)
      ensures this.machine == machine && this.pages == pages && heads.Length == BIN_COUNT && fresh(heads)
    {
      this.machine, this.pages := machine, pages;
      heads := new u64[BIN_COUNT](_ => 0);
    }

    /** The books of the heap after a change: which chunks there are, which frames it has, what is lost. */
    ghost method Book(h: State)
      requires Wired() && Sound(h) && Clear(tables, h.owned, h.free)
      requires View() == h.(chunks := chunks, owned := owned, lost := lost)
      modifies this`chunks, this`owned, this`lost
      ensures Valid() && View() == h
    {
      chunks, owned, lost := h.chunks, h.owned, h.lost;
      assert View() == h;
    }

    /** `bin_alloc_init`. */
    method Init(ghost tables: set<nat>)
      requires Wired() && Clear(tables, {}, pages.Free())
      modifies heads, this
      ensures Valid() && this.tables == tables
      ensures chunks == map[] && owned == {} && lost == 0
    {
      for i := 0 to BIN_COUNT
        invariant forall j :: 0 <= j < i ==> heads[j] == 0
      {
        heads[i] := 0;
      }
      lists, chunks, owned, lost, this.tables := seq(BIN_COUNT, _ => []), map[], {}, 0, tables;
    }

    /** `bin_index_for`. */
    method BinIndexFor(need: u64) returns (bin: int)
      ensures bin == -1 || 0 <= bin < BIN_COUNT
      ensures bin >= 0 ==> IsBinFor(need, bin)
      ensures bin == -1 ==> need > LARGEST_BIN
    {
      for i := 0 to BIN_COUNT
        invariant forall b: nat :: b < i ==> BinSize(b) < need
      {
        if need <= BinSize(i) {
          return i;
        }
      }
      assert BinSize(6) < need;
      return -1;
    }

    /** Reading and writing through a pointer of the heap. */
    method LoadWord(va: u64) returns (v: u64)
      requires Ready() && Translated() && Managed(va)
      ensures v == Load(machine.mem, va)
    {
      WordReached(machine.mem, machine.cr3, va, 0);
      v := machine.LoadWord(va);
    }

    method StoreWord(va: u64, v: u64)
      requires Ready() && Translated() && Managed(va) && FrameOfVa(va) !in tables
      modifies machine`mem
      ensures Ready() && Translated() && machine.mem == Store(old(machine.mem), va, v)
    {
      ghost var mem := machine.mem;
      WordReached(mem, machine.cr3, va, v);
      machine.StoreWord(va, v);
      StaysInForce(mem, machine.mem, machine.cr3, tables);
    }

    /** `push_node`. */
    method PushNode(bin: BinIndex, n: u64)
      requires Ready() && Translated() && HeapOk(machine.mem, heads[..], lists, chunks, owned)
      requires Spare(chunks, owned, n, BinSize(bin))
      modifies machine`mem, heads, this`lists, this`chunks
      ensures Ready() && Translated() && HeapOk(machine.mem, heads[..], lists, chunks, owned)
      ensures machine.mem == Store(old(machine.mem), n, old(heads[bin]))
      ensures n !in old(chunks) && chunks == old(chunks)[n := FreeNode(bin)]
      ensures heads[bin] == n && forall b | 0 <= b < BIN_COUNT && b != bin :: heads[b] == old(heads[b])
    {
      Push(machine.mem, heads[..], lists, chunks, owned, bin, n);
      SpareIsNew(chunks, owned, n, BinSize(bin));
      ghost var heads' := heads[..][bin := n];
      StoreWord(n, heads[bin]);
      heads[bin] := n;
      lists, chunks := lists[bin := [n] + lists[bin]], chunks[n := FreeNode(bin)];
      assert heads[..] == heads';
    }

    /** `pop_node`. */
    method PopNode(bin: BinIndex) returns (n: u64)
      requires Ready() && Translated() && HeapOk(machine.mem, heads[..], lists, chunks, owned)
      modifies heads, this`lists, this`chunks
      ensures Ready() && HeapOk(machine.mem, heads[..], lists, chunks, owned)
      ensures n == old(heads[bin])
      ensures if n == 0 then chunks == old(chunks) && heads[..] == old(heads[..])
              else n in old(chunks) && old(chunks)[n] == FreeNode(bin) && chunks == old(chunks) - {n} &&
                   Spare(chunks, owned, n, BinSize(bin))
    {
      n := heads[bin];
      if n == 0 {
        return;
      }
      Pop(machine.mem, heads[..], lists, chunks, owned, bin);
      ghost var heads' := heads[..][bin := Load(machine.mem, n)];
      var next := LoadWord(n);
      heads[bin] := next;
      lists, chunks := lists[bin := lists[bin][1..]], chunks - {n};
      assert heads[..] == heads';
    }

    /** The loop of `refill_bin`: cut the page at `page` into nodes of the bin. */
    method CutPage(bin: BinIndex, page: u64)
      requires Ready() && Translated() && HeapOk(machine.mem, heads[..], lists, chunks, owned)
      requires Spare(chunks, owned, page, PAGE_SIZE)
      modifies machine`mem, heads, this`lists, this`chunks
      ensures Ready() && Translated() && HeapOk(machine.mem, heads[..], lists, chunks, owned)
      ensures heads[bin] != 0 && heads[bin] == page + (PAGE_SIZE - BinSize(bin))
      ensures Blocks(chunks) == Blocks(old(chunks)) && Total(chunks) == Total(old(chunks)) + PAGE_SIZE
      ensures forall f | 0 <= f < FRAME_SPACE && f != FrameOfVa(page) :: machine.mem[f] == old(machine.mem)[f]
    {
      var cnt := PAGE_SIZE / BinSize(bin);
      ghost var chunks0, mem0 := chunks, machine.mem;
      NodesInPage(bin);
      AllSpare(chunks, owned, page, bin);
      for i := 0 to cnt
        invariant Ready() && Translated() && HeapOk(machine.mem, heads[..], lists, chunks, owned)
        invariant SpareFrom(chunks, owned, page, bin, i)
        invariant Total(chunks) + page == Total(chunks0) + NodeAt(page, bin, i) && Blocks(chunks) == Blocks(chunks0)
        invariant i > 0 ==> heads[bin] != 0 && heads[bin] + BinSize(bin) == NodeAt(page, bin, i)
        invariant forall f | 0 <= f < FRAME_SPACE && f != FrameOfVa(page) :: machine.mem[f] == mem0[f]
      {
        CutNode(bin, page, i);
      }
    }

    method CutNode(bin: BinIndex, page: u64, i: nat)
      requires Ready() && Translated() && HeapOk(machine.mem, heads[..], lists, chunks, owned)
      requires Managed(page) && page % PAGE_SIZE == 0
      requires SpareFrom(chunks, owned, page, bin, i) && i < PAGE_SIZE / BinSize(bin)
      modifies machine`mem, heads, this`lists, this`chunks
      ensures Ready() && Translated() && HeapOk(machine.mem, heads[..], lists, chunks, owned)
      ensures SpareFrom(chunks, owned, page, bin, i + 1)
      ensures Total(chunks) == Total(old(chunks)) + BinSize(bin) && Blocks(chunks) == Blocks(old(chunks))
      ensures NodeAt(page, bin, i + 1) == NodeAt(page, bin, i) + BinSize(bin)
      ensures heads[bin] == NodeAt(page, bin, i) && heads[bin] != 0
      ensures forall f | 0 <= f < FRAME_SPACE && f != FrameOfVa(page) :: machine.mem[f] == old(machine.mem)[f]
    {
      ghost var before := chunks;
      NodePlace(chunks, owned, page, bin, i);
      var n: u64 := NodeAt(page, bin, i);
      PushNode(bin, n);
      TotalWith(before, n, FreeNode(bin));
      NodeTaken(before, owned, page, bin, i);
      BlocksWithNode(before, n, bin);
    }

    /** The page that `refill_bin` cuts up. */
    method TakePage() returns (page: u64)
      requires Valid()
      modifies this`owned, pages.bitmap
      ensures Ready() && HeapOk(machine.mem, heads[..], lists, chunks, owned)
      ensures page == 0 ==> View() == old(View()) && pages.Free() <= {0}
      ensures page != 0 ==>
                && Spare(chunks, owned, page, PAGE_SIZE)
                && LeastFree(old(pages.Free()), FrameOfVa(page)) && Managed(page) && page % PAGE_SIZE == 0
                && pages.Free() == old(pages.Free()) - {FrameOfVa(page)} && owned == old(owned) + {FrameOfVa(page)}
    {
      ghost var free := pages.Free();
      page := pages.AllocPages(1, PAGE_SIZE);
      OnePage(free, pages.frameEnd, page, pages.Free());
      if page == 0 {
        return;
      }
      FreshPages(machine.mem, heads[..], lists, chunks, owned, page, 1);
      assert Run(FrameOfVa(page), 1) == {FrameOfVa(page)};
      owned := owned + {FrameOfVa(page)};
    }

    /** `refill_bin`. */
    method RefillBin(bin: BinIndex) returns (ok: bool)
      requires Valid() && Translated()
      modifies machine`mem, heads, this`lists, this`chunks, this`owned, this`lost, pages.bitmap
      ensures Valid() && Translated() && Grew(old(View()), View()) && Blocks(chunks) == Blocks(old(chunks))
      ensures if ok then heads[bin] != 0 && TookOne(old(pages.Free()), pages.Free(), BinSize(bin), heads[bin])
              else View() == old(View()) && pages.Free() <= {0}
    {
      ghost var h := View();
      var page := TakePage();
      if page == 0 {
        return false;
      }
      FillPage(bin, page, h);
      PageTakenForNodes(h.free, pages.Free(), page, BinSize(bin));
      ok := true;
    }

    /** The page taken in state `h` is cut up and entered in the books. */
    method FillPage(bin: BinIndex, page: u64, ghost h: State)
      requires Ready() && Translated() && HeapOk(machine.mem, heads[..], lists, chunks, owned)
      requires Spare(chunks, owned, page, PAGE_SIZE) && 0 < FrameOfVa(page)
      requires Balanced(h) && FrameOfVa(page) in h.free
      requires View() == h.(owned := h.owned + {FrameOfVa(page)}, free := h.free - {FrameOfVa(page)})
      modifies machine`mem, heads, this`lists, this`chunks
      ensures Valid() && Translated() && Grew(h, View()) && Blocks(chunks) == Blocks(h.chunks)
      ensures heads[bin] != 0 && heads[bin] == page + (PAGE_SIZE - BinSize(bin))
    {
      CutPage(bin, page);
      PageAdded(h, View(), FrameOfVa(page));
    }

    /** The route of `kmalloc` through a bin. */
    method AllocFromBin(bin: BinIndex, n: u64) returns (ptr: u64)
      requires Valid() && Translated() && 0 < n <= BinSize(bin)
      modifies machine`mem, heads, this`lists, this`chunks, this`owned, this`lost, pages.bitmap
      ensures Valid() && Translated()
      ensures ptr == 0 ==> View() == old(View()) && old(heads[bin]) == 0 && old(pages.Free()) <= {0}
      ensures ptr != 0 ==> NewBlock(old(View()), View(), bin, n, ptr)
      ensures ptr != 0 ==>
                if old(heads[bin]) == 0 then TookOne(old(pages.Free()), pages.Free(), BinSize(bin), ptr)
                else ptr == old(heads[bin]) && pages.Free() == old(pages.Free()) && machine.mem == old(machine.mem)
    {
      if heads[bin] == 0 {
        ptr := RefillAndHandOut(bin, n);
      } else {
        ptr := HandOutNode(bin, n);
      }
    }

    /** The same with the list empty. */
    method RefillAndHandOut(bin: BinIndex, n: u64) returns (ptr: u64)
      requires Valid() && Translated() && 0 < n <= BinSize(bin) && heads[bin] == 0
      modifies machine`mem, heads, this`lists, this`chunks, this`owned, this`lost, pages.bitmap
      ensures Valid() && Translated()
      ensures ptr == 0 ==> View() == old(View()) && old(pages.Free()) <= {0}
      ensures ptr != 0 ==>
                && NewBlock(old(View()), View(), bin, n, ptr)
                && TookOne(old(pages.Free()), pages.Free(), BinSize(bin), ptr)
    {
      ghost var h := View();
      var ok := RefillBin(bin);
      if !ok {
        return 0;
      }
      ghost var h1 := View();
      ptr := HandOutNode(bin, n);
      BlockAfterGrowth(h, h1, View(), bin, n, ptr);
    }

    method HandOutNode(bin: BinIndex, n: u64) returns (ptr: u64)
      requires Valid() && Translated() && 0 < n <= BinSize(bin) && heads[bin] != 0
      modifies heads, this`lists, this`chunks, this`owned, this`lost
      ensures Valid() && Grew(old(View()), View())
      ensures ptr == old(heads[bin]) != 0 && NewBlock(old(View()), View(), bin, n, ptr)
    {
      ghost var h := View();
      ptr := PopNode(bin);
      ghost var h' := NodeBooked(h, View(), ptr, bin, n);
      Book(h');
    }

    /** The routes of `kmalloc` past the bins, for a run of `count` frames. */
    method AllocFromPages(n: u64, align: u64) returns (ptr: u64)
      requires Valid() && 0 < n && n + PAGE_SIZE - 1 < TWO_64
      modifies this`lists, this`chunks, this`owned, this`lost, pages.bitmap
      ensures Valid() && Grew(old(View()), View())
      ensures ptr == 0 ==>
                Blocks(chunks) == Blocks(old(chunks)) &&
                NoFit(old(pages.Free()), 1, pages.frameEnd, FramesFor(n), RouteAlign(align))
      ensures ptr != 0 ==>
                && ptr !in Blocks(old(chunks)) && ptr in chunks && chunks[ptr] == Live(n, FramesFor(n) * PAGE_SIZE)
                && Blocks(chunks) == Blocks(old(chunks))[ptr := chunks[ptr]]
                && Managed(ptr) && ptr == DIRECT_MAP_BASE + FrameOfVa(ptr) * PAGE_SIZE && ptr % PAGE_SIZE == 0
                && FrameOfVa(ptr) > 0 && FrameOfVa(ptr) % RouteAlign(align) == 0
                && FirstFit(old(pages.Free()), 1, pages.frameEnd, FramesFor(n), RouteAlign(align), FrameOfVa(ptr))
                && pages.Free() == old(pages.Free()) - Run(FrameOfVa(ptr), FramesFor(n))
    {
      ptr := TakeRun(n, align);
      if ptr != 0 {
        FramesForCovers(n);
        HandOutRun(ptr, n, FramesFor(n), FramesFor(n) * PAGE_SIZE, old(pages.Free()));
      }
    }

    /** The call into the frame allocator. */
    method TakeRun(n: u64, align: u64) returns (ptr: u64)
      requires Ready() && 0 < n && n + PAGE_SIZE - 1 < TWO_64
      modifies pages.bitmap
      ensures Ready()
      ensures ptr == 0 ==> pages.Free() == old(pages.Free()) &&
                           NoFit(old(pages.Free()), 1, pages.frameEnd, FramesFor(n), RouteAlign(align))
      ensures ptr != 0 ==>
                && Managed(ptr) && ptr == DIRECT_MAP_BASE + FrameOfVa(ptr) * PAGE_SIZE && ptr % PAGE_SIZE == 0
                && FrameOfVa(ptr) > 0 && FrameOfVa(ptr) % RouteAlign(align) == 0
                && FrameOfVa(ptr) + FramesFor(n) <= pages.frameEnd
                && Run(FrameOfVa(ptr), FramesFor(n)) <= old(pages.Free())
                && FirstFit(old(pages.Free()), 1, pages.frameEnd, FramesFor(n), RouteAlign(align), FrameOfVa(ptr))
                && pages.Free() == old(pages.Free()) - Run(FrameOfVa(ptr), FramesFor(n))
    {
      ghost var free := pages.Free();
      FramesForCovers(n);
      if align > PAGE_SIZE {
        ptr := pages.AllocPages(FramesFor(n), align);
      } else {
        ptr := pages.AllocBytes(n);
      }
      RunGranted(free, pages.frameEnd, FramesFor(n), RouteAlign(align), ptr, pages.Free());
    }

    /** The run taken becomes a block of the heap; only the books change. */
    ghost method HandOutRun(ptr: u64, n: u64, count: nat, size: nat, free: set<nat>)
      requires Ready() && 0 < n <= size == count * PAGE_SIZE && count == FramesFor(n)
      requires HeapOk(machine.mem, heads[..], lists, chunks, owned) && Balanced(View().(free := free))
      requires Managed(ptr) && ptr % PAGE_SIZE == 0 && FrameOfVa(ptr) > 0 && FrameOfVa(ptr) + count <= pages.frameEnd
      requires Run(FrameOfVa(ptr), count) <= free && pages.Free() == free - Run(FrameOfVa(ptr), count)
      requires Clear(tables, {}, free)
      modifies this`owned, this`chunks, this`lost
      ensures Valid() && Grew(old(View()).(free := free), View())
      ensures ptr !in Blocks(old(chunks)) && ptr in chunks && chunks[ptr] == Live(n, size)
      ensures Blocks(chunks) == Blocks(old(chunks))[ptr := chunks[ptr]]
    {
      var h := View().(free := free);
      var h' := RunBooked(h, ptr, n, count, size, pages.Free(), tables);
      Book(h');
    }

    /** `kmalloc` from a bin. */
    method KmallocSmall(n: u64, align: u64, bin: BinIndex) returns (ptr: u64)
      requires Valid() && Translated() && n > 0 && IsBinFor(Need(n, align), bin)
      modifies machine`mem, heads, this`lists, this`chunks, this`owned, this`lost, pages.bitmap
      ensures Valid() && Translated() && Allocates(old(View()), n, align, ptr, View())
      ensures ptr != 0 ==> Chosen(old(View()), n, align, ptr, View())
      ensures ptr != 0 && PowerOfTwo(align) ==> ptr % align == 0
    {
      ghost var h := View();
      NeedIsBoth(n, align, bin);
      ptr := AllocFromBin(bin, n);
      SmallServed(h, View(), bin, n, align, ptr);
      if ptr != 0 && PowerOfTwo(align) {
        BinAligned(ptr, bin, align);
      }
    }

    /** `kmalloc` from the frame allocator. */
    method KmallocLarge(n: u64, align: u64) returns (ptr: u64)
      requires Valid() && Translated() && n > 0 && n + PAGE_SIZE - 1 < TWO_64 && Need(n, align) > LARGEST_BIN
      modifies machine`mem, heads, this`lists, this`chunks, this`owned, this`lost, pages.bitmap
      ensures Valid() && Translated() && Allocates(old(View()), n, align, ptr, View())
      ensures ptr != 0 ==> Chosen(old(View()), n, align, ptr, View())
      ensures ptr != 0 && PowerOfTwo(align) ==> ptr % align == 0
    {
      NeedIsBoth(n, align, 0);
      ptr := AllocFromPages(n, align);
      if ptr != 0 && PowerOfTwo(align) {
        RouteAligned(ptr, align);
      }
    }

    /** `kmalloc`. */
    method Kmalloc(n: u64, align: u64) returns (ptr: u64)
      requires Valid() && Translated() && n + PAGE_SIZE - 1 < TWO_64
      modifies machine`mem, heads, this`lists, this`chunks, this`owned, this`lost, pages.bitmap
      ensures Valid() && Translated() && Allocates(old(View()), n, align, ptr, View())
      ensures ptr != 0 ==> Chosen(old(View()), n, align, ptr, View())
      ensures ptr != 0 && PowerOfTwo(align) ==> ptr % align == 0
    {
      if n == 0 {
        return 0;
      }
      var bin := BinIndexFor(Need(n, align));
      if bin >= 0 {
        ptr := KmallocSmall(n, align, bin);
      } else {
        ptr := KmallocLarge(n, align);
      }
    }

    /** `kfree`. */
    method Kfree(p: u64, n: u64)
      requires Valid() && Translated() && (p != 0 && n != 0 ==> IsBlock(View(), p, n))
      modifies machine`mem, heads, this`lists, this`chunks, this`owned, this`lost, pages.bitmap
      ensures Valid() && Translated()
      ensures p == 0 || n == 0 ==> View() == old(View())
      ensures p != 0 && n != 0 ==> Managed(p) && Frees(old(View()), p, n, View())
      ensures p != 0 && 0 < n <= 0x800 ==>
                heads[chunks[p].bin] == p &&
                forall b | 0 <= b < BIN_COUNT && b != chunks[p].bin :: heads[b] == old(heads[b])
    {
      if p == 0 || n == 0 {
        return;
      }
      var bin := BinIndexFor(n);
      if bin >= 0 {
        FreeToBin(bin, p, n);
      } else {
        FreeToPages(p, n);
      }
    }

    method FreeToBin(bin: BinIndex, p: u64, n: u64)
      requires Valid() && Translated() && IsBlock(View(), p, n) && IsBinFor(n, bin)
      modifies machine`mem, heads, this`lists, this`chunks, this`owned, this`lost
      ensures Valid() && Translated() && Managed(p) && Frees(old(View()), p, n, View())
      ensures p in chunks && chunks[p] == FreeNode(bin) && heads[bin] == p
      ensures forall b | 0 <= b < BIN_COUNT && b != bin :: heads[b] == old(heads[b])
    {
      ghost var h := View();
      SmallBlockBack(h, p, n, bin);
      chunks := chunks - {p};
      PushNode(bin, p);
      ghost var h' := NodeReturned(h, View(), p, n, bin);
      Book(h');
    }

    method FreeToPages(p: u64, n: u64)
      requires Valid() && IsBlock(View(), p, n) && n > LARGEST_BIN
      modifies this`chunks, this`owned, this`lost, pages.bitmap
      ensures Valid() && Managed(p) && Frees(old(View()), p, n, View())
    {
      ghost var h := View();
      LargeBlock(h, p, n);
      pages.FreeBytes(p, n);
      ghost var h' := RunForgotten(h, p, n, pages.Free(), tables);
      Book(h');
    }
  }
}
