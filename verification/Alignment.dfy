/** Alignment of what the bin allocator hands out (kernel/bin_alloc.c:71-103). */
module Alignment {
  import opened Bits
  import opened Division
  import opened Entry
  import opened Bitmap
  import opened AddressMap
  import opened PageAlloc
  import opened Heap

  ghost predicate PowerOfTwo(a: nat) {
    exists k: nat :: a == Pow2(k)
  }

  lemma Pow2Exact(j: nat, k: nat)
    requires Pow2(j) <= Pow2(k)
    ensures j <= k
  {
    if k < j {
      Pow2Grows(k + 1, j);
    }
  }

  /** A smaller power of two divides a larger one, and every multiple of it. */
  lemma Pow2Divides(j: nat, k: nat, m: nat)
    requires j <= k
    ensures m * Pow2(k) % Pow2(j) == 0
  {
    var p, q := Pow2(j), Pow2(k - j);
    Pow2Adds(k - j, j);
    MulAssociates(m, q, p);
    MultipleHasNoRemainder(m * q, p);
  }

  lemma BinSizeIsPow2(bin: BinIndex)
    ensures BinSize(bin) == Pow2(bin + 5)
  {
    assert Pow2(5) == 0x20;
    if bin > 0 {
      BinSizeIsPow2(bin - 1);
    }
  }

  lemma Pow2Of12()
    ensures Pow2(12) == PAGE_SIZE
  {
    BinSizeIsPow2(6);
  }

  /** A block of a bin at least as large as the alignment is aligned. */
  lemma BinAligned(ptr: u64, bin: BinIndex, align: nat)
    requires PowerOfTwo(align) && align <= BinSize(bin) && ptr % BinSize(bin) == 0
    ensures ptr % align == 0
  {
    var k: nat :| align == Pow2(k);
    BinSizeIsPow2(bin);
    Pow2Exact(k, bin + 5);
    Pow2Divides(k, bin + 5, ptr / BinSize(bin));
  }

  lemma PageAligned(ptr: u64, align: nat)
    requires PowerOfTwo(align) && align <= PAGE_SIZE && ptr % PAGE_SIZE == 0
    ensures ptr % align == 0
  {
    var k: nat :| align == Pow2(k);
    Pow2Of12();
    Pow2Exact(k, 12);
    Pow2Divides(k, 12, ptr / PAGE_SIZE);
  }

  lemma AddressAligned(align: nat, start: nat, q: nat, p: nat)
    requires align == PAGE_SIZE * p && start == q * p && p > 0 && DIRECT_MAP_BASE % align == 0
    ensures (DIRECT_MAP_BASE + start * PAGE_SIZE) % align == 0
  {
    MulAssociates(q, p, PAGE_SIZE);
    var b := DIRECT_MAP_BASE / align;
    assert DIRECT_MAP_BASE == b * align;
    assert start * PAGE_SIZE == q * align;
    SumOfMultiples(b, q, align);
  }

  lemma Pow2Of25()
    ensures Pow2(25) == FRAME_COUNT
  {
    Pow2Of12();
    Pow2Adds(12, 12);
    assert Pow2(25) == 2 * Pow2(24);
  }

  /** A run of managed frames starts at no multiple of 2^25 frames or more. */
  lemma SmallAlignment(start: nat, q: nat, k: nat)
    requires k >= 12 && 0 < start < FRAME_COUNT && start == q * Pow2(k - 12)
    ensures k <= 37
  {
    assert q > 0;
    MulMonotone(1, q, Pow2(k - 12));
    Pow2Of25();
    Pow2Exact(k - 12, 25);
  }

  lemma AlignFramesIsPow2(align: u64, k: nat)
    requires k >= 12 && align == Pow2(k) && align > PAGE_SIZE
    ensures AtLeastOne(AlignFrames(align)) == Pow2(k - 12)
  {
    Pow2Of12();
    Pow2Adds(12, k - 12);
    Pow2Of64();
    if k >= 64 {
      Pow2Grows(64, k);
      assert false;
    }
    Pow2Grows(k, 63);
    var p := Pow2(k - 12);
    assert align == PAGE_SIZE * p;
    assert (PAGE_SIZE * p + PAGE_SIZE - 1) / PAGE_SIZE == p;
  }

  lemma BaseDivides(k: nat)
    requires k <= 37
    ensures DIRECT_MAP_BASE % Pow2(k) == 0
  {
    Pow2Of25();
    Pow2Of12();
    Pow2Adds(25, 12);
    Pow2Divides(k, 37, 0x7FF_FC44);
    assert DIRECT_MAP_BASE == 0x7FF_FC44 * Pow2(37);
  }

  /** Beyond a page: the run starts at a multiple of the alignment in frames, and because the managed
      memory is 2^37 bytes no run can be had for an alignment that the direct map's base lacks. */
  lemma RunAligned(start: nat, align: u64)
    requires PowerOfTwo(align) && align > PAGE_SIZE && 0 < start < FRAME_COUNT
    requires start % AtLeastOne(AlignFrames(align)) == 0
    ensures (DIRECT_MAP_BASE + start * PAGE_SIZE) % align == 0
  {
    var k: nat :| align == Pow2(k);
    Pow2Of12();
    Pow2Exact(12, k);
    AlignFramesIsPow2(align, k);
    var p := Pow2(k - 12);
    var q := start / p;
    assert start == q * p;
    SmallAlignment(start, q, k);
    Pow2Adds(12, k - 12);
    BaseDivides(k);
    AddressAligned(align, start, q, p);
  }

  // ----- alignments that are no power of two -----

  /** The blocks that the bin route can hand out. */
  predicate BinAddress(bin: BinIndex, va: u64) {
    Managed(va) && FrameOfVa(va) > 0 && va % BinSize(bin) == 0
  }

  /** Node `i` of the first page that can be cut up. */
  function FirstPageNode(bin: BinIndex, i: nat): (va: u64)
    requires i < 2
  {
    DIRECT_MAP_BASE + PAGE_SIZE + i * BinSize(bin)
  }

  lemma FirstPageNodes(bin: BinIndex, i: nat)
    requires i < 2
    ensures BinAddress(bin, FirstPageNode(bin, i))
  {
    var size := BinSize(bin);
    assert (DIRECT_MAP_BASE + PAGE_SIZE) % size == 0 by {
      PageDivides(DIRECT_MAP_BASE + PAGE_SIZE, bin);
    }
    AddingMultiple(DIRECT_MAP_BASE + PAGE_SIZE, i * size, size);
    MultipleHasNoRemainder(i, size);
  }

  lemma InBinAligned(va: nat, size: nat, align: nat)
    requires size > 0 && align > 0 && va % size == 0 && size % align == 0
    ensures va % align == 0
  {
    DivMod(va, size);
    MultipleOfMultiple(va / size, size, align);
  }

  /** Every block the bin route can hand out is aligned if and only if the alignment divides the bin's size. */
  lemma BinRouteAlignedIff(bin: BinIndex, align: nat)
    requires align > 0
    ensures (forall va: u64 | BinAddress(bin, va) :: va % align == 0) <==> BinSize(bin) % align == 0
  {
    var size := BinSize(bin);
    if size % align == 0 {
      forall va: u64 | BinAddress(bin, va)
        ensures va % align == 0
      {
        InBinAligned(va, size, align);
      }
    } else {
      var first, second := FirstPageNode(bin, 0), FirstPageNode(bin, 1);
      FirstPageNodes(bin, 0);
      FirstPageNodes(bin, 1);
      if first % align == 0 {
        AddingMultiple(first, size, align);
        assert second % align != 0;
      }
    }
  }

  /** The runs that the page routes can hand out for an alignment. */
  ghost predicate RunAddress(align: u64, start: nat) {
    0 < start < FRAME_COUNT && start % RouteAlign(align) == 0
  }

  function RunPointer(start: nat): (va: u64)
    requires start < FRAME_COUNT
  {
    DIRECT_MAP_BASE + start * PAGE_SIZE
  }

  /** What the page routes need: their first place aligned, and, if they have a second one, the distance to it
      a multiple of the alignment. The base of the direct map takes part in the first. */
  ghost predicate RunsAligned(align: u64)
    requires align > 0
  {
    var frames := RouteAlign(align);
    && (frames < FRAME_COUNT ==> RunPointer(frames) % align == 0)
    && (2 * frames < FRAME_COUNT ==> frames * PAGE_SIZE % align == 0)
  }

  lemma LaterRun(align: u64, m: nat)
    requires align > 0 && RunsAligned(align) && 0 < m && m * RouteAlign(align) < FRAME_COUNT
    ensures RunPointer(m * RouteAlign(align)) % align == 0
  {
    var frames := RouteAlign(align);
    if m == 1 {
      assert m * frames == frames;
    } else {
      MulMonotone(2, m, frames);
      MulMonotone(1, m, frames);
      Distribute(m - 1, 1, frames);
      var more := (m - 1) * (frames * PAGE_SIZE);
      MulAssociates(m - 1, frames, PAGE_SIZE);
      MultipleOfMultiple(m - 1, frames * PAGE_SIZE, align);
      assert RunPointer(m * frames) == more + RunPointer(frames);
      AddingMultiple(more, RunPointer(frames), align);
    }
  }

  lemma InRunAligned(start: nat, align: u64)
    requires align > 0 && RunsAligned(align) && RunAddress(align, start)
    ensures RunPointer(start) % align == 0
  {
    DivMod(start, RouteAlign(align));
    LaterRun(align, start / RouteAlign(align));
  }

  /** Every run the page routes can hand out is aligned if and only if that holds. */
  lemma PageRouteAlignedIff(align: u64)
    requires align > 0
    ensures (forall start: nat | RunAddress(align, start) :: RunPointer(start) % align == 0) <==> RunsAligned(align)
  {
    var frames := RouteAlign(align);
    if RunsAligned(align) {
      forall start: nat | RunAddress(align, start)
        ensures RunPointer(start) % align == 0
      {
        InRunAligned(start, align);
      }
    } else if frames < FRAME_COUNT {
      MultipleHasNoRemainder(1, frames);
      assert RunAddress(align, frames);
      if 2 * frames < FRAME_COUNT && RunPointer(frames) % align == 0 {
        MultipleHasNoRemainder(2, frames);
        assert RunAddress(align, 2 * frames);
        AddingMultiple(RunPointer(frames), frames * PAGE_SIZE, align);
        assert RunPointer(2 * frames) == RunPointer(frames) + frames * PAGE_SIZE;
      }
    }
  }

  /** What the route of a request needs for its alignment. */
  ghost predicate RouteKeeps(n: u64, align: u64)
    requires align > 0
  {
    if Small(n, align) then
      forall bin: nat | bin < BIN_COUNT && IsBinOf(n, align, bin) :: BinSize(bin) % align == 0
    else RunsAligned(align)
  }

  /** The block `kmalloc` chooses is aligned whenever its route keeps the alignment. */
  lemma ChosenAligned(h: State, n: u64, align: u64, ptr: u64, h': State)
    requires align > 0 && RouteKeeps(n, align)
    requires ptr in h'.chunks && ChunkOk(ptr, h'.chunks[ptr], h'.owned) && Chosen(h, n, align, ptr, h')
    requires h.frameEnd <= FRAME_COUNT && FramesFor(n) > 0
    ensures ptr % align == 0
  {
    if Small(n, align) {
      var bin: nat :| IsBinOf(n, align, bin) && SizeOf(h'.chunks[ptr]) == BinSize(bin);
      assert ptr % BinSize(bin) == 0 && BinSize(bin) % align == 0;
      InBinAligned(ptr, BinSize(bin), align);
    } else {
      assert Candidate(h.free, 1, h.frameEnd, FramesFor(n), RouteAlign(align), FrameOfVa(ptr));
      Decompose(ptr);
      InRunAligned(FrameOfVa(ptr), align);
    }
  }

  lemma SecondNode()
    ensures FirstPageNode(1, 1) == 0xFFFF_8880_0000_1040 && FirstPageNode(1, 1) % 0x30 != 0
  {
  }

  lemma BinOfRequest(n: nat, align: nat)
    requires n == 1 && align == 0x30
    ensures IsBinOf(n, align, 1) && BinSize(1) == 0x40
    ensures forall b: nat :: IsBinOf(n, align, b) ==> b == 1
  {
    assert IsBinOf(n, align, 1);
    LeastBinOf(n, align, 1);
  }

  /** `kmalloc(1, 0x30)` takes a bin of 0x40 bytes; with the second node of page 1 at its head it returns a
      block that is not aligned to 0x30. */
  lemma UnalignedBlock(h: State, ptr: u64, h': State)
    requires Sound(h) && ptr in h'.chunks && Chosen(h, 1, 0x30, ptr, h')
    requires h.heads[1] == FirstPageNode(1, 1)
    ensures ptr == FirstPageNode(1, 1) && ptr % 0x30 != 0
  {
    SecondNode();
    BinOfRequest(1, 0x30);
  }

  /** `kmalloc(1, 0x5000)` looks for a run at a multiple of five frames; the first one is not aligned. */
  lemma UnalignedRun(h: State, ptr: u64, h': State)
    requires ptr in h'.chunks && Chosen(h, 1, 0x5000, ptr, h') && 5 in h.free && h.frameEnd > 5
    ensures ptr == RunPointer(5) && ptr % 0x5000 != 0
  {
    var start := FrameOfVa(ptr);
    assert Candidate(h.free, 1, h.frameEnd, 1, 5, 5);
    assert Candidate(h.free, 1, h.frameEnd, 1, 5, start);
    Decompose(ptr);
  }
}
