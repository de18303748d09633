/** The frame allocator of kernel/page_alloc.c. */
module PageAlloc {
  import opened Bits
  import opened Division
  import opened Entry
  import opened Bitmap
  import opened AddressMap
  import opened Wrappers

  const MAX_PHYS_SIZE: nat := FRAME_COUNT * PAGE_SIZE

  // ----- the firmware's memory map -----

  const EFI_BOOT_SERVICES_CODE: nat := 3
  const EFI_BOOT_SERVICES_DATA: nat := 4
  const EFI_CONVENTIONAL_MEMORY: nat := 7

  datatype Descriptor = Descriptor(kind: nat, physicalStart: u64, numberOfPages: u64)
  {
    /** The end address the code computes, with its 64-bit wrap. */
    function End(): u64 { (physicalStart + numberOfPages * PAGE_SIZE) % TWO_64 }

    function FirstFrame(): nat { physicalStart / PAGE_SIZE }

    /** One past the last frame, cut off at the managed limit. */
    function LastFrame(): (f: nat)
      ensures f <= FRAME_COUNT
    {
      (if End() > MAX_PHYS_SIZE then MAX_PHYS_SIZE else End()) / PAGE_SIZE
    }

    function Frames(): (count: nat)
      ensures physicalStart < MAX_PHYS_SIZE && count > 0 ==> FirstFrame() + count == LastFrame()
    {
      if physicalStart >= MAX_PHYS_SIZE || LastFrame() <= FirstFrame() then 0 else LastFrame() - FirstFrame()
    }

    ghost function Covered(): set<nat> { Run(FirstFrame(), Frames()) }

    /** `is_usable_type`. */
    predicate Usable() { kind == EFI_CONVENTIONAL_MEMORY || kind == EFI_BOOT_SERVICES_CODE }

    // ----- the same in the terms of UEFI 2.10, section 7.2 -----

    /** Frame `f` is below 128 GiB, ends inside the range of addresses and does not end before it starts. */
    ghost predicate Holds(f: nat) {
      f < 0x200_0000 && physicalStart < f * 4096 + 4096 <= (physicalStart + numberOfPages * 4096) % TWO_64
    }

    /** EfiConventionalMemory or EfiBootServicesCode. */
    ghost predicate Claimable() { kind == 7 || kind == 3 }

    /** EfiBootServicesData. */
    ghost predicate Releasable() { kind == 4 }

    lemma CoveredHolds(f: nat)
      ensures f in Covered() <==> Holds(f)
    {
      var end := if End() > MAX_PHYS_SIZE then MAX_PHYS_SIZE else End();
      DivMod(end, PAGE_SIZE);
      DivMod(physicalStart, PAGE_SIZE);
    }

    /** For a range that starts on a page, as firmware's do, and does not wrap, these are the frames inside it. */
    lemma HoldsInside(f: nat)
      requires physicalStart % 4096 == 0 && physicalStart + numberOfPages * 4096 < TWO_64
      ensures Holds(f) <==> f < 0x200_0000 && physicalStart <= f * 4096 &&
                            f * 4096 + 4096 <= physicalStart + numberOfPages * 4096
    {
      DivMod(physicalStart, 4096);
    }
  }

  /** `at[off]` is the record found `off` bytes into the map. */
  datatype MemoryMap = MemoryMap(at: map<nat, Descriptor>, mapSize: nat, descriptorSize: nat)
  {
    /** The scans step by a positive record size and read only records the map holds. */
    predicate Valid() {
      descriptorSize > 0 && ReadableFrom(0)
    }

    predicate ReadableFrom(off: nat)
      requires descriptorSize > 0
      decreases mapSize - off
    {
      off + descriptorSize <= mapSize ==> off in at && ReadableFrom(off + descriptorSize)
    }

    ghost function RecordsFrom(off: nat): seq<Descriptor>
      requires descriptorSize > 0 && ReadableFrom(off)
      decreases mapSize - off
    {
      if off + descriptorSize <= mapSize then [at[off]] + RecordsFrom(off + descriptorSize) else []
    }

    /** The records that lie entirely inside the map, in order. */
    ghost function Records(): seq<Descriptor>
      requires Valid()
    {
      RecordsFrom(0)
    }

    lemma {:induction false} RecordsFromAt(off: nat, k: nat)
      requires descriptorSize > 0 && ReadableFrom(off)
      ensures k < |RecordsFrom(off)| <==> off + k * descriptorSize + descriptorSize <= mapSize
      ensures k < |RecordsFrom(off)| ==>
                off + k * descriptorSize in at && RecordsFrom(off)[k] == at[off + k * descriptorSize]
      decreases k
    {
      if k > 0 {
        assert k * descriptorSize == (k - 1) * descriptorSize + descriptorSize;
        if off + descriptorSize <= mapSize {
          RecordsFromAt(off + descriptorSize, k - 1);
        }
      }
    }

    /** They are the records at the multiples of the record size, as many as fit. */
    lemma RecordAt(k: nat)
      requires Valid()
      ensures k < |Records()| <==> (k + 1) * descriptorSize <= mapSize
      ensures k < |Records()| ==> k * descriptorSize in at && Records()[k] == at[k * descriptorSize]
    {
      RecordsFromAt(0, k);
      assert (k + 1) * descriptorSize == k * descriptorSize + descriptorSize;
    }

    /** A scan that stands at `off` has seen `done`. */
    ghost predicate Scanning(done: seq<Descriptor>, off: nat)
      requires descriptorSize > 0
    {
      if done == [] then off == 0
      else
        var n := |done| - 1;
        && descriptorSize <= off <= mapSize && off - descriptorSize in at
        && done[n] == at[off - descriptorSize] && Scanning(done[..n], off - descriptorSize)
    }

    lemma {:induction false} ScanSplits(done: seq<Descriptor>, off: nat)
      requires Valid() && Scanning(done, off)
      ensures ReadableFrom(off) && Records() == done + RecordsFrom(off)
    {
      if done != [] {
        var n := |done| - 1;
        ScanSplits(done[..n], off - descriptorSize);
        assert done[..n] + ([done[n]] + RecordsFrom(off)) == (done[..n] + [done[n]]) + RecordsFrom(off);
      }
    }

    /** The next record, or the end: then the scan has seen every record. */
    lemma Advance(done: seq<Descriptor>, off: nat)
      requires Valid() && Scanning(done, off)
      ensures if off + descriptorSize <= mapSize
              then off in at && Scanning(done + [at[off]], off + descriptorSize)
              else done == Records()
    {
      ScanSplits(done, off);
      if off + descriptorSize <= mapSize {
        assert (done + [at[off]])[..|done|] == done;
      }
    }
  }

  ghost predicate Held(records: seq<Descriptor>, f: nat) {
    exists k :: 0 <= k < |records| && records[k].Holds(f)
  }

  ghost predicate LastToHold(records: seq<Descriptor>, k: nat, f: nat)
    requires k < |records|
  {
    records[k].Holds(f) && forall j | k < j < |records| :: !records[j].Holds(f)
  }

  /** The last descriptor to hold a frame decides it; a frame none holds stays in use. */
  ghost predicate Decided(records: seq<Descriptor>, free: set<nat>) {
    && (forall f | f in free :: Held(records, f))
    && (forall k: nat, f: nat | k < |records| && LastToHold(records, k, f) :: f in free <==> records[k].Claimable())
  }

  /** The least bound above every claimable frame, and at least `low`. */
  ghost predicate IsEnd(records: seq<Descriptor>, low: nat, end: nat) {
    && low <= end
    && (forall k, f: nat | 0 <= k < |records| && records[k].Claimable() && records[k].Holds(f) :: f < end)
    && (end == low ||
        exists k, f: nat :: 0 <= k < |records| && records[k].Claimable() && records[k].Holds(f) && f + 1 == end)
  }

  /** What one record does to the free frames during initialization. */
  ghost function Scan(free: set<nat>, d: Descriptor): set<nat> {
    if d.Usable() then free + d.Covered() else free - d.Covered()
  }

  lemma LastOf(records: seq<Descriptor>, d: Descriptor, k: nat, f: nat)
    requires k < |records| && LastToHold(records + [d], k, f)
    ensures LastToHold(records, k, f) && !d.Holds(f)
  {
    var more := records + [d];
    assert more[|records|] == d;
    forall j | k < j < |records|
      ensures !records[j].Holds(f)
    {
      assert more[j] == records[j];
    }
  }

  lemma HeldByMore(records: seq<Descriptor>, d: Descriptor, f: nat)
    ensures Held(records + [d], f) <==> Held(records, f) || d.Holds(f)
  {
    var more := records + [d];
    assert more[|records|] == d;
    if Held(records, f) {
      var k :| 0 <= k < |records| && records[k].Holds(f);
      assert more[k] == records[k];
    }
  }

  lemma DecidedStep(records: seq<Descriptor>, d: Descriptor, free: set<nat>)
    requires Decided(records, free)
    ensures Decided(records + [d], Scan(free, d))
  {
    var more, free' := records + [d], Scan(free, d);
    forall f | f in free'
      ensures Held(more, f)
    {
      d.CoveredHolds(f);
      HeldByMore(records, d, f);
    }
    forall k: nat, f: nat | k < |more| && LastToHold(more, k, f)
      ensures f in free' <==> more[k].Claimable()
    {
      d.CoveredHolds(f);
      if k < |records| {
        LastOf(records, d, k, f);
      }
    }
  }

  ghost function NextEnd(end: nat, d: Descriptor): nat {
    if d.Usable() && d.Frames() > 0 && d.LastFrame() > end then d.LastFrame() else end
  }

  /** The frames of a record end with the one below `LastFrame`. */
  lemma LastHeld(d: Descriptor)
    ensures d.Frames() > 0 ==> d.LastFrame() > 0 && d.Holds(d.LastFrame() - 1)
    ensures forall f: nat | d.Holds(f) :: d.Frames() > 0 && f < d.LastFrame()
  {
    if d.Frames() > 0 {
      d.CoveredHolds(d.LastFrame() - 1);
    }
    forall f: nat | d.Holds(f)
      ensures d.Frames() > 0 && f < d.LastFrame()
    {
      d.CoveredHolds(f);
    }
  }

  lemma EndStep(records: seq<Descriptor>, d: Descriptor, end: nat)
    requires IsEnd(records, 1, end)
    ensures IsEnd(records + [d], 1, NextEnd(end, d))
  {
    var more := records + [d];
    assert more[|records|] == d;
    LastHeld(d);
    if NextEnd(end, d) == end {
      if end != 1 {
        var k, f: nat :| 0 <= k < |records| && records[k].Claimable() && records[k].Holds(f) && f + 1 == end;
        assert more[k] == records[k];
      }
    } else {
      assert more[|records|].Holds(d.LastFrame() - 1);
    }
  }

  ghost function ScanFree(records: seq<Descriptor>): set<nat> {
    if records == [] then {} else Scan(ScanFree(records[..|records| - 1]), records[|records| - 1])
  }

  ghost function ScanEnd(records: seq<Descriptor>): nat {
    if records == [] then 1 else NextEnd(ScanEnd(records[..|records| - 1]), records[|records| - 1])
  }

  lemma ScanStep(done: seq<Descriptor>, d: Descriptor)
    ensures ScanFree(done + [d]) == Scan(ScanFree(done), d)
    ensures ScanEnd(done + [d]) == NextEnd(ScanEnd(done), d)
  {
    assert (done + [d])[..|done|] == done;
  }

  /** The scan in list order leaves every frame as the last record to cover it says, and its end
      is the largest usable end. */
  lemma {:induction false} ScanDecides(records: seq<Descriptor>)
    ensures Decided(records, ScanFree(records))
    ensures IsEnd(records, 1, ScanEnd(records)) && ScanEnd(records) <= FRAME_COUNT
    ensures forall f :: f in ScanFree(records) ==> f < ScanEnd(records)
  {
    if records != [] {
      var before, d := records[..|records| - 1], records[|records| - 1];
      assert records == before + [d];
      ScanDecides(before);
      DecidedStep(before, d, ScanFree(before));
      EndStep(before, d, ScanEnd(before));
    }
  }

  lemma AllUsed(lines: seq<u64>)
    requires |lines| == LINE_COUNT && forall j :: 0 <= j < LINE_COUNT ==> lines[j] == TWO_64 - 1
    ensures FreeSet(lines) == {}
  {
    Pow2Of64();
    forall f: nat | f < FRAME_COUNT
      ensures Used(lines, f)
    {
      BitOfComplement(0, 64, f % BITS_PER_LINE);
      BitOfZero(f % BITS_PER_LINE);
    }
    FreeMembers(lines);
  }

  // ----- the search -----

  /** `s` starts an aligned run of `needed` free frames inside the managed range. */
  ghost predicate Candidate(free: set<nat>, begin: nat, end: nat, needed: nat, align: nat, s: nat)
    requires align > 0
  {
    s % align == 0 && begin <= s && s + needed <= end && Run(s, needed) <= free
  }

  ghost predicate NoneBefore(free: set<nat>, begin: nat, end: nat, needed: nat, align: nat, s: nat)
    requires align > 0
  {
    forall t: nat :: t < s ==> !Candidate(free, begin, end, needed, align, t)
  }

  ghost predicate FirstFit(free: set<nat>, begin: nat, end: nat, needed: nat, align: nat, s: nat)
    requires align > 0
  {
    Candidate(free, begin, end, needed, align, s) && NoneBefore(free, begin, end, needed, align, s)
  }

  ghost predicate NoFit(free: set<nat>, begin: nat, end: nat, needed: nat, align: nat)
    requires align > 0
  {
    forall t: nat :: !Candidate(free, begin, end, needed, align, t)
  }

  /** `r` is the least multiple of `align` that is not below `x`. */
  ghost predicate LeastAligned(x: nat, align: nat, r: nat)
    requires align > 0
  {
    x <= r < x + align && r % align == 0 && forall t: nat :: x <= t < r ==> t % align != 0
  }

  /** A used frame at `s + i` spoils every aligned start up to the next one the search tries. */
  lemma SkipLosesNothing(free: set<nat>, begin: nat, end: nat, needed: nat, align: nat, s: nat, i: nat, next: nat)
    requires align > 0 && i < needed && s + i !in free
    requires NoneBefore(free, begin, end, needed, align, s) && LeastAligned(s + i + 1, align, next)
    ensures NoneBefore(free, begin, end, needed, align, next)
  {
    forall t: nat | t < next
      ensures !Candidate(free, begin, end, needed, align, t)
    {
      if s <= t <= s + i {
        assert s + i in Run(t, needed);
      }
    }
  }

  /** Once no run fits below the end there is none. */
  lemma SearchExhausted(free: set<nat>, begin: nat, end: nat, needed: nat, align: nat, s: nat)
    requires align > 0 && s + needed > end && NoneBefore(free, begin, end, needed, align, s)
    ensures NoFit(free, begin, end, needed, align)
  {
  }

  lemma RoundingUp(x: nat, align: nat)
    requires align > 0
    ensures LeastAligned(x, align, (x + align - 1) / align * align)
  {
    var q := (x + align - 1) / align;
    assert x + align - 1 == q * align + (x + align - 1) % align;
    MultipleHasNoRemainder(q, align);
    forall t: nat | x <= t < q * align
      ensures t % align != 0
    {
      if t % align == 0 {
        var r := t / align;
        assert t == r * align;
        assert (r + 1) * align == r * align + align;
        if r < q {
          MulMonotone(r + 1, q, align);
        } else {
          MulMonotone(q, r, align);
        }
      }
    }
  }

  ghost predicate HoldsBootData(records: seq<Descriptor>, f: nat) {
    exists k :: 0 <= k < |records| && records[k].Releasable() && records[k].Holds(f)
  }

  /** The managed frames that the BootServicesData records of a map hold. */
  ghost function BootData(records: seq<Descriptor>): set<nat> {
    set f: nat | f < FRAME_COUNT && HoldsBootData(records, f)
  }

  lemma BootDataStep(records: seq<Descriptor>, d: Descriptor)
    ensures BootData(records + [d]) ==
            if d.kind == EFI_BOOT_SERVICES_DATA then BootData(records) + d.Covered() else BootData(records)
  {
    var more := records + [d];
    assert more[|records|] == d;
    forall f: nat
      ensures HoldsBootData(more, f) <==> HoldsBootData(records, f) || (d.Releasable() && d.Holds(f))
      ensures f in d.Covered() <==> d.Holds(f)
    {
      d.CoveredHolds(f);
      if HoldsBootData(records, f) {
        var k :| 0 <= k < |records| && records[k].Releasable() && records[k].Holds(f);
        assert more[k] == records[k];
      }
    }
  }

  ghost function LaterEnd(end: nat, d: Descriptor): nat {
    if d.kind == EFI_BOOT_SERVICES_DATA && d.Frames() > 0 && d.LastFrame() > end then d.LastFrame() else end
  }

  /** The end after release: the old one, pushed up by every BootServicesData record beyond it. */
  ghost function ReleasedEnd(records: seq<Descriptor>, end: nat): nat {
    if records == [] then end else LaterEnd(ReleasedEnd(records[..|records| - 1], end), records[|records| - 1])
  }

  ghost predicate ReleasedUpTo(records: seq<Descriptor>, end: nat) {
    forall k, f: nat | 0 <= k < |records| && records[k].Releasable() && records[k].Holds(f) :: f < end
  }

  lemma ReleasedUpToMore(records: seq<Descriptor>, d: Descriptor, end: nat)
    ensures ReleasedUpTo(records + [d], end) <==>
              ReleasedUpTo(records, end) && (d.Releasable() && d.Frames() > 0 ==> d.LastFrame() <= end)
  {
    var more := records + [d];
    assert more[|records|] == d;
    assert forall k | 0 <= k < |records| :: more[k] == records[k];
    LastHeld(d);
    if ReleasedUpTo(more, end) && d.Releasable() && d.Frames() > 0 {
      assert more[|records|].Holds(d.LastFrame() - 1);
    }
  }

  /** It covers the old end and all released records, and no smaller end does. */
  lemma {:induction false} ReleasedEndIsLeast(records: seq<Descriptor>, end: nat, bound: nat)
    ensures end <= ReleasedEnd(records, end) && ReleasedUpTo(records, ReleasedEnd(records, end))
    ensures end <= bound && ReleasedUpTo(records, bound) ==> ReleasedEnd(records, end) <= bound
  {
    if records != [] {
      var before, d := records[..|records| - 1], records[|records| - 1];
      assert records == before + [d];
      ReleasedEndIsLeast(before, end, bound);
      ReleasedUpToMore(before, d, ReleasedEnd(before, end));
      ReleasedUpToMore(before, d, ReleasedEnd(records, end));
      ReleasedUpToMore(before, d, bound);
    }
  }

  lemma ReleaseStep(done: seq<Descriptor>, d: Descriptor, end: nat)
    ensures ReleasedEnd(done + [d], end) == LaterEnd(ReleasedEnd(done, end), d)
    ensures BootData(done + [d]) == BootData(done) + (if d.kind == EFI_BOOT_SERVICES_DATA then d.Covered() else {})
  {
    assert (done + [d])[..|done|] == done;
    BootDataStep(done, d);
  }

  /** Frames for `nbytes` bytes, with the 64-bit wrap of the rounding sum. */
  function FramesFor(nbytes: u64): (frames: u64)
    ensures frames < 0x10_0000_0000_0000
  {
    (nbytes + PAGE_SIZE - 1) % TWO_64 / PAGE_SIZE
  }

  /** The frames cover the request exactly when the rounding sum does not wrap. */
  lemma FramesForCovers(nbytes: u64)
    ensures FramesFor(nbytes) * PAGE_SIZE >= nbytes <==> nbytes == 0 || nbytes + PAGE_SIZE - 1 < TWO_64
    ensures nbytes > 0 && nbytes + PAGE_SIZE - 1 < TWO_64 ==>
              1 <= FramesFor(nbytes) && (FramesFor(nbytes) - 1) * PAGE_SIZE < nbytes
  {
  }

  /** Frames of alignment for `alignBytes`, as `page_alloc_pages` computes them, wrap included. */
  function AlignFrames(alignBytes: u64): (align: u64)
    ensures align <= 0x10_0000_0000_0000
  {
    if alignBytes > PAGE_SIZE then (alignBytes + PAGE_SIZE - 1) % TWO_64 / PAGE_SIZE else 1
  }

  /** `find_run` takes an alignment of 0 for 1. */
  function AtLeastOne(alignFrames: u64): (align: u64)
    ensures align > 0
  {
    if alignFrames == 0 then 1 else alignFrames
  }

  /** They are the fewest frames that hold `alignBytes`, and at least one, unless the rounding sum wraps: then the
      search takes any frame. */
  lemma AlignFramesCovers(alignBytes: u64)
    ensures var frames := AtLeastOne(AlignFrames(alignBytes));
            if alignBytes + 4095 >= TWO_64 then frames == 1
            else frames * 4096 >= alignBytes && (frames == 1 || (frames - 1) * 4096 < alignBytes)
  {
  }

  /** The frame behind a pointer. */
  function FrameAt(reconstructed: bool, ptr: u64): nat {
    VirtToPhys(reconstructed, ptr) / PAGE_SIZE
  }

  /** `ptr & ~PAGE_MASK`. */
  function PageBase(ptr: u64): u64 { ptr - ptr % PAGE_SIZE }

  function FramePointer(reconstructed: bool, frame: nat): (ptr: u64)
    requires frame <= FRAME_COUNT
    ensures frame > 0 ==> ptr > 0
    ensures ptr % PAGE_SIZE == 0 && FrameAt(reconstructed, ptr) == frame
  {
    PhysToVirt(reconstructed, frame * PAGE_SIZE)
  }

  /** The outcome of an allocation: NULL if and only if no run fits, and otherwise the first fit, which
      alone stops being free. */
  ghost predicate Granted(free: set<nat>, end: nat, needed: nat, align: nat, reconstructed: bool,
                          ptr: u64, free': set<nat>)
    requires align > 0
  {
    if ptr == 0 then NoFit(free, 1, end, needed, align) && free' == free
    else
      var start := FrameAt(reconstructed, ptr);
      && FirstFit(free, 1, end, needed, align, start)
      && start <= FRAME_COUNT && ptr == FramePointer(reconstructed, start)
      && free' == free - Run(start, needed)
  }

  /** A request whose rounding wraps, as that for 2^64 - 1 bytes does, gets a pointer to no frame at all, unless
      memory ends below frame 1. */
  lemma WrappedRequestGetsNothing(free: set<nat>, end: nat, nbytes: u64, reconstructed: bool, ptr: u64, free': set<nat>)
    requires nbytes + PAGE_SIZE - 1 >= TWO_64 && end >= 1
    requires Granted(free, end, FramesFor(nbytes), 1, reconstructed, ptr, free')
    ensures FramesFor(nbytes) == 0 && ptr == FramePointer(reconstructed, 1) && ptr != 0 && free' == free
  {
    assert Candidate(free, 1, end, FramesFor(nbytes), 1, 1);
  }

  lemma RunOfOne(frame: nat)
    ensures Run(frame, 1) == {frame}
  {
  }

  /** Freeing a granted run in the address mode it was granted in gives back the old free set. */
  lemma FreeUndoesAlloc(free: set<nat>, end: nat, needed: nat, align: nat, reconstructed: bool, ptr: u64,
                        free': set<nat>)
    requires align > 0 && ptr != 0 && Granted(free, end, needed, align, reconstructed, ptr, free')
    ensures free' + Run(FrameAt(reconstructed, PageBase(ptr)), needed) == free
    ensures free' !! Run(FrameAt(reconstructed, ptr), needed) && 0 !in Run(FrameAt(reconstructed, ptr), needed)
  {
  }

  lemma GrantInRange(free: set<nat>, end: nat, needed: nat, align: nat, reconstructed: bool, ptr: u64, free': set<nat>)
    requires align > 0 && ptr != 0 && Granted(free, end, needed, align, reconstructed, ptr, free')
    ensures FrameAt(reconstructed, PageBase(ptr)) + needed <= end
  {
    assert PageBase(ptr) == ptr;
    assert Candidate(free, 1, end, needed, align, FrameAt(reconstructed, ptr));
  }

  /** Freeing by bytes counts the frames that were allocated by pages. */
  lemma WholePages(count: u64)
    requires count * PAGE_SIZE + PAGE_SIZE - 1 < TWO_64
    ensures FramesFor(count * PAGE_SIZE) == count
  {
    QuotientUnique(count * PAGE_SIZE + PAGE_SIZE - 1, PAGE_SIZE, count, PAGE_SIZE - 1);
  }

  class PageAllocator {
    const bitmap: array<u64>   // g_bitmap
    var frameBegin: u64        // g_frame_begin
    var frameEnd: u64          // g_frame_end
    const mode: AddressMode

    ghost predicate Allocated()
      reads this
    {
      bitmap.Length == LINE_COUNT
    }

    ghost function Free(): set<nat>
      reads this, bitmap
      requires Allocated()
    {
      FreeSet(bitmap[..])
    }

    /** Frame 0 is never handed out, and no frame at or above the end is free. */
    ghost predicate Valid()
      reads this, bitmap
    {
      && Allocated()
      && frameBegin == 1 && 2 <= frameEnd <= FRAME_COUNT
      && (forall f :: f in Free() ==> f < frameEnd)
    }

    constructor (mode: AddressMode)
      ensures Allocated() && fresh(bitmap)
      ensures this.mode == mode
    {
      bitmap := new u64[LINE_COUNT](_ => 0);
      frameBegin, frameEnd := 1, 0;
      this.mode := mode;
    }

    method BmGet(frame: u64) returns (used: bool)
      requires Allocated() && frame < FRAME_COUNT
      ensures used == (frame !in Free())
    {
      var li, bi := frame / BITS_PER_LINE, frame % BITS_PER_LINE;
      used := Bit(bitmap[li], bi);
      FreeMembers(bitmap[..]);
    }

    method BmSetUsed(frame: u64)
      requires Allocated() && frame < FRAME_COUNT
      modifies bitmap
      ensures Free() == old(Free()) - {frame}
    {
      SetUsedRemoves(bitmap[..], frame);
      var li, bi := frame / BITS_PER_LINE, frame % BITS_PER_LINE;
      bitmap[li] := SetBit(bitmap[li], bi);
      assert bitmap[..] == old(bitmap[..])[li := SetBit(old(bitmap[li]), bi)];
    }

    method BmSetUnused(frame: u64)
      requires Allocated() && frame < FRAME_COUNT
      modifies bitmap
      ensures Free() == old(Free()) + {frame}
    {
      SetUnusedAdds(bitmap[..], frame);
      var li, bi := frame / BITS_PER_LINE, frame % BITS_PER_LINE;
      bitmap[li] := ClearBit(bitmap[li], bi);
      assert bitmap[..] == old(bitmap[..])[li := ClearBit(old(bitmap[li]), bi)];
    }

    method MarkRangeUsed(startFrame: u64, numFrames: u64)
      requires Allocated() && startFrame + numFrames <= FRAME_COUNT
      modifies bitmap
      ensures Free() == old(Free()) - Run(startFrame, numFrames)
    {
      ghost var free := Free();
      for i := 0 to numFrames
        invariant Free() == free - Run(startFrame, i)
      {
        BmSetUsed(startFrame + i);
        assert Run(startFrame, i + 1) == Run(startFrame, i) + {startFrame + i};
      }
    }

    method MarkRangeUnused(startFrame: u64, numFrames: u64)
      requires Allocated() && startFrame + numFrames <= FRAME_COUNT
      modifies bitmap
      ensures Free() == old(Free()) + Run(startFrame, numFrames)
    {
      ghost var free := Free();
      for i := 0 to numFrames
        invariant Free() == free + Run(startFrame, i)
      {
        BmSetUnused(startFrame + i);
        assert Run(startFrame, i + 1) == Run(startFrame, i) + {startFrame + i};
      }
    }

    /** One record of the scan in `page_allocator_init`. */
    method ScanRecord(d: Descriptor, ghost done: seq<Descriptor>)
      requires Allocated() && Free() == ScanFree(done) && frameEnd == ScanEnd(done) <= FRAME_COUNT
      modifies this`frameEnd, bitmap
      ensures Free() == ScanFree(done + [d]) && frameEnd == ScanEnd(done + [d]) <= FRAME_COUNT
    {
      ScanStep(done, d);
      var cnt: u64 := d.Frames();
      if cnt == 0 {
        return;
      }
      if d.Usable() {
        MarkRangeUnused(d.FirstFrame(), cnt);
        if d.LastFrame() > frameEnd {
          frameEnd := d.LastFrame();
        }
      } else {
        MarkRangeUsed(d.FirstFrame(), cnt);
      }
    }

    method FillUsed()
      requires Allocated()
      modifies bitmap
      ensures Free() == {}
    {
      for i := 0 to LINE_COUNT
        invariant forall j :: 0 <= j < i ==> bitmap[j] == TWO_64 - 1
      {
        bitmap[i] := Not(0);
      }
      AllUsed(bitmap[..]);
    }

    /** The loop over the records in `page_allocator_init`. */
    method ScanRecords(memmap: MemoryMap)
      requires Allocated() && memmap.Valid() && Free() == {} && frameEnd == 1
      modifies this`frameEnd, bitmap
      ensures Free() == ScanFree(memmap.Records())
      ensures frameEnd == ScanEnd(memmap.Records())
    {
      ghost var done := [];
      var off := 0;
      while off + memmap.descriptorSize <= memmap.mapSize
        invariant memmap.Scanning(done, off)
        invariant Free() == ScanFree(done) && frameEnd == ScanEnd(done) <= FRAME_COUNT
      {
        memmap.Advance(done, off);
        var d := memmap.at[off];
        ScanRecord(d, done);
        done, off := done + [d], off + memmap.descriptorSize;
      }
      memmap.Advance(done, off);
    }

    /** `page_allocator_init`. */
    method Init(memmap: MemoryMap)
      requires Allocated() && memmap.Valid()
      modifies this`frameBegin, this`frameEnd, bitmap
      ensures Valid()
      ensures Decided(memmap.Records(), Free())
      ensures IsEnd(memmap.Records(), 2, frameEnd)
    {
      FillUsed();
      frameBegin, frameEnd := 1, 1;
      ScanRecords(memmap);
      ScanDecides(memmap.Records());
      if frameEnd <= frameBegin {
        frameEnd := frameBegin + 1;
      }
    }

    /** One record of the scan in `page_allocator_release_boot_services_data`. */
    method ReleaseRecord(d: Descriptor)
      requires Valid()
      modifies this`frameEnd, bitmap
      ensures Valid() && frameEnd == LaterEnd(old(frameEnd), d)
      ensures Free() == old(Free()) + (if d.kind == EFI_BOOT_SERVICES_DATA then d.Covered() else {})
    {
      if d.kind != EFI_BOOT_SERVICES_DATA {
        return;
      }
      var cnt: u64 := d.Frames();
      if cnt == 0 {
        return;
      }
      MarkRangeUnused(d.FirstFrame(), cnt);
      if d.LastFrame() > frameEnd {
        frameEnd := d.LastFrame();
      }
    }

    /** The loop over the records in `page_allocator_release_boot_services_data`. */
    method ReleaseRecords(memmap: MemoryMap)
      requires Valid() && memmap.Valid()
      modifies this`frameEnd, bitmap
      ensures Valid() && frameEnd == ReleasedEnd(memmap.Records(), old(frameEnd))
      ensures Free() == old(Free()) + BootData(memmap.Records())
    {
      ghost var done, free, end := [], Free(), frameEnd;
      assert BootData([]) == {};
      var off := 0;
      while off + memmap.descriptorSize <= memmap.mapSize
        invariant memmap.Scanning(done, off)
        invariant Valid() && frameEnd == ReleasedEnd(done, end)
        invariant Free() == free + BootData(done)
      {
        memmap.Advance(done, off);
        var d := memmap.at[off];
        ReleaseRecord(d);
        ReleaseStep(done, d, end);
        done, off := done + [d], off + memmap.descriptorSize;
      }
      memmap.Advance(done, off);
    }

    /** `page_allocator_release_boot_services_data`. */
    method ReleaseBootServicesData(maybe: Option<MemoryMap>)
      requires Valid() && (maybe.Some? ==> maybe.value.Valid())
      modifies this`frameEnd, bitmap
      ensures Valid()
      ensures frameEnd == if maybe.Some? then ReleasedEnd(maybe.value.Records(), old(frameEnd)) else old(frameEnd)
      ensures Free() == if maybe.Some? then old(Free()) + BootData(maybe.value.Records()) else old(Free())
    {
      if maybe.None? {
        return;
      }
      ReleaseRecords(maybe.value);
    }

    /** `find_run`: the inner loop stops at the first used frame of the run, if there is one. */
    method RunLength(start: u64, needed: u64) returns (i: u64)
      requires Allocated() && start + needed <= FRAME_COUNT
      ensures i <= needed && Run(start, i) <= Free()
      ensures i < needed ==> start + i !in Free()
    {
      i := 0;
      while i < needed
        invariant i <= needed && Run(start, i) <= Free()
      {
        var used := BmGet(start + i);
        if used {
          break;
        }
        i := i + 1;
      }
    }

    /** Rounding up to the next aligned frame. */
    method RoundUp(x: u64, align: u64) returns (r: u64)
      requires align > 0 && x + align < TWO_64
      ensures LeastAligned(x, align, r)
    {
      RoundingUp(x, align);
      r := (x + align - 1) / align * align;
    }

    /** `find_run`: the least aligned start whose whole run is free, if there is one. */
    method FindRun(needed: u64, alignFrames: u64) returns (start: Option<u64>)
      requires Valid() && needed + alignFrames + 2 * FRAME_COUNT < TWO_64
      ensures start.Some? ==>
                FirstFit(Free(), 1, frameEnd, needed, AtLeastOne(alignFrames), start.value)
      ensures start.None? ==> NoFit(Free(), 1, frameEnd, needed, AtLeastOne(alignFrames))
    {
      var align := AtLeastOne(alignFrames);
      var s: u64 := RoundUp(frameBegin, align);
      while s + needed <= frameEnd
        invariant s % align == 0 && 1 <= s < FRAME_COUNT + align + 1
        invariant NoneBefore(Free(), 1, frameEnd, needed, align, s)
        decreases frameEnd + 1 - s
      {
        var i := RunLength(s, needed);
        if i == needed {
          return Some(s);
        }
        var next := RoundUp(s + i + 1, align);
        SkipLosesNothing(Free(), 1, frameEnd, needed, align, s, i, next);
        s := next;
      }
      SearchExhausted(Free(), 1, frameEnd, needed, align, s);
      return None;
    }

    /** The common tail of `page_alloc_bytes` and `page_alloc_pages`. */
    method AllocRun(needed: u64, alignFrames: u64) returns (ptr: u64)
      requires Valid() && needed + alignFrames + 2 * FRAME_COUNT < TWO_64
      modifies bitmap
      ensures Valid()
      ensures Granted(old(Free()), frameEnd, needed, AtLeastOne(alignFrames), mode.reconstructed, ptr, Free())
    {
      var start := FindRun(needed, alignFrames);
      if start.None? {
        return 0;
      }
      MarkRangeUsed(start.value, needed);
      ptr := FramePointer(mode.reconstructed, start.value);
    }

    /** `page_alloc_bytes`. */
    method AllocBytes(nbytes: u64) returns (ptr: u64)
      requires Valid()
      modifies bitmap
      ensures Valid()
      ensures if nbytes == 0 then ptr == 0 && Free() == old(Free())
              else Granted(old(Free()), frameEnd, FramesFor(nbytes), 1, mode.reconstructed, ptr, Free())
    {
      if nbytes == 0 {
        return 0;
      }
      ptr := AllocRun(FramesFor(nbytes), 1);
    }

    /** `page_free_bytes`. */
    method FreeBytes(ptr: u64, nbytes: u64)
      requires Valid()
      requires ptr != 0 && nbytes != 0 ==>
                 FrameAt(mode.reconstructed, PageBase(ptr)) + FramesFor(nbytes) <= frameEnd
      modifies bitmap
      ensures Valid()
      ensures Free() == if ptr == 0 || nbytes == 0 then old(Free())
                        else old(Free()) + Run(FrameAt(mode.reconstructed, PageBase(ptr)), FramesFor(nbytes))
    {
      if ptr == 0 || nbytes == 0 {
        return;
      }
      MarkRangeUnused(FrameAt(mode.reconstructed, PageBase(ptr)), FramesFor(nbytes));
    }

    /** `page_alloc_pages`. */
    method AllocPages(numPages: u64, alignBytes: u64) returns (ptr: u64)
      requires Valid() && numPages + AlignFrames(alignBytes) + 2 * FRAME_COUNT < TWO_64
      modifies bitmap
      ensures Valid()
      ensures if numPages == 0 then ptr == 0 && Free() == old(Free())
              else Granted(old(Free()), frameEnd, numPages, AtLeastOne(AlignFrames(alignBytes)),
                           mode.reconstructed, ptr, Free())
    {
      if numPages == 0 {
        return 0;
      }
      ptr := AllocRun(numPages, AlignFrames(alignBytes));
    }

    /** `page_alloc_4k_aligned`. */
    method Alloc4kAligned() returns (ptr: u64)
      requires Valid()
      modifies bitmap
      ensures Valid()
      ensures Granted(old(Free()), frameEnd, 1, 1, mode.reconstructed, ptr, Free())
    {
      ptr := AllocPages(1, PAGE_SIZE);
    }

    /** `page_free_4k`. */
    method Free4k(ptr: u64)
      requires Valid()
      requires ptr != 0 ==> FrameAt(mode.reconstructed, PageBase(ptr)) < frameEnd
      modifies bitmap
      ensures Valid()
      ensures Free() == if ptr == 0 then old(Free())
                        else old(Free()) + {FrameAt(mode.reconstructed, PageBase(ptr))}
    {
      if ptr == 0 {
        return;
      }
      RunOfOne(FrameAt(mode.reconstructed, PageBase(ptr)));
      FreeBytes(ptr, PAGE_SIZE);
    }

    // ----- freeing what was just allocated -----

    /** `page_alloc_bytes(n)` and then `page_free_bytes(p, n)`: every word of the bitmap is as before. */
    method AllocFreeBytes(nbytes: u64)
      requires Valid()
      modifies bitmap
      ensures Valid() && bitmap[..] == old(bitmap[..])
    {
      ghost var free := Free();
      var ptr := AllocBytes(nbytes);
      if nbytes != 0 && ptr != 0 {
        GrantInRange(free, frameEnd, FramesFor(nbytes), 1, mode.reconstructed, ptr, Free());
        FreeUndoesAlloc(free, frameEnd, FramesFor(nbytes), 1, mode.reconstructed, ptr, Free());
      }
      FreeBytes(ptr, nbytes);
      FreeSetDetermines(old(bitmap[..]), bitmap[..]);
    }

    /** `page_alloc_pages(k, align)` and then `page_free_bytes(p, k * 4096)`: the same number of frames, and the
        bitmap is as before. */
    method AllocFreePages(numPages: u64, alignBytes: u64)
      requires Valid() && numPages + AlignFrames(alignBytes) + 2 * FRAME_COUNT < TWO_64
      requires numPages * PAGE_SIZE + PAGE_SIZE - 1 < TWO_64
      modifies bitmap
      ensures Valid() && bitmap[..] == old(bitmap[..])
    {
      ghost var free, align := Free(), AtLeastOne(AlignFrames(alignBytes));
      var ptr := AllocPages(numPages, alignBytes);
      WholePages(numPages);
      if numPages != 0 && ptr != 0 {
        GrantInRange(free, frameEnd, numPages, align, mode.reconstructed, ptr, Free());
        FreeUndoesAlloc(free, frameEnd, numPages, align, mode.reconstructed, ptr, Free());
      }
      FreeBytes(ptr, numPages * PAGE_SIZE);
      FreeSetDetermines(old(bitmap[..]), bitmap[..]);
    }
  }
}
