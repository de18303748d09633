/** The kernel's memory after boot as a state machine: the frame allocator, the heap on top of it, their
    clients, and the page tables that CR3 points at, all in one physical memory. */
module KernelRun {
  import opened Bits
  import opened Entry
  import opened Bitmap
  import opened Mmu
  import opened PageAlloc
  import opened Heap

  /** `runs` maps the first frame of each run of frames a client of the frame allocator holds to its
      length; `tables` are the frames of the page tables in force. */
  datatype Kernel = Kernel(heap: State, cr3: u64, runs: map<nat, nat>, tables: set<nat>)

  datatype Event =
    | AllocRun(needed: nat, frames: nat, ptr: u64) // page_alloc_bytes, page_alloc_pages
    | FreeRun(start: nat)                          // page_free_bytes, page_free_4k
    | Malloc(n: u64, align: u64, ptr: u64)         // kmalloc
    | Free(p: u64, n: u64)                         // kfree
    | WriteBlock(p: u64)                           // the holder of a heap block writes anything into it
    | WriteRun(start: nat)                         // the holder of a run writes anything into it

  ghost predicate RunOk(k: Kernel, start: nat, count: nat) {
    && 0 < start && 0 < count && start + count <= k.heap.frameEnd
    && Run(start, count) !! k.heap.free && Run(start, count) !! k.heap.owned && Run(start, count) !! k.tables
  }

  ghost predicate RunsOk(k: Kernel) {
    && (forall s | s in k.runs :: RunOk(k, s, k.runs[s]))
    && (forall s, t | s in k.runs && t in k.runs && s != t :: Run(s, k.runs[s]) !! Run(t, k.runs[t]))
  }

  /** Page tables, heap pages, client runs and free frames share no frame. */
  ghost predicate Inv(k: Kernel) {
    && Sound(k.heap)
    && Within(k.heap.mem, 4, FrameOf(k.cr3), k.tables)
    && k.tables !! k.heap.free && k.tables !! k.heap.owned
    && RunsOk(k)
  }

  /** Only frames in `frames` have changed. */
  ghost predicate ChangedFrames(mem: Memory, mem': Memory, frames: set<nat>) {
    forall f | 0 <= f < FRAME_SPACE && f !in frames :: mem'[f] == mem[f]
  }

  ghost predicate Step(k: Kernel, e: Event, k': Kernel) {
    k'.cr3 == k.cr3 && k'.tables == k.tables &&
    match e
    case AllocRun(needed, frames, ptr) =>
      && needed > 0 && frames > 0
      && Granted(k.heap.free, k.heap.frameEnd, needed, frames, true, ptr, k'.heap.free)
      && k'.heap == k.heap.(free := k'.heap.free)
      && k'.runs == if ptr == 0 then k.runs else k.runs[FrameAt(true, ptr) := needed]
    case FreeRun(start) =>
      && start in k.runs
      && k'.heap == k.heap.(free := k.heap.free + Run(start, k.runs[start]))
      && k'.runs == k.runs - {start}
    case Malloc(n, align, ptr) =>
      Allocates(k.heap, n, align, ptr, k'.heap) && k'.runs == k.runs
    case Free(p, n) =>
      IsBlock(k.heap, p, n) && Managed(p) && Frees(k.heap, p, n, k'.heap) && k'.runs == k.runs
    case WriteBlock(p) =>
      && p in k.heap.chunks && k.heap.chunks[p].Live? && k'.runs == k.runs
      && k'.heap == k.heap.(mem := k'.heap.mem)
      && ChangedOnlyIn(k.heap.mem, k'.heap.mem, p, p + k.heap.chunks[p].size)
    case WriteRun(start) =>
      && start in k.runs && k'.runs == k.runs
      && k'.heap == k.heap.(mem := k'.heap.mem)
      && ChangedFrames(k.heap.mem, k'.heap.mem, Run(start, k.runs[start]))
  }

  // ----- what a step does to frames outside the client's own -----

  lemma WordOutside(va: u64, size: nat, pages: set<nat>, f: nat, w: nat)
    requires Placed(va, size, pages) && f !in pages && w < ENTRIES
    ensures !(va <= WordAddress(f, w) < va + size)
  {
    Decompose(va);
    if size < PAGE_SIZE {
      WithinFrame(va, size);
      assert FrameOfVa(va) in Frames(va, size);
    } else {
      assert f !in Run(FrameOfVa(va), size / PAGE_SIZE);
    }
  }

  /** A change inside a place of the heap touches only frames the heap owns. */
  lemma ChangeStaysInFrames(mem: Memory, mem': Memory, va: u64, size: nat, pages: set<nat>)
    requires Placed(va, size, pages) && ChangedOnlyIn(mem, mem', va, va + size)
    ensures ChangedFrames(mem, mem', pages)
  {
    forall f | 0 <= f < FRAME_SPACE && f !in pages
      ensures mem'[f] == mem[f]
    {
      forall w | 0 <= w < ENTRIES
        ensures mem'[f][w] == mem[f][w]
      {
        WordOutside(va, size, pages, f, w);
      }
    }
  }

  /** Frames that are not free, not the heap's and not a client's: page tables, the kernel's image, what the
      firmware keeps at run time. */
  ghost predicate Reserved(k: Kernel, frames: set<nat>) {
    frames !! k.heap.free && frames !! k.heap.owned && forall s | s in k.runs :: frames !! Run(s, k.runs[s])
  }

  /** No step changes a reserved frame. */
  lemma StepSparesReserved(k: Kernel, e: Event, k': Kernel, frames: set<nat>)
    requires Inv(k) && Step(k, e, k') && Reserved(k, frames)
    ensures AgreeOn(k.heap.mem, k'.heap.mem, frames)
  {
    match e
    case Free(p, n) =>
      assert ChunkOk(p, k.heap.chunks[p], k.heap.owned);
      ChangeStaysInFrames(k.heap.mem, k'.heap.mem, p, k.heap.chunks[p].size, k.heap.owned);
    case WriteBlock(p) =>
      assert ChunkOk(p, k.heap.chunks[p], k.heap.owned);
      ChangeStaysInFrames(k.heap.mem, k'.heap.mem, p, k.heap.chunks[p].size, k.heap.owned);
    case _ =>
  }

  lemma FreedFramesOwned(h: State, p: u64, n: u64)
    requires IsBlock(h, p, n) && ChunkOk(p, h.chunks[p], h.owned)
    ensures n > LARGEST_BIN ==> Run(FrameOfVa(p), FramesFor(n)) <= h.owned
  {
    if n > LARGEST_BIN {
      var size := h.chunks[p].size;
      assert size == FramesFor(n) * PAGE_SIZE;
      assert size >= PAGE_SIZE && size / PAGE_SIZE == FramesFor(n);
    }
  }

  /** And they stay reserved: nothing hands them out. */
  lemma StepKeepsReserved(k: Kernel, e: Event, k': Kernel, frames: set<nat>)
    requires Inv(k) && Step(k, e, k') && Reserved(k, frames)
    ensures Reserved(k', frames)
  {
    match e
    case AllocRun(needed, align, ptr) =>
      if ptr != 0 {
        assert Candidate(k.heap.free, 1, k.heap.frameEnd, needed, align, FrameAt(true, ptr));
      }
    case Free(p, n) =>
      assert ChunkOk(p, k.heap.chunks[p], k.heap.owned);
      FreedFramesOwned(k.heap, p, n);
    case _ =>
  }

  lemma StepSparesTables(k: Kernel, e: Event, k': Kernel)
    requires Inv(k) && Step(k, e, k')
    ensures AgreeOn(k.heap.mem, k'.heap.mem, k.tables)
  {
    forall s | s in k.runs
      ensures k.tables !! Run(s, k.runs[s])
    {
      assert RunOk(k, s, k.runs[s]);
    }
    StepSparesReserved(k, e, k', k.tables);
  }

  // ----- every step keeps the invariant -----

  /** Frames outside the heap's hold no list. */
  lemma ListsOutsideFrames(h: State, mem': Memory, frames: set<nat>)
    requires HeapOk(h.mem, h.heads, h.lists, h.chunks, h.owned)
    requires ChangedFrames(h.mem, mem', frames) && frames !! h.owned
    ensures HeapOk(mem', h.heads, h.lists, h.chunks, h.owned)
  {
    forall bin | 0 <= bin < BIN_COUNT
      ensures BinOk(mem', h.heads[bin], h.lists[bin], h.chunks, bin)
    {
      var nodes := h.lists[bin];
      assert BinOk(h.mem, h.heads[bin], nodes, h.chunks, bin);
      forall j | 0 <= j < |nodes|
        ensures Load(mem', nodes[j]) == Next(nodes, j)
      {
        assert Load(h.mem, nodes[j]) == Next(nodes, j);
        assert nodes[j] in nodes;
        assert ChunkOk(nodes[j], h.chunks[nodes[j]], h.owned);
        assert FrameOfVa(nodes[j]) in Frames(nodes[j], BinSize(bin));
      }
    }
  }

  lemma AllocRunKeeps(k: Kernel, needed: nat, frames: nat, ptr: u64, k': Kernel)
    requires Inv(k) && Step(k, AllocRun(needed, frames, ptr), k')
    ensures Inv(k')
  {
    if ptr != 0 {
      var start := FrameAt(true, ptr);
      assert Candidate(k.heap.free, 1, k.heap.frameEnd, needed, frames, start);
      forall s | s in k'.runs
        ensures RunOk(k', s, k'.runs[s])
        ensures s != start ==> Run(s, k'.runs[s]) !! Run(start, needed)
      {
        if s != start {
          assert RunOk(k, s, k.runs[s]);
        }
      }
    } else {
      assert k' == k;
    }
  }

  lemma FreeRunKeeps(k: Kernel, start: nat, k': Kernel)
    requires Inv(k) && Step(k, FreeRun(start), k')
    ensures Inv(k')
  {
    assert RunOk(k, start, k.runs[start]);
    forall s | s in k'.runs
      ensures RunOk(k', s, k'.runs[s])
    {
      assert RunOk(k, s, k.runs[s]);
      assert Run(s, k.runs[s]) !! Run(start, k.runs[start]);
    }
  }

  lemma MallocKeeps(k: Kernel, n: u64, align: u64, ptr: u64, k': Kernel)
    requires Inv(k) && Step(k, Malloc(n, align, ptr), k')
    ensures Inv(k')
  {
    StepSparesTables(k, Malloc(n, align, ptr), k');
    WalkUnaffected(k.heap.mem, k'.heap.mem, 4, FrameOf(k.cr3), k.tables);
    forall s | s in k'.runs
      ensures RunOk(k', s, k'.runs[s])
    {
      assert RunOk(k, s, k.runs[s]);
    }
  }

  lemma FreeKeeps(k: Kernel, p: u64, n: u64, k': Kernel)
    requires Inv(k) && Step(k, Free(p, n), k')
    ensures Inv(k')
  {
    StepSparesTables(k, Free(p, n), k');
    WalkUnaffected(k.heap.mem, k'.heap.mem, 4, FrameOf(k.cr3), k.tables);
    assert ChunkOk(p, k.heap.chunks[p], k.heap.owned);
    FreedFramesOwned(k.heap, p, n);
    forall s | s in k'.runs
      ensures RunOk(k', s, k'.runs[s])
    {
      assert RunOk(k, s, k.runs[s]);
    }
  }

  lemma WriteKeeps(k: Kernel, e: Event, k': Kernel)
    requires Inv(k) && Step(k, e, k') && (e.WriteBlock? || e.WriteRun?)
    ensures Inv(k')
  {
    StepSparesTables(k, e, k');
    WalkUnaffected(k.heap.mem, k'.heap.mem, 4, FrameOf(k.cr3), k.tables);
    var h := k.heap;
    if e.WriteBlock? {
      ListsSurvive(h.mem, k'.heap.mem, e.p, h.chunks[e.p].size, h.heads, h.lists, h.chunks, h.owned);
    } else {
      assert RunOk(k, e.start, k.runs[e.start]);
      ListsOutsideFrames(h, k'.heap.mem, Run(e.start, k.runs[e.start]));
    }
    forall s | s in k'.runs
      ensures RunOk(k', s, k'.runs[s])
    {
      assert RunOk(k, s, k.runs[s]);
    }
  }

  lemma StepKeepsInv(k: Kernel, e: Event, k': Kernel)
    requires Inv(k) && Step(k, e, k')
    ensures Inv(k')
  {
    match e
    case AllocRun(needed, frames, ptr) => AllocRunKeeps(k, needed, frames, ptr, k');
    case FreeRun(start) => FreeRunKeeps(k, start, k');
    case Malloc(n, align, ptr) => MallocKeeps(k, n, align, ptr, k');
    case Free(p, n) => FreeKeeps(k, p, n, k');
    case _ => WriteKeeps(k, e, k');
  }

  // ----- over whole runs -----

  ghost predicate StepAt(states: seq<Kernel>, events: seq<Event>, i: nat)
    requires |states| == |events| + 1 && i < |events|
  {
    Step(states[i], events[i], states[i + 1])
  }

  ghost predicate IsRun(states: seq<Kernel>, events: seq<Event>) {
    |states| == |events| + 1 && forall i | 0 <= i < |events| :: StepAt(states, events, i)
  }

  /** In every run from a sound state every state is sound, and every virtual address keeps its
      translation, whatever clients write into what they hold. */
  lemma {:induction false} RunIsSafe(states: seq<Kernel>, events: seq<Event>, m: nat)
    requires IsRun(states, events) && Inv(states[0]) && m <= |events|
    ensures Inv(states[m]) && states[m].cr3 == states[0].cr3 && states[m].tables == states[0].tables
    ensures forall va: u64 :: Walk(states[m].heap.mem, states[0].cr3, va) == Walk(states[0].heap.mem, states[0].cr3, va)
  {
    if m > 0 {
      RunIsSafe(states, events, m - 1);
      var k, e, k' := states[m - 1], events[m - 1], states[m];
      assert StepAt(states, events, m - 1);
      StepKeepsInv(k, e, k');
      StepSparesTables(k, e, k');
      WalkUnaffected(k.heap.mem, k'.heap.mem, 4, FrameOf(k.cr3), k.tables);
    }
  }

  /** Every step of a run starts in a sound state. */
  lemma EveryStep(states: seq<Kernel>, events: seq<Event>, i: nat)
    requires IsRun(states, events) && Inv(states[0]) && i < |events|
    ensures Inv(states[i]) && Step(states[i], events[i], states[i + 1])
  {
    RunIsSafe(states, events, i);
    assert StepAt(states, events, i);
  }

  /** Whatever is reserved at the start is the same in every state of every run. */
  lemma {:induction false} RunSparesReserved(states: seq<Kernel>, events: seq<Event>, frames: set<nat>, m: nat)
    requires IsRun(states, events) && Inv(states[0]) && Reserved(states[0], frames) && m <= |events|
    ensures Reserved(states[m], frames) && AgreeOn(states[0].heap.mem, states[m].heap.mem, frames)
  {
    if m > 0 {
      RunSparesReserved(states, events, frames, m - 1);
      EveryStep(states, events, m - 1);
      StepSparesReserved(states[m - 1], events[m - 1], states[m], frames);
      StepKeepsReserved(states[m - 1], events[m - 1], states[m], frames);
    }
  }

  /** The words of the block at `p` are unchanged. */
  ghost predicate BlockSame(mem: Memory, mem': Memory, p: u64, size: nat) {
    forall f, w | 0 <= f < FRAME_SPACE && 0 <= w < ENTRIES && p <= WordAddress(f, w) < p + size ::
      mem'[f][w] == mem[f][w]
  }

  ghost predicate Holds(k: Kernel, p: u64, c: Chunk) {
    p in k.heap.chunks && k.heap.chunks[p] == c && c.Live?
  }

  /** The step gives up or writes the block at `p`. */
  predicate Touches(e: Event, p: u64) {
    (e.Free? && e.p == p) || (e.WriteBlock? && e.p == p)
  }

  lemma FramesKeepBlock(mem: Memory, mem': Memory, p: u64, size: nat, pages: set<nat>, frames: set<nat>)
    requires Placed(p, size, pages) && ChangedFrames(mem, mem', frames) && frames !! pages
    ensures BlockSame(mem, mem', p, size)
  {
    forall f, w | 0 <= f < FRAME_SPACE && 0 <= w < ENTRIES && p <= WordAddress(f, w) < p + size
      ensures mem'[f][w] == mem[f][w]
    {
      if f !in pages {
        WordOutside(p, size, pages, f, w);
      }
    }
  }

  lemma MallocKeepsBlock(h: State, h': State, p: u64)
    requires Grew(h, h') && h.owned !! h.free && p in Blocks(h.chunks) && Placed(p, h.chunks[p].size, h.owned)
    requires p in Blocks(h'.chunks) && Blocks(h'.chunks)[p] == Blocks(h.chunks)[p]
    ensures p in h'.chunks && h'.chunks[p] == h.chunks[p]
    ensures BlockSame(h.mem, h'.mem, p, h.chunks[p].size)
  {
    FramesKeepBlock(h.mem, h'.mem, p, h.chunks[p].size, h.owned, h.free - h'.free);
  }

  lemma AllocationKeepsBlock(k: Kernel, e: Event, k': Kernel, p: u64)
    requires Sound(k.heap) && e.Malloc? && Step(k, e, k') && p in Blocks(k.heap.chunks) && p != e.ptr
    requires Placed(p, k.heap.chunks[p].size, k.heap.owned)
    ensures p in k'.heap.chunks && k'.heap.chunks[p] == k.heap.chunks[p]
    ensures BlockSame(k.heap.mem, k'.heap.mem, p, k.heap.chunks[p].size)
  {
    MallocKeepsBlock(k.heap, k'.heap, p);
  }

  lemma ApartBlocks(h: State, p: u64, q: u64, mem': Memory)
    requires ChunksOk(h.chunks, h.owned) && p in h.chunks && q in h.chunks && p != q
    requires ChangedOnlyIn(h.mem, mem', q, q + SizeOf(h.chunks[q]))
    ensures BlockSame(h.mem, mem', p, SizeOf(h.chunks[p]))
  {
    assert Apart(p, SizeOf(h.chunks[p]), q, SizeOf(h.chunks[q]));
  }

  lemma FreeKeepsBlock(h: State, q: u64, n: u64, h': State, p: u64)
    requires ChunksOk(h.chunks, h.owned) && IsBlock(h, q, n) && Managed(q) && Frees(h, q, n, h')
    requires p in Blocks(h.chunks) && p != q
    ensures p in h'.chunks && h'.chunks[p] == h.chunks[p]
    ensures BlockSame(h.mem, h'.mem, p, h.chunks[p].size)
  {
    assert p in Blocks(h'.chunks);
    ApartBlocks(h, p, q, h'.mem);
  }

  /** A block stays out, and keeps its contents, through any step of anyone else. */
  lemma StepKeepsBlock(k: Kernel, e: Event, k': Kernel, p: u64, c: Chunk)
    requires Inv(k) && Step(k, e, k') && Holds(k, p, c) && !Touches(e, p)
    ensures Holds(k', p, c) && BlockSame(k.heap.mem, k'.heap.mem, p, c.size)
  {
    assert ChunkOk(p, c, k.heap.owned);
    assert p in Blocks(k.heap.chunks);
    match e
    case Malloc(_, _, _) =>
      AllocationKeepsBlock(k, e, k', p);
    case Free(q, n) =>
      FreeKeepsBlock(k.heap, q, n, k'.heap, p);
    case WriteBlock(q) =>
      ApartBlocks(k.heap, p, q, k'.heap.mem);
    case WriteRun(start) =>
      assert RunOk(k, start, k.runs[start]);
      FramesKeepBlock(k.heap.mem, k'.heap.mem, p, c.size, k.heap.owned, Run(start, k.runs[start]));
    case _ =>
  }

  lemma StepOfRunKeepsBlock(states: seq<Kernel>, events: seq<Event>, p: u64, c: Chunk, i: nat)
    requires IsRun(states, events) && Inv(states[0]) && i < |events|
    requires Holds(states[i], p, c) && !Touches(events[i], p)
    ensures Holds(states[i + 1], p, c) && BlockSame(states[i].heap.mem, states[i + 1].heap.mem, p, c.size)
  {
    EveryStep(states, events, i);
    StepKeepsBlock(states[i], events[i], states[i + 1], p, c);
  }

  /** Over a whole run: what is handed out stays private until its holder acts. */
  lemma {:induction false} RunKeepsBlock(states: seq<Kernel>, events: seq<Event>, p: u64, c: Chunk, m: nat)
    requires IsRun(states, events) && Inv(states[0]) && Holds(states[0], p, c) && m <= |events|
    requires forall i | 0 <= i < m :: !Touches(events[i], p)
    ensures Holds(states[m], p, c) && BlockSame(states[0].heap.mem, states[m].heap.mem, p, c.size)
  {
    if m > 0 {
      RunKeepsBlock(states, events, p, c, m - 1);
      StepOfRunKeepsBlock(states, events, p, c, m - 1);
    }
  }

  lemma NewRunIsNew(k: Kernel, needed: nat, frames: nat, ptr: u64, k': Kernel, start: nat)
    requires Inv(k) && Step(k, AllocRun(needed, frames, ptr), k') && start in k.runs
    ensures ptr != 0 ==> FrameAt(true, ptr) != start
  {
    assert RunOk(k, start, k.runs[start]);
    assert start in Run(start, k.runs[start]);
    if ptr != 0 {
      assert Candidate(k.heap.free, 1, k.heap.frameEnd, needed, frames, FrameAt(true, ptr));
      assert FrameAt(true, ptr) in Run(FrameAt(true, ptr), needed);
    }
  }

  /** The same for a run of frames held by a client of the frame allocator. */
  lemma StepKeepsRun(k: Kernel, e: Event, k': Kernel, start: nat)
    requires Inv(k) && Step(k, e, k') && start in k.runs
    requires !((e.FreeRun? || e.WriteRun?) && e.start == start)
    ensures start in k'.runs && k'.runs[start] == k.runs[start]
    ensures AgreeOn(k.heap.mem, k'.heap.mem, Run(start, k.runs[start]))
  {
    assert RunOk(k, start, k.runs[start]);
    match e
    case AllocRun(needed, frames, ptr) =>
      NewRunIsNew(k, needed, frames, ptr, k', start);
    case Free(p, n) =>
      assert ChunkOk(p, k.heap.chunks[p], k.heap.owned);
      ChangeStaysInFrames(k.heap.mem, k'.heap.mem, p, k.heap.chunks[p].size, k.heap.owned);
    case WriteBlock(p) =>
      assert ChunkOk(p, k.heap.chunks[p], k.heap.owned);
      ChangeStaysInFrames(k.heap.mem, k'.heap.mem, p, k.heap.chunks[p].size, k.heap.owned);
    case WriteRun(other) =>
      assert Run(other, k.runs[other]) !! Run(start, k.runs[start]);
    case _ =>
  }

  /** Over a whole run. */
  lemma {:induction false} RunKeepsRun(states: seq<Kernel>, events: seq<Event>, start: nat, m: nat)
    requires IsRun(states, events) && Inv(states[0]) && start in states[0].runs && m <= |events|
    requires forall i | 0 <= i < m :: !((events[i].FreeRun? || events[i].WriteRun?) && events[i].start == start)
    ensures start in states[m].runs && states[m].runs[start] == states[0].runs[start]
    ensures AgreeOn(states[0].heap.mem, states[m].heap.mem, Run(start, states[0].runs[start]))
  {
    if m > 0 {
      RunKeepsRun(states, events, start, m - 1);
      EveryStep(states, events, m - 1);
      StepKeepsRun(states[m - 1], events[m - 1], states[m], start);
    }
  }

  // ----- bytes of the heap -----

  /** The step frees a block into a smaller bin than the one it came from. */
  ghost predicate Shrinks(k: Kernel, e: Event) {
    e.Free? && e.n <= LARGEST_BIN && e.p in k.heap.chunks &&
    exists bin: nat :: IsBinFor(e.n, bin) && BinSize(bin) < SizeOf(k.heap.chunks[e.p])
  }

  lemma StepLoses(k: Kernel, e: Event, k': Kernel)
    requires Inv(k) && Step(k, e, k')
    ensures k.heap.lost <= k'.heap.lost && (k'.heap.lost == k.heap.lost <==> !Shrinks(k, e))
  {
    if e.Free? && e.n <= LARGEST_BIN {
      var c := k.heap.chunks[e.p];
      assert ChunkOk(e.p, c, k.heap.owned);
      var bin := k'.heap.chunks[e.p].bin;
      BinFitsBlock(e.p, e.n, c.size, bin);
      LeastBin(e.n, bin);
    }
  }

  ghost predicate ShrinksAt(states: seq<Kernel>, events: seq<Event>, i: nat)
    requires |states| == |events| + 1 && i < |events|
  {
    Shrinks(states[i], events[i])
  }

  ghost predicate NoneShrinks(states: seq<Kernel>, events: seq<Event>)
    requires |states| == |events| + 1
  {
    forall i | 0 <= i < |events| :: !ShrinksAt(states, events, i)
  }

  /** Step `i` loses bytes exactly if it shrinks a block. */
  ghost predicate LosesRight(states: seq<Kernel>, events: seq<Event>, i: nat)
    requires |states| == |events| + 1 && i < |events|
  {
    && states[i].heap.lost <= states[i + 1].heap.lost
    && (states[i + 1].heap.lost == states[i].heap.lost <==> !ShrinksAt(states, events, i))
  }

  lemma EveryStepLosesRight(states: seq<Kernel>, events: seq<Event>, i: nat)
    requires IsRun(states, events) && Inv(states[0]) && i < |events|
    ensures LosesRight(states, events, i)
  {
    EveryStep(states, events, i);
    StepLoses(states[i], events[i], states[i + 1]);
  }

  lemma {:induction false} LostSoFar(states: seq<Kernel>, events: seq<Event>, m: nat)
    requires |states| == |events| + 1 && m <= |events|
    requires forall i | 0 <= i < |events| :: LosesRight(states, events, i)
    ensures states[0].heap.lost <= states[m].heap.lost
    ensures states[m].heap.lost == states[0].heap.lost <==> forall i | 0 <= i < m :: !ShrinksAt(states, events, i)
  {
    if m > 0 {
      LostSoFar(states, events, m - 1);
      assert LosesRight(states, events, m - 1);
    }
  }

  /** From a heap that has lost no byte: its chunks still add up to its pages at the end of a run if and only
      if no block was freed into a smaller bin. */
  lemma RunConserves(states: seq<Kernel>, events: seq<Event>)
    requires IsRun(states, events) && Inv(states[0]) && states[0].heap.lost == 0
    ensures var h := states[|events|].heap;
            && Total(h.chunks) <= PAGE_SIZE * |h.owned|
            && (Total(h.chunks) == PAGE_SIZE * |h.owned| <==> NoneShrinks(states, events))
  {
    RunIsSafe(states, events, |events|);
    forall i | 0 <= i < |events|
      ensures LosesRight(states, events, i)
    {
      EveryStepLosesRight(states, events, i);
    }
    LostSoFar(states, events, |events|);
  }
}
