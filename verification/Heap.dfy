/** The state of the bin allocator (kernel/bin_alloc.c) as values: free lists threaded through the first
    word of each free node, and the chunks that the pages of the heap are cut into. */
module Heap {
  import opened Bits
  import opened Division
  import opened Entry
  import opened Bitmap
  import opened Mmu
  import opened AddressMap
  import opened PageAlloc

  const BIN_COUNT: nat := 7
  const LARGEST_BIN: nat := 0x800

  /** `g_bin_sizes`. */
  function BinSize(bin: nat): (size: nat)
    requires bin < BIN_COUNT
    ensures 0x20 <= size <= LARGEST_BIN
  {
    match bin
    case 0 => 0x20
    case 1 => 0x40
    case 2 => 0x80
    case 3 => 0x100
    case 4 => 0x200
    case 5 => 0x400
    case _ => 0x800
  }

  // ----- addresses in the direct map -----

  predicate Managed(va: u64) {
    DIRECT_MAP_BASE <= va < DIRECT_MAP_BASE + MAX_PHYS_SIZE
  }

  function FrameOfVa(va: u64): (f: nat)
    requires Managed(va)
    ensures f < FRAME_COUNT
  {
    (va - DIRECT_MAP_BASE) / PAGE_SIZE
  }

  function WordOfVa(va: u64): (w: nat)
    ensures w < ENTRIES
  {
    va % PAGE_SIZE / 8
  }

  /** The first word at `va`: `((chunk_node*)va)->next`. */
  function Load(mem: Memory, va: u64): u64
    requires Managed(va)
  {
    mem[FrameOfVa(va)][WordOfVa(va)]
  }

  function Store(mem: Memory, va: u64, v: u64): Memory
    requires Managed(va)
  {
    var f := FrameOfVa(va);
    mem[f := mem[f][WordOfVa(va) := v]]
  }

  /** The direct-map address of a word of physical memory. */
  function WordAddress(f: nat, w: nat): nat {
    DIRECT_MAP_BASE + f * PAGE_SIZE + w * 8
  }

  lemma Decompose(a: u64)
    requires Managed(a)
    ensures a == DIRECT_MAP_BASE + FrameOfVa(a) * PAGE_SIZE + a % PAGE_SIZE
  {
  }

  lemma WordOfMultiple(va: nat)
    requires va % 8 == 0
    ensures va % PAGE_SIZE / 8 * 8 == va % PAGE_SIZE
  {
    DivideTwice(va, 8, 512);
    MultipleHasNoRemainder(va / 8 % 512, 8);
  }

  lemma AddressOfWord(va: u64)
    requires Managed(va) && va % 8 == 0
    ensures WordAddress(FrameOfVa(va), WordOfVa(va)) == va
  {
    Decompose(va);
    WordOfMultiple(va);
  }

  /** `mem'` differs from `mem` at most in words that begin in `[lo, hi)`. */
  ghost predicate ChangedOnlyIn(mem: Memory, mem': Memory, lo: nat, hi: nat) {
    forall f, w | 0 <= f < FRAME_SPACE && 0 <= w < ENTRIES && !(lo <= WordAddress(f, w) < hi) ::
      mem'[f][w] == mem[f][w]
  }

  lemma StoreChangesOnly(mem: Memory, va: u64, v: u64)
    requires Managed(va) && va % 8 == 0
    ensures ChangedOnlyIn(mem, Store(mem, va, v), va, va + 8)
    ensures Load(Store(mem, va, v), va) == v
  {
    AddressOfWord(va);
  }

  // ----- chunks -----

  type BinIndex = bin: nat | bin < BIN_COUNT

  /** A chunk of a heap page: a node on the free list of a bin, or a block handed out for a request of
      `n` bytes with `size` bytes of room. */
  datatype Chunk = FreeNode(bin: BinIndex) | Live(n: u64, size: nat)

  function SizeOf(c: Chunk): nat {
    match c
    case FreeNode(bin) => BinSize(bin)
    case Live(_, size) => size
  }

  /** Room that a chunk can have: one bin, or whole pages. */
  predicate IsRoom(size: nat) {
    (exists bin: nat :: bin < BIN_COUNT && size == BinSize(bin)) || (size > 0 && size % PAGE_SIZE == 0)
  }

  /** Chunks are aligned to their size, or to a page if they are larger. */
  function Grain(size: nat): nat {
    if size < PAGE_SIZE then size else PAGE_SIZE
  }

  ghost function Frames(va: u64, size: nat): set<nat>
    requires Managed(va)
  {
    if size < PAGE_SIZE then {FrameOfVa(va)} else Run(FrameOfVa(va), size / PAGE_SIZE)
  }

  /** `size` bytes at `va` form a proper chunk of the heap's pages. */
  ghost predicate Placed(va: u64, size: nat, pages: set<nat>) {
    && IsRoom(size) && Managed(va) && va % Grain(size) == 0
    && va + size <= DIRECT_MAP_BASE + MAX_PHYS_SIZE
    && Frames(va, size) <= pages
  }

  ghost predicate Apart(a: nat, sizeA: nat, b: nat, sizeB: nat) {
    a + sizeA <= b || b + sizeB <= a
  }

  type Chunks = map<u64, Chunk>

  ghost predicate ChunkOk(va: u64, c: Chunk, pages: set<nat>) {
    && (c.Live? ==> 0 < c.n <= c.size && (c.n > LARGEST_BIN ==> c.size == FramesFor(c.n) * PAGE_SIZE))
    && Placed(va, SizeOf(c), pages)
  }

  ghost predicate ChunksOk(chunks: Chunks, pages: set<nat>) {
    && (forall a | a in chunks :: ChunkOk(a, chunks[a], pages))
    && (forall a, b | a in chunks && b in chunks && a != b :: Apart(a, SizeOf(chunks[a]), b, SizeOf(chunks[b])))
  }

  // ----- free lists -----

  function Next(nodes: seq<u64>, k: nat): u64
    requires k < |nodes|
  {
    if k + 1 < |nodes| then nodes[k + 1] else 0
  }

  /** `head` begins the list of nodes `nodes`, linked through memory and ended by NULL. */
  ghost predicate Chain(mem: Memory, head: u64, nodes: seq<u64>) {
    && (forall k | 0 <= k < |nodes| :: Managed(nodes[k]) && nodes[k] % 8 == 0)
    && head == (if nodes == [] then 0 else nodes[0])
    && forall k | 0 <= k < |nodes| :: Load(mem, nodes[k]) == Next(nodes, k)
  }

  /** The nodes of a list are exactly the free chunks of its bin, each once: the list is acyclic. */
  ghost predicate Lists(chunks: Chunks, bin: BinIndex, nodes: seq<u64>) {
    && (forall j, k | 0 <= j < k < |nodes| :: nodes[j] != nodes[k])
    && (forall a :: a in nodes <==> a in chunks && chunks[a] == FreeNode(bin))
  }

  ghost predicate BinOk(mem: Memory, head: u64, nodes: seq<u64>, chunks: Chunks, bin: BinIndex) {
    Chain(mem, head, nodes) && Lists(chunks, bin, nodes)
  }

  ghost predicate HeapOk(mem: Memory, heads: seq<u64>, lists: seq<seq<u64>>, chunks: Chunks, pages: set<nat>) {
    && |heads| == BIN_COUNT && |lists| == BIN_COUNT
    && ChunksOk(chunks, pages)
    && forall bin | 0 <= bin < BIN_COUNT :: BinOk(mem, heads[bin], lists[bin], chunks, bin)
  }

  lemma ListSurvives(mem: Memory, mem': Memory, lo: u64, size: nat, head: u64, nodes: seq<u64>,
                     chunks: Chunks, pages: set<nat>, bin: nat)
    requires bin < BIN_COUNT && ChunksOk(chunks, pages) && BinOk(mem, head, nodes, chunks, bin)
    requires ChangedOnlyIn(mem, mem', lo, lo + size)
    requires forall a | a in chunks && chunks[a].FreeNode? :: Apart(a, SizeOf(chunks[a]), lo, size)
    ensures BinOk(mem', head, nodes, chunks, bin)
  {
    forall k | 0 <= k < |nodes|
      ensures Load(mem', nodes[k]) == Load(mem, nodes[k])
    {
      var a := nodes[k];
      assert a in nodes;
      AddressOfWord(a);
      assert Apart(a, SizeOf(chunks[a]), lo, size);
    }
  }

  /** A change to memory confined to a place clear of every free node keeps every list. */
  lemma ListsSurvive(mem: Memory, mem': Memory, lo: u64, size: nat, heads: seq<u64>, lists: seq<seq<u64>>,
                     chunks: Chunks, pages: set<nat>)
    requires HeapOk(mem, heads, lists, chunks, pages)
    requires ChangedOnlyIn(mem, mem', lo, lo + size)
    requires forall a | a in chunks && chunks[a].FreeNode? :: Apart(a, SizeOf(chunks[a]), lo, size)
    ensures HeapOk(mem', heads, lists, chunks, pages)
  {
    forall bin | 0 <= bin < BIN_COUNT
      ensures BinOk(mem', heads[bin], lists[bin], chunks, bin)
    {
      ListSurvives(mem, mem', lo, size, heads[bin], lists[bin], chunks, pages, bin);
    }
  }

  // ----- the four changes an operation makes -----

  /** `size` bytes at `va` belong to the heap and to no chunk. */
  ghost predicate Spare(chunks: Chunks, pages: set<nat>, va: u64, size: nat) {
    Placed(va, size, pages) && size > 0 &&
    forall a | a in chunks :: ChunkOk(a, chunks[a], pages) && Apart(a, SizeOf(chunks[a]), va, size)
  }

  lemma AddChunk(chunks: Chunks, pages: set<nat>, va: u64, c: Chunk)
    requires ChunksOk(chunks, pages) && ChunkOk(va, c, pages) && Spare(chunks, pages, va, SizeOf(c))
    ensures va !in chunks && ChunksOk(chunks[va := c], pages)
  {
  }

  lemma DropChunk(chunks: Chunks, pages: set<nat>, va: u64)
    requires ChunksOk(chunks, pages) && va in chunks
    ensures ChunksOk(chunks - {va}, pages) && Spare(chunks - {va}, pages, va, SizeOf(chunks[va]))
  {
  }

  lemma GrainIsWordMultiple(bin: nat, p: u64)
    requires bin < BIN_COUNT && p % BinSize(bin) == 0
    ensures p % 8 == 0
  {
    DivisorOfDivisor(p, 8, BinSize(bin) / 8);
  }

  lemma WiderChange(mem: Memory, mem': Memory, lo: u64, size: nat, larger: nat)
    requires size <= larger && ChangedOnlyIn(mem, mem', lo, lo + size)
    ensures ChangedOnlyIn(mem, mem', lo, lo + larger)
  {
  }

  lemma PushedList(mem: Memory, head: u64, nodes: seq<u64>, chunks: Chunks, bin: BinIndex, p: u64)
    requires BinOk(mem, head, nodes, chunks, bin) && p !in chunks
    requires Managed(p) && p % 8 == 0 && Load(mem, p) == head
    ensures BinOk(mem, p, [p] + nodes, chunks[p := FreeNode(bin)], bin)
  {
    var more, chunks' := [p] + nodes, chunks[p := FreeNode(bin)];
    assert p !in nodes;
    forall k | 0 <= k < |more|
      ensures Load(mem, more[k]) == Next(more, k)
    {
      if k > 0 {
        assert more[k] == nodes[k - 1];
        assert Load(mem, nodes[k - 1]) == Next(nodes, k - 1);
      }
    }
    forall a
      ensures a in more <==> a in chunks' && chunks'[a] == FreeNode(bin)
    {
      assert a in more <==> a == p || a in nodes;
    }
  }

  /** `push_node`. */
  lemma Push(mem: Memory, heads: seq<u64>, lists: seq<seq<u64>>, chunks: Chunks, pages: set<nat>, bin: nat, p: u64)
    requires bin < BIN_COUNT && HeapOk(mem, heads, lists, chunks, pages)
    requires Spare(chunks, pages, p, BinSize(bin))
    ensures HeapOk(Store(mem, p, heads[bin]), heads[bin := p], lists[bin := [p] + lists[bin]],
                   chunks[p := FreeNode(bin)], pages)
    ensures p % 8 == 0
  {
    GrainIsWordMultiple(bin, p);
    var mem', chunks' := Store(mem, p, heads[bin]), chunks[p := FreeNode(bin)];
    StoreChangesOnly(mem, p, heads[bin]);
    WiderChange(mem, mem', p, 8, BinSize(bin));
    AddChunk(chunks, pages, p, FreeNode(bin));
    ListsSurvive(mem, mem', p, BinSize(bin), heads, lists, chunks, pages);
    var heads', lists' := heads[bin := p], lists[bin := [p] + lists[bin]];
    forall b | 0 <= b < BIN_COUNT
      ensures BinOk(mem', heads'[b], lists'[b], chunks', b)
    {
      assert BinOk(mem', heads[b], lists[b], chunks, b);
      if b == bin {
        PushedList(mem', heads[b], lists[b], chunks, b, p);
      }
    }
  }

  lemma PoppedList(mem: Memory, p: u64, nodes: seq<u64>, chunks: Chunks, bin: BinIndex)
    requires nodes != [] && p == nodes[0] && Managed(p) && BinOk(mem, p, nodes, chunks, bin)
    ensures BinOk(mem, Load(mem, p), nodes[1..], chunks - {p}, bin)
  {
    var rest, chunks' := nodes[1..], chunks - {p};
    assert Load(mem, nodes[0]) == Next(nodes, 0);
    forall k | 0 <= k < |rest|
      ensures Load(mem, rest[k]) == Next(rest, k)
    {
      assert rest[k] == nodes[k + 1];
      assert Load(mem, nodes[k + 1]) == Next(nodes, k + 1);
    }
    forall a
      ensures a in rest <==> a in chunks' && chunks'[a] == FreeNode(bin)
    {
      if a in rest {
        var k :| 0 <= k < |rest| && rest[k] == a;
        assert nodes[k + 1] == a;
      }
      if a in nodes && a != p {
        var k :| 0 <= k < |nodes| && nodes[k] == a;
        assert rest[k - 1] == a;
      }
    }
  }

  /** `pop_node` on a list that is not empty. */
  lemma Pop(mem: Memory, heads: seq<u64>, lists: seq<seq<u64>>, chunks: Chunks, pages: set<nat>, bin: nat)
    requires bin < BIN_COUNT && HeapOk(mem, heads, lists, chunks, pages) && heads[bin] != 0
    ensures var p := heads[bin];
            && p in chunks && chunks[p] == FreeNode(bin) && Managed(p)
            && HeapOk(mem, heads[bin := Load(mem, p)], lists[bin := lists[bin][1..]], chunks - {p}, pages)
            && Spare(chunks - {p}, pages, p, BinSize(bin))
  {
    var p, nodes := heads[bin], lists[bin];
    assert BinOk(mem, p, nodes, chunks, bin);
    assert nodes != [] && p == nodes[0] && p in nodes;
    DropChunk(chunks, pages, p);
    var heads', lists', chunks' := heads[bin := Load(mem, p)], lists[bin := nodes[1..]], chunks - {p};
    forall b | 0 <= b < BIN_COUNT
      ensures BinOk(mem, heads'[b], lists'[b], chunks', b)
    {
      assert BinOk(mem, heads[b], lists[b], chunks, b);
      if b == bin {
        PoppedList(mem, p, nodes, chunks, bin);
      }
    }
  }

  /** A block is handed out. */
  lemma AddLive(mem: Memory, heads: seq<u64>, lists: seq<seq<u64>>, chunks: Chunks, pages: set<nat>, va: u64,
                n: u64, size: nat)
    requires HeapOk(mem, heads, lists, chunks, pages) && Spare(chunks, pages, va, size) && 0 < n <= size
    requires n > LARGEST_BIN ==> size == FramesFor(n) * PAGE_SIZE
    ensures HeapOk(mem, heads, lists, chunks[va := Live(n, size)], pages)
    ensures va !in chunks
  {
    AddChunk(chunks, pages, va, Live(n, size));
    forall b | 0 <= b < BIN_COUNT
      ensures BinOk(mem, heads[b], lists[b], chunks[va := Live(n, size)], b)
    {
      assert BinOk(mem, heads[b], lists[b], chunks, b);
    }
  }

  /** A block is taken back. */
  lemma DropLive(mem: Memory, heads: seq<u64>, lists: seq<seq<u64>>, chunks: Chunks, pages: set<nat>, va: u64)
    requires HeapOk(mem, heads, lists, chunks, pages) && va in chunks && chunks[va].Live?
    ensures HeapOk(mem, heads, lists, chunks - {va}, pages)
    ensures Spare(chunks - {va}, pages, va, chunks[va].size)
  {
    DropChunk(chunks, pages, va);
    forall b | 0 <= b < BIN_COUNT
      ensures BinOk(mem, heads[b], lists[b], chunks - {va}, b)
    {
      assert BinOk(mem, heads[b], lists[b], chunks, b);
    }
  }

  // ----- pages and parts of pages -----

  /** A run of managed frames is a proper place for a chunk. */
  lemma RunPlaced(va: u64, count: nat, pages: set<nat>)
    requires Managed(va) && va % PAGE_SIZE == 0 && count > 0 && FrameOfVa(va) + count <= FRAME_COUNT
    requires Run(FrameOfVa(va), count) <= pages
    ensures Placed(va, count * PAGE_SIZE, pages)
  {
    var size := count * PAGE_SIZE;
    assert size / PAGE_SIZE == count && size % PAGE_SIZE == 0;
    Decompose(va);
  }

  lemma NodesPerPage(bin: nat)
    requires bin < BIN_COUNT
    ensures var c := PAGE_SIZE / BinSize(bin);
            c > 0 && BinSize(bin) * c == PAGE_SIZE && (c - 1) * BinSize(bin) + BinSize(bin) == PAGE_SIZE
  {
  }

  /** A chunk of a bin does not cross the end of its page. */
  lemma WithinFrame(a: u64, size: nat)
    requires size < PAGE_SIZE && IsRoom(size) && a % size == 0
    ensures a % PAGE_SIZE + size <= PAGE_SIZE
  {
    var bin: nat :| bin < BIN_COUNT && size == BinSize(bin);
    NodesPerPage(bin);
    var c := PAGE_SIZE / size;
    DivideTwice(a, size, c);
    MulMonotone(a / size % c, c - 1, size);
  }

  /** Chunks in different frames are apart. */
  lemma DisjointFrames(a: u64, size: nat, va: u64, count: nat)
    requires Managed(a) && IsRoom(size) && a % Grain(size) == 0
    requires Managed(va) && va % PAGE_SIZE == 0 && count > 0
    requires Frames(a, size) !! Run(FrameOfVa(va), count)
    ensures Apart(a, size, va, count * PAGE_SIZE)
  {
    var f, g := FrameOfVa(a), FrameOfVa(va);
    Decompose(a);
    Decompose(va);
    if size < PAGE_SIZE {
      WithinFrame(a, size);
      assert f in Frames(a, size) && f !in Run(g, count);
    } else {
      var k := size / PAGE_SIZE;
      assert f in Run(f, k) && g in Run(g, count);
      assert f !in Run(g, count) && g !in Run(f, k);
      assert size == k * PAGE_SIZE;
    }
  }

  /** Whole pages the heap did not own before hold no chunk. */
  lemma FreshPages(mem: Memory, heads: seq<u64>, lists: seq<seq<u64>>, chunks: Chunks, pages: set<nat>, va: u64,
                   count: nat)
    requires HeapOk(mem, heads, lists, chunks, pages)
    requires Managed(va) && va % PAGE_SIZE == 0 && count > 0 && FrameOfVa(va) + count <= FRAME_COUNT
    requires Run(FrameOfVa(va), count) !! pages
    ensures HeapOk(mem, heads, lists, chunks, pages + Run(FrameOfVa(va), count))
    ensures Spare(chunks, pages + Run(FrameOfVa(va), count), va, count * PAGE_SIZE)
  {
    var more := pages + Run(FrameOfVa(va), count);
    forall a | a in chunks
      ensures ChunkOk(a, chunks[a], more) && Apart(a, SizeOf(chunks[a]), va, count * PAGE_SIZE)
    {
      assert ChunkOk(a, chunks[a], pages);
      DisjointFrames(a, SizeOf(chunks[a]), va, count);
    }
    RunPlaced(va, count, more);
  }

  /** The frame of a part is one of the frames of the whole. */
  lemma PartFrame(va: u64, size: nat, part: u64, room: nat)
    requires Managed(va) && Managed(part) && va <= part && part + room <= va + size && room > 0
    requires if size < PAGE_SIZE then va % PAGE_SIZE + size <= PAGE_SIZE
             else va % PAGE_SIZE == 0 && size % PAGE_SIZE == 0
    ensures if size < PAGE_SIZE then FrameOfVa(part) == FrameOfVa(va)
            else FrameOfVa(part) in Run(FrameOfVa(va), size / PAGE_SIZE)
  {
    Decompose(va);
    Decompose(part);
  }

  /** A properly placed part of a spare stretch is spare. */
  lemma PartOfSpare(chunks: Chunks, pages: set<nat>, va: u64, size: nat, part: u64, room: nat)
    requires Spare(chunks, pages, va, size)
    requires va <= part && part + room <= va + size
    requires IsRoom(room) && room < PAGE_SIZE && part % room == 0
    ensures Spare(chunks, pages, part, room)
  {
    WithinFrame(part, room);
    if size < PAGE_SIZE {
      WithinFrame(va, size);
    }
    PartFrame(va, size, part, room);
  }

  lemma ApartFrames(a: u64, size: nat, va: u64, whole: nat)
    requires Managed(a) && IsRoom(size) && a % Grain(size) == 0
    requires Managed(va) && va % PAGE_SIZE == 0 && whole >= PAGE_SIZE && whole % PAGE_SIZE == 0
    requires Apart(a, size, va, whole)
    ensures Frames(a, size) !! Run(FrameOfVa(va), whole / PAGE_SIZE)
  {
    Decompose(a);
    Decompose(va);
    var f, g, count := FrameOfVa(a), FrameOfVa(va), whole / PAGE_SIZE;
    if size < PAGE_SIZE {
      WithinFrame(a, size);
      assert f < g || g + count <= f;
    } else {
      assert f + size / PAGE_SIZE <= g || g + count <= f;
    }
  }

  /** Pages that no chunk uses can be given up. */
  lemma GiveUpPages(mem: Memory, heads: seq<u64>, lists: seq<seq<u64>>, chunks: Chunks, pages: set<nat>, va: u64,
                    size: nat)
    requires HeapOk(mem, heads, lists, chunks, pages) && Spare(chunks, pages, va, size) && size >= PAGE_SIZE
    ensures HeapOk(mem, heads, lists, chunks, pages - Run(FrameOfVa(va), size / PAGE_SIZE))
  {
    var fewer := pages - Run(FrameOfVa(va), size / PAGE_SIZE);
    forall a | a in chunks
      ensures ChunkOk(a, chunks[a], fewer)
    {
      ApartFrames(a, SizeOf(chunks[a]), va, size);
    }
  }

  lemma PageDivides(p: u64, bin: nat)
    requires bin < BIN_COUNT && p % PAGE_SIZE == 0
    ensures p % BinSize(bin) == 0
  {
    NodesPerPage(bin);
    DivisorOfDivisor(p, BinSize(bin), PAGE_SIZE / BinSize(bin));
  }

  lemma BinDivides(p: u64, larger: nat, bin: nat)
    requires larger < BIN_COUNT && bin < BIN_COUNT && p % BinSize(larger) == 0
    requires BinSize(bin) <= BinSize(larger) || bin <= larger
    ensures p % BinSize(bin) == 0 && BinSize(bin) <= BinSize(larger)
  {
    DivisorOfDivisor(p, BinSize(bin), BinSize(larger) / BinSize(bin));
  }

  /** Freeing by request size: the least bin for `n` is no larger than the block, and its alignment suits. */
  lemma BinFitsBlock(p: u64, n: nat, size: nat, bin: nat)
    requires bin < BIN_COUNT && 0 < n <= size && n <= BinSize(bin)
    requires forall b: nat :: b < bin ==> BinSize(b) < n
    requires IsRoom(size) && p % Grain(size) == 0
    ensures BinSize(bin) <= size && p % BinSize(bin) == 0
  {
    if size < PAGE_SIZE {
      var c: nat :| c < BIN_COUNT && size == BinSize(c);
      BinDivides(p, c, bin);
    } else {
      PageDivides(p, bin);
    }
  }

  // ----- counting bytes -----

  /** Bytes in all chunks. */
  ghost function Total(chunks: Chunks): nat {
    if chunks == map[] then 0
    else
      var a :| a in chunks;
      SizeOf(chunks[a]) + Total(chunks - {a})
  }

  lemma {:induction false} TotalWithout(chunks: Chunks, a: u64)
    requires a in chunks
    ensures Total(chunks) == SizeOf(chunks[a]) + Total(chunks - {a})
  {
    var b :| b in chunks && Total(chunks) == SizeOf(chunks[b]) + Total(chunks - {b});
    if a != b {
      TotalWithout(chunks - {b}, a);
      TotalWithout(chunks - {a}, b);
      assert chunks - {b} - {a} == chunks - {a} - {b};
    }
  }

  lemma TotalWith(chunks: Chunks, a: u64, c: Chunk)
    requires a !in chunks
    ensures Total(chunks[a := c]) == Total(chunks) + SizeOf(c)
  {
    TotalWithout(chunks[a := c], a);
    assert chunks[a := c] - {a} == chunks;
  }

  // ----- the heap over the frame allocator -----

  /** The heap, the memory it threads its lists through, and the free frames it grows into. `owned` are
      the frames of its pages; `lost` counts bytes of blocks that were freed to a smaller bin. */
  datatype State = State(mem: Memory, heads: seq<u64>, lists: seq<seq<u64>>, chunks: Chunks, owned: set<nat>,
                         lost: nat, free: set<nat>, frameEnd: nat)

  ghost predicate Sound(h: State) {
    HeapOk(h.mem, h.heads, h.lists, h.chunks, h.owned) && Balanced(h)
  }

  /** The heap's frames are used frames, and every byte of them is in a chunk or counted as lost. */
  ghost predicate Balanced(h: State) {
    && h.owned !! h.free && h.frameEnd <= FRAME_COUNT
    && (forall f | f in h.owned :: 0 < f < h.frameEnd)
    && (forall f | f in h.free :: f < h.frameEnd)
    && Total(h.chunks) + h.lost == PAGE_SIZE * |h.owned|
  }

  /** The blocks that are handed out. */
  ghost function Blocks(chunks: Chunks): Chunks {
    map a | a in chunks && chunks[a].Live? :: chunks[a]
  }

  /** The heap took frames (none, one, or a run) from the allocator; only they have changed in memory. */
  ghost predicate Grew(h: State, h': State) {
    && h'.free <= h.free && 0 !in h.free - h'.free
    && h'.owned == h.owned + (h.free - h'.free)
    && h'.frameEnd == h.frameEnd && h'.lost == h.lost
    && forall f | 0 <= f < FRAME_SPACE && f !in h.free - h'.free :: h'.mem[f] == h.mem[f]
  }

  /** `bin` is the least bin whose size is at least `need`. */
  ghost predicate IsBinFor(need: nat, bin: nat) {
    bin < BIN_COUNT && need <= BinSize(bin) && forall b: nat :: b < bin ==> BinSize(b) < need
  }

  /** Frames of alignment that the page route of `kmalloc` asks for. */
  ghost function RouteAlign(align: u64): (frames: u64)
    ensures frames > 0
  {
    if align > PAGE_SIZE then AtLeastOne(AlignFrames(align)) else 1
  }

  /** The size that `kmalloc` looks for. */
  function Need(n: nat, align: nat): nat {
    if n > align then n else align
  }

  /** A request that some bin can serve. */
  ghost predicate Small(n: nat, align: nat) { n <= 0x800 && align <= 0x800 }

  /** `bin` is the least bin whose blocks are neither smaller than the request nor than its alignment. */
  ghost predicate IsBinOf(n: nat, align: nat, bin: nat) {
    bin < BIN_COUNT && n <= BinSize(bin) && align <= BinSize(bin) &&
    forall b: nat :: b < bin ==> BinSize(b) < n || BinSize(b) < align
  }

  lemma NeedIsBoth(n: nat, align: nat, bin: nat)
    ensures Need(n, align) <= LARGEST_BIN <==> Small(n, align)
    ensures IsBinFor(Need(n, align), bin) <==> IsBinOf(n, align, bin)
  {
  }

  /** When `kmalloc` has nothing to give: the bin is empty and no frame is free, or no run fits. */
  ghost predicate NoRoom(h: State, n: u64, align: u64) {
    n == 0 ||
    if Small(n, align) then
      h.free <= {0} && exists bin: nat :: IsBinOf(n, align, bin) && bin < |h.heads| && h.heads[bin] == 0
    else NoFit(h.free, 1, h.frameEnd, FramesFor(n), RouteAlign(align))
  }

  /** `kmalloc(n, align)` has returned `ptr`. */
  ghost predicate Allocates(h: State, n: u64, align: u64, ptr: u64, h': State) {
    && Sound(h') && Grew(h, h')
    && if ptr == 0 then NoRoom(h, n, align) && Blocks(h'.chunks) == Blocks(h.chunks)
       else
         && 0 < n && ptr !in Blocks(h.chunks) && ptr in h'.chunks
         && h'.chunks[ptr].Live? && h'.chunks[ptr].n == n
         && Blocks(h'.chunks) == Blocks(h.chunks)[ptr := h'.chunks[ptr]]
  }

  ghost predicate LeastFree(free: set<nat>, f: nat) {
    f > 0 && f in free && forall g | g in free && g > 0 :: f <= g
  }

  /** The least free frame but frame 0 has been taken, and `ptr` is its last `size` bytes. */
  ghost predicate TookOne(free: set<nat>, free': set<nat>, size: nat, ptr: u64) {
    exists f: nat | LeastFree(free, f) :: free' == free - {f} && ptr == DIRECT_MAP_BASE + f * 4096 + (4096 - size)
  }

  /** Which block `kmalloc(n, align)` hands out: the head of the list of the least bin that is large enough,
      taking a frame only if that list is empty, or the first aligned run that fits. */
  ghost predicate Chosen(h: State, n: u64, align: u64, ptr: u64, h': State)
    requires ptr in h'.chunks
  {
    if Small(n, align) then
      exists bin: nat :: IsBinOf(n, align, bin) && SizeOf(h'.chunks[ptr]) == BinSize(bin) && bin < |h.heads| &&
                         (if h.heads[bin] == 0 then TookOne(h.free, h'.free, BinSize(bin), ptr)
                          else ptr == h.heads[bin] && h'.free == h.free && h'.mem == h.mem)
    else
      && Managed(ptr) && ptr % PAGE_SIZE == 0
      && FirstFit(h.free, 1, h.frameEnd, FramesFor(n), RouteAlign(align), FrameOfVa(ptr))
      && h'.free == h.free - Run(FrameOfVa(ptr), FramesFor(n)) && SizeOf(h'.chunks[ptr]) == FramesFor(n) * PAGE_SIZE
  }

  lemma LeastBin(need: nat, bin: nat)
    requires IsBinFor(need, bin)
    ensures forall b: nat :: IsBinFor(need, b) ==> b == bin
  {
  }

  lemma LeastBinOf(n: nat, align: nat, bin: nat)
    requires IsBinOf(n, align, bin)
    ensures forall b: nat :: IsBinOf(n, align, b) ==> b == bin
  {
  }

  /** NULL is returned only for want of room, and never a block when there is none. */
  lemma NullIffNoRoom(h: State, n: u64, align: u64, ptr: u64, h': State)
    requires Allocates(h, n, align, ptr, h') && (ptr != 0 ==> Chosen(h, n, align, ptr, h'))
    ensures ptr == 0 <==> NoRoom(h, n, align)
  {
    if ptr != 0 && Small(n, align) {
      var bin: nat :| IsBinOf(n, align, bin) && bin < |h.heads| &&
                      (if h.heads[bin] == 0 then TookOne(h.free, h'.free, BinSize(bin), ptr) else ptr == h.heads[bin]);
      LeastBinOf(n, align, bin);
    } else if ptr != 0 {
      assert Candidate(h.free, 1, h.frameEnd, FramesFor(n), RouteAlign(align), FrameOfVa(ptr));
    }
  }

  /** `p` was handed out for `n` bytes and is still out. */
  ghost predicate IsBlock(h: State, p: u64, n: u64) {
    p in h.chunks && h.chunks[p].Live? && h.chunks[p].n == n
  }

  /** `kfree(p, n)` of a block: it is out no longer. A large block gives its frames back; a small one
      becomes a node of the bin for `n`, and what it had beyond that bin's size is lost. */
  ghost predicate Frees(h: State, p: u64, n: u64, h': State)
    requires IsBlock(h, p, n) && Managed(p)
  {
    && Sound(h') && h'.frameEnd == h.frameEnd
    && Blocks(h'.chunks) == Blocks(h.chunks) - {p}
    && ChangedOnlyIn(h.mem, h'.mem, p, p + h.chunks[p].size)
    && if n <= 0x800 then
         && h'.free == h.free && h'.owned == h.owned
         && p in h'.chunks && h'.chunks[p].FreeNode? && IsBinFor(n, h'.chunks[p].bin)
         && h'.lost == h.lost + h.chunks[p].size - SizeOf(h'.chunks[p])
       else
         && p !in h'.chunks && h'.lost == h.lost
         && h'.free == h.free + Run(FrameOfVa(p), FramesFor(n))
         && h'.owned == h.owned - Run(FrameOfVa(p), FramesFor(n))
  }

  /** `kmalloc(1, 0x40)` takes a block of 0x40 bytes; `kfree(p, 1)` makes a node of 0x20 bytes of it. */
  lemma HalfOfBlockLost(h0: State, p: u64, h: State, h': State)
    requires p in h.chunks && Chosen(h0, 1, 0x40, p, h)
    requires IsBlock(h, p, 1) && Managed(p) && Frees(h, p, 1, h')
    ensures SizeOf(h.chunks[p]) == 0x40 && SizeOf(h'.chunks[p]) == 0x20 && h'.lost == h.lost + 0x20
  {
    assert IsBinOf(1, 0x40, 1) && IsBinFor(1, 0);
    LeastBinOf(1, 0x40, 1);
    LeastBin(1, 0);
  }
}
