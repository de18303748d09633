/** What filling the image writes (bootloader/kernel_loader.c:166-191). The loader stores through the pointer
    `p_paddr`, and by then the new mappings are in force: a byte goes where the tables send its physical address. */
module ImageFill {
  import opened Bits
  import opened Division
  import opened Entry
  import opened Mmu
  import opened BootTree
  import opened Mapper
  import opened Bytes
  import opened ElfFile
  import opened Segments
  import opened SegmentMap
  import opened Wrappers

  // ----- where a store goes -----

  /** Where the first `i` segments send the address `x`, if it was mapped to itself before. */
  function Target(phdrs: seq<Phdr>, i: nat, x: u64): nat
    requires AllFit(phdrs) && i <= |phdrs|
  {
    if i == 0 then x
    else if phdrs[i - 1].Loadable() && PageIndex(PageDown(phdrs[i - 1].vaddr), x) < phdrs[i - 1].Pages() then
      TargetPage(phdrs[i - 1], x) + x % PAGE_SIZE
    else Target(phdrs, i - 1, x)
  }

  lemma {:induction false} TargetUntouched(phdrs: seq<Phdr>, i: nat, x: u64)
    requires AllFit(phdrs) && i <= |phdrs| && !TouchedBefore(phdrs, i, x)
    ensures Target(phdrs, i, x) == x
  {
    if i > 0 {
      if phdrs[i - 1].Loadable() {
        TouchesIff(phdrs[i - 1], x);
      }
      TargetUntouched(phdrs, i - 1, x);
    }
  }

  lemma {:induction false} TargetTouched(phdrs: seq<Phdr>, i: nat, s: nat, x: u64)
    requires AllFit(phdrs) && s < i <= |phdrs| && phdrs[s].Loadable() && phdrs[s].Touches(x) && PagesApart(phdrs, i)
    ensures Target(phdrs, i, x) == TargetPage(phdrs[s], x) + x % PAGE_SIZE
  {
    if phdrs[i - 1].Loadable() {
      TouchesIff(phdrs[i - 1], x);
    }
    if s < i - 1 {
      if phdrs[i - 1].Loadable() {
        assert Apart(phdrs[s], phdrs[i - 1]);
      }
      TargetTouched(phdrs, i - 1, s, x);
    }
  }

  lemma {:induction false} WhoTouches(phdrs: seq<Phdr>, i: nat, x: u64) returns (s: nat)
    requires AllFit(phdrs) && i <= |phdrs| && TouchedBefore(phdrs, i, x)
    ensures s < i && phdrs[s].Loadable() && phdrs[s].Touches(x)
  {
    if phdrs[i - 1].Loadable() && phdrs[i - 1].Touches(x) {
      s := i - 1;
    } else {
      s := WhoTouches(phdrs, i - 1, x);
    }
  }

  /** With the segments mapped, an address that was mapped to itself goes to its target. */
  lemma StoreGoesToTarget(b0: Boot, b: Boot, phdrs: seq<Phdr>, x: u64)
    requires AllFit(phdrs) && ImageMapped(b0, b, phdrs, |phdrs|) && b0.Itself(x)
    ensures b.Walk(x).Mapped? && b.Walk(x).pa == Target(phdrs, |phdrs|, x)
  {
    if TouchedBefore(phdrs, |phdrs|, x) {
      var s := WhoTouches(phdrs, |phdrs|, x);
      TargetTouched(phdrs, |phdrs|, s, x);
      TouchesIff(phdrs[s], x);
      PageBounds(phdrs[s], PageIndex(PageDown(phdrs[s].vaddr), x));
      assert PageInPlace(b, phdrs[s], x);
      LeafForFields(TargetPage(phdrs[s], x), phdrs[s].TempAttr());
    } else {
      TargetUntouched(phdrs, |phdrs|, x);
    }
  }

  /** `x` is a physical address of a byte of some non-empty segment. */
  predicate InSegment(phdrs: seq<Phdr>, s: nat, x: nat) {
    s < |phdrs| && phdrs[s].Loadable() && phdrs[s].paddr <= x < phdrs[s].paddr + phdrs[s].memsz
  }

  /** No non-empty segment sends the address of a byte of the image elsewhere: if one is mapped over such an
      address at all, it is mapped to the same address. A condition on the program headers alone. */
  ghost predicate Spares(phdrs: seq<Phdr>)
    requires AllFit(phdrs)
  {
    forall s: nat, x: u64 | InSegment(phdrs, s, x) :: Target(phdrs, |phdrs|, x) == x
  }

  /** The pointer `p_paddr + k` still is that address, for every byte of the image. */
  ghost predicate StoresLand(b: Boot, phdrs: seq<Phdr>) {
    forall s: nat, x: u64 | InSegment(phdrs, s, x) :: b.Itself(x)
  }

  /** After mapping, every store of the loader lands at its own physical address if and only if the headers
      spare those addresses. */
  lemma StoresLandIffSpared(b0: Boot, b: Boot, phdrs: seq<Phdr>)
    requires AllFit(phdrs) && ImageMapped(b0, b, phdrs, |phdrs|) && StoresLand(b0, phdrs)
    ensures StoresLand(b, phdrs) <==> Spares(phdrs)
  {
    forall s: nat, x: u64 | InSegment(phdrs, s, x)
      ensures b.Itself(x) <==> Target(phdrs, |phdrs|, x) == x
    {
      assert b0.Itself(x);
      StoreGoesToTarget(b0, b, phdrs, x);
    }
  }

  // ----- what memory holds afterwards -----

  /** What the loader stores for a byte: a byte of the file, or zero. */
  datatype Source = FromFile(at: nat) | Zero

  function SourceOf(p: Phdr, k: nat): Source {
    if k < p.filesz then FromFile(p.offset + k) else Zero
  }

  function Value(data: seq<u8>, source: Source): u8 {
    match source
    case FromFile(at) => if at < |data| then data[at] else 0
    case Zero => 0
  }

  predicate FileHoldsFirst(phdrs: seq<Phdr>, i: nat, data: seq<u8>) {
    i <= |phdrs| &&
    forall s | 0 <= s < i && phdrs[s].Loadable() && phdrs[s].filesz > 0 :: phdrs[s].offset + phdrs[s].filesz <= |data|
  }

  /** The file has the bytes that the program headers ask for. */
  predicate FileHolds(phdrs: seq<Phdr>, data: seq<u8>) { FileHoldsFirst(phdrs, |phdrs|, data) }

  lemma FileHoldsNext(phdrs: seq<Phdr>, i: nat, data: seq<u8>)
    requires i < |phdrs| && FileHoldsFirst(phdrs, i, data)
    requires phdrs[i].Loadable() && phdrs[i].filesz > 0 ==> phdrs[i].offset + phdrs[i].filesz <= |data|
    ensures FileHoldsFirst(phdrs, i + 1, data)
  {
  }

  /** Memory after `k` bytes of the segment have been stored. */
  ghost function Stored(phdrs: seq<Phdr>, data: seq<u8>, p: Phdr, k: nat, mem: Memory): Memory
    requires AllFit(phdrs) && p.paddr + k <= TWO_64
  {
    if k == 0 then mem
    else
      StoreTo(Stored(phdrs, data, p, k - 1, mem), Target(phdrs, |phdrs|, p.paddr + k - 1),
              Value(data, SourceOf(p, k - 1)))
  }

  /** Memory after the first `i` segments have been filled. */
  ghost function FillImage(phdrs: seq<Phdr>, data: seq<u8>, mem: Memory, i: nat): Memory
    requires AllFit(phdrs) && i <= |phdrs|
  {
    if i == 0 then mem
    else if phdrs[i - 1].Loadable() then
      Stored(phdrs, data, phdrs[i - 1], phdrs[i - 1].memsz, FillImage(phdrs, data, mem, i - 1))
    else FillImage(phdrs, data, mem, i - 1)
  }

  /** Where the stores for the bytes of a segment go. */
  ghost function Targets(phdrs: seq<Phdr>, p: Phdr): (targets: seq<nat>)
    requires AllFit(phdrs) && p.paddr + p.memsz <= TWO_64
    ensures |targets| == p.memsz && forall i | 0 <= i < p.memsz :: targets[i] == Target(phdrs, |phdrs|, p.paddr + i)
  {
    seq<nat>(p.memsz, i requires 0 <= i < p.memsz => Target(phdrs, |phdrs|, p.paddr + i))
  }

  /** Storing the right bytes at the addresses from byte `k` on fills the segment so much further. */
  lemma {:induction false} StoredByLog(phdrs: seq<Phdr>, data: seq<u8>, p: Phdr, k: nat, content: seq<u8>, mem: Memory)
    requires AllFit(phdrs) && p.paddr + p.memsz <= TWO_64 && k + |content| <= p.memsz
    requires forall i | 0 <= i < |content| :: content[i] == Value(data, SourceOf(p, k + i))
    ensures Apply(Stored(phdrs, data, p, k, mem), Log(Targets(phdrs, p), k, content)) ==
            Stored(phdrs, data, p, k + |content|, mem)
    decreases |content|
  {
    if content != [] {
      var n := |content| - 1;
      var front, targets := content[..n], Targets(phdrs, p);
      StoredByLog(phdrs, data, p, k, front, mem);
      ApplyOne(Stored(phdrs, data, p, k, mem), Log(targets, k, front), Store(targets[k + n], content[n]));
    }
  }

  /** What the physical address `y` has last been given, after `k` bytes of the segment. */
  ghost function ArrivedFrom(phdrs: seq<Phdr>, p: Phdr, k: nat, y: nat, before: Option<Source>): Option<Source>
    requires AllFit(phdrs) && p.paddr + k <= TWO_64
  {
    if k == 0 then before
    else if Target(phdrs, |phdrs|, p.paddr + k - 1) == y then Some(SourceOf(p, k - 1))
    else ArrivedFrom(phdrs, p, k - 1, y, before)
  }

  /** And after the first `i` segments: a matter of the program headers alone. */
  ghost function Arrived(phdrs: seq<Phdr>, i: nat, y: nat): Option<Source>
    requires AllFit(phdrs) && i <= |phdrs|
  {
    if i == 0 then None
    else if phdrs[i - 1].Loadable() then
      ArrivedFrom(phdrs, phdrs[i - 1], phdrs[i - 1].memsz, y, Arrived(phdrs, i - 1, y))
    else Arrived(phdrs, i - 1, y)
  }

  ghost predicate Shows(data: seq<u8>, mem0: Memory, mem: Memory, y: nat, source: Option<Source>)
    requires y < PHYS_LIMIT
  {
    ByteAt(mem, y) == if source.None? then ByteAt(mem0, y) else Value(data, source.value)
  }

  lemma {:induction false} StoredShows(phdrs: seq<Phdr>, data: seq<u8>, p: Phdr, k: nat, mem0: Memory, mem: Memory,
                                       y: nat, before: Option<Source>)
    requires AllFit(phdrs) && p.paddr + k <= TWO_64 && y < PHYS_LIMIT && Shows(data, mem0, mem, y, before)
    ensures Shows(data, mem0, Stored(phdrs, data, p, k, mem), y, ArrivedFrom(phdrs, p, k, y, before))
  {
    if k > 0 {
      StoredShows(phdrs, data, p, k - 1, mem0, mem, y, before);
      var t := Target(phdrs, |phdrs|, p.paddr + k - 1);
      if t < PHYS_LIMIT {
        ByteOfWithByte(Stored(phdrs, data, p, k - 1, mem), t, Value(data, SourceOf(p, k - 1)), y);
      }
    }
  }

  /** The filled memory shows at every address what arrived there last. */
  lemma {:induction false} FilledShows(phdrs: seq<Phdr>, data: seq<u8>, mem: Memory, i: nat, y: nat)
    requires AllFit(phdrs) && i <= |phdrs| && y < PHYS_LIMIT
    ensures Shows(data, mem, FillImage(phdrs, data, mem, i), y, Arrived(phdrs, i, y))
  {
    if i > 0 {
      FilledShows(phdrs, data, mem, i - 1, y);
      if phdrs[i - 1].Loadable() {
        StoredShows(phdrs, data, phdrs[i - 1], phdrs[i - 1].memsz, mem, FillImage(phdrs, data, mem, i - 1), y,
                    Arrived(phdrs, i - 1, y));
      }
    }
  }

  // ----- when the image comes out right -----

  /** The byte of the segment at `x` is the one the file and the program header give it. */
  predicate ByteRight(data: seq<u8>, mem: Memory, p: Phdr, x: nat)
    requires p.paddr <= x < PHYS_LIMIT
  {
    ByteAt(mem, x) == Value(data, SourceOf(p, x - p.paddr))
  }

  ghost predicate ImageRight(phdrs: seq<Phdr>, data: seq<u8>, mem: Memory)
    requires AllFit(phdrs)
  {
    forall s: nat, x: u64 | InSegment(phdrs, s, x) :: ByteRight(data, mem, phdrs[s], x)
  }

  /** At every byte of the image the last store to arrive is the one for that byte, or one that carries the same
      byte of the file, or also a zero. */
  ghost predicate EveryByteArrives(phdrs: seq<Phdr>)
    requires AllFit(phdrs)
  {
    forall s: nat, x: u64 | InSegment(phdrs, s, x) ::
      Arrived(phdrs, |phdrs|, x) == Some(SourceOf(phdrs[s], x - phdrs[s].paddr))
  }

  /** For every file and whatever the frames held before. */
  ghost predicate AlwaysRight(phdrs: seq<Phdr>)
    requires AllFit(phdrs)
  {
    forall data: seq<u8>, mem: Memory | FileHolds(phdrs, data) ::
      ImageRight(phdrs, data, FillImage(phdrs, data, mem, |phdrs|))
  }

  lemma ArrivesRight(phdrs: seq<Phdr>, data: seq<u8>, mem: Memory)
    requires AllFit(phdrs) && EveryByteArrives(phdrs)
    ensures ImageRight(phdrs, data, FillImage(phdrs, data, mem, |phdrs|))
  {
    forall s: nat, x: u64 | InSegment(phdrs, s, x)
      ensures ByteRight(data, FillImage(phdrs, data, mem, |phdrs|), phdrs[s], x)
    {
      FilledShows(phdrs, data, mem, |phdrs|, x);
    }
  }

  /** A file long enough for all segments, zero but for one byte. */
  function Length(phdrs: seq<Phdr>, i: nat): nat
    requires i <= |phdrs|
  {
    if i == 0 then 0 else Length(phdrs, i - 1) + phdrs[i - 1].offset + phdrs[i - 1].filesz
  }

  lemma {:induction false} LongEnough(phdrs: seq<Phdr>, i: nat, s: nat)
    requires s < i <= |phdrs|
    ensures phdrs[s].offset + phdrs[s].filesz <= Length(phdrs, i)
  {
    if s < i - 1 {
      LongEnough(phdrs, i - 1, s);
    }
  }

  function OneByteFile(n: nat, at: nat): seq<u8> { seq(n, j => if j == at then 1 else 0) }

  lemma OneByteFileHolds(phdrs: seq<Phdr>, n: nat, at: nat)
    requires n >= Length(phdrs, |phdrs|)
    ensures FileHolds(phdrs, OneByteFile(n, at))
  {
    forall s | 0 <= s < |phdrs| && phdrs[s].Loadable() && phdrs[s].filesz > 0
      ensures phdrs[s].offset + phdrs[s].filesz <= n
    {
      LongEnough(phdrs, |phdrs|, s);
    }
  }

  function EmptyMemory(): Memory { seq<Page>(FRAME_SPACE, _ => ZeroPage()) }

  /** If something else arrives, some file shows the difference; if nothing does, the old contents do. */
  lemma SomeFileWrong(phdrs: seq<Phdr>, s: nat, x: u64)
    requires AllFit(phdrs) && InSegment(phdrs, s, x)
    requires Arrived(phdrs, |phdrs|, x) != Some(SourceOf(phdrs[s], x - phdrs[s].paddr))
    ensures !AlwaysRight(phdrs)
  {
    var own, last := SourceOf(phdrs[s], x - phdrs[s].paddr), Arrived(phdrs, |phdrs|, x);
    var at := if own.FromFile? then own.at else if last.Some? && last.value.FromFile? then last.value.at else 0;
    var n := Length(phdrs, |phdrs|) + at + 1;
    var data := OneByteFile(n, at);
    var mem := if last.None? && own.Zero? then WithByte(EmptyMemory(), x, 1) else WithByte(EmptyMemory(), x, 0);
    ByteOfWithByte(EmptyMemory(), x, if last.None? && own.Zero? then 1 else 0, x);
    OneByteFileHolds(phdrs, n, at);
    FilledShows(phdrs, data, mem, |phdrs|, x);
    assert !ByteRight(data, FillImage(phdrs, data, mem, |phdrs|), phdrs[s], x);
  }

  /** The load comes out right, for every file and whatever memory held before, if and only if the byte that
      arrives last is everywhere the one that belongs there: a condition on the program headers alone. */
  lemma RightIffArrives(phdrs: seq<Phdr>)
    requires AllFit(phdrs)
    ensures AlwaysRight(phdrs) <==> EveryByteArrives(phdrs)
  {
    if EveryByteArrives(phdrs) {
      forall data: seq<u8>, mem: Memory | FileHolds(phdrs, data)
        ensures ImageRight(phdrs, data, FillImage(phdrs, data, mem, |phdrs|))
      {
        ArrivesRight(phdrs, data, mem);
      }
    } else {
      var s: nat, x: u64 :| InSegment(phdrs, s, x) &&
                            Arrived(phdrs, |phdrs|, x) != Some(SourceOf(phdrs[s], x - phdrs[s].paddr));
      SomeFileWrong(phdrs, s, x);
    }
  }

  // ----- headers that spare the image -----

  predicate BytesApart(p: Phdr, q: Phdr) {
    p.paddr + p.memsz <= q.paddr || q.paddr + q.memsz <= p.paddr
  }

  /** No two segments share a byte of physical memory. */
  ghost predicate PhysApart(phdrs: seq<Phdr>) {
    forall s, t | 0 <= s < |phdrs| && 0 <= t < |phdrs| && s != t && phdrs[s].Loadable() && phdrs[t].Loadable() ::
      BytesApart(phdrs[s], phdrs[t])
  }

  /** The last of several stores to an address is the one that counts. */
  lemma {:induction false} LastStoreCounts(phdrs: seq<Phdr>, p: Phdr, k: nat, y: nat, before: Option<Source>, j: nat)
    requires AllFit(phdrs) && p.paddr + k <= TWO_64 && j < k && Target(phdrs, |phdrs|, p.paddr + j) == y
    requires forall m: u64 | p.paddr + j < m < p.paddr + k :: Target(phdrs, |phdrs|, m) != y
    ensures ArrivedFrom(phdrs, p, k, y, before) == Some(SourceOf(p, j))
  {
    if j < k - 1 {
      assert Target(phdrs, |phdrs|, p.paddr + k - 1) != y;
      LastStoreCounts(phdrs, p, k - 1, y, before, j);
    }
  }

  lemma {:induction false} NoStoreCounts(phdrs: seq<Phdr>, p: Phdr, k: nat, y: nat, before: Option<Source>)
    requires AllFit(phdrs) && p.paddr + k <= TWO_64
    requires forall m: u64 | p.paddr <= m < p.paddr + k :: Target(phdrs, |phdrs|, m) != y
    ensures ArrivedFrom(phdrs, p, k, y, before) == before
  {
    if k > 0 {
      assert Target(phdrs, |phdrs|, p.paddr + k - 1) != y;
      NoStoreCounts(phdrs, p, k - 1, y, before);
    }
  }

  lemma {:induction false} SparedByteArrives(phdrs: seq<Phdr>, i: nat, s: nat, x: u64)
    requires AllFit(phdrs) && PhysApart(phdrs) && Spares(phdrs) && InSegment(phdrs, s, x) && s < i <= |phdrs|
    ensures Arrived(phdrs, i, x) == Some(SourceOf(phdrs[s], x - phdrs[s].paddr))
  {
    var q := phdrs[i - 1];
    if q.Loadable() {
      forall m: u64 | q.paddr <= m < q.paddr + q.memsz
        ensures Target(phdrs, |phdrs|, m) == m
      {
        assert InSegment(phdrs, i - 1, m);
      }
      if s == i - 1 {
        LastStoreCounts(phdrs, q, q.memsz, x, Arrived(phdrs, i - 1, x), x - q.paddr);
      } else {
        assert BytesApart(phdrs[s], q);
        NoStoreCounts(phdrs, q, q.memsz, x, Arrived(phdrs, i - 1, x));
      }
    }
    if s < i - 1 {
      SparedByteArrives(phdrs, i - 1, s, x);
    }
  }

  /** If the headers spare the image, every byte arrives. */
  lemma SparedArrives(phdrs: seq<Phdr>)
    requires AllFit(phdrs) && PhysApart(phdrs) && Spares(phdrs)
    ensures EveryByteArrives(phdrs)
  {
    forall s: nat, x: u64 | InSegment(phdrs, s, x)
      ensures Arrived(phdrs, |phdrs|, x) == Some(SourceOf(phdrs[s], x - phdrs[s].paddr))
    {
      SparedByteArrives(phdrs, |phdrs|, s, x);
    }
  }

  /** Whatever has arrived was stored for some byte of the image. */
  lemma {:induction false} StoredFor(phdrs: seq<Phdr>, p: Phdr, k: nat, y: nat, before: Option<Source>) returns (j: nat)
    requires AllFit(phdrs) && p.paddr + k <= TWO_64 && ArrivedFrom(phdrs, p, k, y, before) != before
    ensures j < k && Target(phdrs, |phdrs|, p.paddr + j) == y
    ensures ArrivedFrom(phdrs, p, k, y, before) == Some(SourceOf(p, j))
  {
    if Target(phdrs, |phdrs|, p.paddr + k - 1) == y {
      j := k - 1;
    } else {
      j := StoredFor(phdrs, p, k - 1, y, before);
    }
  }

  lemma {:induction false} ArrivedFor(phdrs: seq<Phdr>, i: nat, y: nat) returns (t: nat, z: u64)
    requires AllFit(phdrs) && i <= |phdrs| && Arrived(phdrs, i, y).Some?
    ensures InSegment(phdrs, t, z) && Target(phdrs, |phdrs|, z) == y
    ensures Arrived(phdrs, i, y) == Some(SourceOf(phdrs[t], z - phdrs[t].paddr))
  {
    var q := phdrs[i - 1];
    var before := Arrived(phdrs, i - 1, y);
    if q.Loadable() && ArrivedFrom(phdrs, q, q.memsz, y, before) != before {
      var j := StoredFor(phdrs, q, q.memsz, y, before);
      t, z := i - 1, q.paddr + j;
    } else {
      t, z := ArrivedFor(phdrs, i - 1, y);
    }
  }

  predicate FileApart(p: Phdr, q: Phdr) {
    p.offset + p.filesz <= q.offset || q.offset + q.filesz <= p.offset
  }

  /** Every byte of the image comes from the file, and no two from the same place. */
  ghost predicate OwnFileBytes(phdrs: seq<Phdr>) {
    && (forall s | 0 <= s < |phdrs| && phdrs[s].Loadable() :: phdrs[s].filesz == phdrs[s].memsz)
    && (forall s, t | 0 <= s < |phdrs| && 0 <= t < |phdrs| && s != t && phdrs[s].Loadable() && phdrs[t].Loadable() ::
          FileApart(phdrs[s], phdrs[t]))
  }

  /** For such an image the load comes out right, for every file, if and only if the headers spare it. */
  lemma RightIffSpared(phdrs: seq<Phdr>)
    requires AllFit(phdrs) && PhysApart(phdrs) && OwnFileBytes(phdrs)
    ensures AlwaysRight(phdrs) <==> Spares(phdrs)
  {
    RightIffArrives(phdrs);
    if Spares(phdrs) {
      SparedArrives(phdrs);
    }
    if EveryByteArrives(phdrs) {
      forall s: nat, x: u64 | InSegment(phdrs, s, x)
        ensures Target(phdrs, |phdrs|, x) == x
      {
        assert Arrived(phdrs, |phdrs|, x) == Some(SourceOf(phdrs[s], x - phdrs[s].paddr));
        var t, z := ArrivedFor(phdrs, |phdrs|, x);
        if t != s {
          assert FileApart(phdrs[s], phdrs[t]);
        }
      }
    }
  }

  // ----- an image that does not come out right -----

  /** Two pages, linked one page above where they are loaded. */
  function Remapped(): Phdr { Phdr(PT_LOAD, 5, 0, 0x40_1000, 0x40_0000, 0x2000, 0x2000) }

  lemma RemappedFits()
    ensures AllFit([Remapped()]) && PhysApart([Remapped()]) && OwnFileBytes([Remapped()]) && Remapped().Pages() == 2
  {
  }

  /** Its first virtual page takes the place of its own second physical page. */
  lemma RemappedTarget(x: u64)
    requires AllFit([Remapped()]) && 0x40_0000 <= x < 0x40_2000
    ensures Target([Remapped()], 1, x) == if x < 0x40_1000 then x else x - 0x1000
  {
    RemappedFits();
    var r := x % PAGE_SIZE;
    var q := if x < 0x40_1000 then 0x400 else 0x401;
    QuotientUnique(x, PAGE_SIZE, q, x - q * PAGE_SIZE);
    PageNoOf(x / PAGE_SIZE, r);
    PageNoOf(0x401, 0);
    assert PageDown(Remapped().vaddr) == 0x40_1000 && PageDown(Remapped().paddr) == 0x40_0000;
    assert Target([Remapped()], 0, x) == x;
  }

  /** So the second page of the file is stored over the first: where byte 0 belongs, byte 0x1000 arrives. */
  lemma RemappedLoadsWrongBytes(data: seq<u8>, mem: Memory)
    requires AllFit([Remapped()]) && |data| >= 0x2000 && data[0] != data[0x1000]
    ensures FileHolds([Remapped()], data) && !Spares([Remapped()])
    ensures ByteAt(FillImage([Remapped()], data, mem, 1), 0x40_0000) == data[0x1000]
    ensures !ImageRight([Remapped()], data, FillImage([Remapped()], data, mem, 1))
  {
    var phdrs, p := [Remapped()], Remapped();
    RemappedFits();
    forall m: u64 | 0x40_1000 <= m < 0x40_2000
      ensures Target(phdrs, 1, m) == m - 0x1000
    {
      RemappedTarget(m);
    }
    LastStoreCounts(phdrs, p, 0x2000, 0x40_0000, Arrived(phdrs, 0, 0x40_0000), 0x1000);
    FilledShows(phdrs, data, mem, 1, 0x40_0000);
    assert InSegment(phdrs, 0, 0x40_1000) && InSegment(phdrs, 0, 0x40_0000);
    assert !ByteRight(data, FillImage(phdrs, data, mem, 1), p, 0x40_0000);
  }
}
