/** What it means to clone a table tree into fresh frames (kernel/arch/x86/paging.c:63-141), stated on
    the values of memory and of the free set before and after. */
module TableClone {
  import opened Bits
  import opened Entry
  import opened Mmu

  // ----- counting the tables a clone visits -----

  ghost function NodesBelow(mem: Memory, level: nat, page: Page, lo: nat, hi: nat): nat
    requires IsLevel(level) && lo <= hi <= ENTRIES
    decreases level, 1, hi - lo
  {
    if lo == hi then 0 else NodesBelow(mem, level, page, lo, hi - 1) + EntryNodes(mem, level, page[hi - 1])
  }

  ghost function Nodes(mem: Memory, level: nat, frame: nat): nat
    requires IsLevel(level) && frame < FRAME_SPACE
    decreases level, 2, 0
  {
    1 + NodesBelow(mem, level, mem[frame], 0, ENTRIES)
  }

  ghost function EntryNodes(mem: Memory, level: nat, e: u64): nat
    requires IsLevel(level)
    decreases level, 0, 0
  {
    if IsTable(level, e) then Nodes(mem, level - 1, FrameOf(e)) else 0
  }

  lemma {:induction false} NodesBelowGrows(mem: Memory, level: nat, page: Page, lo: nat, mid: nat, hi: nat)
    requires IsLevel(level) && lo <= mid <= hi <= ENTRIES
    ensures NodesBelow(mem, level, page, lo, mid) <= NodesBelow(mem, level, page, lo, hi)
  {
    if mid < hi {
      NodesBelowGrows(mem, level, page, lo, mid, hi - 1);
    }
  }

  /** The count depends only on the tables it visits. */
  lemma {:induction false} NodesUnaffected(mem: Memory, mem': Memory, level: nat, e: u64, tables: set<nat>)
    requires IsLevel(level) && EntryWithin(mem, level, e, tables) && AgreeOn(mem, mem', tables)
    ensures EntryNodes(mem', level, e) == EntryNodes(mem, level, e)
    decreases level, 1, 0
  {
    if IsTable(level, e) {
      NodesBelowUnaffected(mem, mem', level - 1, FrameOf(e), ENTRIES, tables);
    }
  }

  lemma {:induction false} NodesBelowUnaffected(mem: Memory, mem': Memory, level: nat, frame: nat, hi: nat,
                                              tables: set<nat>)
    requires IsLevel(level) && hi <= ENTRIES && Within(mem, level, frame, tables) && AgreeOn(mem, mem', tables)
    ensures NodesBelow(mem', level, mem'[frame], 0, hi) == NodesBelow(mem, level, mem[frame], 0, hi)
    decreases level, 2, hi
  {
    if hi > 0 {
      NodesBelowUnaffected(mem, mem', level, frame, hi - 1, tables);
      NodesUnaffected(mem, mem', level, mem[frame][hi - 1], tables);
    }
  }

  // ----- states of a clone -----

  /** Only frames that were free have changed; those are used now. */
  ghost predicate Extends(mem0: Memory, free0: set<nat>, mem: Memory, free: set<nat>) {
    && free <= free0 && 0 !in free0 - free
    && forall f | 0 <= f < FRAME_SPACE && f !in free0 - free :: mem[f] == mem0[f]
  }

  /** As `Extends`, but the table `new_` may have changed too. */
  ghost predicate Confined(mem0: Memory, free0: set<nat>, mem: Memory, free: set<nat>, new_: nat) {
    && free <= free0 && 0 !in free0 - free
    && forall f | 0 <= f < FRAME_SPACE && f !in free0 - free && f != new_ :: mem[f] == mem0[f]
  }

  /** `new_` is the root of a copy of the tree under `old`, made of newly used frames, one per node. */
  ghost predicate Cloned(mem0: Memory, free0: set<nat>, level: nat, old_: nat, mem: Memory, free: set<nat>, new_: nat)
    requires IsLevel(level) && old_ < FRAME_SPACE
  {
    && Extends(mem0, free0, mem, free)
    && new_ < FRAME_SPACE
    && Within(mem, level, new_, free0 - free)
    && SameTables(mem0, old_, mem, new_, level)
    && |free0 - free| == Nodes(mem0, level, old_)
  }

  /** The clone ran out of frames: there were fewer than it needs. */
  ghost predicate OutOfFrames(mem0: Memory, free0: set<nat>, mem: Memory, free: set<nat>, needed: nat) {
    Extends(mem0, free0, mem, free) && free <= {0} && |free0 - {0}| < needed
  }

  /** Entries `lo..i` of the table `new_` have been cloned from `page`; the others still hold `base`. */
  ghost predicate Progress(mem0: Memory, free0: set<nat>, level: nat, page: Page, base: Page, lo: nat,
                           mem: Memory, free: set<nat>, new_: nat, i: nat)
    requires IsLevel(level)
  {
    && lo <= i <= ENTRIES && new_ < FRAME_SPACE && new_ !in free0
    && Confined(mem0, free0, mem, free, new_)
    && (forall j | lo <= j < i :: EntryWithin(mem, level, mem[new_][j], free0 - free))
    && (forall j | lo <= j < i :: SameBelow(mem0, page[j], mem, mem[new_][j], level))
    && (forall j | 0 <= j < ENTRIES && !(lo <= j < i) :: mem[new_][j] == base[j])
    && |free0 - free| == NodesBelow(mem0, level, page, lo, i)
  }

  /** Where the old tables are, they stay readable: they are neither free nor the new table. */
  ghost predicate OldTables(mem0: Memory, free0: set<nat>, level: nat, page: Page, lo: nat, new_: nat, tables: set<nat>)
    requires IsLevel(level)
  {
    && tables !! free0 && new_ !in tables
    && forall j | lo <= j < ENTRIES :: EntryWithin(mem0, level, page[j], tables)
  }

  lemma OldEntryReadable(mem0: Memory, free0: set<nat>, level: nat, page: Page, base: Page, lo: nat,
                         mem: Memory, free: set<nat>, new_: nat, i: nat, tables: set<nat>)
    requires IsLevel(level) && i < ENTRIES
    requires Progress(mem0, free0, level, page, base, lo, mem, free, new_, i)
    requires OldTables(mem0, free0, level, page, lo, new_, tables)
    ensures EntryWithin(mem, level, page[i], tables) && tables !! free
    ensures SameBelow(mem0, page[i], mem, page[i], level)
    ensures EntryNodes(mem, level, page[i]) == EntryNodes(mem0, level, page[i])
  {
    assert AgreeOn(mem0, mem, tables);
    EntryUnaffected(mem0, mem, level, page[i], tables);
    NodesUnaffected(mem0, mem, level, page[i], tables);
  }

  /** `e'` is `e` with another table address. */
  ghost predicate Redirected(level: nat, e: u64, e': u64, child: nat) {
    FrameOf(e') == child && Attributes(e') == Attributes(e) && Present(e') == Present(e) && PageSize(e') == PageSize(e)
  }

  lemma RedirectedToFrame(level: nat, e: u64, child: nat)
    requires child < FRAME_SPACE
    ensures Redirected(level, e, Redirect(e, child * PAGE_SIZE), child)
  {
    FrameOfAddress(child);
    RedirectFields(e, child * PAGE_SIZE);
  }

  /** Cloning the tree under an entry and redirecting the entry to the copy clones the entry. */
  lemma EntryCloned(mem: Memory, free: set<nat>, level: nat, e: u64, mem': Memory, free': set<nat>, child: nat,
                    mem'': Memory, e': u64)
    requires IsLevel(level) && IsTable(level, e)
    requires Cloned(mem, free, level - 1, FrameOf(e), mem', free', child)
    requires AgreeOn(mem', mem'', free - free')
    requires Redirected(level, e, e', child)
    ensures EntryWithin(mem'', level, e', free - free') && SameBelow(mem, e, mem'', e', level)
  {
    WalkUnaffected(mem', mem'', level - 1, child, free - free');
    forall va: u64
      ensures WalkEntry(mem'', level, e', va) == WalkEntry(mem, level, e, va)
    {
      assert WalkFrom(mem', level - 1, child, va) == WalkFrom(mem, level - 1, FrameOf(e), va);
      assert WalkFrom(mem'', level - 1, child, va) == WalkFrom(mem', level - 1, child, va);
    }
  }

  /** An entry that refers to no table is kept as it is. */
  lemma KeepEntry(mem0: Memory, free0: set<nat>, level: nat, page: Page, base: Page, lo: nat,
                  mem: Memory, free: set<nat>, new_: nat, i: nat)
    requires IsLevel(level) && i < ENTRIES
    requires Progress(mem0, free0, level, page, base, lo, mem, free, new_, i)
    requires !IsTable(level, page[i]) && !IsTable(level, base[i])
    requires base[i] == page[i] || (!Present(page[i]) && !Present(base[i]))
    ensures Progress(mem0, free0, level, page, base, lo, mem, free, new_, i + 1)
  {
    assert mem[new_][i] == base[i];
    assert SameBelow(mem0, page[i], mem, mem[new_][i], level);
  }

  /** The entries cloned before stay clones while the tree under entry `i` is copied and linked in. */
  lemma EarlierEntriesKept(mem0: Memory, free0: set<nat>, level: nat, page: Page, base: Page, lo: nat,
                           mem: Memory, free: set<nat>, new_: nat, i: nat, mem'': Memory, free': set<nat>)
    requires IsLevel(level) && i < ENTRIES
    requires Progress(mem0, free0, level, page, base, lo, mem, free, new_, i)
    requires free' <= free && AgreeOn(mem, mem'', free0 - free)
    requires forall j | 0 <= j < ENTRIES && j != i :: mem''[new_][j] == mem[new_][j]
    ensures forall j | lo <= j < i ::
              EntryWithin(mem'', level, mem''[new_][j], free0 - free') &&
              SameBelow(mem0, page[j], mem'', mem''[new_][j], level)
  {
    forall j | lo <= j < i
      ensures EntryWithin(mem'', level, mem''[new_][j], free0 - free')
      ensures SameBelow(mem0, page[j], mem'', mem''[new_][j], level)
    {
      var e := mem[new_][j];
      assert SameBelow(mem0, page[j], mem, e, level);
      EntryUnaffected(mem, mem'', level, e, free0 - free);
      EntryWithinLarger(mem'', level, e, free0 - free, free0 - free');
    }
  }

  lemma CloneEntry(mem0: Memory, free0: set<nat>, level: nat, page: Page, base: Page, lo: nat,
                   mem: Memory, free: set<nat>, new_: nat, i: nat, tables: set<nat>,
                   mem': Memory, free': set<nat>, child: nat, mem'': Memory, e': u64)
    requires IsLevel(level) && i < ENTRIES && IsTable(level, page[i])
    requires Progress(mem0, free0, level, page, base, lo, mem, free, new_, i)
    requires OldTables(mem0, free0, level, page, lo, new_, tables)
    requires Cloned(mem, free, level - 1, FrameOf(page[i]), mem', free', child)
    requires Redirected(level, page[i], e', child)
    requires mem'' == mem'[new_ := mem'[new_][i := e']]
    ensures Progress(mem0, free0, level, page, base, lo, mem'', free', new_, i + 1)
  {
    OldEntryReadable(mem0, free0, level, page, base, lo, mem, free, new_, i, tables);
    EntryCloned(mem, free, level, page[i], mem', free', child, mem'', e');
    EntryWithinLarger(mem'', level, e', free - free', free0 - free');
    EarlierEntriesKept(mem0, free0, level, page, base, lo, mem, free, new_, i, mem'', free');
    assert free0 - free' == (free0 - free) + (free - free');
    assert SameBelow(mem0, page[i], mem'', mem''[new_][i], level);
  }

  lemma NoFrameForEntry(mem0: Memory, free0: set<nat>, level: nat, page: Page, base: Page, lo: nat,
                        mem: Memory, free: set<nat>, new_: nat, i: nat, tables: set<nat>,
                        mem': Memory, free': set<nat>)
    requires IsLevel(level) && i < ENTRIES && IsTable(level, page[i])
    requires Progress(mem0, free0, level, page, base, lo, mem, free, new_, i)
    requires OldTables(mem0, free0, level, page, lo, new_, tables)
    requires OutOfFrames(mem, free, mem', free', Nodes(mem, level - 1, FrameOf(page[i])))
    ensures Confined(mem0, free0, mem', free', new_)
    ensures free' <= {0} && |free0 - {0}| < NodesBelow(mem0, level, page, lo, ENTRIES)
  {
    OldEntryReadable(mem0, free0, level, page, base, lo, mem, free, new_, i, tables);
    NodesBelowGrows(mem0, level, page, lo, i + 1, ENTRIES);
    assert free0 - {0} == (free0 - free) + (free - {0});
  }

  /** A table filled from a copy of `old_` with every entry cloned is a clone of the tree. */
  lemma TableCloned(mem0: Memory, free0: set<nat>, level: nat, old_: nat, tables: set<nat>, new_: nat, mem1: Memory,
                    mem: Memory, free: set<nat>)
    requires IsLevel(level) && Within(mem0, level, old_, tables) && tables !! free0
    requires new_ in free0 && 0 < new_ < FRAME_SPACE && mem1 == mem0[new_ := mem0[old_]]
    requires Progress(mem1, free0 - {new_}, level, mem0[old_], mem0[old_], 0, mem, free, new_, ENTRIES)
    ensures Cloned(mem0, free0, level, old_, mem, free, new_)
  {
    var page, free1 := mem0[old_], free0 - {new_};
    assert AgreeOn(mem0, mem1, tables);
    assert free0 - free == (free1 - free) + {new_};
    NodesBelowUnaffected(mem0, mem1, level, old_, ENTRIES, tables);
    forall j | 0 <= j < ENTRIES
      ensures EntryWithin(mem, level, mem[new_][j], free0 - free)
    {
      EntryWithinLarger(mem, level, mem[new_][j], free1 - free, free0 - free);
    }
    forall va: u64
      ensures WalkFrom(mem, level, new_, va) == WalkFrom(mem0, level, old_, va)
    {
      var j := IndexAt(level, va);
      EntryUnaffected(mem0, mem1, level, page[j], tables);
      assert SameBelow(mem1, page[j], mem, mem[new_][j], level);
      assert SameBelow(mem0, page[j], mem1, page[j], level);
    }
  }
}
