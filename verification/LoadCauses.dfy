/** Why a load can fail (bootloader/kernel_loader.c:154-201): in terms of the program headers, the file and the tables
    as they were before it. */
module LoadCauses {
  import opened Bits
  import opened Mapper
  import opened Segments
  import opened SegmentMap
  import opened Bytes
  import opened ImageFill

  /** Where `load_kernel_elf` returns once the program headers are read. */
  datatype Stage = NotWritable | NothingToLoad | NoFrames | MapFailed | ReadFailed | ProtectFailed | Done

  // ----- mapping -----

  /** A page of the segment is mapped by an entry that carries bit 7: the mapper does not replace those. */
  ghost predicate Taken(b: Boot, p: Phdr)
    requires p.Fits()
  {
    exists va: u64 :: p.Touches(va) && Settable(b, va)
  }

  ghost predicate SegmentsFree(b: Boot, phdrs: seq<Phdr>, i: nat)
    requires AllFit(phdrs) && i <= |phdrs|
  {
    forall s | 0 <= s < i && phdrs[s].Loadable() :: !Taken(b, phdrs[s])
  }

  /** Two segments share a page, or a page of one is taken. */
  ghost predicate ImageTaken(b: Boot, phdrs: seq<Phdr>)
    requires AllFit(phdrs)
  {
    !PagesApart(phdrs, |phdrs|) || !SegmentsFree(b, phdrs, |phdrs|)
  }

  lemma PagesFew(p: Phdr)
    requires p.Fits() && p.Loadable() && Short(p)
    ensures p.Pages() <= PAGE_SPACE
  {
  }

  /** The next page of a segment is none of those mapped before it. */
  lemma PageTaken(b0: Boot, b: Boot, p: Phdr, k: nat)
    requires p.Fits() && p.Loadable() && Short(p) && k < p.Pages() && PageAt(PageDown(p.vaddr), k) < TWO_64
    requires PagesMapped(b0, b, PageDown(p.vaddr), PageDown(p.paddr), k, p.TempAttr())
    requires Settable(b, PageAt(PageDown(p.vaddr), k))
    ensures Taken(b0, p)
  {
    var lo := PageDown(p.vaddr);
    var page: u64 := PageAt(lo, k);
    PagesFew(p);
    PageDownAligned(p.vaddr);
    IndexOfPage(lo, k, page);
    if InRun(lo, k, page) {
      IndexBelow(lo, k, page);
      assert false;
    }
    assert InRun(lo, p.Pages(), page);
    assert p.Touches(page) && b.Walk(page) == b0.Walk(page);
  }

  lemma SegmentWasFree(b: Boot, b': Boot, p: Phdr)
    requires p.Fits() && SegmentMapped(b, b', p)
    ensures !Taken(b, p)
  {
  }

  lemma {:induction false} TouchedByOne(phdrs: seq<Phdr>, i: nat, va: u64)
    requires AllFit(phdrs) && i <= |phdrs|
    ensures TouchedBefore(phdrs, i, va) <==> exists s :: 0 <= s < i && phdrs[s].Loadable() && phdrs[s].Touches(va)
  {
    if i > 0 {
      TouchedByOne(phdrs, i - 1, va);
      if phdrs[i - 1].Loadable() && phdrs[i - 1].Touches(va) {
        assert 0 <= i - 1 < i;
      }
    }
  }

  /** A page that stops the mapping of the `i`-th segment was taken before the load, or is another segment's. */
  lemma TakenInImage(b0: Boot, b: Boot, phdrs: seq<Phdr>, i: nat)
    requires AllFit(phdrs) && i < |phdrs| && phdrs[i].Loadable() && ImageMapped(b0, b, phdrs, i) && Taken(b, phdrs[i])
    ensures ImageTaken(b0, phdrs)
  {
    var va: u64 :| phdrs[i].Touches(va) && Settable(b, va);
    TouchedByOne(phdrs, i, va);
    if TouchedBefore(phdrs, i, va) {
      var s :| 0 <= s < i && phdrs[s].Loadable() && phdrs[s].Touches(va);
      assert !Apart(phdrs[s], phdrs[i]);
    } else {
      assert b.Walk(va) == b0.Walk(va);
      assert Taken(b0, phdrs[i]);
    }
  }

  lemma OneMoreFree(b0: Boot, b: Boot, b': Boot, phdrs: seq<Phdr>, i: nat)
    requires AllFit(phdrs) && i < |phdrs| && phdrs[i].Loadable() && SegmentsFree(b0, phdrs, i)
    requires ImageMapped(b0, b, phdrs, i) && SegmentMapped(b, b', phdrs[i]) && PagesApart(phdrs, i + 1)
    ensures SegmentsFree(b0, phdrs, i + 1)
  {
    SegmentWasFree(b, b', phdrs[i]);
    forall va: u64 | phdrs[i].Touches(va)
      ensures !Settable(b0, va)
    {
      TouchedByOne(phdrs, i, va);
      if TouchedBefore(phdrs, i, va) {
        assert false;
      }
      assert b.Walk(va) == b0.Walk(va);
    }
  }

  lemma TakenSame(b: Boot, b': Boot, phdrs: seq<Phdr>)
    requires AllFit(phdrs) && SameWalks(b, b')
    ensures ImageTaken(b', phdrs) == ImageTaken(b, phdrs)
  {
    assert forall va: u64 :: b'.Walk(va) == b.Walk(va);
    forall s | 0 <= s < |phdrs| && phdrs[s].Loadable()
      ensures Taken(b', phdrs[s]) == Taken(b, phdrs[s])
    {
      if Taken(b, phdrs[s]) {
        var va: u64 :| phdrs[s].Touches(va) && Settable(b, va);
        assert Settable(b', va);
      }
      if Taken(b', phdrs[s]) {
        var va: u64 :| phdrs[s].Touches(va) && Settable(b', va);
        assert Settable(b, va);
      }
    }
  }

  // ----- protecting -----

  /** Every page that the first `i` entries touch can be given an attribute. */
  ghost predicate Protectable(b: Boot, phdrs: seq<Phdr>, i: nat)
    requires AllFit(phdrs) && i <= |phdrs|
  {
    forall s | 0 <= s < i && phdrs[s].IsLoad() :: AllSettable(b, PageDown(phdrs[s].vaddr), phdrs[s].Pages())
  }

  lemma {:induction false} AttrFromEntry(b: Boot, phdrs: seq<Phdr>, i: nat, va: u64)
    requires AllFit(phdrs) && i <= |phdrs| && Protectable(b, phdrs, i) && LastAttr(phdrs, i, va).Some?
    ensures Settable(b, va)
  {
    if !(phdrs[i - 1].IsLoad() && phdrs[i - 1].Touches(va)) {
      AttrFromEntry(b, phdrs, i - 1, va);
    } else {
      assert AllSettable(b, PageDown(phdrs[i - 1].vaddr), phdrs[i - 1].Pages());
    }
  }

  lemma SettableProtected(b0: Boot, b: Boot, phdrs: seq<Phdr>, i: nat, va: u64)
    requires AllFit(phdrs) && i <= |phdrs| && Protected(b0, b, phdrs, i) && Protectable(b0, phdrs, i)
    ensures Settable(b, va) == Settable(b0, va)
  {
    assert PageProtected(b0, b, va, LastAttr(phdrs, i, va));
    if LastAttr(phdrs, i, va).Some? {
      AttrFromEntry(b0, phdrs, i, va);
      ApplyAttrFields(b0.Walk(va).leaf, LastAttr(phdrs, i, va).value);
    }
  }

  lemma NextProtectable(b0: Boot, b: Boot, phdrs: seq<Phdr>, i: nat)
    requires AllFit(phdrs) && i < |phdrs| && phdrs[i].IsLoad()
    requires Protected(b0, b, phdrs, i) && Protectable(b0, phdrs, i)
    ensures AllSettable(b, PageDown(phdrs[i].vaddr), phdrs[i].Pages()) <==> Protectable(b0, phdrs, i + 1)
  {
    var lo, k := PageDown(phdrs[i].vaddr), phdrs[i].Pages();
    forall va: u64
      ensures Settable(b, va) == Settable(b0, va)
    {
      SettableProtected(b0, b, phdrs, i, va);
    }
    assert AllSettable(b, lo, k) <==> AllSettable(b0, lo, k);
  }

  lemma NotProtectable(b: Boot, phdrs: seq<Phdr>, i: nat)
    requires AllFit(phdrs) && i <= |phdrs| && !Protectable(b, phdrs, i)
    ensures !Protectable(b, phdrs, |phdrs|)
  {
  }

  /** An empty PT_LOAD entry on a page that is no segment's needs a page that was settable before the load. */
  ghost predicate EmptyEntriesSettable(b: Boot, phdrs: seq<Phdr>)
    requires AllFit(phdrs)
  {
    forall s, va: u64 | 0 <= s < |phdrs| && phdrs[s].IsLoad() && phdrs[s].memsz == 0 && phdrs[s].Touches(va) ::
      TouchedBefore(phdrs, |phdrs|, va) || Settable(b, va)
  }

  lemma SegmentPageSettable(b0: Boot, b: Boot, phdrs: seq<Phdr>, va: u64)
    requires AllFit(phdrs) && ImageMapped(b0, b, phdrs, |phdrs|)
    ensures Settable(b, va) <==> TouchedBefore(phdrs, |phdrs|, va) || Settable(b0, va)
  {
    TouchedByOne(phdrs, |phdrs|, va);
    if TouchedBefore(phdrs, |phdrs|, va) {
      var s :| 0 <= s < |phdrs| && phdrs[s].Loadable() && phdrs[s].Touches(va);
      assert InPlace(b, phdrs[s]);
    } else {
      assert b.Walk(va) == b0.Walk(va);
    }
  }

  /** Once all segments are mapped, protection fails exactly for such an entry. */
  lemma ProtectableIff(b0: Boot, b: Boot, filled: Boot, phdrs: seq<Phdr>)
    requires AllFit(phdrs) && ImageMapped(b0, b, phdrs, |phdrs|) && SameWalks(b, filled)
    ensures Protectable(filled, phdrs, |phdrs|) <==> EmptyEntriesSettable(b0, phdrs)
  {
    forall va: u64
      ensures Settable(filled, va) <==> TouchedBefore(phdrs, |phdrs|, va) || Settable(b0, va)
    {
      SegmentPageSettable(b0, b, phdrs, va);
      assert filled.Walk(va) == b.Walk(va);
    }
    if EmptyEntriesSettable(b0, phdrs) {
      forall s, va: u64 | 0 <= s < |phdrs| && phdrs[s].IsLoad() && phdrs[s].Touches(va)
        ensures Settable(filled, va)
      {
        if phdrs[s].Loadable() {
          TouchedByOne(phdrs, |phdrs|, va);
        }
      }
    }
    if Protectable(filled, phdrs, |phdrs|) {
      forall s, va: u64 | 0 <= s < |phdrs| && phdrs[s].IsLoad() && phdrs[s].Touches(va)
        ensures Settable(filled, va)
      {
        assert AllSettable(filled, PageDown(phdrs[s].vaddr), phdrs[s].Pages());
      }
    }
  }

  lemma EmptyEntriesSame(b: Boot, b': Boot, phdrs: seq<Phdr>)
    requires AllFit(phdrs) && SameWalks(b, b')
    ensures EmptyEntriesSettable(b', phdrs) == EmptyEntriesSettable(b, phdrs)
  {
    forall va: u64
      ensures Settable(b', va) == Settable(b, va)
    {
      assert b'.Walk(va) == b.Walk(va);
    }
  }

  // ----- the whole load -----

  ghost predicate HasSegment(phdrs: seq<Phdr>) { exists s :: 0 <= s < |phdrs| && phdrs[s].Loadable() }

  /** What a load needs of the headers, the file and the tables, besides firmware that does its part. */
  ghost predicate CanLoad(b: Boot, phdrs: seq<Phdr>, data: seq<u8>)
    requires AllFit(phdrs)
  {
    HasSegment(phdrs) && !ImageTaken(b, phdrs) && FileHolds(phdrs, data) && EmptyEntriesSettable(b, phdrs)
  }

  /** What must be so where a load stops: `refused` if firmware turned down a request for pages, `faulty` if a file
      call failed. */
  ghost predicate Explains(stage: Stage, refused: bool, faulty: bool, b: Boot, phdrs: seq<Phdr>, data: seq<u8>)
    requires AllFit(phdrs)
  {
    match stage
    case NotWritable => refused
    case NothingToLoad => !HasSegment(phdrs)
    case NoFrames => refused
    case MapFailed => refused || ImageTaken(b, phdrs)
    case ReadFailed => faulty || !FileHolds(phdrs, data)
    case ProtectFailed => !EmptyEntriesSettable(b, phdrs)
    case Done => !refused && !faulty && CanLoad(b, phdrs, data)
  }
}
