/** The frame bitmap of kernel/page_alloc.c: one bit per 4 KiB frame, packed into 64-bit lines.
    The lemmas speak of the value of the whole array; `FreeSet` is what the packed form means. */
module Bitmap {
  import opened Bits

  const BITS_PER_LINE: nat := 64
  const LINE_COUNT: nat := 0x8_0000
  const FRAME_COUNT: nat := LINE_COUNT * BITS_PER_LINE

  /** A set bit means the frame is in use. */
  predicate Used(lines: seq<u64>, frame: nat)
    requires frame < |lines| * BITS_PER_LINE
  {
    Bit(lines[frame / BITS_PER_LINE], frame % BITS_PER_LINE)
  }

  ghost function FreeBelow(lines: seq<u64>, limit: nat): set<nat>
    requires limit <= |lines| * BITS_PER_LINE
  {
    if limit == 0 then {}
    else FreeBelow(lines, limit - 1) + if Used(lines, limit - 1) then {} else {limit - 1}
  }

  /** The frames a bitmap leaves free: the meaning of the packed form. */
  ghost function FreeSet(lines: seq<u64>): set<nat>
    requires |lines| == LINE_COUNT
  {
    FreeBelow(lines, FRAME_COUNT)
  }

  lemma {:induction false} FreeBelowMembers(lines: seq<u64>, limit: nat)
    requires limit <= |lines| * BITS_PER_LINE
    ensures forall f :: f in FreeBelow(lines, limit) <==> 0 <= f < limit && !Used(lines, f)
  {
    if limit > 0 {
      FreeBelowMembers(lines, limit - 1);
    }
  }

  /** A frame is in the set exactly when its bit is clear. */
  lemma FreeMembers(lines: seq<u64>)
    requires |lines| == LINE_COUNT
    ensures forall f :: f in FreeSet(lines) <==> 0 <= f < FRAME_COUNT && !Used(lines, f)
  {
    FreeBelowMembers(lines, FRAME_COUNT);
  }

  /** The run of `count` frames that starts at `start`. */
  ghost function Run(start: nat, count: nat): (run: set<nat>)
    ensures forall f :: f in run <==> start <= f < start + count
  {
    if count == 0 then {} else Run(start, count - 1) + {start + count - 1}
  }

  lemma {:induction false} RunSize(start: nat, count: nat)
    ensures |Run(start, count)| == count
  {
    if count > 0 {
      RunSize(start, count - 1);
      assert start + count - 1 !in Run(start, count - 1);
    }
  }

  lemma MaskIsWord(b: nat)
    requires b < BITS_PER_LINE
    ensures Pow2(b) < TWO_64
  {
    Pow2Of64();
    Pow2Grows(b, 63);
  }

  lemma OrMask(line: u64, b: nat)
    requires b < BITS_PER_LINE
    ensures Or(line, Pow2(b)) < TWO_64
    ensures forall c: nat :: c < BITS_PER_LINE ==> Bit(Or(line, Pow2(b)), c) == (c == b || Bit(line, c))
  {
    MaskIsWord(b);
    Pow2Of64();
    OrIsWord(line, Pow2(b), 64);
    forall c: nat | c < BITS_PER_LINE
      ensures Bit(Or(line, Pow2(b)), c) == (c == b || Bit(line, c))
    {
      BitOfOr(line, Pow2(b), c);
      BitOfPow2(b, c);
    }
  }

  lemma AndNotMask(line: u64, b: nat)
    requires b < BITS_PER_LINE
    ensures Pow2(b) < TWO_64
    ensures forall c: nat :: c < BITS_PER_LINE ==> Bit(And(line, Not(Pow2(b))), c) == (c != b && Bit(line, c))
  {
    MaskIsWord(b);
    Pow2Of64();
    forall c: nat | c < BITS_PER_LINE
      ensures Bit(And(line, Not(Pow2(b))), c) == (c != b && Bit(line, c))
    {
      BitOfAnd(line, Not(Pow2(b)), c);
      BitOfComplement(Pow2(b), 64, c);
      BitOfPow2(b, c);
    }
  }

  /** `line | (1 << b)`. */
  function SetBit(line: u64, b: nat): (r: u64)
    requires b < BITS_PER_LINE
    ensures forall c: nat :: c < BITS_PER_LINE ==> Bit(r, c) == (c == b || Bit(line, c))
  {
    OrMask(line, b);
    Or(line, Pow2(b))
  }

  /** `line & ~(1 << b)`. */
  function ClearBit(line: u64, b: nat): (r: u64)
    requires b < BITS_PER_LINE
    ensures forall c: nat :: c < BITS_PER_LINE ==> Bit(r, c) == (c != b && Bit(line, c))
  {
    AndNotMask(line, b);
    And(line, Not(Pow2(b)))
  }

  /** Setting the bit of one frame removes exactly that frame from the free set. */
  lemma SetUsedRemoves(lines: seq<u64>, frame: nat)
    requires |lines| == LINE_COUNT && frame < FRAME_COUNT
    ensures var li := frame / BITS_PER_LINE;
            FreeSet(lines[li := SetBit(lines[li], frame % BITS_PER_LINE)]) == FreeSet(lines) - {frame}
  {
    var li := frame / BITS_PER_LINE;
    var lines' := lines[li := SetBit(lines[li], frame % BITS_PER_LINE)];
    assert forall f: nat :: f < FRAME_COUNT ==> Used(lines', f) == (f == frame || Used(lines, f));
    FreeMembers(lines);
    FreeMembers(lines');
  }

  /** Clearing the bit of one frame adds exactly that frame to the free set. */
  lemma SetUnusedAdds(lines: seq<u64>, frame: nat)
    requires |lines| == LINE_COUNT && frame < FRAME_COUNT
    ensures var li := frame / BITS_PER_LINE;
            FreeSet(lines[li := ClearBit(lines[li], frame % BITS_PER_LINE)]) == FreeSet(lines) + {frame}
  {
    var li := frame / BITS_PER_LINE;
    var lines' := lines[li := ClearBit(lines[li], frame % BITS_PER_LINE)];
    assert forall f: nat :: f < FRAME_COUNT ==> Used(lines', f) == (f != frame && Used(lines, f));
    FreeMembers(lines);
    FreeMembers(lines');
  }

  lemma {:induction false} BitsDetermineWord(x: nat, y: nat, n: nat)
    requires x < Pow2(n) && y < Pow2(n)
    requires forall k: nat :: k < n ==> Bit(x, k) == Bit(y, k)
    ensures x == y
  {
    if n > 0 {
      assert Bit(x, 0) == Bit(y, 0);
      forall k: nat | k < n - 1
        ensures Bit(x / 2, k) == Bit(y / 2, k)
      {
        assert Bit(x, k + 1) == Bit(y, k + 1);
      }
      BitsDetermineWord(x / 2, y / 2, n - 1);
    }
  }

  /** The packed form is canonical: equal free sets mean equal bitmaps, bit for bit. */
  lemma FreeSetDetermines(lines: seq<u64>, lines': seq<u64>)
    requires |lines| == LINE_COUNT && |lines'| == LINE_COUNT && FreeSet(lines) == FreeSet(lines')
    ensures lines == lines'
  {
    FreeMembers(lines);
    FreeMembers(lines');
    forall li | 0 <= li < LINE_COUNT
      ensures lines[li] == lines'[li]
    {
      forall k: nat | k < BITS_PER_LINE
        ensures Bit(lines[li], k) == Bit(lines'[li], k)
      {
        var f := li * BITS_PER_LINE + k;
        assert Used(lines, f) == Used(lines', f);
      }
      Pow2Of64();
      BitsDetermineWord(lines[li], lines'[li], 64);
    }
  }
}
