/** Physical memory byte by byte: byte `j` of a word is its `j`-th base-256 digit (little-endian). */
module Bytes {
  import opened Bits
  import opened Division
  import opened Entry
  import opened Mmu

  type u8 = x: int | 0 <= x < 256

  const PHYS_LIMIT: nat := FRAME_SPACE * PAGE_SIZE

  function GetByte(w: nat, j: nat): u8 {
    if j == 0 then w % 256 else GetByte(w / 256, j - 1)
  }

  function PutByte(w: nat, j: nat, b: u8): nat {
    if j == 0 then w / 256 * 256 + b else PutByte(w / 256, j - 1, b) * 256 + w % 256
  }

  lemma NextByte(rest: nat, low: u8)
    ensures (rest * 256 + low) / 256 == rest && (rest * 256 + low) % 256 == low
  {
  }

  lemma {:induction false} GetOfPut(w: nat, j: nat, b: u8, k: nat)
    ensures GetByte(PutByte(w, j, b), k) == if k == j then b else GetByte(w, k)
  {
    if j > 0 {
      var rest, low := PutByte(w / 256, j - 1, b), w % 256;
      NextByte(rest, low);
      if k > 0 {
        GetOfPut(w / 256, j - 1, b, k - 1);
      }
    } else {
      NextByte(w / 256, b);
    }
  }

  lemma EightMore(n: nat)
    ensures Pow2(8 * (n + 1)) == 256 * Pow2(8 * n)
  {
    Pow2Adds(8, 8 * n);
    assert Pow2(8) == 256 by {
      assert Pow2(4) == 16;
      Pow2Adds(4, 4);
    }
  }

  /** Bytes of a word of `n` bytes, put within it, leave a word of `n` bytes. */
  lemma {:induction false} PutStaysWord(w: nat, j: nat, b: u8, n: nat)
    requires j < n && w < Pow2(8 * n)
    ensures PutByte(w, j, b) < Pow2(8 * n)
  {
    EightMore(n - 1);
    if j > 0 {
      PutStaysWord(w / 256, j - 1, b, n - 1);
    }
  }

  function SetByte(w: u64, j: nat, b: u8): u64
    requires j < 8
  {
    Pow2Of64();
    PutStaysWord(w, j, b, 8);
    PutByte(w, j, b)
  }

  function ByteAt(mem: Memory, pa: nat): u8
    requires pa < PHYS_LIMIT
  {
    GetByte(mem[pa / PAGE_SIZE][pa % PAGE_SIZE / 8], pa % 8)
  }

  function WithByte(mem: Memory, pa: nat, b: u8): Memory
    requires pa < PHYS_LIMIT
  {
    var f, w := pa / PAGE_SIZE, pa % PAGE_SIZE / 8;
    mem[f := mem[f][w := SetByte(mem[f][w], pa % 8, b)]]
  }

  lemma ByteParts(pa: nat)
    ensures pa == pa / PAGE_SIZE * PAGE_SIZE + pa % PAGE_SIZE / 8 * 8 + pa % 8
  {
    DivMod(pa, PAGE_SIZE);
    DivideTwice(pa, 8, 512);
    QuotientUnique(pa % PAGE_SIZE, 8, pa / 8 % 512, pa % 8);
  }

  /** An address is its frame, its word in the frame and its byte in the word. */
  lemma SameByte(pa: nat, x: nat)
    ensures pa == x <==> pa / PAGE_SIZE == x / PAGE_SIZE && pa % PAGE_SIZE / 8 == x % PAGE_SIZE / 8 && pa % 8 == x % 8
  {
    ByteParts(pa);
    ByteParts(x);
  }

  lemma ByteOfWithByte(mem: Memory, pa: nat, b: u8, x: nat)
    requires pa < PHYS_LIMIT && x < PHYS_LIMIT
    ensures ByteAt(WithByte(mem, pa, b), x) == if x == pa then b else ByteAt(mem, x)
  {
    var f, w := pa / PAGE_SIZE, pa % PAGE_SIZE / 8;
    GetOfPut(mem[f][w], pa % 8, b, x % 8);
    SameByte(pa, x);
  }

  function WordAt(mem: Memory, pa: nat): u64
    requires pa < PHYS_LIMIT
  {
    mem[pa / PAGE_SIZE][pa % PAGE_SIZE / 8]
  }

  function WithWord(mem: Memory, pa: nat, w: u64): Memory
    requires pa < PHYS_LIMIT
  {
    mem[pa / PAGE_SIZE := mem[pa / PAGE_SIZE][pa % PAGE_SIZE / 8 := w]]
  }

  lemma LeafInMemory(level: nat, e: u64, va: u64)
    requires 1 <= level <= 3
    ensures LeafAddress(level, e, va) < PHYS_LIMIT
  {
    var span := Span(level);
    var q, c := FrameOf(e) * PAGE_SIZE / span, PHYS_LIMIT / span;
    assert c * span == PHYS_LIMIT;
    DivMod(FrameOf(e) * PAGE_SIZE, span);
    if q >= c {
      MulMonotone(c, q, span);
    }
    MulMonotone(q + 1, c, span);
    Distribute(q, 1, span);
  }

  /** Translations are addresses of the physical memory. */
  lemma {:induction false} WalkInMemory(mem: Memory, level: nat, frame: nat, va: u64)
    requires IsLevel(level) && frame < FRAME_SPACE
    ensures var t := WalkFrom(mem, level, frame, va); t.Mapped? ==> t.pa < PHYS_LIMIT
    decreases level
  {
    var e := mem[frame][IndexAt(level, va)];
    if IsTable(level, e) {
      WalkInMemory(mem, level - 1, FrameOf(e), va);
    } else if Present(e) {
      LeafInMemory(level, e, va);
    }
  }

  // ----- several stores -----

  datatype Store = Store(at: nat, value: u8)

  function StoreTo(mem: Memory, y: nat, v: u8): Memory {
    if y < PHYS_LIMIT then WithByte(mem, y, v) else mem
  }

  /** Memory after stores in order. */
  ghost function Apply(mem: Memory, log: seq<Store>): Memory {
    if log == [] then mem
    else
      var n := |log| - 1;
      StoreTo(Apply(mem, log[..n]), log[n].at, log[n].value)
  }

  lemma ApplyOne(mem: Memory, log: seq<Store>, store: Store)
    ensures Apply(mem, log + [store]) == StoreTo(Apply(mem, log), store.at, store.value)
  {
    assert (log + [store])[..|log|] == log;
  }

  lemma {:induction false} ApplyParts(mem: Memory, first: seq<Store>, second: seq<Store>)
    ensures Apply(mem, first + second) == Apply(Apply(mem, first), second)
    decreases |second|
  {
    if second == [] {
      assert first + second == first;
    } else {
      var n := |second| - 1;
      var front, last := second[..n], second[n];
      ApplyParts(mem, first, front);
      assert first + second == (first + front) + [last] && second == front + [last];
      ApplyOne(mem, first + front, last);
      ApplyOne(Apply(mem, first), front, last);
    }
  }
}
