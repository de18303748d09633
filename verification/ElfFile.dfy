/** Reading the kernel file into memory, through the tables in force (bootloader/kernel_loader.c:13-27). */
module ElfFile {
  import opened Bits
  import opened Entry
  import opened Mmu
  import opened Machine
  import opened Bytes
  import opened Efi

  /** The stores of `data` to the places `targets[from]`, `targets[from + 1]`, .... */
  ghost function Log(targets: seq<nat>, from: nat, data: seq<u8>): (log: seq<Store>)
    requires from + |data| <= |targets|
    ensures |log| == |data|
  {
    if data == [] then []
    else
      var n := |data| - 1;
      Log(targets, from, data[..n]) + [Store(targets[from + n], data[n])]
  }

  lemma {:induction false} LogAt(targets: seq<nat>, from: nat, data: seq<u8>, i: nat)
    requires from + |data| <= |targets| && i < |data|
    ensures Log(targets, from, data)[i] == Store(targets[from + i], data[i])
  {
    if i < |data| - 1 {
      LogAt(targets, from, data[..|data| - 1], i);
    }
  }

  lemma LogInParts(targets: seq<nat>, from: nat, first: seq<u8>, second: seq<u8>)
    requires from + |first| + |second| <= |targets|
    ensures Log(targets, from, first + second) == Log(targets, from, first) + Log(targets, from + |first|, second)
  {
    forall i | 0 <= i < |first| + |second|
      ensures Log(targets, from, first + second)[i] ==
              (Log(targets, from, first) + Log(targets, from + |first|, second))[i]
    {
      LogAt(targets, from, first + second, i);
      if i < |first| {
        LogAt(targets, from, first, i);
      } else {
        LogAt(targets, from + |first|, second, i - |first|);
      }
    }
  }

  predicate LeadsTo(mem: Memory, cr3: u64, x: u64, pa: nat) {
    Walk(mem, cr3, x).Mapped? && Walk(mem, cr3, x).pa == pa
  }

  ghost predicate OnlyIn(mem: Memory, mem': Memory, frames: set<nat>) {
    forall f | 0 <= f < FRAME_SPACE && f !in frames :: mem'[f] == mem[f]
  }

  /** The tables send `x` to `pa`, in a frame of `frames`, whatever those frames hold. */
  ghost predicate FirmAt(mem: Memory, cr3: u64, x: nat, pa: nat, frames: set<nat>) {
    && x < TWO_64 && pa < PHYS_LIMIT && pa / PAGE_SIZE in frames
    && forall mem': Memory | OnlyIn(mem, mem', frames) :: LeadsTo(mem', cr3, x, pa)
  }

  ghost predicate FirmByte(mem: Memory, cr3: u64, at: nat, targets: seq<nat>, frames: set<nat>, i: nat) {
    i < |targets| && FirmAt(mem, cr3, at + i, targets[i], frames)
  }

  /** That holds of a whole buffer at `at`, so stores to it do not disturb where its addresses lead. */
  ghost predicate Firm(mem: Memory, cr3: u64, at: nat, targets: seq<nat>, frames: set<nat>) {
    forall i: nat {:trigger FirmByte(mem, cr3, at, targets, frames, i)} | i < |targets| ::
      FirmByte(mem, cr3, at, targets, frames, i)
  }

  /** The first `i` bytes of the data have been stored. */
  ghost predicate Wrote(start: Memory, targets: seq<nat>, from: nat, data: seq<u8>, i: nat, mem: Memory) {
    i <= |data| && from + |data| <= |targets| && mem == Apply(start, Log(targets, from, data[..i]))
  }

  lemma StoreOne(start: Memory, targets: seq<nat>, from: nat, data: seq<u8>, i: nat, mem: Memory, mem': Memory)
    requires i < |data| && Wrote(start, targets, from, data, i, mem)
    requires mem' == StoreTo(mem, targets[from + i], data[i])
    ensures Wrote(start, targets, from, data, i + 1, mem')
  {
    assert data[..i + 1][..i] == data[..i];
    ApplyOne(start, Log(targets, from, data[..i]), Store(targets[from + i], data[i]));
  }

  lemma NoneWritten(start: Memory, targets: seq<nat>, from: nat, data: seq<u8>)
    requires from + |data| <= |targets|
    ensures Wrote(start, targets, from, data, 0, start)
  {
  }

  lemma AllWritten(start: Memory, targets: seq<nat>, from: nat, data: seq<u8>, mem: Memory)
    requires Wrote(start, targets, from, data, |data|, mem)
    ensures mem == Apply(start, Log(targets, from, data))
  {
    assert data[..|data|] == data;
  }

  lemma FirmLeads(mem0: Memory, mem: Memory, cr3: u64, at: nat, targets: seq<nat>, frames: set<nat>, i: nat)
    requires Firm(mem0, cr3, at, targets, frames) && OnlyIn(mem0, mem, frames) && i < |targets|
    ensures at + i < TWO_64 && targets[i] < PHYS_LIMIT && targets[i] / PAGE_SIZE in frames
    ensures LeadsTo(mem, cr3, at + i, targets[i])
  {
    assert FirmByte(mem0, cr3, at, targets, frames, i);
    assert LeadsTo(mem, cr3, at + i, targets[i]);
  }

  lemma StoreStaysIn(mem0: Memory, mem: Memory, y: nat, v: u8, frames: set<nat>)
    requires OnlyIn(mem0, mem, frames) && y < PHYS_LIMIT && y / PAGE_SIZE in frames
    ensures StoreTo(mem, y, v) == WithByte(mem, y, v) && OnlyIn(mem0, WithByte(mem, y, v), frames)
  {
  }

  /** A store to an address that leads to `y`. */
  method StoreAt(machine: Machine, x: u64, v: u8, ghost y: nat)
    requires LeadsTo(machine.mem, machine.cr3, x, y) && y < PHYS_LIMIT
    modifies machine`mem
    ensures machine.mem == WithByte(old(machine.mem), y, v)
  {
    machine.StoreByte(x, v);
  }

  /** A store to the `k`-th byte of the buffer. */
  method StoreInBuffer(machine: Machine, at: nat, k: nat, v: u8, ghost mem0: Memory, ghost targets: seq<nat>,
                       ghost frames: set<nat>)
    requires Firm(mem0, machine.cr3, at, targets, frames) && OnlyIn(mem0, machine.mem, frames) && k < |targets|
    modifies machine`mem
    ensures machine.mem == StoreTo(old(machine.mem), targets[k], v) && OnlyIn(mem0, machine.mem, frames)
  {
    FirmLeads(mem0, machine.mem, machine.cr3, at, targets, frames, k);
    StoreStaysIn(mem0, machine.mem, targets[k], v, frames);
    StoreAt(machine, at + k, v, targets[k]);
  }

  /** What firmware does to the destination buffer, from its byte `from` on. */
  method WriteBytes(machine: Machine, at: nat, from: nat, data: seq<u8>, ghost mem0: Memory, ghost targets: seq<nat>,
                    ghost frames: set<nat>)
    requires Firm(mem0, machine.cr3, at, targets, frames) && OnlyIn(mem0, machine.mem, frames)
    requires from + |data| <= |targets|
    modifies machine`mem
    ensures machine.mem == Apply(old(machine.mem), Log(targets, from, data)) && OnlyIn(mem0, machine.mem, frames)
  {
    ghost var start := machine.mem;
    NoneWritten(start, targets, from, data);
    for i := 0 to |data|
      invariant OnlyIn(mem0, machine.mem, frames) && Wrote(start, targets, from, data, i, machine.mem)
    {
      ghost var mem := machine.mem;
      StoreInBuffer(machine, at, from + i, data[i], mem0, targets, frames);
      StoreOne(start, targets, from, data, i, mem, machine.mem);
    }
    AllWritten(start, targets, from, data, machine.mem);
  }

  lemma StoreMore(targets: seq<nat>, start: Memory, got: seq<u8>, from: nat, mem: Memory, mem': Memory, chunk: seq<u8>)
    requires from == |got| && |got| + |chunk| <= |targets| && mem == Apply(start, Log(targets, 0, got))
    requires mem' == Apply(mem, Log(targets, from, chunk))
    ensures mem' == Apply(start, Log(targets, 0, got + chunk))
  {
    LogInParts(targets, 0, got, chunk);
    ApplyParts(start, Log(targets, 0, got), Log(targets, from, chunk));
  }

  /** `got` has been read from `offset` on. */
  ghost predicate IsPart(data: seq<u8>, offset: nat, got: seq<u8>) {
    got != [] ==> offset + |got| <= |data| && forall i | 0 <= i < |got| :: got[i] == data[offset + i]
  }

  lemma NextSlice(data: seq<u8>, offset: nat, got: seq<u8>, chunk: seq<u8>)
    requires IsPart(data, offset, got)
    requires chunk != [] ==>
               offset + |got| + |chunk| <= |data| && chunk == data[offset + |got|..offset + |got| + |chunk|]
    ensures IsPart(data, offset, got + chunk)
  {
    assert got + [] == got;
  }

  /** An open file. A read delivers some of what was asked for, or fails; nothing at the end of the file. */
  class File {
    const data: seq<u8>
    var position: nat
    ghost var faults: nat // calls that failed

    constructor (data: seq<u8>)
      ensures this.data == data
    {
      this.data, position, faults := data, 0, 0;
    }

    method SetPosition(offset: nat) returns (st: Status)
      modifies this
      ensures st.Success? ==> position == offset
      ensures faults == old(faults) + if st.Success? then 0 else 1
    {
      var broken: bool := *;
      if broken {
        faults := faults + 1;
        return DeviceError;
      }
      position := offset;
      return Success;
    }

    method Read(want: nat) returns (st: Status, chunk: seq<u8>)
      modifies this
      ensures |chunk| <= want && position == old(position) + |chunk|
      ensures chunk != [] ==> position <= |data| && chunk == data[old(position)..position]
      ensures !st.Success? ==> chunk == []
      ensures st.Success? && chunk == [] ==> want == 0 || position >= |data|
      ensures faults == old(faults) + if st.Success? then 0 else 1
    {
      var broken: bool := *;
      if broken {
        faults := faults + 1;
        return DeviceError, [];
      }
      if position >= |data| || want == 0 {
        return Success, [];
      }
      var n: nat :| 0 < n <= want && n <= |data| - position;
      chunk := data[position..position + n];
      position := position + n;
      st := Success;
    }
  }

  /** One read of `file_read_at`, after `got`. */
  method ReadMore(machine: Machine, file: File, offset: nat, at: nat, done: nat, size: nat, ghost mem0: Memory,
                  ghost targets: seq<nat>, ghost frames: set<nat>, ghost got: seq<u8>)
    returns (st: Status, chunk: seq<u8>)
    requires done == |got| <= size <= |targets| && file.position == offset + done && IsPart(file.data, offset, got)
    requires Firm(mem0, machine.cr3, at, targets, frames) && OnlyIn(mem0, machine.mem, frames)
    modifies machine`mem, file
    ensures done + |chunk| <= size && file.position == offset + done + |chunk| && (!st.Success? ==> chunk == [])
    ensures OnlyIn(mem0, machine.mem, frames) && IsPart(file.data, offset, got + chunk)
    ensures machine.mem == Apply(old(machine.mem), Log(targets, done, chunk))
    ensures file.faults == old(file.faults) + if st.Success? then 0 else 1
    ensures st.Success? && chunk == [] ==> done == size || offset + done >= |file.data|
  {
    st, chunk := file.Read(size - done);
    NextSlice(file.data, offset, got, chunk);
    WriteBytes(machine, at, done, chunk, mem0, targets, frames);
  }

  /** `file_read_at`: all `size` bytes, or an error: a call failed, or the file is too short. */
  method ReadAt(machine: Machine, file: File, offset: nat, at: nat, size: nat, ghost mem0: Memory,
                ghost targets: seq<nat>, ghost frames: set<nat>) returns (st: Status, ghost got: seq<u8>)
    requires size <= |targets|
    requires Firm(mem0, machine.cr3, at, targets, frames) && OnlyIn(mem0, machine.mem, frames)
    modifies machine`mem, file
    ensures OnlyIn(mem0, machine.mem, frames) && |got| <= size && (st.Success? ==> |got| == size)
    ensures IsPart(file.data, offset, got) && machine.mem == Apply(old(machine.mem), Log(targets, 0, got))
    ensures st.Success? <==> file.faults == old(file.faults) && (size > 0 ==> offset + size <= |file.data|)
  {
    ghost var start := machine.mem;
    got := [];
    st := file.SetPosition(offset);
    if !st.Success? {
      return;
    }
    var done := 0;
    while done < size
      invariant done == |got| <= size && file.position == offset + done && OnlyIn(mem0, machine.mem, frames)
      invariant IsPart(file.data, offset, got) && machine.mem == Apply(start, Log(targets, 0, got))
      invariant file.faults == old(file.faults)
    {
      ghost var mem := machine.mem;
      var chunk;
      st, chunk := ReadMore(machine, file, offset, at, done, size, mem0, targets, frames, got);
      StoreMore(targets, start, got, done, mem, machine.mem, chunk);
      done, got := done + |chunk|, got + chunk;
      if !st.Success? {
        return;
      }
      if chunk == [] {
        break;
      }
    }
    st := if done == size then Success else EndOfFile;
  }
}
