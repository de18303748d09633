/** Fetching the memory map and leaving boot services with it (bootloader/memmap.c), against firmware that
    may change the map at any moment. Sizes are bounded by the memory of the machine and do not wrap. */
module ExitProtocol {
  import opened Bytes
  import opened Efi
  import opened BootServices
  import opened Wrappers

  const EFI_PAGE_SIZE: nat := 4096

  /** `MEMORY_MAP`; a null pointer is `None`. */
  class MemoryMapBuffer {
    const firmware: Services
    var bufferSize: nat
    var descriptors: Option<nat>
    var mapSize: nat
    var mapKey: nat
    var descriptorSize: nat
    var descriptorVersion: nat

    constructor (firmware: Services)
      ensures this.firmware == firmware && descriptors == None
    {
      this.firmware, descriptors := firmware, None;
      bufferSize, mapSize, mapKey, descriptorSize, descriptorVersion := 0, 0, 0, 0, 0;
    }

    /** The buffer, if there is one, is live and as large as recorded. */
    ghost predicate Valid()
      reads this, firmware
    {
      && firmware.Valid()
      && (descriptors.Some? ==> descriptors.value in firmware.pool && |firmware.pool[descriptors.value]| == bufferSize)
    }

    /** The fields describe the map the firmware had under `mapKey`. */
    ghost predicate HoldsMap()
      reads this, firmware
    {
      && Valid() && descriptors.Some? && mapSize <= bufferSize
      && mapKey in firmware.maps && firmware.pool[descriptors.value][..mapSize] == firmware.maps[mapKey]
      && descriptorSize == firmware.descriptorSize && descriptorVersion == firmware.descriptorVersion
    }

    /** `memmap_init`. */
    method Init(pages: nat) returns (st: Status)
      requires firmware.Valid() && !firmware.exited
      modifies this, firmware
      ensures st.InvalidParameter? <==> pages == 0
      ensures pages > 0 ==> Valid() && !firmware.exited && bufferSize == pages * 4096
      ensures st.Success? <==> pages > 0 && firmware.faults == old(firmware.faults)
      ensures st.Success? ==> descriptors.Some? && descriptors.value !in old(firmware.pool)
      ensures pages > 0 && !st.Success? ==> st.OutOfResources? && descriptors == None
    {
      if pages == 0 {
        return InvalidParameter;
      }
      bufferSize := pages * EFI_PAGE_SIZE;
      mapSize, mapKey, descriptorSize, descriptorVersion, descriptors := bufferSize, 0, 0, 0, None;
      var at;
      st, at := firmware.AllocatePool(bufferSize);
      if !st.Success? {
        return OutOfResources;
      }
      descriptors := Some(at);
    }

    /** The pool buffers that are not this one's. */
    ghost function Others(): map<nat, seq<u8>>
      reads this, firmware
    {
      if descriptors.Some? then firmware.pool - {descriptors.value} else firmware.pool
    }

    /** Exchange the buffer for one of `size` bytes. */
    method ExchangeBuffer(size: nat) returns (st: Status)
      requires Valid() && descriptors.Some? && !firmware.exited
      modifies this`descriptors, this`bufferSize, this`mapSize, firmware
      ensures Valid() && firmware.Drifted() && Others() == old(Others())
      ensures bufferSize == mapSize == size && (st.Success? <==> descriptors.Some?)
      ensures st.Success? || st.OutOfResources?
      ensures firmware.faults == old(firmware.faults) + if st.Success? then 0 else 1
    {
      firmware.FreePool(descriptors.value);
      descriptors, bufferSize, mapSize := None, size, size;
      var at;
      st, at := firmware.AllocatePool(bufferSize);
      if st.Success? {
        descriptors := Some(at);
      }
    }

    /** The second half of `memmap_refresh`: exchange the buffer for one of `size` bytes and fetch again. */
    method FetchAgain(size: nat) returns (st: Status)
      requires Valid() && descriptors.Some? && !firmware.exited
      requires descriptorSize == firmware.descriptorSize && descriptorVersion == firmware.descriptorVersion
      modifies this, firmware
      ensures Valid() && firmware.Drifted() && Others() == old(Others()) && old(firmware.faults) <= firmware.faults
      ensures bufferSize == size && !st.InvalidParameter?
      ensures st.Success? ==> HoldsMap() && mapKey == firmware.key
      ensures !st.Success? ==> firmware.faults > old(firmware.faults) || |firmware.contents| > size
    {
      st := ExchangeBuffer(size);
      if st.Success? {
        st, mapSize, mapKey := firmware.GetMemoryMap(mapSize, descriptors.value);
      }
    }

    /** The buffer is as it was, or was exchanged for one with the required slack over a map that did not fit. */
    twostate predicate Resized()
      reads this, firmware
    {
      bufferSize == old(bufferSize) ||
      exists k | k in firmware.maps && |firmware.maps[k]| > old(bufferSize) ::
        bufferSize == |firmware.maps[k]| + 2 * firmware.descriptorSize + 4096
    }

    /** `memmap_refresh`: one attempt with the buffer at hand, one with a larger buffer. It fails only if
        there is no buffer, a call fails, or the map outgrows the slack while the buffer is exchanged. */
    method Refresh() returns (st: Status)
      requires Valid() && !firmware.exited
      modifies this, firmware
      ensures Valid() && firmware.Drifted() && Others() == old(Others()) && old(firmware.faults) <= firmware.faults
      ensures Resized() && (bufferSize == old(bufferSize) ==> descriptors == old(descriptors))
      ensures firmware.key == old(firmware.key) && |firmware.contents| <= old(bufferSize) ==>
              bufferSize == old(bufferSize)
      ensures st.InvalidParameter? <==> old(descriptors).None?
      ensures st.Success? ==> HoldsMap() && mapKey == firmware.key
      ensures !st.Success? && old(descriptors).Some? ==>
                firmware.faults > old(firmware.faults) || Outgrown(old(bufferSize))
    {
      if descriptors.None? {
        return InvalidParameter;
      }
      var size, key := bufferSize, 0;
      st, size, key := firmware.GetMemoryMap(size, descriptors.value);
      descriptorSize, descriptorVersion := firmware.descriptorSize, firmware.descriptorVersion;
      if st.BufferTooSmall? {
        st := FetchAgain(size + 2 * descriptorSize + EFI_PAGE_SIZE);
      } else {
        mapSize, mapKey := size, key;
      }
    }

    /** The map has changed and is larger than a buffer that was exchanged for one with a page of slack over `size`. */
    twostate predicate Outgrown(size: nat)
      reads this, firmware
    {
      firmware.key > old(firmware.key) && |firmware.contents| > bufferSize > size + 4096
    }

    /** The calls of `ExitBootServices` since the log had `n` entries. */
    ghost function Since(n: nat): seq<Attempt>
      reads firmware
    {
      if n <= |firmware.attempts| then firmware.attempts[n..] else []
    }

    /** `exit_boot_services_with_map`. Success means boot services are over and the buffer holds the map as
        it was at that moment. There is a second attempt only after the first was refused, with a map fetched
        after the refusal; two refusals mean that the map changed twice after it was fetched. Nothing else makes it
        fail but a fault or a map that outgrows the new buffer, so if the map stays as it was at the refusal the
        second attempt succeeds. */
    method Exit() returns (st: Status)
      requires Valid() && !firmware.exited
      modifies this, firmware
      ensures Valid() && Others() == old(Others())
      ensures firmware.exited <==> st.Success?
      ensures st.Success? ==> HoldsMap() && mapKey == firmware.key
      ensures old(firmware.attempts) <= firmware.attempts
      ensures var tries := Since(|old(firmware.attempts)|);
              && |tries| <= 2
              && (|tries| > 0 ==> old(firmware.key) <= tries[0].given)
              && (|tries| == 2 ==> tries[0].given < tries[0].current <= tries[1].given)
              && (st.Success? <==> tries != [] && tries[|tries| - 1].given == tries[|tries| - 1].current)
              && (!st.Success? && |tries| == 2 ==>
                    tries[1].given < tries[1].current && HoldsMap() && mapKey == tries[1].given)
      ensures old(descriptors).Some? && firmware.faults == old(firmware.faults) && firmware.key == old(firmware.key) ==>
                st.Success? && |Since(|old(firmware.attempts)|)| == 1
      ensures old(descriptors).None? ==> st.InvalidParameter? && firmware.attempts == old(firmware.attempts)
      ensures old(descriptors).Some? && !st.Success? ==>
                || |Since(|old(firmware.attempts)|)| == 2
                || firmware.faults > old(firmware.faults) || Outgrown(old(bufferSize))
      ensures var tries := Since(|old(firmware.attempts)|);
              tries != [] && firmware.faults == old(firmware.faults) && firmware.key == tries[0].current ==>
                st.Success? && |tries| == if tries[0].given == tries[0].current then 1 else 2
    {
      st := Refresh();
      if !st.Success? {
        return;
      }
      st := firmware.ExitBootServices(mapKey);
      if !st.Success? {
        var again := Refresh();
        if !again.Success? {
          return again;
        }
        st := firmware.ExitBootServices(mapKey);
      }
    }
  }
}
