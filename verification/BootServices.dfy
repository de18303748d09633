/** UEFI boot services as far as leaving them goes (UEFI 2.10, sections 7.2 and 7.4.6). Between any two
    calls, and in pool calls themselves, the firmware may change its memory map; every change takes a new
    key, larger than all before it, so a key names one state of the map. */
module BootServices {
  import opened Bytes
  import opened Efi

  /** The key a caller gave, and the firmware's own at that moment. */
  datatype Attempt = Attempt(given: nat, current: nat)

  class Services {
    const descriptorSize: nat
    const descriptorVersion: nat
    var key: nat
    var contents: seq<u8>              // the current memory map
    ghost var maps: map<nat, seq<u8>>  // every state of the map so far, by key
    var pool: map<nat, seq<u8>>        // live pool buffers, by address
    ghost var freed: set<nat>          // addresses of buffers given back
    var exited: bool
    ghost var attempts: seq<Attempt>   // calls of ExitBootServices
    ghost var faults: nat              // failures not explained by the map or the key

    constructor (descriptorSize: nat, descriptorVersion: nat, key: nat, contents: seq<u8>)
      requires descriptorSize > 0
      ensures Valid() && pool == map[] && !exited && attempts == []
    {
      this.descriptorSize, this.descriptorVersion := descriptorSize, descriptorVersion;
      this.key, this.contents, maps := key, contents, map[key := contents];
      pool, freed, exited, attempts, faults := map[], {}, false, [], 0;
    }

    ghost predicate Valid()
      reads this
    {
      && descriptorSize > 0 && 0 !in pool && pool.Keys !! freed
      && key in maps && maps[key] == contents && forall k | k in maps :: k <= key
    }

    /** What firmware does on its own: the past stays, the key grows if the map changes. */
    twostate predicate Drifted()
      reads this
    {
      && old(key) <= key && (key == old(key) ==> contents == old(contents))
      && (forall k | k in old(maps) :: k in maps && maps[k] == old(maps)[k])
      && exited == old(exited) && attempts == old(attempts)
    }

    method Interfere()
      requires Valid()
      modifies `key, `contents, `maps
      ensures Valid() && Drifted()
    {
      var change: bool, step: nat, next: seq<u8> := *, *, *;
      if change && step > 0 {
        key, contents := key + step, next;
        maps := maps[key := next];
      }
    }

    /** `AllocatePool`. */
    method AllocatePool(size: nat) returns (st: Status, buffer: nat)
      requires Valid() && !exited
      modifies this
      ensures Valid() && Drifted() && freed <= old(freed)
      ensures st.Success? ==>
                && buffer != 0 && buffer !in old(pool) && buffer !in freed && faults == old(faults)
                && exists data: seq<u8> | |data| == size :: pool == old(pool)[buffer := data]
      ensures !st.Success? ==>
                st.OutOfResources? && pool == old(pool) && freed == old(freed) && faults == old(faults) + 1
    {
      Interfere();
      var full: bool, at: nat, data: seq<u8> := *, *, *;
      if full || at == 0 || at in pool || |data| != size {
        faults := faults + 1;
        return OutOfResources, 0;
      }
      pool, freed := pool[at := data], freed - {at};
      return Success, at;
    }

    /** `FreePool`. */
    method FreePool(buffer: nat)
      requires Valid() && !exited && buffer in pool
      modifies this
      ensures Valid() && Drifted() && pool == old(pool) - {buffer} && freed == old(freed) + {buffer} &&
              faults == old(faults)
    {
      Interfere();
      pool, freed := pool - {buffer}, freed + {buffer};
    }

    /** `GetMemoryMap` into a live buffer of at least `size` bytes. */
    method GetMemoryMap(size: nat, buffer: nat) returns (st: Status, length: nat, mapKey: nat)
      requires Valid() && !exited && buffer in pool && size <= |pool[buffer]|
      modifies this
      ensures Valid() && Drifted() && freed == old(freed)
      ensures buffer in pool && pool == old(pool)[buffer := pool[buffer]] && |pool[buffer]| == |old(pool)[buffer]|
      ensures st.Success? || st.BufferTooSmall? || st.DeviceError?
      ensures st.Success? || st.BufferTooSmall? ==> faults == old(faults) && length == |contents|
      ensures st.Success? <==> faults == old(faults) && |contents| <= size
      ensures st.BufferTooSmall? ==> |contents| > size
      ensures st.Success? ==> mapKey == key && pool[buffer][..length] == contents
      ensures st.DeviceError? ==> length == size && faults == old(faults) + 1
    {
      Interfere();
      var broken: bool, other: nat := *, *;
      if broken {
        faults := faults + 1;
        return DeviceError, size, other;
      }
      if |contents| > size {
        return BufferTooSmall, |contents|, other;
      }
      pool := pool[buffer := contents + pool[buffer][|contents|..]];
      return Success, |contents|, key;
    }

    /** `ExitBootServices`: succeeds exactly if the key is the current one. */
    method ExitBootServices(mapKey: nat) returns (st: Status)
      requires Valid() && !exited
      modifies this
      ensures Valid() && old(key) <= key && (key == old(key) ==> contents == old(contents))
      ensures forall k | k in old(maps) :: k in maps && maps[k] == old(maps)[k]
      ensures st.Success? <==> mapKey == key
      ensures exited == st.Success? && attempts == old(attempts) + [Attempt(mapKey, key)]
      ensures pool == old(pool) && freed == old(freed) && faults == old(faults)
    {
      Interfere();
      attempts := attempts + [Attempt(mapKey, key)];
      if mapKey != key {
        return InvalidParameter;
      }
      exited := true;
      return Success;
    }
  }
}
