/** What the bootloader asks of UEFI for pages (UEFI 2.10, sections 2.3.4 and 7.2). Memory below `limit` frames is
    mapped to itself when the loader starts, and pages come from there. Besides the pages it has handed out and
    those it keeps for good, firmware has others in use, and which ones changes from call to call. */
module Efi {
  import opened Bitmap
  import opened Wrappers

  datatype Status =
    | Success
    | InvalidParameter
    | OutOfResources
    | NotFound
    | AlreadyStarted
    | LoadError
    | EndOfFile
    | DeviceError
    | BufferTooSmall

  class PageFirmware {
    const limit: nat
    var held: set<nat>
    ghost var refusals: nat // requests turned down

    constructor (limit: nat, held: set<nat>)
      ensures this.limit == limit && this.held == held
    {
      this.limit, this.held, refusals := limit, held, 0;
    }

    /** `AllocatePages(AllocateAnyPages, ..., 1)`: any frame not in use, or a failure. */
    method AllocateAnyPage() returns (frame: Option<nat>)
      modifies this
      ensures frame.None? ==> held == old(held) && refusals == old(refusals) + 1
      ensures frame.Some? ==>
                && 0 < frame.value < limit && frame.value !in old(held)
                && held == old(held) + {frame.value} && refusals == old(refusals)
    {
      var willing: bool, others: set<nat> := *, *;
      if willing && exists f: nat :: 0 < f < limit && f !in held && f !in others {
        var f: nat :| 0 < f < limit && f !in held && f !in others;
        held := held + {f};
        return Some(f);
      }
      refusals := refusals + 1;
      return None;
    }

    /** `AllocatePages(AllocateAddress, ..., count)`: exactly the run at `start`, or a failure. */
    method AllocateRunAt(start: nat, count: nat) returns (st: Status)
      modifies this
      ensures !st.Success? ==> held == old(held) && refusals == old(refusals) + 1
      ensures st.Success? ==>
                && start + count <= limit && Run(start, count) !! old(held)
                && held == old(held) + Run(start, count) && refusals == old(refusals)
    {
      var willing: bool, others: set<nat> := *, *;
      if !willing || start + count > limit {
        refusals := refusals + 1;
        return NotFound;
      }
      var taken: set<nat> := {};
      for i := 0 to count
        invariant taken == Run(start, i) && Run(start, i) !! held && refusals == old(refusals)
      {
        if start + i in held || start + i in others {
          refusals := refusals + 1;
          return NotFound;
        }
        taken := taken + {start + i};
      }
      held := held + taken;
      return Success;
    }
  }
}
