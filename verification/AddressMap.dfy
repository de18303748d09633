/** Physical/virtual address conversion (kernel/arch/x86/paging.c:167-209): the identity before the new
    tables are in force, an offset into the direct map afterwards. Sums and differences wrap at 64 bits. */
module AddressMap {
  import opened Bits

  const DIRECT_MAP_BASE: u64 := 0xFFFF_8880_0000_0000
  const DIRECT_MAP_SIZE: u64 := 0x80_0000_0000
  const KERNEL_BASE: u64 := 0xFFFF_FFFF_8000_0000

  /** `paging_phys2virt`. */
  function PhysToVirt(reconstructed: bool, pa: u64): u64 {
    if !reconstructed then pa else (pa + DIRECT_MAP_BASE) % TWO_64
  }

  /** `paging_virt2phys`. */
  function VirtToPhys(reconstructed: bool, va: u64): u64 {
    if !reconstructed then va
    else if va < KERNEL_BASE then (va - DIRECT_MAP_BASE) % TWO_64
    else va - KERNEL_BASE
  }

  /** The conversions undo each other in the first mode always, and in the second exactly for the
      physical addresses whose direct-map address is not taken for one of the kernel image. */
  lemma RoundTrip(reconstructed: bool, pa: u64)
    ensures VirtToPhys(reconstructed, PhysToVirt(reconstructed, pa)) == pa
            <==> !reconstructed || pa < KERNEL_BASE - DIRECT_MAP_BASE || pa >= TWO_64 - DIRECT_MAP_BASE
  {
    if reconstructed {
      var va := PhysToVirt(true, pa);
      assert va == if pa < TWO_64 - DIRECT_MAP_BASE then pa + DIRECT_MAP_BASE else pa + DIRECT_MAP_BASE - TWO_64;
    }
  }

  /** `g_mapping_reconstructed`. */
  class AddressMode {
    var reconstructed: bool

    constructor ()
      ensures !reconstructed
    {
      reconstructed := false;
    }
  }
}
