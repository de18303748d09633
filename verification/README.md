# CHypervisor: the physical-memory stack, from boot to heap

CHypervisor is a small x86-64 hypervisor in C with its own UEFI bootloader. This project models the part of it
that decides who owns which physical memory and what every virtual address means, and proves what that part is for:

- **Frame allocator** (`kernel/page_alloc.c`): a bitmap of 64-bit words is a set of free frames; initialization
  decides every frame by the last descriptor of the firmware's map that covers it; the search is an aligned
  first fit and skipping past a used frame loses no candidate.
- **Page-table reconstruction** (`kernel/arch/x86/paging.c`): on success the processor's 4-level walk (Intel SDM
  Vol. 3A, section 4.5) over the new tables means, for every address, exactly what it should in terms of the old
  ones; the new tables are fresh frames, counted exactly; a failure never switches CR3. Every table is read and
  written through the firmware's tables, which the proof shows to stay as they were.
- **Bin allocator** (`kernel/bin_alloc.c`): seven intrusive free lists threaded through the frames themselves.
  Blocks and free nodes never overlap, every byte of every heap page is accounted for, and this survives blocks
  that `kfree` returns to a smaller bin than they came from.
- **The kernel's memory as a state machine** (`kernel/main.c:91-101`): over every run of allocator calls and
  arbitrary client writes into owned memory, no page table in force is overwritten, no translation changes and no
  block or run of frames is disturbed by anyone but its holder. In every state of every run the kernel image is where
  the bootloader put it and reads back, through the kernel's own tables, as the file says.
- **Bootloader mapper and ELF loader** (`bootloader/arch/x86/arch_x86_page.c`, `bootloader/kernel_loader.c`): tables
  made on demand keep the tree a tree. The loader stores the image through tables it has just edited; where each
  store goes is worked out from the program headers, and a completed load makes every virtual byte of the image read
  back as the file byte or as zero, for every file, if and only if a stated condition on the headers holds. Final
  permissions are those of the last program header that touches the page.
- **ExitBootServices protocol** (`bootloader/memmap.c`) against firmware that changes its map at any moment.
- **Two formatters** (`kernel/panic.c`, `kernel/log.c`): a bounded buffer and a stream, each proved against a
  rendering function. What a rendering must show is stated apart from it, for every format and all arguments that suit
  it, and the two renderings are compared on the conversions they share.

Physical memory is a sequence of 4 KiB frames of 512 words (`Mmu.Memory`); bytes are base-256 digits of words.
Unsigned 64-bit words are integers below 2^64 with the wrap written out; `&`, `|`, `~` and `<<` are defined bit by
bit. Each C file with state is a class with the file's variables as fields, and its methods are proved against
predicates over values, about which the lemmas speak.

| files | model |
|---|---|
| `Wrappers`, `Division`, `Bits` | options, facts about quotients, 64-bit words |
| `Entry`, `Mmu`, `Machine`, `AddressMap` | table entries, the walk, memory and CR3, the address conversion |
| `Bitmap`, `PageAlloc` | the frame allocator |
| `TableClone`, `BootPointers`, `Paging`, `DirectMap` | page-table reconstruction |
| `Heap`, `HeapPointers`, `Alignment`, `BinAlloc` | the bin allocator |
| `KernelRun`, `KernelMain` | the state machine and the phases of boot |
| `BootTree`, `Permissions`, `Efi`, `Mapper` | the bootloader's table tree and mapper |
| `Bytes`, `ElfFile`, `Segments`, `SegmentMap`, `ImageFill`, `ImageFrames`, `LoadCauses`, `Loader` | the ELF loader |
| `BootChain` | from the loaded image to the running kernel |
| `BootServices`, `ExitProtocol` | leaving boot services |
| `Digits`, `Format`, `FormatMeaning`, `FormatAgreement`, `PanicFormat`, `SerialFormat` | the formatters |

## Assumptions

They are `requires` clauses, because the code relies on them:

- The firmware's map records do not overlap and the scans can read them; `descriptor_size` is positive. The old
  page tables are not in memory the map calls usable (`kernel/page_alloc.c:31-34`).
- A request to `kmalloc` leaves room to round up (`n + 4095 < 2^64`); blocks are freed once, with their own size.
- The firmware maps to themselves the frames its map calls usable, and its own tables, when the kernel starts
  (`KernelMain.FirmwareMaps`), and all addresses below some limit when the bootloader starts (`Mapper.Boot.Flat`);
  tables and pages it hands out lie below that limit. That pointers go on leading to their addresses while the tables
  are edited is proved, not assumed.
- The bootloader's tables form a tree with addresses below 2^52, and no page larger than 4 KiB covers an address
  given to `page_map4k_to`, which does not look at the PS bit on the way down. No segment is mapped over the address
  of a table or of a frame that may become one (`ImageFrames.SparesTables`): the mapper would no longer reach it, and
  `ImageFrames.SparesTablesIff` shows that it reaches all of them exactly under this condition.
- Program headers: `p_filesz <= p_memsz`, `p_vaddr` and `p_paddr` agree modulo 4096, sums do not wrap,
  `e_phentsize` is the size of a program header.
- Firmware calls may fail, and firmware may take and release pages or change the memory map at every call; pages it
  hands out were not in use.
- Format strings do not end inside a conversion, arguments have the types the conversions read, a width fits an
  `int`, and the most negative 64-bit number is not printed.

## What the code does not quite do

Each of these is kept in the model as the code has it, with the exact condition proved:

- `page_alloc_bytes` rounds with a sum that can wrap: the frames cover the request if and only if the sum does not
  wrap (`PageAlloc.FramesForCovers`). A request that wraps gets a pointer to no frame at all
  (`PageAlloc.WrappedRequestGetsNothing`).
- `paging_virt2phys` takes the kernel image to lie at `KERNEL_BASE` plus its physical address. It converts an address
  of the image rightly if and only if the segment is linked so (`BootChain.ImageConvertedIff`); kernel/linker.ld links
  it 0x1F00000 higher, so every image address comes out wrong (`BootChain.LinkedImageMisconverted`).
- The physical address recovered from a converted pointer is the original one except for physical addresses whose
  direct-map address falls in the kernel-image branch (`AddressMap.RoundTrip`).
- Between `write_cr3` and the mark, `phys2virt` yields addresses the processor does not map at all
  (`DirectMap.DisagreesInBetween`).
- The comment in `kmalloc` says that a bin at least as large as the alignment is enough for any alignment. Every
  block a bin can hand out is aligned if and only if the alignment divides the bin's size
  (`Alignment.BinRouteAlignedIff`); every run the page routes can hand out is aligned if and only if the alignment
  divides the pointers to the first two (`Alignment.PageRouteAlignedIff`). `kmalloc(1, 0x30)` and `kmalloc(1, 0x5000)`
  can return unaligned memory (`Alignment.UnalignedBlock`, `Alignment.UnalignedRun`).
- `kfree` picks the bin by the size of the request alone, so a block that `kmalloc` took from a larger bin for its
  alignment shrinks; the bytes lost are counted (`BinAlloc.BinAllocator.Kfree`): half of the block
  for `kmalloc(1, 0x40)` (`Heap.HalfOfBlockLost`). Over a whole run the chunks add up to
  the heap's pages if and only if no block was freed into a smaller bin (`KernelRun.RunConserves`).
- `load_kernel_elf` fills the image through `p_paddr` after mapping it. If a segment is mapped over the addresses of
  the image itself, stores go elsewhere: every store lands at its own address if and only if the headers spare those
  addresses (`ImageFill.StoresLandIffSpared`), and the image comes out right for every file if and only if every byte
  still arrives where it belongs (`ImageFill.RightIffArrives`). A header of two pages linked one page above where they
  are loaded comes out wrong (`ImageFill.RemappedLoadsWrongBytes`).
- `mini_vsnprintf` casts the length to `int`: it is the true one if and only if the text is shorter than 2 GiB
  (`PanicFormat.LengthIsTrue`).
- `page_map4k_to` refuses a page that is mapped with bit 7 set and silently replaces one that is mapped without it
  (`Mapper.Mapper.Map4kTo`). After a success the identity map that it works through itself is as good as before if
  and only if the page was one that may be mapped elsewhere, or has been mapped to itself (`Mapper.FlatAfterMapping`).
- The protection pass does not skip empty PT_LOAD entries as the other passes do. One at an unaligned address
  touches a page (`Segments.EmptySegment`); a segment ends up with its own permissions if and only if no later such
  entry sets others there (`Loader.OwnPermissions`). An empty writable entry in the middle of an executable page makes
  it writable and not executable (`SegmentMap.EmptyEntryOverrides`).
- In `load_kernel_elf` an inner `st` hides the returned one, so a failed mapping or protection pass returns success
  without an entry point (`Loader.KernelLoader.LoadKernel`).
- `write_int_padded` puts the sign before blank padding; the length is right all the same (`Format.PaddedIntLength`).
- A newline printed by `%c` gets no carriage return: the two formatters agree if and only if there is none
  (`FormatAgreement.FormattersAgree`).

## Model

| member | source | states |
|---|---|---|
| Entry.AddressMask | kernel/arch/x86/paging.h:29 | masking with `PTE_ADDR_MASK` selects exactly the processor's address field |
| Entry.AttributeMask | kernel/arch/x86/paging.c:113 | masking with its complement selects exactly the remaining bits |
| Entry.FlagMasks | kernel/arch/x86/paging.c:80-83 | the code's tests of the P and PS bits are the processor's |
| Entry.MakePteFields | kernel/arch/x86/paging.c:51-56 | an entry built from an address and flags outside the address field has exactly that frame and those flags |
| Entry.RedirectFields | kernel/arch/x86/paging.c:89 | redirecting an entry to a clone changes its address and no other bit |
| Mmu.WalkUnaffected | kernel/arch/x86/paging.c:120-141 | writes outside the frames of a table tree change no translation, and the tree stays inside those frames |
| AddressMap.RoundTrip | kernel/arch/x86/paging.c:171-194 | `virt2phys` undoes `phys2virt` in the first mode always, and in the second for exactly the stated physical addresses |
| Bitmap.FreeMembers | kernel/page_alloc.c:45-50 | a frame is in the abstract free set exactly when its bit in its word is clear |
| Bitmap.SetUsedRemoves | kernel/page_alloc.c:52-57 | setting the bit removes exactly one frame from the free set |
| Bitmap.SetUnusedAdds | kernel/page_alloc.c:59-64 | clearing the bit adds exactly one frame to the free set |
| Bitmap.FreeSetDetermines | kernel/page_alloc.c:25 | bitmaps with the same free set are equal word for word, so whatever restores the set restores the bitmap bit for bit |
| PageAlloc.PageAllocator.BmGet | kernel/page_alloc.c:45-50 | the bit read says whether the frame is free |
| PageAlloc.PageAllocator.BmSetUsed | kernel/page_alloc.c:52-57 | exactly one frame stops being free |
| PageAlloc.PageAllocator.BmSetUnused | kernel/page_alloc.c:59-64 | exactly one frame becomes free |
| PageAlloc.PageAllocator.MarkRangeUsed | kernel/page_alloc.c:66-69 | set difference with the range, across word boundaries |
| PageAlloc.PageAllocator.MarkRangeUnused | kernel/page_alloc.c:70-73 | set union with the range, across word boundaries |
| PageAlloc.DecidedStep | kernel/page_alloc.c:93-120 | one more record keeps "the last record to hold a frame decides it: free for EfiConventionalMemory (7) and EfiBootServicesCode (3), in use otherwise" |
| PageAlloc.ScanDecides | kernel/page_alloc.c:88-120 | the scan in list order leaves every frame as the last record that holds it says, by its type number and its address range; frames no record holds stay in use, and the end is one past the last frame of a usable record |
| PageAlloc.PageAllocator.Init | kernel/page_alloc.c:80-124 | after initialization that holds of the bitmap, frame 0 is never managed and the end is the larger of 2 and one past the last usable frame |
| PageAlloc.Descriptor.CoveredHolds | kernel/page_alloc.c:95-111 | the frames the code marks are those below 128 GiB that end inside the range and not at or before its start |
| PageAlloc.Descriptor.HoldsInside | kernel/page_alloc.c:95-111 | for a range that starts on a page and does not wrap, exactly the frames inside it |
| PageAlloc.MemoryMap.RecordAt | kernel/page_alloc.c:88-92 | the records scanned are those at the multiples of the record size, as many as fit entirely into the map |
| PageAlloc.PageAllocator.ReleaseBootServicesData | kernel/page_alloc.c:126-158 | exactly the frames of records of type 4 become free, the end grows as stated next, and no map changes nothing |
| PageAlloc.ReleasedEndIsLeast | kernel/page_alloc.c:155-156 | the end after release covers the old end and every released record, and no smaller one does |
| PageAlloc.RoundingUp | kernel/page_alloc.c:165 | rounding up gives the least aligned frame not below the argument |
| PageAlloc.SkipLosesNothing | kernel/page_alloc.c:176-178 | skipping to the next aligned frame past a used one passes over no candidate |
| PageAlloc.PageAllocator.FindRun | kernel/page_alloc.c:161-181 | sound, complete and first fit: the least aligned start whose whole run is free below the end, and none is reported only if none exists |
| PageAlloc.FramesForCovers | kernel/page_alloc.c:189 | the frames computed cover the request if and only if the rounding sum does not wrap, and are the fewest that do |
| PageAlloc.AlignFramesCovers | kernel/page_alloc.c:211-218 | the alignment in frames is the least that covers the alignment asked for, and one frame if the rounding sum wraps |
| PageAlloc.WrappedRequestGetsNothing | kernel/page_alloc.c:185-196 | a request whose rounding wraps gets a non-NULL pointer, and no frame stops being free |
| PageAlloc.PageAllocator.AllocBytes | kernel/page_alloc.c:185-196 | NULL if and only if no run fits; otherwise the first fit, which alone stops being free |
| PageAlloc.PageAllocator.AllocPages | kernel/page_alloc.c:211-226 | the same with the alignment in frames, wrap of its rounding included |
| PageAlloc.PageAllocator.Alloc4kAligned | kernel/page_alloc.c:228-232 | the same for one frame |
| PageAlloc.PageAllocator.FreeBytes | kernel/page_alloc.c:198-209 | exactly the frames from the pointer's page on become free |
| PageAlloc.PageAllocator.Free4k | kernel/page_alloc.c:234-239 | exactly the pointer's frame becomes free |
| PageAlloc.PageAllocator.AllocFreeBytes | kernel/page_alloc.c:185-209 | `page_alloc_bytes(n)` followed by `page_free_bytes(p, n)` leaves every word of the bitmap as it was, for every `n`, found or not |
| PageAlloc.PageAllocator.AllocFreePages | kernel/page_alloc.c:198-226 | so does `page_alloc_pages(k, align)` followed by `page_free_bytes(p, k * 4096)`, which is the same number of frames |
| TableClone.TableCloned | kernel/arch/x86/paging.c:63-118 | a copied table whose entries are all cloned has the same translations as the original, in fresh frames only, one for each table of the tree |
| TableClone.EntryCloned | kernel/arch/x86/paging.c:83-90 | an entry redirected to a clone translates every address as before |
| BootPointers.AgreesBeforeSwitch | kernel/arch/x86/paging.c:171-194 | while reconstruction runs, whatever it has written to frames that were free, the processor finds `pa` at `phys2virt(pa)` for every address in a frame it may use |
| Paging.Paging.ReadEntry | kernel/arch/x86/paging.c:79-80 | a load through the pointer to a table, by the tables in force, yields the entry of that table |
| Paging.Paging.WriteEntry | kernel/arch/x86/paging.c:88-89 | a store through the pointer to a new table changes that entry alone, and the firmware's tables stay as they were |
| Paging.Paging.CopyTable | kernel/arch/x86/paging.c:76 | the copy of a table is made through both pointers and reaches exactly the new frame |
| Paging.Paging.AllocPtZeroed | kernel/arch/x86/paging.c:28-33 | a zeroed frame that was free and is not frame 0, or nothing changed and no frame left |
| Paging.Paging.CloneTable | kernel/arch/x86/paging.c:63-118 | success: a tree of fresh frames with the same meaning, as many as the tree has tables, nothing else touched; failure: the allocator ran out |
| Paging.Paging.CloneBelow | kernel/arch/x86/paging.c:78-92 | one turn of the cloning loops extends the cloned part by one entry |
| Paging.Paging.LinkClone | kernel/arch/x86/paging.c:83-90 | the tree below an entry is cloned and the entry redirected to the copy, or the allocator ran out |
| Paging.Paging.MapDirectRegion1g | kernel/arch/x86/paging.c:36-59 | one fresh frame becomes a table of 1 GiB pages linked into slot 273; failure changes nothing |
| Paging.Paging.CloneKernelUpperHalf | kernel/arch/x86/paging.c:120-141 | the slots above the direct map translate as in the old tables; failure only if frames ran out |
| Paging.DirectWalk | kernel/arch/x86/paging.c:47-56 | an address in slot 273 walks to its offset in the region, by a 1 GiB page whose entry has P, W, A, PS and G under a table entry with P, W, A, G and NX: data may be written there and nothing executed |
| Paging.DirectAccess | kernel/arch/x86/paging.h:20-27 | the stated bits allow writing and forbid execution, all entries on the path considered |
| Paging.TopMeaning | kernel/arch/x86/paging.c:145-165 | for every address: unmapped below slot 273, all of memory below 512 GiB as data in it, the old translation (address, level, leaf bits and table attributes) above |
| Paging.TopFinished | kernel/arch/x86/paging.c:145-165 | the new tables lie in frames that were free, exactly two plus the number of tables cloned, and no other frame has changed |
| Paging.TopFailed | kernel/arch/x86/paging.c:147-157 | a failed clone has used up all free frames, there were fewer than needed, and no frame that was in use has changed |
| Paging.Paging.Reconstruct | kernel/arch/x86/paging.c:145-165 | all of that for the whole call; CR3 is switched exactly on success |
| Paging.Paging.ReconstructAndMark | kernel/arch/x86/paging.c:204-209 | the address mode changes exactly on success |
| DirectMap.DisagreesInBetween | kernel/arch/x86/paging.c:160-209 | after the switch and before the mark it finds nothing there |
| DirectMap.AgreesAfterMark | kernel/arch/x86/paging.c:171-194 | after the mark it finds `pa` there for every `pa` below 512 GiB, and `virt2phys` is the inverse |
| DirectMap.NewTablesInForce | kernel/arch/x86/paging.c:187-194 | with the new tables in force the processor takes every heap pointer to the word the model reads and writes |
| HeapPointers.StaysInForce | kernel/arch/x86/paging.c:187-194 | and goes on doing so while no table is written |
| DirectMap.HeapPointersReach | kernel/arch/x86/paging.c:187-194 | so it does in every state of every run after boot |
| DirectMap.DataMapStays | kernel/arch/x86/paging.c:36-59 | in every state of every run after boot every address of slot 273 is mapped to its offset, may be written and may not be executed |
| Heap.ListsSurvive | kernel/bin_alloc.c:13-19 | a write inside one chunk leaves every free list intact |
| Heap.Push | kernel/bin_alloc.c:34-38 | pushing an unused, properly placed stretch keeps all lists acyclic, complete and pairwise disjoint |
| Heap.Pop | kernel/bin_alloc.c:39-45 | popping the head keeps them so and leaves the node unused |
| Heap.BinFitsBlock | kernel/bin_alloc.c:109-111 | the bin `kfree` picks from the size of the request is never larger than the block |
| Heap.HalfOfBlockLost | kernel/bin_alloc.c:105-121 | `kfree(p, 1)` of a block from `kmalloc(1, 0x40)` makes a 32-byte node of 64 bytes and loses the other 32 |
| Heap.NullIffNoRoom | kernel/bin_alloc.c:76-103 | `kmalloc` returns NULL if and only if the request is empty, its bin is empty and no frame is left, or no aligned run fits |
| Heap.GiveUpPages | kernel/bin_alloc.c:119-120 | pages no chunk uses can be given back without disturbing the heap |
| BinAlloc.BinAllocator.Init | kernel/bin_alloc.c:66-69 | the empty heap is sound and owns nothing |
| BinAlloc.BinAllocator.BinIndexFor | kernel/bin_alloc.c:25-31 | the least bin that is large enough, or none if the request exceeds them all |
| BinAlloc.BinAllocator.LoadWord | kernel/bin_alloc.c:39-45 | a load through a heap pointer, by the tables in force, yields the word behind it |
| BinAlloc.BinAllocator.StoreWord | kernel/bin_alloc.c:34-38 | a store through one changes that word alone and leaves the tables in force |
| BinAlloc.BinAllocator.PushNode | kernel/bin_alloc.c:34-38 | the node becomes the head of its list and no other list changes, in the memory the lists live in |
| BinAlloc.BinAllocator.PopNode | kernel/bin_alloc.c:39-45 | the head is taken off and is no longer a node |
| BinAlloc.BinAllocator.CutPage | kernel/bin_alloc.c:56-60 | a page is cut into nodes of exactly its 4096 bytes; live blocks and all other frames are untouched |
| BinAlloc.BinAllocator.RefillBin | kernel/bin_alloc.c:48-62 | the least free frame but frame 0 moves from the allocator to the heap and the last node of its page heads the list; failure changes nothing and means no frame is left |
| BinAlloc.BinAllocator.Kmalloc | kernel/bin_alloc.c:76-103 | NULL only for want of room; otherwise a new block of at least `n` bytes: the head of the list of the least bin with `n <= size` and `align <= size`, the last block of the least free frame if that list is empty, or the first run that fits; disjoint from all others, and aligned if the alignment is a power of two |
| BinAlloc.BinAllocator.Kfree | kernel/bin_alloc.c:105-121 | the block is out no longer and nothing outside it changes in memory; it heads the list of the bin for `n`, or its frames are free again; bytes it loses to a smaller bin are counted |
| BinAlloc.AllSpare | kernel/bin_alloc.c:56-60 | the nodes cut from a fresh page are properly placed, unused and inside it |
| Alignment.BinAligned | kernel/bin_alloc.c:80-89 | a block of a bin at least as large as a power-of-two alignment is aligned |
| Alignment.RunAligned | kernel/bin_alloc.c:96-98 | so is a run found with that alignment in frames, for alignments beyond a page |
| Alignment.BinRouteAlignedIff | kernel/bin_alloc.c:80-91 | every address a bin's list can hold is aligned if and only if the alignment divides the bin's size |
| Alignment.PageRouteAlignedIff | kernel/bin_alloc.c:96-103 | every run the page routes can find is aligned if and only if the alignment divides the direct-map pointer of frame 0 plus one step, and of one step more, as far as such runs exist |
| Alignment.ChosenAligned | kernel/bin_alloc.c:76-103 | the block `kmalloc` chooses is aligned whenever its route meets that condition |
| Alignment.UnalignedBlock | kernel/bin_alloc.c:80-91 | `kmalloc(1, 0x30)` on a sound heap with the second node of a page at the head of the 64-byte list returns a block that is not aligned |
| Alignment.UnalignedRun | kernel/bin_alloc.c:96-103 | `kmalloc(1, 0x5000)` with frame 5 free returns a run that is not aligned |
| KernelRun.StepSparesTables | kernel/bin_alloc.c:76-121 | no allocator call and no client write touches a page table in force |
| KernelRun.StepKeepsInv | kernel/page_alloc.c:160-239 | every step keeps tables, heap pages, client runs and free frames pairwise disjoint, the lists sound and the bytes balanced |
| KernelRun.RunIsSafe | kernel/main.c:91-101 | in every state of every run the invariant holds, the tables are those of the start and every address translates as at the start |
| KernelRun.StepSparesReserved | kernel/page_alloc.c:160-239 | no step changes a frame that is neither free, nor the heap's, nor in a client's run |
| KernelRun.RunSparesReserved | kernel/main.c:91-101 | so no run ever changes the kernel image, or what firmware keeps |
| KernelRun.StepKeepsBlock | kernel/bin_alloc.c:76-121 | a live block stays out and keeps its contents through any step of anyone else |
| KernelRun.RunKeepsBlock | kernel/bin_alloc.c:76-121 | and through any run of such steps |
| KernelRun.StepKeepsRun | kernel/page_alloc.c:183-239 | a client's run of frames stays held and keeps its contents through any step of anyone else |
| KernelRun.RunKeepsRun | kernel/page_alloc.c:183-239 | and through any run of such steps |
| KernelRun.RunConserves | kernel/bin_alloc.c:105-121 | over every run of a heap that has lost nothing, its chunks never exceed its pages, and add up to them if and only if no block was freed into a smaller bin |
| KernelMain.FreeIffUsable | kernel/page_alloc.c:31-38 | in a map without overlap a frame of a record is free after initialization exactly if the record is usable |
| KernelMain.FreeIsUsable | kernel/page_alloc.c:80-124 | so the free frames are exactly those that some record of type 7 or 3 holds |
| KernelMain.ReleasedLater | kernel/page_alloc.c:126-158 | what is released later was not free, so it holds no live allocation |
| KernelMain.OriginSees | kernel/main.c:91-97 | after initialization every frame reconstruction may read or take is mapped to itself, and the firmware's tables are not among the free frames |
| KernelMain.KernelMemory.BootTables | kernel/main.c:91-97 | the two phases together: they succeed if and only if the usable frames but frame 0 are at least as many as the tables needed; then new tables are in force, made of exactly that many usable frames, and all other usable frames are free; failure leaves CR3 alone |
| KernelMain.KernelMemory.StartHeap | kernel/main.c:98-101 | the BootServicesData frames are freed and the heap is empty and sound, with the tables untouched |
| KernelMain.KernelMemory.Boot | kernel/main.c:91-101 | boot succeeds if and only if there are usable frames enough for the tables; then exactly the usable frames that are not tables and the frames of the BootServicesData records are free, the invariant of the state machine holds, every address means what it should, and the direct map may be written; frames the map calls neither usable nor BootServicesData are nobody's and keep their contents, and the heap has lost nothing |
| KernelMain.KernelMemory.AllocBytes | kernel/page_alloc.c:185-196 | a call is a step of the state machine |
| KernelMain.KernelMemory.AllocPages | kernel/page_alloc.c:211-226 | a call is a step of the state machine |
| KernelMain.KernelMemory.FreeBytes | kernel/page_alloc.c:198-209 | freeing a held run is a step of the state machine |
| KernelMain.KernelMemory.Kmalloc | kernel/bin_alloc.c:76-103 | a call is a step of the state machine, with the block it chooses and its alignment |
| KernelMain.KernelMemory.Kfree | kernel/bin_alloc.c:105-121 | freeing a live block is a step of the state machine |
| KernelMain.KernelMemory.WriteBlockWord | kernel/bin_alloc.c:87-88 | a store by the holder of a block, through the tables in force, is a step of the state machine |
| KernelMain.KernelMemory.WriteRunWord | kernel/arch/x86/vmm/vmx.c:80-92 | so is a store by the holder of a run of frames, as the VMXON region gets its revision number |
| BootChain.TablesForKernel | bootloader/arch/x86/arch_x86_page.c:46-49 | the loader's tables meet what the kernel's reconstruction asks of the firmware's: they lie in their frames and map those frames and the usable ones to themselves |
| BootChain.StartKernel | kernel/main.c:91-101 | the kernel's phases on what the loader left: they succeed exactly if there are frames enough, and then every image byte in the upper half is at its physical address, with the loader's permissions, and reads back as the file says; what is free is as for `Boot` |
| BootChain.ImageSurvives | kernel/main.c:91-101 | and so it does in every state of every run |
| BootChain.ImageConvertedIff | kernel/arch/x86/paging.c:181-184 | `virt2phys` takes an address of the image to where the processor finds it if and only if the segment is linked at `KERNEL_BASE` plus its physical address |
| BootChain.LinkedImageMisconverted | kernel/linker.ld:2-5 | the image as the linker script lays it out is not: the result is 0x1F00000 too low |
| BootTree.EditIsLocal | bootloader/arch/x86/arch_x86_page.c:176-222 | an edit of one entry of the tree concerns only the range of addresses behind it |
| BootTree.NoSharedTable | bootloader/arch/x86/arch_x86_page.c:77-103 | no table has two parent entries |
| BootTree.NewTableKeepsWalks | bootloader/arch/x86/arch_x86_page.c:77-103 | linking a cleared table into an empty entry changes no translation |
| BootTree.NewTableKeepsTree | bootloader/arch/x86/arch_x86_page.c:77-103 | and keeps the tree a tree |
| BootTree.LeafEdit | bootloader/arch/x86/arch_x86_page.c:203-219 | writing the level-1 entry of a page maps exactly that page by it and leaves every other page alone |
| BootTree.PackFields | bootloader/arch/x86/arch_x86_page.c:20-35 | the bit-field entry has the frame, R/W, PS and XD asked for; the 51-bit field holds a 40-bit frame |
| BootTree.PackBits | bootloader/arch/x86/arch_x86_page.c:20-35 | bit by bit: presence, R/W, PS, address and XD as asked for, and every other bit clear |
| Mapper.ApplyAttrBits | bootloader/arch/x86/arch_x86_page.c:131-138 | an attribute assigns bits 1 and 63 and leaves every other bit of the entry alone |
| Mapper.ApplyAttrFields | bootloader/arch/x86/arch_x86_page.c:131-138 | so the address, P and PS stay, and R/W and XD are those of the attribute |
| Mapper.ApplyAttrTwice | bootloader/arch/x86/arch_x86_page.c:131-138 | the last attribute applied wins |
| Mapper.LeafForBits | bootloader/arch/x86/arch_x86_page.c:203-219 | bit by bit: the entry written for a page has P and PS, the frame, R/W and XD as the attribute says, and no other bit |
| Mapper.RunOfBytes | bootloader/arch/x86/arch_x86_page.c:165-173 | the pages of a range are those that some byte of the range is on |
| Mapper.TopCopied | bootloader/arch/x86/arch_x86_page.c:106-128 | a shallow copy of the top table is the root of a tree with the same translations |
| Mapper.EntryReached | bootloader/arch/x86/arch_x86_page.c:46-49 | the address of an entry of a table leads to that entry, in every memory with these tables |
| Mapper.PageEditKeepsFlat | bootloader/arch/x86/arch_x86_page.c:203-219 | an edit of a page that hides no table, or that leaves its addresses where they were, keeps the identity map the mapper works through |
| Permissions.OpenWalk | bootloader/arch/x86/arch_x86_page.c:94-101 | if no table entry takes a permission away, the entry that maps a page decides alone what may be done there |
| Permissions.NewTableStaysOpen | bootloader/arch/x86/arch_x86_page.c:94-101 | the entries the mapper makes for new tables take none away |
| Mapper.Mapper.SetLv4Writable | bootloader/arch/x86/arch_x86_page.c:106-128 | CR3 points at a copy of the top table in a frame that was not in use, every walk is preserved, frames in use keep their contents; failure changes nothing |
| Mapper.Mapper.AllocNewTable | bootloader/arch/x86/arch_x86_page.c:77-103 | the empty entry refers, writable and executable, to a frame that was not in use, and no translation changes; failure changes none either |
| Mapper.Mapper.DescendToLeaf | bootloader/arch/x86/arch_x86_page.c:181-203 | the walk down makes missing tables without changing a translation, however far it gets |
| Mapper.FlatAfterMapping | bootloader/arch/x86/arch_x86_page.c:203-219 | the identity map is as good after mapping a page as before if and only if the page may be mapped elsewhere or has been mapped to itself |
| Mapper.Mapper.Map4kTo | bootloader/arch/x86/arch_x86_page.c:176-222 | for every page: success: `virt` walks to `phys` with the attribute, every other page is unchanged, the tree invariant holds, and the mapper can be called again exactly under that condition; any failure changes no translation; each error exactly when (no memory: exactly if firmware turned down a request for a page, and only if `virt` was not mapped) |
| Mapper.Mapper.L1TableFor | bootloader/arch/x86/arch_x86_page.c:140-155 | the level-1 table on the path of the address, or none if the path ends above it |
| Mapper.Mapper.SetAttr4k | bootloader/arch/x86/arch_x86_page.c:157-163 | succeeds exactly on pages mapped by a level-1 entry with bit 7, and changes the permissions of that page only |
| Mapper.Mapper.ApplyAttrRange | bootloader/arch/x86/arch_x86_page.c:165-173 | it succeeds if and only if every page of the range is mapped by a level-1 entry with bit 7; then every page of the range has the attribute and its old address, and every other page is as before; failure: that holds of a prefix of the range |
| ElfFile.ReadAt | bootloader/kernel_loader.c:13-27 | it succeeds if and only if no call fails and the file is long enough; then all bytes of that part of the file, in order, have been stored where the destination's addresses lead; an error: a prefix of them; nothing else is written |
| Segments.EmptySegment | bootloader/kernel_loader.c:54-58 | an empty PT_LOAD entry touches no page if and only if its address is page-aligned |
| Segments.TouchesBytes | bootloader/kernel_loader.c:41-52 | any other PT_LOAD entry touches exactly the pages its bytes are on |
| SegmentMap.SegmentMappedInPlace | bootloader/kernel_loader.c:41-52 | every page of a mapped segment is mapped to the frame its program header says, by an entry with bit 7 |
| SegmentMap.ByteInPlace | bootloader/kernel_loader.c:41-52 | so each of its bytes is at its physical address, writable, and executable if the segment is |
| SegmentMap.ImageMappedStep | bootloader/kernel_loader.c:154-163 | mapping one more segment keeps the others in place and its pages apart from theirs |
| SegmentMap.ProtectedStep | bootloader/kernel_loader.c:193-201 | protecting one more entry keeps "the last entry that touches a page decides its permissions" |
| SegmentMap.ImageReady | bootloader/kernel_loader.c:193-201 | protection moves no byte of the image |
| SegmentMap.LastAttrIsOwn | bootloader/kernel_loader.c:193-201 | the last entry to touch a page of a segment is its own unless a later empty, unaligned entry sits there |
| SegmentMap.EmptyEntryOverrides | bootloader/kernel_loader.c:193-201 | an executable page followed by an empty writable entry in its middle ends up writable and not executable |
| Loader.KernelLoader.MapSegment | bootloader/kernel_loader.c:41-52 | success maps every page of the segment, none of which was mapped with bit 7 before; failure maps a prefix, and means that firmware refused a page or that such a page was there; no other translation changes |
| Loader.KernelLoader.MapAll | bootloader/kernel_loader.c:154-163 | all non-empty segments in place, on pages of their own; it succeeds if and only if firmware refuses nothing, no two segments share a page and no page was mapped with bit 7 before |
| Loader.KernelLoader.RangeOfImage | bootloader/kernel_loader.c:114-132 | the smallest page-aligned physical range that holds all non-empty segments, and the sentinel exactly if there is none |
| ImageFrames.RangeIsLeast | bootloader/kernel_loader.c:114-132 | no page-aligned range inside it holds the image |
| ImageFill.StoreGoesToTarget | bootloader/kernel_loader.c:154-188 | with the segments mapped, an address that was mapped to itself leads where the program headers say: to itself, or into the segment mapped over it |
| ImageFill.StoresLandIffSpared | bootloader/kernel_loader.c:154-188 | every store of the image lands at its own physical address if and only if no segment is mapped over such an address elsewhere |
| ImageFill.FilledShows | bootloader/kernel_loader.c:166-191 | after filling, every physical byte is the one that arrived there last, or as before if none did |
| ImageFill.RightIffArrives | bootloader/kernel_loader.c:166-191 | the image comes out right for every file and whatever memory held if and only if what arrives last at each byte is what belongs there |
| ImageFill.SparedArrives | bootloader/kernel_loader.c:166-191 | which is so if the headers spare the image's addresses and no two segments share a physical byte |
| ImageFill.RightIffSpared | bootloader/kernel_loader.c:166-191 | and for an image all of whose bytes come from different places of the file, sparing is necessary too |
| ImageFill.RemappedLoadsWrongBytes | bootloader/kernel_loader.c:154-188 | two pages linked one page above where they are loaded: where byte 0 belongs, byte 0x1000 ends up |
| ImageFrames.StoresFirm | bootloader/kernel_loader.c:173-188 | each store goes to a frame of the image, so none disturbs where the next one goes |
| ImageFrames.SparesTablesIff | bootloader/kernel_loader.c:154-163 | with the segments mapped, every address of a table or of a frame that may become one still leads to itself if and only if no segment was mapped over such an address |
| Loader.KernelLoader.FillFilePart | bootloader/kernel_loader.c:173-181 | the file part of the segment has been stored, byte by byte, where the tables send its physical addresses |
| Loader.KernelLoader.ClearRest | bootloader/kernel_loader.c:182-188 | zeros have been stored for the rest |
| Loader.KernelLoader.FillSegment | bootloader/kernel_loader.c:173-188 | both, or an error with only frames of the image changed |
| Loader.KernelLoader.FillAll | bootloader/kernel_loader.c:168-191 | memory is as after all those stores in order; in any case only frames of the image have changed; it succeeds if and only if no call fails and the file holds what the headers ask for |
| Loader.KernelLoader.ProtectAll | bootloader/kernel_loader.c:193-201 | every page has the permissions of the last PT_LOAD entry that touches it and is otherwise as before; it succeeds if and only if every page such an entry touches is mapped by a level-1 entry with bit 7 |
| LoadCauses.ProtectableIff | bootloader/kernel_loader.c:193-201 | once the segments are mapped, the protection pass fails exactly for an empty entry on a page that is no segment's and was not mapped with bit 7 before the load |
| LoadCauses.TakenInImage | bootloader/kernel_loader.c:154-163 | a page that stops the mapping pass was mapped with bit 7 before the load or belongs to two segments |
| Loader.PassesPlaceImage | bootloader/kernel_loader.c:153-201 | mapping, filling and protecting compose: every byte at its physical address, with final permissions, all other pages as before |
| Loader.LoadedIffRight | bootloader/kernel_loader.c:153-201 | a placed image reads back right through the tables if and only if its physical bytes are right |
| Loader.LoadedInMemory | bootloader/kernel_loader.c:153-201 | a loaded image in the terms of the ELF specification: for every entry of type 1, byte `k` is at `p_paddr + k` and is file byte `p_offset + k` below `p_filesz` and zero from there on |
| Loader.KernelLoader.Reserve | bootloader/kernel_loader.c:67-149 | the frames reserved hold all segments, were not in use and hold no table; no translation changes |
| Loader.KernelLoader.LoadKernel | bootloader/kernel_loader.c:60-212 | an entry point is returned if and only if firmware refuses no pages, no file call fails, some segment is not empty, no page of the image was taken, the file holds the segments and the empty entries sit on settable pages, and each place where it stops has its cause; then every byte `p_vaddr + k` walks to `p_paddr + k` with the final permissions and reads back as file byte `p_offset + k` or zero if and only if what the stores left is right, hence for every file if every byte arrives; the identity map survives; frames in use keep their contents; which failures return success |
| Loader.OwnPermissions | bootloader/kernel_loader.c:29-36 | a loaded segment has exactly the permissions of its flags on a page if and only if no later empty entry sets others there |
| Loader.EffectivePermissions | bootloader/kernel_loader.c:29-36 | the same of what may be done there, all entries on the path considered, if the firmware's table entries take no permission away |
| ExitProtocol.MemoryMapBuffer.Init | bootloader/memmap.c:37-57 | a live buffer of the stated size, or none exactly if the pool is exhausted or no pages were asked for |
| ExitProtocol.MemoryMapBuffer.FetchAgain | bootloader/memmap.c:74-103 | the buffer is exchanged, not leaked; success holds the firmware's current map; failure needs a failed call or a map that outgrew the new buffer |
| ExitProtocol.MemoryMapBuffer.Refresh | bootloader/memmap.c:59-110 | success: key and descriptors are the firmware's map and fit the buffer in use, which is live and none other leaks; the buffer is exchanged only for a larger one with the stated slack; failure only without a buffer, after a failed call, or if the map outgrew the slack meanwhile |
| ExitProtocol.MemoryMapBuffer.Exit | bootloader/memmap.c:133-164 | success is exactly having left boot services, with the map as it was at that moment; at most two attempts, the second only after a refusal and with a map fetched after it; failure means two refusals, a failed call or a map that outgrew the new buffer; two refusals mean the map changed after each fetch; firmware that is quiet from the start means success at the first attempt, and firmware that is quiet after one refusal success at the second |
| Digits.TextRead | kernel/panic.c:19-33 | reading the digits back gives the number, in either base and case |
| Digits.IntTextRead | kernel/panic.c:34-37 | so does reading back a signed number |
| Digits.NoLeadingZero | kernel/panic.c:22-31 | only zero starts with a zero |
| Digits.TextInAlphabet | kernel/log.c:22-24 | only digits of the base are printed, in lower case for `%x` and upper case for `%X` |
| Digits.WordDigits | kernel/panic.c:21-28 | a 64-bit number has at most 16 hexadecimal or 20 decimal digits, so the buffers suffice |
| Digits.LowDigits | kernel/panic.c:23-30 | the digit loop leaves the digits in reverse, inside the buffer |
| Digits.ToText | kernel/panic.c:19-33 | the text of the number at the destination and nothing else written |
| Digits.ToSignedText | kernel/panic.c:34-37 | the text of the signed number, at most 21 characters |
| Format.PaddedIntLength | kernel/log.c:32-50 | a padded number is exactly as long as the larger of the width and the number, sign included |
| Format.PaddedRead | kernel/log.c:19-38 | a zero-padded number reads back as the number |
| FormatMeaning.ReadBack | kernel/log.c:116-142 | an item as the author of a format writes it (flag, width, length, letter) is read as that item by either printer, and reading goes on behind it |
| FormatMeaning.ConversionPrints | kernel/log.c:145-203 | `%s` prints the string itself, on the stream with a carriage return before each newline and nothing else, and "(null)" for a null pointer only; numbers in the digits of their base and case, behind zeros or blanks up to the width and no further, sign first; `%p` 0x and 16 digits, or as many as needed in the buffer; `%c` the character |
| FormatMeaning.PlainPrints | kernel/panic.c:88-90 | literals as they are (a newline on the stream behind a carriage return), `%%` one per cent sign, an unknown conversion as it stands |
| FormatMeaning.RenderPrints | kernel/panic.c:39-96 | so for every format made of such items and all arguments that suit it, the rendering is those texts one after the other, with the arguments in order |
| PanicFormat.MiniVsnprintf | kernel/panic.c:39-96 | the terminated prefix of length min(len, cap - 1) of the rendering, every write inside the buffer, and the full length cast to `int` returned |
| PanicFormat.LengthIsTrue | kernel/panic.c:94 | that is the true length if and only if it is below 2^31, and always modulo 2^32 |
| PanicFormat.CountLs | kernel/panic.c:45 | the scan of `l` modifiers stops at the conversion letter with the right count |
| SerialFormat.SerialPort.WriteUintPadded | kernel/log.c:19-38 | the padded digits are appended to what the port has sent, and nothing if no port is set |
| SerialFormat.SerialPort.WriteIntPadded | kernel/log.c:40-50 | the same for a signed number, sign first |
| SerialFormat.SerialPort.Scan | kernel/log.c:116-142 | flags, width and length are read as the rendering function reads them, and no step of the width overflows an `int` if the width fits one |
| SerialFormat.SerialPort.Kvprintf | kernel/log.c:107-203 | the port is sent exactly the rendering |
| FormatAgreement.SameItem | kernel/log.c:115-142 | both formatters read a shared conversion alike |
| FormatAgreement.SerialText | kernel/log.c:107-203 | on shared formats the stream is the buffer text with carriage returns, short of one for each newline a `%c` prints |
| FormatAgreement.FormattersAgree | kernel/panic.c:39-96 | the two texts agree up to `\r\n` if and only if no `%c` prints a newline |

## Left out

- Port I/O, MSR, CR and CPUID access, the VMX instructions, PIC, serial hardware and UEFI console: effects without visible semantics.
- Loader.EffectivePermissions: asks that the firmware's table entries are writable and executable; with others the bits of the level-1 entry are as stated all the same (`Loader.OwnPermissions`).
- Firmware's own use of low addresses: a segment may be mapped over one whose frame firmware holds, and what firmware code does then is not part of this model.
- Loader.KernelLoader.MapSegment: asks of each page what `Mapper.Mapper.Map4kTo` shows the next call to need; what the code does once it has hidden a table from itself is not modelled, here and in `MapAll` and `LoadKernel`.
- Machine.Machine.StoreWord: a store needs a mapping only. That the processor refuses a store to a read-only page and sets accessed and dirty bits is not modelled; that the kernel's direct map may be written is `DirectMap.DataMapStays`.
- TLB flushes (`invlpg`, `load_cr3`): a walk reads memory as it is.
- `asm_vmentry`/`asm_vmexit`, `vcpu_loop`, VMCS constants, GDT and IDT packing, interrupt stubs: not part of the memory stack.
- The kernel's own globals (bitmap, list heads) are fields beside the modelled memory; that the frames they occupy are never free follows from the firmware's map, not from this model.
- `memcpy`, `memset` and `clear_page` of a table are one step for the whole page, made through its pointer; the snapshot of the boot information (kernel/bootinfo.c) is taken as given.
- Paging.Paging.CloneTable: models `clone_lv1`, `clone_lv2` and `clone_lv3` as one method over the level; at level 1 the entry test is always false.
- Loader.KernelLoader.LoadKernel: starts from the program headers; opening the file, checking the ELF magic and class, reading the header table and the pool calls around it are not modelled.
- Loader.KernelLoader.MapNextPage: writes the loop of `map_segment_for_load` over page numbers; the byte offset is the page number times 4096.
- `bi.memory_map` in bootloader/boot.c is a copy taken before the final refresh; the protocol is about `mm`.
- ExitProtocol.MemoryMapBuffer.Refresh: sizes do not wrap, and a failed AllocatePool leaves the pointer null, which UEFI leaves open.
- `memmap_print` and `memmap_destroy`: printing, and one call of FreePool.
- PanicFormat.MiniVsnprintf: the counter is unbounded; a `size_t` would wrap after 2^64 characters.
- `write_scope_field`, the log levels and `panic` itself around the formatters: prefixes that would add only easy members.
