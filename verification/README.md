# A verified model of the memory core of a small x86-64 kernel

This project models, in Dafny, the core of the "writing an OS in Rust" kernel
(version 1, with the bump allocator of version 2). It covers:

- **Frames and the area frame allocator.** The boot-time allocator hands out physical 4 KiB frames from the memory areas the boot loader reports. It skips the frames of the kernel image and of the boot information, and it moves on to the area with the lowest start address once the current one is used up.
- **Pages and page tables.** Canonical virtual addresses and the four 9-bit table indices. 64-bit table entries and their flags. The level hierarchy, where only levels 4, 3 and 2 have child tables. The recursive-mapping address arithmetic of `next_table_address`.
- **The mapper.** `translate` with the 1 GiB and 2 MiB huge-page shortcuts, `map_to`, `map`, `identity_map` and `unmap`, all on a physical memory of 512-entry tables.
- **Editing an inactive table.** The `TemporaryPage` and its three-frame allocator. The `with` protocol of `ActivePageTable`, which redirects the recursive slot 511 of the active level 4 table to an inactive table and restores it afterwards. `switch`, which loads CR3. `InactivePageTable::new`.
- **Allocators built on top.** The guarded kernel-stack allocator, and the bump heap allocators with `align_up`, allocation counting and roll-back on free.
- **The x86_64 crate's encodings.** `VirtAddr`, `PageTableEntry`, `PageTableIndex`, `PageOffset`, sized pages and page ranges, GDT descriptors and segment selectors. Also IDT gate entries and the end-of-interrupt routing of the two chained 8259 PICs.
- **Multiboot2 boot information.** The decoders defined in section 3.6 of the Multiboot2 Specification, version 2.0: tag types, the tag iterator, `load`, the memory map and EFI memory map tags, and the ELF-sections tag.

Integers are unbounded in Dafny, so every Rust integer type is stated as a bound (`u8` to `u64` in module `Base`). The model assumes a debug build: arithmetic that overflows, a failed `assert!` and an explicit `panic!` all become an `Err` result carrying the panic message. Shifts and `as` casts wrap, and the model writes them out with `%`. Bit operations are defined on natural numbers one bit at a time (`Bits`, `BitFields`).

State is functional. A `Memory` is a map from frames to 512-entry tables, and a frame that is not in the map reads as the zero table. A `Machine` is that memory plus CR3. Every mutating operation returns the new state, or the error it aborts with.

The source reaches page tables through the recursive window of slot 511. The model instead reads and writes the tables at their frames. Module `PageWalk` justifies this: it is an independent four-level walk of the raw entry bits, as the processor performs it. It proves two things:
- when slot 511 points back at its own table, the window addresses `next_table_address` computes land on exactly those frames;
- the kernel's `translate` agrees with the walk.

## Model

| member | source | states |
|---|---|---|
| Frames.ContainingAddress | v1/src/memory/mod.rs:27-31 | the frame returned holds the address: its start is at or below it and less than one page (4096 bytes) below |
| Frames.StartAddress | v1/src/memory/mod.rs:33-35 | a frame's start address is a multiple of the page size |
| Frames.ContainingStartRoundTrip | v1/src/memory/mod.rs:27-35 | the frame holding a frame's start address is that frame |
| Frames.ContainingAddressIff | v1/src/memory/mod.rs:27-35 | an address belongs to frame f exactly when it lies in f's 4096-byte window, in both directions |
| Frames.Next | v1/src/memory/mod.rs:56-64 | the iterator ends exactly when start has passed end; otherwise it yields start and moves start up by one frame, keeping end |
| Frames.CollectIsRange | v1/src/memory/mod.rs:43-64 | `range_inclusive(start, end)` yields start, start+1, …, end in ascending order: exactly end − start + 1 frames, none when start > end |
| AreaFrameAllocator.MaxLast | v1/src/memory/area_frame_allocator.rs:71-86 | an upper bound on the last frame of every area, which bounds how far the cursor can move |
| AreaFrameAllocator.MinEligible | v1/src/memory/area_frame_allocator.rs:71-80 | the area chosen is one whose last frame is at or after the cursor and whose start address is the lowest among those; none is chosen exactly when no area reaches the cursor |
| AreaFrameAllocator.ChooseNextArea | v1/src/memory/area_frame_allocator.rs:71-86 | the current area becomes the chosen area; the cursor never moves down and moves to the area's first frame only when it was below it; the reserved ranges and the area list are unchanged |
| AreaFrameAllocator.AreaLastAddress | v1/src/memory/area_frame_allocator.rs:76 | `start_address + size - 1` aborts a debug build exactly on the areas that are not well formed: with `ADD_OVERFLOW` when the sum leaves `u64`, with `SUB_OVERFLOW` when it is 0. Otherwise it is the area's last byte |
| AreaFrameAllocator.FirstIllFormed | v1/src/memory/area_frame_allocator.rs:72-79 | the first area, in slice order, on which that arithmetic aborts. It is absent exactly when every area is well formed |
| AreaFrameAllocator.New | v1/src/memory/area_frame_allocator.rs:51-86 | `new` aborts exactly when some area is not well formed, with the abort of the first such area. Otherwise the new allocator satisfies the state invariant, records the frames of the kernel and boot-information bounds, and starts at the lowest eligible area. Every frame below its cursor lies in no area |
| AreaFrameAllocator.SkippedFramesOutsideAreas | v1/src/memory/area_frame_allocator.rs:71-86 | the frames the cursor jumps over when an area is chosen belong to no area |
| AreaFrameAllocator.ContainingMonotone | v1/src/memory/mod.rs:27-31 | a higher address is never in a lower frame |
| AreaFrameAllocator.SameConfigSameUsable | v1/src/memory/area_frame_allocator.rs:17-43 | whether a frame may be handed out depends only on the areas and the kernel and boot-information ranges, not on the cursor |
| AreaFrameAllocator.AllocateFrame | v1/src/memory/area_frame_allocator.rs:17-43 | a returned frame is the lowest frame at or after the cursor that lies in some area and outside both reserved ranges, and the cursor moves one past it; None means no such frame exists at or after the cursor; the invariant is kept |
| AreaFrameAllocator.AllocatedAfterSkip | v1/src/memory/area_frame_allocator.rs:25-39 | a skip over frames that cannot be handed out does not change what the recursive call returns |
| AreaFrameAllocator.StaleAreaStep | v1/src/memory/area_frame_allocator.rs:25-26 | choosing a new area once the current one is used up keeps the invariant and skips no usable frame. The cursor either advances, or stays inside the newly chosen area |
| AreaFrameAllocator.EmptyAreaYieldsFrame | v1/src/memory/area_frame_allocator.rs:17-86 | the sole area (0x1800, size 0) is accepted, and the first allocation hands out frame 1, which holds no byte of it |
| AreaFrameAllocator.ReservedSkipStep | v1/src/memory/area_frame_allocator.rs:27-34 | jumping past the kernel or the boot information strictly advances the cursor, keeps the invariant and skips no usable frame |
| AreaFrameAllocator.SuccessiveFramesIncrease | v1/src/memory/area_frame_allocator.rs:27-39 | two successive allocations return strictly increasing, hence distinct, frames, neither in the kernel nor in the boot information |
| BitFields.FitsBelow | v1/src/structures/idt.rs:176 | a value fits in n bits, the condition `set_bits` asserts, exactly when it is below 2^n |
| BitFields.GetBitsBit | v1/src/xxx/registers/segmentation.rs:26 | bit j of `get_bits(lo..hi)` is bit lo + j of the word inside the range and clear outside it |
| BitFields.GetBitsFits | v1/src/structures/gdt.rs:39-44 | a range read fits in the width of the range |
| BitFields.SetBitsBit | v1/src/structures/gdt.rs:39-44 | `set_bits(lo..hi, x)` gives the bits of x inside the range and keeps every bit outside it |
| BitFields.SetBitBit | v1/src/structures/idt.rs:131 | `set_bit(k, b)` makes bit k equal to b and changes no other bit |
| BitFields.SetBitBelow | v1/src/structures/idt.rs:131 | setting a bit inside a w-bit word keeps it a w-bit word |
| BitFields.SetBitsBelow | v1/src/structures/gdt.rs:39-44 | writing a range inside a w-bit word keeps it a w-bit word |
| BitFields.GetSetSame | v1/src/structures/gdt.rs:39-44 | reading back a range just written gives the value written, when it fits |
| BitFields.GetSetOther | v1/src/structures/gdt.rs:39-44 | writing a range leaves every disjoint range unchanged |
| BitFields.SetLowBits | v1/src/structures/idt.rs:176 | writing the low k bits replaces the remainder modulo 2^k and keeps the rest |
| BitFields.SetLowBitsDivMod | v1/src/structures/idt.rs:176 | after writing the low k bits the remainder modulo 2^k is the value written and the quotient is unchanged |
| BitFields.GetBitsLow | v1/src/xxx/registers/segmentation.rs:26 | the range 0..n is the remainder modulo 2^n |
| BitFields.GetBitsShr | v1/src/xxx/registers/segmentation.rs:26 | a range read is a right shift by lo masked to the range's width |
| BitFields.GetBitsDiv | v1/src/xxx/registers/segmentation.rs:26 | a range read is the quotient by 2^lo taken modulo 2^(hi − lo) |
| BitFields.GetBitsWhole | v1/src/structures/gdt.rs:44 | a word that fits in w bits is its own range 0..w |
| BitFields.GetBitsJoin | v1/src/structures/gdt.rs:39-44 | two adjacent ranges read together make up the range they span |
| Segmentation.LevelValue | v1/src/xxx/mod.rs:14-21 | a privilege level's discriminant is below 4 |
| Segmentation.FromU16 | v1/src/xxx/mod.rs:23-33 | values 0 to 3 give the level whose discriminant they are; every other value panics with "invalid privilege level" |
| Segmentation.FromLevelValue | v1/src/xxx/mod.rs:14-33 | converting a level to its discriminant and back gives the same level |
| Segmentation.Pack | v1/src/xxx/registers/segmentation.rs:15-17 | `index << 3 \| rpl` on u16 drops index bits 13 to 15; for an RPL below 8 it is (index mod 2^13)·8 + rpl |
| Segmentation.ShiftedIndex | v1/src/xxx/registers/segmentation.rs:16 | the shifted index has its low three bits clear, so or-ing a three-bit RPL into it adds it |
| Segmentation.RawNew | v1/src/structures/mod.rs:22-25 | for an RPL below 8 the selector's quotient by 8 is the index modulo 2^13 and its remainder is the RPL |
| Segmentation.New | v1/src/xxx/registers/segmentation.rs:15-17 | the selector is (index mod 2^13)·8 plus the level's discriminant |
| Segmentation.Index | v1/src/xxx/registers/segmentation.rs:20-22 | the index is the selector divided by 8, always below 2^13 |
| Segmentation.Rpl | v1/src/xxx/registers/segmentation.rs:25-27 | the level's discriminant is the selector's low two bits, so `from_u16` never panics here |
| Segmentation.IndexRplOfNew | v1/src/xxx/registers/segmentation.rs:15-27 | a selector built by `new` gives back its level and its index modulo 2^13 |
| Segmentation.NewRoundTrip | v1/src/xxx/registers/segmentation.rs:15-27 | for an index below 2^13, `index` and `rpl` undo `new` |
| Segmentation.NewOfParts | v1/src/xxx/registers/segmentation.rs:15-27 | a selector whose table-indicator bit is clear is rebuilt by `new` from its index and level |
| Segmentation.RawNewAgrees | v1/src/structures/mod.rs:22-25 | the untyped constructor the GDT uses and the typed one agree on every level |
| Pics.HandlesInterrupt | v1/src/pic.rs:13-15 | the answer is whether the controller serves the vector (offset ≤ id < offset + 8); the `u8` sum overflows, and a debug build aborts, exactly when the offset is at most the id and offset + 8 exceeds 255 |
| Pics.HandlesInterruptTotal | v1/src/pic.rs:13-15 | a controller whose offset + 8 fits in a u8 never aborts and answers whether it serves the vector |
| Pics.EndOfInterrupt | v1/src/pic.rs:17-19 | acknowledging writes the end-of-interrupt command 0x20 to the controller's own command port |
| Pics.New | v1/src/pic.rs:27-40 | the primary controller gets the first offset and command port 0x20, the secondary the second offset and port 0xA0 |
| Pics.NotifyEndOfInterrupt | v1/src/pic.rs:42-49 | a vector of the secondary is acknowledged to the secondary and then the primary, one of the primary only to the primary, any other to neither; it aborts exactly when a test it evaluates aborts |
| Pics.SecondaryAcknowledgesBoth | v1/src/pic.rs:42-45 | with offsets below 248, a secondary vector writes 0x20 to port 0xA0 and then to port 0x20 |
| Pics.PrimaryAcknowledgesItself | v1/src/pic.rs:46-47 | a primary-only vector writes 0x20 to port 0x20 and nothing else |
| Pics.OtherVectorsUntouched | v1/src/pic.rs:42-49 | a vector neither controller serves causes no port write |
| Gdts.FlagBits | v1/src/structures/gdt.rs:11-19 | each descriptor flag is the single bit its declaration shifts in: 42, 43, 44, 47 and 53 |
| Gdts.KernelCodeSegment | v1/src/structures/gdt.rs:27-33 | the kernel code segment is a one-word user-segment descriptor |
| Gdts.KernelCodeBits | v1/src/structures/gdt.rs:27-33 | the kernel code segment has exactly bits 43 (executable), 44 (user segment), 47 (present) and 53 (long mode) set |
| Gdts.SetField | v1/src/structures/gdt.rs:39-44 | writing a range inside a u64 keeps it a u64 |
| Gdts.TssSegment | v1/src/structures/gdt.rs:36-46 | a TSS descriptor is a two-word system-segment descriptor |
| Gdts.TssSegmentFields | v1/src/structures/gdt.rs:36-46 | read back the way the processor reads it, the descriptor's base is the TSS address, its limit is the TSS size (104 bytes, tss.rs:6-13) less one, its type is an available 64-bit TSS, and the high word holds only the top 32 bits of the address |
| Gdts.TssAttributes | v1/src/structures/gdt.rs:38-42 | of the attribute bits 44 to 55 of the low word only PRESENT (bit 47) is set |
| Gdts.New | v1/src/structures/gdt.rs:55-60 | a new table is valid, has eight zero slots, and hands out slot 1 first |
| Gdts.Push | v1/src/structures/gdt.rs:74-80 | a push fails with "GDT full" exactly when all eight slots are used; otherwise it writes the value into the next free slot, returns that slot, advances the counter and leaves every other slot as it was |
| Gdts.PushKeepsValid | v1/src/structures/gdt.rs:74-80 | a push never writes the null descriptor in slot 0 |
| Gdts.PushAllSpec | v1/src/structures/gdt.rs:74-80 | successive pushes succeed exactly while the table has room and lay the values out in order from the first free slot, leaving the other slots as they were |
| Gdts.NewHoldsSeven | v1/src/structures/gdt.rs:55-80 | a new table takes exactly seven descriptor words, stored in slots 1 onwards after the null descriptor |
| Gdts.AddEntry | v1/src/structures/gdt.rs:62-72 | the only failure of adding an entry is the "GDT full" panic |
| Gdts.SelectorOfSlot | v1/src/structures/gdt.rs:71 | the selector built for a slot names that slot with privilege level 0 |
| Gdts.AddEntrySpec | v1/src/structures/gdt.rs:62-80 | adding an entry succeeds exactly when its words fit (one for a user segment, two for a system segment), stores them as successive pushes, and returns a selector naming the first of them with privilege level 0 |
| Gdts.AddEntryPushes | v1/src/structures/gdt.rs:62-72 | adding an entry is pushing its words one by one, and its selector is built from the first slot written |
| Idts.MinimalBit | v1/src/structures/idt.rs:165-170 | the minimal options word 0b1110_0000_0000 has bits 9 to 11 set and no other |
| Idts.Minimal | v1/src/structures/idt.rs:165-170 | minimal options have a null selector and only the 64-bit interrupt-gate type bits 9 to 11 set |
| Idts.HandlerAddress | v1/src/structures/idt.rs:93-100 | the address spread over the three pointer fields fits in 64 bits |
| Idts.Missing | v1/src/structures/idt.rs:109-119 | a missing entry is not present, points at address 0, has minimal options and a zero reserved field |
| Idts.PresentBits | v1/src/structures/idt.rs:129-131 | minimal options with the present bit set have exactly bits 9 to 11 and 15 set |
| Idts.SetHandlerFn | v1/src/structures/idt.rs:123-133 | installing a handler fails exactly when its address is not canonical (`VirtAddr::new` panics); otherwise the entry points at the handler, is present, runs in the given code segment, has only the gate-type and present bits set, and keeps its reserved field |
| Idts.AddressPieces | v1/src/structures/idt.rs:126-128 | the three truncating casts of the address put back together give the address |
| Idts.PointerFieldsOfAddress | v1/src/structures/idt.rs:93-100 | an entry's three pointer fields are exactly the casts of the address they hold |
| Idts.SetHandlerFnKeepsAddressFields | v1/src/structures/idt.rs:123-133 | installing the handler an entry already points at changes only its options |
| Idts.SetStackIndex | v1/src/structures/idt.rs:173-177 | the index plus one lands in bits 0 to 2 and every higher bit and the selector are kept; it aborts exactly for index 7 and above: 0xFFFF overflows the u16 addition, the others do not fit in three bits |
| Idts.SetStackIndexBits | v1/src/structures/idt.rs:173-177 | the hardware reads back index + 1 from bits 0 to 2, and the gate type and present flag are unchanged |
| Idts.NewIdt | v1/src/structures/idt.rs:43-74 | a new table has 256 entries, each of them missing |
| Idts.NewIdtNothingPresent | v1/src/structures/idt.rs:43-74 | no vector of a new table is present or has a handler |
| Idts.SetVectorHandler | v1/src/structures/idt.rs:11-40 | installing a handler for one vector makes that entry present with the handler's address and leaves every other entry unchanged; it fails exactly on a non-canonical address |
| BumpAllocators.AlignUp | v1/src/memory/heap_allocator.rs:57-59 | `align_up` aborts exactly when `addr + align` overflows a 64-bit word; otherwise the result is at most addr + align − 1 |
| BumpAllocators.AlignUpMask | v1/src/memory/heap_allocator.rs:58 | the mask `!(align - 1)` on a 64-bit word is 2^64 − align |
| BumpAllocators.AlignUpPow2 | v1/src/memory/heap_allocator.rs:57-59 | for a power-of-two alignment that cannot overflow, `align_up` gives the least multiple of the alignment at or above the address |
| BumpAllocators.RoundDown | v1/src/memory/heap_allocator.rs:58 | rounding down to a multiple of a loses less than a |
| BumpAllocators.Align | v1/src/memory/heap_allocator.rs:31 | a layout's alignment is at least 1 |
| BumpAllocators.New | v1/src/memory/heap_allocator.rs:18-25 | a new allocator starts with no allocations and `next` at the heap start, which satisfies heap_start ≤ next ≤ heap_end when the bounds are ordered |
| BumpAllocators.Empty | v2/src/allocator/bump.rs:15-22 | the v2 constructor gives an empty heap with no allocations |
| BumpAllocators.Init | v2/src/allocator/bump.rs:24-28 | `init` aborts exactly when heap_start + heap_size overflows; otherwise the heap spans heap_size bytes from heap_start, `next` is at its start and the allocation count is kept |
| BumpAllocators.Alloc | v1/src/memory/heap_allocator.rs:29-44 | `alloc` aborts exactly when `align_up` overflows, or when the block fits but the allocation count would overflow. Otherwise it returns the null pointer with the heap unchanged exactly when the aligned block would pass the heap end. A block that fits starts at `align_up(next)`, is aligned, ends inside the heap and becomes the new `next`, and the count grows by one |
| BumpAllocators.Dealloc | v1/src/memory/heap_allocator.rs:46-54 | `dealloc` aborts exactly when no allocation is outstanding, or when others remain and `next - size` underflows. Otherwise the count drops by one. The last free resets `next` to the heap start, and freeing the block that ends at `next` rolls `next` back to its start |
| BumpAllocators.AllocKeepsInv | v1/src/memory/heap_allocator.rs:29-44 | allocation keeps heap_start ≤ next ≤ heap_end |
| BumpAllocators.DeallocKeepsInv | v1/src/memory/heap_allocator.rs:46-54 | freeing a pointer inside the heap keeps heap_start ≤ next ≤ heap_end |
| BumpAllocators.AllocThenDealloc | v1/src/memory/heap_allocator.rs:29-54 | freeing the block just allocated restores the allocation count and rolls `next` back to the block's start, or to the heap start when it was the only block |
| FrameAllocators.FirstSlot | v1/src/memory/paging/temporary_page.rs:56-73 | the slot found is the first one that is filled (or empty, as asked), and every earlier slot is not |
| FrameAllocators.TinyAllocate | v1/src/memory/paging/temporary_page.rs:56-63 | the tiny allocator returns None exactly when all three slots are empty; then nothing changes; otherwise the multiset of held frames loses exactly the frame returned |
| FrameAllocators.TinyDeallocate | v1/src/memory/paging/temporary_page.rs:65-73 | a freed frame is parked, so the held frames grow by exactly that frame; it panics exactly when all three slots are full |
| FrameAllocators.HeldUpdate | v1/src/memory/paging/temporary_page.rs:59-68 | replacing one slot swaps that slot's frame for the new one in the multiset of held frames |
| FrameAllocators.Allocate | v1/src/memory/mod.rs:67-70 | allocating through the trait is the allocation of the implementation behind it and keeps its invariant |
| FrameAllocators.TinyNew | v1/src/memory/paging/temporary_page.rs:46-52 | a tiny allocator takes three successive allocations of its parent, in order |
| FrameAllocators.TinyFromAreaDistinct | v1/src/memory/paging/temporary_page.rs:46-52 | filled from the area allocator, its frames are strictly increasing, so distinct, and each lies in a memory area outside the kernel and the boot information |
| FrameAllocators.AreaAllocateStep | v1/src/memory/area_frame_allocator.rs:17-43 | one allocation returns a frame between the old and the new cursor that is usable for both states, and once the allocator returns None it keeps doing so |
| StackAllocators.NewStack | v1/src/memory/stack_allocator.rs:13-19 | a stack is built exactly when its top lies above its bottom, and keeps both |
| StackAllocators.MapPages | v1/src/memory/stack_allocator.rs:51-53 | mapping no page changes nothing, and every successful mapping loop leaves the frame allocator valid |
| StackAllocators.PageStart | v1/src/memory/paging/mod.rs:39-41 | a page's start address is returned exactly when it fits in a 64-bit word; a debug build aborts otherwise |
| StackAllocators.Locate | v1/src/memory/stack_allocator.rs:40-47 | the walk over a copy of the range finds the guard page, the stack's first page right after it and its last page size − 1 further, exactly when the range holds more than size pages, and leaves the range starting after the last page |
| StackAllocators.AllocStack | v1/src/memory/stack_allocator.rs:31-59 | size 0 or a range of at most size pages gives None and changes nothing; otherwise the stack spans size pages starting one page above the guard page, the range advances past it, and the stack's pages are mapped writable in order |
| StackAllocators.StackFrom | v1/src/memory/stack_allocator.rs:49-56 | once the pages were found, the stack runs from the first page's start to one past the last page's end, after mapping each of them |
| StackAllocators.GuardNotMapped | v1/src/memory/stack_allocator.rs:40-53 | the pages mapped are exactly the size pages after the guard page, ascending, and the guard page is not among them |
| StackAllocators.SuccessiveStacksDisjoint | v1/src/memory/stack_allocator.rs:40-56 | a stack allocated after another one starts one guard page above the earlier stack's top, so the two never overlap |
| Pages.ContainingAddress | v1/src/memory/paging/mod.rs:28-37 | an address in the non-canonical hole aborts; any other lies in the returned page's 4096-byte window |
| Pages.StartAddress | v1/src/memory/paging/mod.rs:39-41 | a page's start address is a multiple of the page size, and dividing it by the page size gives back the page number |
| Pages.StartAddressRoundTrip | v1/src/memory/paging/mod.rs:28-41 | a page whose start address is canonical is recovered from that address |
| Pages.P4Index | v1/src/memory/paging/mod.rs:43-45 | the level-4 index is below 512 |
| Pages.P3Index | v1/src/memory/paging/mod.rs:47-49 | the level-3 index is below 512 |
| Pages.P2Index | v1/src/memory/paging/mod.rs:51-53 | the level-2 index is below 512 |
| Pages.P1Index | v1/src/memory/paging/mod.rs:55-57 | the level-1 index is below 512 |
| Pages.IndicesRecompose | v1/src/memory/paging/mod.rs:43-57 | a page number below 2^36 is exactly its four 9-bit indices laid side by side |
| Pages.ComposeIndices | v1/src/memory/paging/mod.rs:43-57 | the indices of a page composed from four indices below 512 are those indices |
| Pages.Add | v1/src/memory/paging/mod.rs:64-72 | adding to a page aborts exactly when the page number overflows, and otherwise moves it up by exactly that many pages |
| Pages.Next | v1/src/memory/paging/mod.rs:80-92 | the iterator ends exactly when start has passed end; otherwise it yields start and moves start up by one page |
| Pages.CollectIsRange | v1/src/memory/paging/mod.rs:59-92 | `range_inclusive(start, end)` yields start, start+1, …, end in ascending order, nothing when start > end |
| Pages.Nth | v1/src/memory/stack_allocator.rs:46 | `nth(n)` yields the page n past start exactly when the range holds more than n pages, and leaves the range starting after it |
| TemporaryPages.New | v1/src/memory/paging/temporary_page.rs:14-19 | the temporary page keeps its page and fills its tiny allocator from the parent allocator |
| TemporaryPages.Map | v1/src/memory/paging/temporary_page.rs:21-28 | mapping a page that already translates panics with "temporary page is already mapped"; a successful map returns the page's start address and keeps the page |
| TemporaryPages.MapTranslates | v1/src/memory/paging/temporary_page.rs:21-28 | after `map` the temporary page translates to the frame it was given |
| TemporaryPages.Unmap | v1/src/memory/paging/temporary_page.rs:30-32 | a successful unmap leaves the page translating to nothing, and only a mapped page can be unmapped |
| TemporaryPages.MapThenUnmap | v1/src/memory/paging/temporary_page.rs:21-32 | mapping and then unmapping the temporary page succeeds and leaves it unmapped, ready for its next use |
| Entries.Flags | v1/src/memory/paging/table_entry.rs:22-24 | `from_bits_truncate` keeps exactly the entry's bits among the named flags (bits 0 to 8 and 63) and drops every other bit |
| Entries.FlagsBits | v1/src/memory/paging/table_entry.rs:22-24 | masking a word with the union of the named flags gives a flags value whose bits are the word's named-flag bits |
| Entries.AllFlagsBelow | v1/src/memory/paging/table_entry.rs:40-54 | the union of the named flags fits in the u64 the flags are declared on |
| Entries.AllFlagsBit | v1/src/memory/paging/table_entry.rs:40-54 | the named flags are exactly bits 0 to 8 and bit 63 |
| Entries.ValidFlagsBit | v1/src/memory/paging/table_entry.rs:40-54 | a flags value has no bit outside the named ones |
| Entries.ContainsFlag | v1/src/memory/paging/table_entry.rs:27 | `contains` of a single named flag tests its bit |
| Entries.UnionValid | v1/src/memory/paging/table_entry.rs:60-66 | the or of two flags values is a flags value holding exactly the flags of both |
| Entries.FromElfSectionFlags | v1/src/memory/paging/table_entry.rs:57-69 | a kernel section's entry is PRESENT exactly when the section is allocated, WRITABLE exactly when it is writable, NO_EXECUTE exactly when it is not executable, and has no other flag |
| Entries.EmptyFlags | v1/src/memory/paging/table_entry.rs:58 | the empty flags value is a flags value with no bit set |
| Entries.AddFlag | v1/src/memory/paging/table_entry.rs:60-66 | `flags \|= flag` adds exactly that flag's bit and keeps the others |
| Entries.PointedFrame | v1/src/memory/paging/table_entry.rs:26-32 | an entry points to a frame exactly when its present bit is set, and that frame's number is the entry's bits 12 to 51 |
| Entries.MaskedAddress | v1/src/memory/paging/table_entry.rs:28 | `value & ADDRESS_MASK` is the frame number in bits 12 to 51 scaled back to an address, so the frame containing it has that number |
| Entries.MaskedBit | v1/src/memory/paging/table_entry.rs:11 | each bit of `value & ADDRESS_MASK` is the matching bit of the 40-bit frame-number field put back in place |
| Entries.Set | v1/src/memory/paging/table_entry.rs:34-37 | `set` succeeds exactly for frame numbers below 2^40 (others fail its address assertion or overflow the start address); the stored entry reads back the flags given, and points to the frame exactly when PRESENT is among them |
| Entries.NotAddressMask | v1/src/memory/paging/table_entry.rs:35 | the mask in the assertion of `set` is the 64-bit complement of `ADDRESS_MASK` |
| Entries.AddressCheck | v1/src/memory/paging/table_entry.rs:35 | the assertion of `set` holds exactly for frames whose number is below 2^40 |
| Entries.SetRoundTrip | v1/src/memory/paging/table_entry.rs:22-37 | reading back an entry that `set` stored gives the flags, and the frame when it is present |
| Entries.UnusedIsEmpty | v1/src/memory/paging/table_entry.rs:14-20 | an unused entry points nowhere and has no flags |
| Tables.NextLevel | v1/src/memory/paging/table.rs:18-30 | only level 1 has no next level, and each next level is one lower |
| Tables.LevelChain | v1/src/memory/paging/table.rs:18-30 | from any level the hierarchy reaches level 1 after exactly height − 1 steps and not before: 4 → 3 → 2 → 1 |
| Tables.ZeroTable | v1/src/memory/paging/table.rs:34-37 | the all-zero table has every entry unused |
| Tables.WriteEntry | v1/src/memory/paging/table.rs:50-57 | writing an entry changes that entry of that table and no other entry of any table |
| Tables.Zero | v1/src/memory/paging/table.rs:63-67 | after `zero` every entry of the table is unused |
| Tables.ZeroFrame | v1/src/memory/paging/table.rs:63-67 | zeroing the table in one frame makes all its entries unused and leaves every other table as it was |
| Tables.LeadsToTableBits | v1/src/memory/paging/table.rs:85-86 | an entry leads to a child table exactly when bit 0 (present) is set and bit 7 (huge page) is clear |
| Tables.HugeBit | v1/src/memory/paging/table.rs:86 | the HUGE_PAGE flag of an entry is its bit 7 |
| Tables.NextTable | v1/src/memory/paging/table.rs:74-93 | a child table exists exactly when the entry is present and not huge, and it is the frame the entry points to |
| Tables.NextTableAddress | v1/src/memory/paging/table.rs:84-93 | `next_table_address` is None exactly when the entry is not present or is huge; for a page-aligned table address it is the address shifted up by 9 bits, wrapped to 64 bits, plus the index times 4096 |
| Tables.ChildAddress | v1/src/memory/paging/table.rs:89 | the `\|` of the shifted address and the shifted index fits in 64 bits, and for a page-aligned address it is an addition |
| Tables.P4FixedPoint | v1/src/memory/paging/table.rs:32 | with 64-bit wrap-around, following slot 511 from the level 4 table's address 0o177777_777_777_777_777_0000 gives that address again: the recursive slot maps the table onto itself |
| Mapper.TranslatePage | v1/src/memory/paging/mapper.rs:39-71 | a frame `translate_page` returns always fits the 40-bit frame field of an entry |
| Mapper.AlignedBelow | v1/src/memory/paging/mapper.rs:49-64 | a huge page's aligned start frame plus the page's offset inside it stays a valid frame number |
| Mapper.Translate | v1/src/memory/paging/mapper.rs:33-37 | a non-canonical address aborts in `containing_address`; a translated address keeps the address's offset inside the page and lies in a valid frame |
| Mapper.TranslatePageLookup | v1/src/memory/paging/mapper.rs:39-71 | `translate_page` stops where the processor's walk stops: no leaf gives None, a 4 KiB leaf gives its frame, and a huge leaf gives its start frame plus the page's offset inside the huge page, or panics when that start frame is not aligned to the huge-page size |
| Mapper.TranslateMatchesWalk | v1/src/memory/paging/mapper.rs:33-71 | whenever `translate` returns, it returns the physical address the hardware walk from the level 4 table reaches, or None exactly where that walk faults; it panics only on a non-canonical address or at a misaligned huge page, where the walk faults too unless only the PAT bit is set |
| Mapper.PresentWritable | v1/src/memory/paging/mapper.rs:80-82 | the flags of a newly created table entry contain PRESENT and WRITABLE and not HUGE_PAGE |
| Mapper.NextTableCreate | v1/src/memory/paging/mapper.rs:80-82 | an existing child table is returned unchanged; a missing one is created from a newly allocated frame, zeroed and entered present and writable; it fails on a huge-page entry or when the allocator is empty, and a table is created exactly when none existed |
| Mapper.MapTo | v1/src/memory/paging/mapper.rs:73-85 | a frame whose number does not fit the entry's frame field makes `map_to` fail; a success keeps the allocator valid |
| Mapper.MapToSteps | v1/src/memory/paging/mapper.rs:80-84 | a successful `map_to` is three `next_table_create` calls down the page's path, an unused level 1 slot, and a `set` of the frame with the flags plus PRESENT |
| Mapper.MapToWrites | v1/src/memory/paging/mapper.rs:73-85 | `map_to` leaves the level 1 slot holding the frame with the given flags plus PRESENT, writes nothing but the four slots on the page's path and the tables it creates, and creates a table only where the path had none |
| Mapper.MapToTranslate | v1/src/memory/paging/mapper.rs:39-85 | once `map_to` returns, the page translates to the frame it was mapped to (provided the allocator handed out no frame already on the path) |
| Mapper.MapToRefusesMapped | v1/src/memory/paging/mapper.rs:73-85 | `map_to` never replaces a mapping: on a page that already translates, or whose huge-page entry makes `translate_page` panic, it fails |
| Mapper.MapToRefusesDirect | v1/src/memory/paging/mapper.rs:83 | a page mapped through all four levels fails the `is_unused` assertion |
| Mapper.MapToRefusesHuge | v1/src/memory/paging/mapper.rs:80-82 | a page under a huge-page entry makes the descent fail |
| Mapper.ReadSlots | v1/src/memory/paging/mapper.rs:39-71 | the slots `translate_page` reads are at the page's four indices and include the level 4 slot |
| Mapper.ReadSlotsDetermine | v1/src/memory/paging/mapper.rs:39-71 | `translate_page` depends on nothing but the slots it reads: two memories that agree there translate the page alike |
| Mapper.MapToKeepsOthers | v1/src/memory/paging/mapper.rs:73-85 | `map_to` leaves the translation of every page whose read slots it did not touch unchanged |
| Mapper.Map | v1/src/memory/paging/mapper.rs:87-90 | an empty allocator makes `map` panic with "out of memory"; a success keeps the allocator valid |
| Mapper.MapTranslate | v1/src/memory/paging/mapper.rs:87-90 | after `map` the page translates to the first frame the allocator handed out |
| Mapper.IdentityMap | v1/src/memory/paging/mapper.rs:92-104 | `identity_map` fails when the frame's start address overflows or is not canonical; a success keeps the allocator valid |
| Mapper.IdentityMapTranslate | v1/src/memory/paging/mapper.rs:92-104 | after `identity_map` the frame's start address translates to itself |
| Mapper.FramePage | v1/src/memory/paging/mapper.rs:99 | the page `identity_map` uses has the frame's number and contains the frame's start address |
| Mapper.TranslateFramePage | v1/src/memory/paging/mapper.rs:33-37 | when the page with a frame's number translates to that frame, the frame's start address translates to itself |
| Mapper.Unmap | v1/src/memory/paging/mapper.rs:107-120 | `unmap` succeeds only for a page that translates and whose start address fits in 64 bits, and afterwards the page translates to nothing |
| Mapper.UnmapClears | v1/src/memory/paging/mapper.rs:116 | clearing the level 1 slot leaves the page untranslated, even when that slot is also one of the slots above it on the path |
| Mapper.UnmapKeepsOthers | v1/src/memory/paging/mapper.rs:107-120 | `unmap` changes the translation of no page that does not read the cleared slot |
| Mapper.UnmapWrite | v1/src/memory/paging/mapper.rs:109-116 | a successful `unmap` writes exactly one slot: the page's level 1 slot, set unused |
| Mapper.UnmapDirect | v1/src/memory/paging/mapper.rs:107-120 | a page with a 4 KiB mapping at a canonical address can be unmapped |
| Mapper.MapToThenUnmap | v1/src/memory/paging/mapper.rs:73-120 | a page just mapped at a canonical address can be unmapped, and then translates to nothing again |
| PageWalk.WalkIndices | v1/src/memory/paging/mod.rs:43-57 | the table indices the processor takes from an address (bits 39, 30, 21 and 12 up, nine each) are the ones the kernel takes from the page containing it |
| PageWalk.HigherHalfIndices | v1/src/memory/paging/mod.rs:28-57 | a higher-half address built from four indices is canonical, page aligned, and carries those indices for the kernel and for the processor alike |
| PageWalk.P4InWindow | v1/src/memory/paging/table.rs:32 | the kernel's P4 address is the higher-half address whose four indices are all 511 |
| PageWalk.WindowLevel4 | v1/src/memory/paging/table.rs:32 | under the recursive entry in slot 511 the processor maps P4 onto the level 4 table itself |
| PageWalk.WindowLevel3 | v1/src/memory/paging/table.rs:74-93 | under the recursive entry, the address `next_table` computes for the level 3 table at slot a reaches the frame that slot names |
| PageWalk.WindowLevel2 | v1/src/memory/paging/table.rs:74-93 | under the recursive entry, the address computed for the level 2 table at slots (a, b) reaches that table's frame |
| PageWalk.WindowLevel1 | v1/src/memory/paging/table.rs:74-93 | under the recursive entry, the address computed for the level 1 table at slots (a, b, c) reaches that table's frame |
| PageWalk.WalkFourKiB | v1/src/memory/paging/mapper.rs:33-43 | a page-aligned address that ends at a 4 KiB leaf reaches the start of the frame the leaf names |
| PageWalk.WindowChain | v1/src/memory/paging/table.rs:84-93 | the addresses `next_table_address` produces while descending from P4 are exactly the window addresses the level lemmas reach, so the kernel's references land on the tables' frames |
| PageWalk.WindowRedirect | v1/src/memory/paging/mod.rs:134-153 | when slot 511 of the active table leads to another table that maps itself, every address of the recursive window translates as if that other table were active: `with` edits the inactive tables |
| PageWalk.ZeroedWalk | v1/src/memory/paging/mod.rs:174-178 | a walk that still succeeds after a frame is zeroed did not pass through it, and ends where it ended before |
| ActivePageTables.WriteVirtual | v1/src/memory/paging/mod.rs:143-149 | a write through a virtual address faults exactly when the processor's walk does not reach a frame, and otherwise writes the slot of the table in the frame the walk reaches |
| ActivePageTables.ZeroVirtual | v1/src/memory/paging/mod.rs:175-176 | `zero` through a virtual address faults exactly when the walk does not reach a frame, and otherwise zeroes the frame it reaches |
| ActivePageTables.RunOp | v1/src/memory/paging/mod.rs:191-221 | one mapper call made by the closure keeps the frame allocator valid |
| ActivePageTables.RunOps | v1/src/memory/paging/mod.rs:191-221 | a closure that makes no mapper call leaves memory and allocator as they were, and one that makes a single call has exactly that call's effect or abort. The allocator stays valid |
| ActivePageTables.RunOpsAppend | v1/src/memory/paging/mod.rs:191-221 | the closure's calls compose at any split. For instance, running the section mappings and then the VGA and boot-information mappings together equals running the first group, then the second on its result. An abort in the first group ends the run |
| ActivePageTables.Enter | v1/src/memory/paging/mod.rs:140-147 | entering `with` records the active frame as the backup, keeps the temporary page, and fails when the inactive table's frame does not fit an entry |
| ActivePageTables.Leave | v1/src/memory/paging/mod.rs:149-152 | leaving `with` ends with the temporary page unmapped |
| ActivePageTables.Body | v1/src/memory/paging/mod.rs:140-148 | the state when the closure returns comes from a successful entry followed by the closure's calls, with the allocator valid |
| ActivePageTables.With | v1/src/memory/paging/mod.rs:134-153 | `with` never writes CR3, keeps the temporary page, and leaves the allocator valid |
| ActivePageTables.CafeBabeAvoidsWindow | v1/src/memory/paging/mod.rs:185 | the temporary page 0xcafebabe that `remap_the_kernel` uses has no index 511 and a canonical start address |
| ActivePageTables.WindowSlotUnread | v1/src/memory/paging/mod.rs:143 | slot 511 of any table is not read when translating a page that avoids the recursive window |
| ActivePageTables.PageWalkFrame | v1/src/memory/paging/mapper.rs:39-71 | a page that `translate_page` maps to a frame is mapped to that frame by the processor too |
| ActivePageTables.LinkEntry | v1/src/memory/paging/mod.rs:143-149 | `set(frame, PRESENT \| WRITABLE)` gives an entry that leads to that frame as a table |
| ActivePageTables.DirectPathDetermine | v1/src/memory/paging/mapper.rs:40-43 | the 4 KiB path depends only on the slots translation reads |
| ActivePageTables.Slot511Invisible | v1/src/memory/paging/mod.rs:143-149 | writing slot 511 of any table changes neither the translation nor the 4 KiB path of a page that avoids the window |
| ActivePageTables.TempMapShape | v1/src/memory/paging/temporary_page.rs:21-28 | mapping the temporary page keeps slot 511 of the active table and makes the page's 4 KiB path reach the mapped frame |
| ActivePageTables.EnterRedirects | v1/src/memory/paging/mod.rs:140-147 | during the closure, slot 511 of the active table points present and writable at the inactive table, so the mapper's recursive addresses reach the inactive hierarchy, while the temporary page still maps the active table and CR3 is unchanged |
| ActivePageTables.P4Window | v1/src/memory/paging/table.rs:32 | P4 lies in the window of slot 511 and reaches a recursive table itself |
| ActivePageTables.LeaveRestores | v1/src/memory/paging/mod.rs:149-152 | after the closure, `with` restores slot 511 of the active table to the active table, present and writable, and unmaps the temporary page |
| ActivePageTables.UnmapKeepsLink | v1/src/memory/paging/mod.rs:152 | unmapping the temporary page keeps the active table's recursive link |
| ActivePageTables.LeaveRelinks | v1/src/memory/paging/mod.rs:149 | the write of the backup frame into slot 511 through the temporary page reaches the active table itself and leaves the temporary page's path as it was |
| ActivePageTables.WithRestores | v1/src/memory/paging/mod.rs:134-153 | when entering succeeds on a recursive active table and the closure leaves the temporary page's mapping alone, `with` completes, CR3 is unchanged, slot 511 links the active table to itself again, and the temporary page is unmapped |
| ActivePageTables.Switch | v1/src/memory/paging/mod.rs:155-161 | `switch` makes the new table active, leaves memory alone and returns the previously active table; it fails only when the start address overflows |
| ActivePageTables.SwitchBack | v1/src/memory/paging/mod.rs:155-161 | switching back to the table `switch` returned makes the original table active again |
| ActivePageTables.InactiveNew | v1/src/memory/paging/mod.rs:168-182 | the inactive table is named by the given frame, CR3 is unchanged, and the temporary page ends up unmapped |
| ActivePageTables.InactiveNewShape | v1/src/memory/paging/mod.rs:168-182 | the table built is empty except for slot 511, which links it to itself present and writable, so it is recursive |
| ActivePageTables.InactiveNewSteps | v1/src/memory/paging/mod.rs:174-179 | in physical terms the frame is zeroed, its slot 511 is set, and one level 1 slot on the temporary page's path is cleared |
| ActivePageTables.InactiveLinked | v1/src/memory/paging/mod.rs:175-177 | the frame mapped at the temporary page is zeroed through it, and then its slot 511 is set |
| ActivePageTables.SelfLinked | v1/src/memory/paging/mod.rs:176-179 | a zeroed table whose slot 511 is linked to itself, with one other slot cleared later, is recursive and otherwise empty |
| TagTypes.ToU32 | v1/src/multiboot/tag_type.rs:191-219 | a named tag type converts to a number of 21 or less, and a custom type converts to the number it carries |
| TagTypes.FromU32 | v1/src/multiboot/tag_type.rs:161-189 | a number converts to a custom tag type exactly when it is above 21, and the custom type keeps the number |
| TagTypes.U32RoundTrip | v1/src/multiboot/tag_type.rs:161-219 | converting any `u32` to a tag type and back gives the same number |
| TagTypes.TagTypeRoundTrip | v1/src/multiboot/tag_type.rs:161-219 | converting a tag type to a number and back gives the same tag type exactly when it is not a custom type holding a named number (0 to 21) |
| TagTypes.NamedInjective | v1/src/multiboot/tag_type.rs:191-219 | two named tag types with the same number are the same tag type |
| TagTypes.IdToTagType | v1/src/multiboot/tag_type.rs:226-231 | the tag type made from a `TagTypeId` converts back to the id's raw number |
| TagTypes.TagTypeToId | v1/src/multiboot/tag_type.rs:233-238 | the id made from a tag type converts back to that tag type exactly when it is not a custom type holding a named number |
| TagTypes.EqIdMeaning | v1/src/multiboot/tag_type.rs:247-253 | a tag type equals an id exactly when the id converts to the tag type that the type's own number converts to; for tag types that survive the round trip, exactly when the id converts to that tag type |
| Tags.Typ | v1/src/multiboot/tag.rs:36-39 | a tag's type converts back to the raw number in its header, and it is End exactly when that number is 0 |
| Tags.IsEndMeansEnd | v1/src/multiboot/tag.rs:98-99 | the iterator's End test on the raw number agrees with the tag type being End |
| Tags.ReadTag | v1/src/multiboot/tag.rs:29-33 | the header read at an offset records that offset |
| Tags.RoundUp8 | v1/src/multiboot/tag.rs:104-105 | the distance to the next tag is a multiple of 8 that is at least the tag's size and less than size + 8, and it is zero only for a zero size |
| Tags.RoundUp8IsMask | v1/src/multiboot/tag.rs:105 | rounding the size up to 8 is the source's `(size + 7) & !7` on a 64-bit word |
| Tags.IterNew | v1/src/multiboot/tag.rs:80-87 | a tag iterator can be made exactly when the area is 8-byte aligned, and it starts at the first tag |
| Tags.Next | v1/src/multiboot/tag.rs:93-113 | `next` fails its assertion exactly when the current position is past the end of the area; otherwise it ends exactly at an End tag and, for any other tag, yields the header at the current position and moves to the rounded-up end of that tag, staying 8-byte aligned |
| Tags.CollectIsChain | v1/src/multiboot/tag.rs:93-113 | a completed iteration yields tags that each start where the previous one, rounded up, ends, each read back from the area, none an End tag and none empty, and stops at an End tag inside the area |
| Tags.CollectChained | v1/src/multiboot/tag.rs:104-110 | the tags of a completed iteration start at the iterator's position and each starts at the rounded-up end of the one before |
| Tags.CollectReadBack | v1/src/multiboot/tag.rs:95-99 | every tag of a completed iteration lies inside the area, is the header at its offset, and is neither an End tag nor of size 0 |
| Tags.CollectStopsAtEnd | v1/src/multiboot/tag.rs:95-99 | a completed iteration stops at an End tag whose header lies inside the area |
| Tags.Find | v1/src/multiboot/mod.rs:314-317 | a tag that `get_tag`'s search returns has the requested type number |
| Tags.FirstOfTypeSpec | v1/src/multiboot/mod.rs:314-317 | the first-match index exists exactly when some tag has the type, and it names a tag of that type with none before it |
| Tags.FindIsFirst | v1/src/multiboot/mod.rs:314-317 | when the iteration completes, the search returns the first tag of the requested type, and nothing when no tag has it |
| Tags.CastTag | v1/src/multiboot/tag.rs:42-47 | a cast succeeds exactly when the tag's type equals the requested one, and returns that tag |
| Tags.FoundTagCasts | v1/src/multiboot/mod.rs:314-318 | a tag found by its type always passes the type assertion of the cast that follows |
| BootInfos.LowBits | v1/src/multiboot/mod.rs:125 | the mask `total_size & 0b111` is the remainder of the size modulo 8 |
| BootInfos.Load | v1/src/multiboot/mod.rs:115-139 | loading fails with IllegalAddress exactly for a null or unaligned address; otherwise it fails with IllegalTotalSize, carrying the size, exactly when the size is zero or not a multiple of 8; a loaded structure starts at the pointer, spans exactly `total_size` bytes and ends with an End tag of size 8 |
| BootInfos.LoadNoEndTag | v1/src/multiboot/mod.rs:94-107 | with a good address and size, loading fails with NoEndTag exactly when the last 8 bytes are not an End tag of size 8, and succeeds exactly when they are |
| BootInfos.TotalSize | v1/src/multiboot/mod.rs:166-168 | a loaded structure's total size is a multiple of 8, at least the header's 8 bytes and below 2^32 |
| BootInfos.EndAddress | v1/src/multiboot/mod.rs:161-163 | the end address is the start plus the total size, and the sum fails exactly when it overflows a 64-bit `usize` |
| BootInfos.TagsOf | v1/src/multiboot/mod.rs:321-323 | the tag iterator of a loaded structure walks the bytes after the 8-byte header and never fails the alignment assertion |
| BootInfos.EndTagClosesArea | v1/src/multiboot/mod.rs:94-107 | in a loaded structure the last header of the tag area is an End tag of size 8 |
| BootInfos.GetTag | v1/src/multiboot/mod.rs:314-318 | a tag `get_tag` returns has the type asked for, so its cast never fails |
| BootInfos.GetTagIsFirst | v1/src/multiboot/mod.rs:314-318 | when the tags can be listed, `get_tag` returns the first listed tag of the requested type, and nothing when none has it |
| BootInfos.MemoryMapAt | v1/src/multiboot/mod.rs:280-282 | a memory map tag decodes exactly when its stated size lies inside the tag area and its fields decode |
| BootInfos.MemoryMapTagOf | v1/src/multiboot/mod.rs:280-282 | there is no memory map exactly when no tag has type 6. When the first type-6 tag decodes, exactly that decoded map is returned. The call fails exactly when the tag search fails or that first tag does not decode |
| BootInfos.EfiMemoryMapAt | v1/src/multiboot/mod.rs:207-217 | an EFI memory map tag decodes exactly when it lies inside the tag area and is at least as large as its fixed fields |
| BootInfos.EfiMemoryMapTagOf | v1/src/multiboot/mod.rs:207-217 | while an EFI boot-services-not-exited tag is present there is no EFI memory map. Without one, a decodable first type-17 tag is returned decoded, and nothing is returned when there is no such tag. The call fails exactly when one of the two tag searches fails, or the first type-17 tag does not decode |
| BootInfos.ElfSectionsAt | v1/src/multiboot/mod.rs:256-262 | an ELF-sections tag yields a section iterator exactly when it lies inside the area, decodes, has `entry_size * shndx` within its size and holds at least one header; the iterator starts at the first section header with the tag's count and entry size |
| BootInfos.ElfSectionsOf | v1/src/multiboot/mod.rs:256-262 | there are no ELF sections exactly when no tag has type 9. When the first type-9 tag yields an iterator, exactly that iterator is returned. The call fails exactly when the tag search fails or that tag's iterator cannot be built |
| ElfSections.Discriminant | v1/src/multiboot/elf_sections.rs:244-297 | every section type other than the two ranges has a discriminant of 11 or less |
| ElfSections.SectionTypeOf | v1/src/multiboot/elf_sections.rs:133-157 | a raw type decodes to something other than Unused exactly when it is 1 to 11 or lies in 0x6000_0000..=0x7FFF_FFFF; unknown numbers read as Unused |
| ElfSections.SectionTypeRoundTrip | v1/src/multiboot/elf_sections.rs:133-157 | each section type decodes back from its discriminant; the numbers 0 to 11 decode to the type with that discriminant, and each range to the type whose discriminant is the range's first number |
| ElfSections.Get | v1/src/multiboot/elf_sections.rs:186-192 | reading a section header succeeds exactly for entry sizes 40 and 64, and the 40-byte layout's flags, address and size stay below 2^32 after widening |
| ElfSections.SectionType | v1/src/multiboot/elf_sections.rs:133-134 | a section's type is the decoded type field of its header, and it panics exactly for an unexpected entry size |
| ElfSections.EndAddress | v1/src/multiboot/elf_sections.rs:167-169 | the end address is the start address plus the size, and the `u64` sum fails exactly when it overflows |
| ElfSections.Flags | v1/src/multiboot/elf_sections.rs:177-179 | the flags keep exactly bits 0 to 2 of the raw flags, the named ones, and drop every other bit |
| ElfSections.FlagsTruncate | v1/src/multiboot/elf_sections.rs:299-315 | masking with the three named flags keeps the raw flags modulo 8, bit by bit |
| ElfSections.ContainsNamed | v1/src/multiboot/elf_sections.rs:299-315 | WRITABLE, ALLOCATED and EXECUTABLE are contained exactly when bits 0, 1 and 2 of the raw flags are set |
| ElfSections.IsAllocated | v1/src/multiboot/elf_sections.rs:182-184 | a section is allocated exactly when bit 1 of its raw flags is set |
| ElfSections.DstSize | v1/src/multiboot/elf_sections.rs:45-48 | the header table's length is the tag size less the 20 bytes of fixed fields, and a smaller tag fails the assertion |
| ElfSections.DecodeElfSectionsTag | v1/src/multiboot/elf_sections.rs:14-21 | an ELF-sections tag decodes exactly when its size covers the fixed fields; the header table starts after them and lies inside the tag |
| ElfSections.Sections | v1/src/multiboot/elf_sections.rs:25-39 | the section iterator starts at the first header with the tag's count and entry size, and fails exactly when the `u32` product `shndx * entry_size` overflows or the header table is empty |
| ElfSections.DefaultIter | v1/src/multiboot/elf_sections.rs:82-91 | the default iterator yields no section, in any memory |
| ElfSections.Next | v1/src/multiboot/elf_sections.rs:63-79 | `next` ends at once when no header is left, panics on a header of unexpected entry size, and otherwise yields a header whose type is not Unused, leaving fewer headers to look at, all still in bounds |
| ElfSections.Headers | v1/src/multiboot/elf_sections.rs:63-72 | the iterator looks at exactly `remaining` headers, `entry_size` bytes apart |
| ElfSections.UsedOnly | v1/src/multiboot/elf_sections.rs:74-76 | keeping the headers that are not Unused never lengthens the list |
| ElfSections.CollectIsUsedHeaders | v1/src/multiboot/elf_sections.rs:63-79 | with entry size 40 or 64 the iteration never fails and yields exactly the headers that are not Unused, in table order, at most `number_of_sections` of them |
| ElfSections.NextSkips | v1/src/multiboot/elf_sections.rs:74-76 | an Unused header is passed over and the iteration yields what it yields from the next header on |
| ElfSections.CollectStep | v1/src/multiboot/elf_sections.rs:64-77 | one header of the iteration: it is kept or passed over as its type says, in front of what the remaining headers yield |
| MemoryMaps.AreaTypeFromId | v1/src/multiboot/memory_map.rs:134-145 | an id decodes to Custom exactly when it is not 1 to 5, and the Custom type keeps the id |
| MemoryMaps.AreaTypeToId | v1/src/multiboot/memory_map.rs:147-159 | a named area type has an id from 1 to 5, and a Custom type has the id it carries |
| MemoryMaps.AreaTypeRoundTrip | v1/src/multiboot/memory_map.rs:134-159 | every id survives decoding and encoding; a type survives encoding and decoding exactly when it is not a Custom holding 1 to 5 |
| MemoryMaps.EqAreaIdMeaning | v1/src/multiboot/memory_map.rs:161-175 | an id equals an area type exactly when the id decodes to the type the area type's own id decodes to |
| MemoryMaps.EncodeArea | v1/src/multiboot/memory_map.rs:50-57 | an area occupies 24 bytes |
| MemoryMaps.DecodeArea | v1/src/multiboot/memory_map.rs:50-57 | the area read at an offset is the one whose 24-byte encoding is the bytes there |
| MemoryMaps.DecodeEncodeArea | v1/src/multiboot/memory_map.rs:50-57 | an area written into any surrounding bytes reads back as itself |
| MemoryMaps.EncodeAreaInjective | v1/src/multiboot/memory_map.rs:50-57 | two areas with the same bytes are the same area |
| MemoryMaps.MmapDstSize | v1/src/multiboot/memory_map.rs:41-46 | the area count succeeds exactly when the tag size covers the 16-byte header and the rest is whole 24-byte areas, and then header plus areas is the tag size |
| MemoryMaps.DecodeAreas | v1/src/multiboot/memory_map.rs:22-28 | the area slice holds exactly the requested number of areas |
| MemoryMaps.DecodeMemoryMapTag | v1/src/multiboot/memory_map.rs:22-46 | a memory map tag decodes exactly when its area count does, keeps its type and size, and its areas fill the size after the header |
| MemoryMaps.MemoryAreas | v1/src/multiboot/memory_map.rs:31-35 | `memory_areas` returns the tag's areas exactly when the entry size is 24, and fails the assertion otherwise |
| MemoryMaps.EncodeAreas | v1/src/multiboot/memory_map.rs:22-28 | a list of areas occupies 24 bytes per area |
| MemoryMaps.EncodeMemoryMapTag | v1/src/multiboot/memory_map.rs:22-28 | a written memory map tag is 16 header bytes plus 24 per area |
| MemoryMaps.DecodeEncodeAreas | v1/src/multiboot/memory_map.rs:22-28 | a written list of areas reads back as the same list, whatever surrounds it |
| MemoryMaps.DecodeEncodeMemoryMapTag | v1/src/multiboot/memory_map.rs:22-46 | a written memory map tag decodes to its type, size, entry size, version and areas, and `memory_areas` gives back the areas exactly when the entry size is 24 |
| MemoryMaps.EfiDstSize | v1/src/multiboot/memory_map.rs:252-255 | the embedded map's length is the tag size less the 16-byte header, and a smaller tag fails the assertion |
| MemoryMaps.DecodeEfiMemoryMapTag | v1/src/multiboot/memory_map.rs:196-218 | an EFI memory map tag decodes exactly when its size covers the header, and its map is exactly the bytes after the header up to the tag's size |
| MemoryMaps.EfiIterNew | v1/src/multiboot/memory_map.rs:268-278 | the descriptor iterator is made exactly when the descriptor size is non-zero and divides the map's length; it starts at descriptor 0 and counts descriptors that fill the map exactly |
| MemoryMaps.EfiMemoryAreas | v1/src/multiboot/memory_map.rs:221-233 | `memory_areas` yields the iterator exactly when the descriptor version is 1, the map is 8-byte aligned and the iterator can be made |
| MemoryMaps.EfiNext | v1/src/multiboot/memory_map.rs:283-301 | `next` yields exactly while descriptors remain; it yields the byte offset `i * desc_size` and moves to the next index |
| MemoryMaps.EfiCollectSpaced | v1/src/multiboot/memory_map.rs:283-301 | the iterator yields one offset per remaining descriptor, starting at the current one, each `desc_size` after the previous |
| MemoryMaps.EfiDescriptorsInside | v1/src/multiboot/memory_map.rs:268-301 | a fresh iterator yields as many descriptors as fill the map, and each lies wholly inside it |
| MemoryMaps.EfiLenAsWritten | v1/src/multiboot/memory_map.rs:304-308 | `len` as written is never below the number of descriptors still to come |
| MemoryMaps.EfiLenAsWrittenOvercounts | v1/src/multiboot/memory_map.rs:304-308 | after one `next` on a map of two descriptors, `len` as written reports 2 while one descriptor is left |
| MemoryMaps.EfiLen | v1/src/multiboot/memory_map.rs:304-308 | the corrected `len` is exactly the number of descriptors still to come |
| MemoryMaps.EfiLenCounts | v1/src/multiboot/memory_map.rs:304-308 | the corrected `len` agrees with the written one on a fresh iterator and drops by one with each descriptor yielded |
| VirtAddrs.SignExtend | v1/src/xxx/addr.rs:27 | `((addr << 16) as i64 >> 16) as u64` keeps the low 48 bits and fills bits 48 to 63 with copies of bit 47 |
| VirtAddrs.Bit47 | v1/src/xxx/addr.rs:27 | bit 47 is set exactly when the low 48 bits are at least 2^47 |
| VirtAddrs.CanonicalByBits | v1/src/memory/paging/mod.rs:28-37 | the canonical-address test of the page code holds exactly when bits 48 to 63 are all copies of bit 47 |
| VirtAddrs.NewTruncate | v1/src/xxx/addr.rs:25-28 | `new_truncate` keeps the low 48 bits, copies bit 47 into the top sixteen bits, and always gives a canonical address |
| VirtAddrs.NewTruncateIdempotent | v1/src/xxx/addr.rs:25-28 | truncating an already truncated address changes nothing |
| VirtAddrs.NewTruncateFixesCanonical | v1/src/xxx/addr.rs:25-28 | `new_truncate` leaves an address unchanged exactly when it is canonical |
| VirtAddrs.TryNew | v1/src/xxx/addr.rs:15-23 | `try_new` succeeds exactly on canonical addresses and then keeps the address |
| VirtAddrs.TryNewIffTruncateFixes | v1/src/xxx/addr.rs:15-23 | `try_new` accepts exactly the addresses that `new_truncate` leaves unchanged |
| VirtAddrs.New | v1/src/xxx/addr.rs:6-13 | `new` succeeds exactly on canonical addresses, keeping them, and panics with "virtual address must be sign extended in bits 48 to 64" otherwise |
| VirtAddrs.NewV1 | v1/src/virt_addr.rs:6-15 | the kernel's own `new` succeeds exactly on canonical addresses and keeps the address |
| VirtAddrs.NewAgree | v1/src/virt_addr.rs:6-15 | the kernel's `new` and the one in the xxx crate give the same result on every address |
| VirtAddrs.LowerHalfAccepted | v1/src/virt_addr.rs:6-15 | every address below 2^47 is accepted unchanged by both `new`s |
| VirtAddrs.Zero | v1/src/virt_addr.rs:17-20 | the zero address is 0, and `new` accepts it unchanged |
| SizedPages.Size | v1/src/xxx/structures/paging/page.rs:37-57 | every page size is positive and at most 1 GiB |
| SizedPages.SizeIsPow2 | v1/src/xxx/structures/paging/page.rs:37-57 | 4 KiB, 512 times that, and 512 times that again are 2^12, 2^21 and 2^30 |
| SizedPages.SizeDivides | v1/src/xxx/structures/paging/page.rs:37-57 | every page size divides both ends of the non-canonical hole and 2^64, so pages never straddle them |
| SizedPages.AlignDown | v1/src/xxx/structures/paging/page.rs:84-89 | rounding an address down gives the greatest multiple of the page size not above it |
| SizedPages.AlignDownIsMask | v1/src/xxx/structures/paging/page.rs:86 | rounding down is clearing the low bits with `!(SIZE - 1)` on a 64-bit word |
| SizedPages.ContainingAddress | v1/src/xxx/structures/paging/page.rs:84-89 | the page containing an address has the requested size, an aligned start at or below the address and less than one page below it, and is well formed when the address is canonical |
| SizedPages.FromStartAddress | v1/src/xxx/structures/paging/page.rs:75-80 | `from_start_address` succeeds exactly for an address aligned to the page size, and the page then starts at that address |
| SizedPages.PageRoundTrip | v1/src/xxx/structures/paging/page.rs:75-95 | a well-formed page is recovered from its start address, and every address inside it leads back to it |
| SizedPages.AddPages | v1/src/xxx/structures/paging/page.rs:146-151 | adding `k` pages to a well-formed page succeeds exactly when the new start neither overflows 64 bits nor falls in the non-canonical hole, and gives the well-formed page `k` sizes further up |
| SizedPages.SubPages | v1/src/xxx/structures/paging/page.rs:161-167 | subtracting `k` pages from a well-formed page succeeds exactly when the start does not underflow or fall in the hole, and gives the well-formed page `k` sizes further down |
| SizedPages.ContainingOfAligned | v1/src/xxx/structures/paging/page.rs:84-89 | an aligned address is the start of its own page |
| SizedPages.Difference | v1/src/xxx/structures/paging/page.rs:176-182 | the page difference fails exactly when the subtrahend lies above, and otherwise is the number of pages between two well-formed pages |
| SizedPages.AlignedDifference | v1/src/xxx/structures/paging/page.rs:180 | the distance between two aligned addresses divides exactly by the page size |
| SizedPages.AddThenDifference | v1/src/xxx/structures/paging/page.rs:146-182 | adding `k` pages and then taking the difference gives `k`, and subtracting `k` pages gives the page back |
| SizedPages.RangeNext | v1/src/xxx/structures/paging/page.rs:213-226 | an exclusive range with start not below end yields nothing; otherwise it yields its start and moves the start up, keeping the end |
| SizedPages.RangeCollectIsRange | v1/src/xxx/structures/paging/page.rs:213-226 | within one half of the address space an exclusive range yields every page from start up to but not including end, ascending one page at a time, and nothing exactly when start is not below end |
| SizedPages.MaxPageAddr | v1/src/xxx/structures/paging/page.rs:257 | the topmost page start `VirtAddr::new(u64::MAX) - (SIZE - 1)` is aligned and lies one page size below 2^64 |
| SizedPages.InclusiveNext | v1/src/xxx/structures/paging/page.rs:246-268 | an empty inclusive range yields nothing; otherwise it yields its start and leaves a range with fewer pages to go |
| SizedPages.InclusiveStep | v1/src/xxx/structures/paging/page.rs:250-267 | a non-empty safe inclusive range yields its start; below the end the start moves up one page, and at the end, the topmost page included, what is left is empty |
| SizedPages.IsEmptyIffExhausted | v1/src/xxx/structures/paging/page.rs:238-268 | `is_empty` holds exactly when `next` yields nothing |
| SizedPages.InclusiveCollectIsRange | v1/src/xxx/structures/paging/page.rs:246-268 | a safe inclusive range yields every page from start to end, ascending one page at a time, and nothing exactly when it is empty |
| SizedPages.TopmostPageOnce | v1/src/xxx/structures/paging/page.rs:254-262 | a range holding only the topmost page yields it exactly once and stops without overflowing |
| X86PageTables.NewEntry | v1/src/xxx/structures/paging/page_table.rs:18-21 | a new entry has no address and no flags |
| X86PageTables.Addr | v1/src/xxx/structures/paging/page_table.rs:30-33 | an entry's address is bits 12 to 51 of the entry: 4 KiB aligned and below 2^52 |
| X86PageTables.Flags | v1/src/xxx/structures/paging/page_table.rs:24-27 | an entry's flags are its bits 0 to 11 and 52 to 63, and flags plus address give the entry back |
| X86PageTables.FlagsMaskIsComplement | v1/src/xxx/structures/paging/page_table.rs:52-115 | the named flags cover exactly the bits the address mask `0x000f_ffff_ffff_f000` leaves out |
| X86PageTables.EntrySplit | v1/src/xxx/structures/paging/page_table.rs:12-33 | an entry is the sum of its address and its flags, and it is the new entry exactly when both are zero |
| X86PageTables.IndexNew | v1/src/xxx/structures/paging/page_table.rs:202-206 | `PageTableIndex::new` succeeds exactly below 512 and keeps the index |
| X86PageTables.IndexNewTruncate | v1/src/xxx/structures/paging/page_table.rs:209-212 | the truncated index is not above the input and differs from it by a multiple of 512 |
| X86PageTables.IndexTruncateAgrees | v1/src/xxx/structures/paging/page_table.rs:202-212 | truncation agrees with `new` wherever `new` succeeds, and truncating twice is truncating once |
| X86PageTables.StepsBetween | v1/src/xxx/structures/paging/page_table.rs:250-252 | the step count exists exactly when start is not above end, and start plus the count is end |
| X86PageTables.ForwardChecked | v1/src/xxx/structures/paging/page_table.rs:255-258 | stepping forward succeeds exactly when the sum stays below 512, and gives the sum |
| X86PageTables.BackwardChecked | v1/src/xxx/structures/paging/page_table.rs:261-264 | stepping back succeeds exactly when the count is not above the start, and gives the difference |
| X86PageTables.StepRoundTrip | v1/src/xxx/structures/paging/page_table.rs:248-265 | stepping forward by the distance reaches the end and stepping back by it returns to the start; a successful step in either direction is measured back by `steps_between` |
| X86PageTables.OffsetNew | v1/src/xxx/structures/paging/page_table.rs:277-281 | `PageOffset::new` succeeds exactly below 4096 and keeps the offset |
| X86PageTables.OffsetNewTruncate | v1/src/xxx/structures/paging/page_table.rs:284-287 | the truncated offset is not above the input and differs from it by a multiple of 4096 |
| X86PageTables.OffsetTruncateAgrees | v1/src/xxx/structures/paging/page_table.rs:277-287 | truncation agrees with `new` wherever `new` succeeds, and truncating twice is truncating once |

## Left out

- Inline assembly and registers: `lgdt`, `lidt` and the `load`/`pointer` functions of v1/src/structures/gdt.rs and idt.rs, `cr3` reads and writes, and `cs_get_reg`. CR3 is a field of `Machine`; the CS value and a handler's address are parameters of `Idts.SetHandlerFn`.
- TLB flushes (`tlb::flush`, `flush_all`) are not modelled. The model has no translation cache, so every walk reads memory as it is.
- PIC port I/O: `Pics.NotifyEndOfInterrupt` returns the `outb` writes as a trace instead of performing them.
- The `bit_field` crate is not part of the source; `BitFields` models the `get_bits`/`set_bits`/`set_bit` behaviour its callers rely on.
- `Table::next_table_create` is called by the mapper but is not in v1/src/memory/paging/table.rs. `Mapper.NextTableCreate` follows the tutorial's definition: abort on a huge entry, allocate with `expect("no frames available")`, link the frame PRESENT|WRITABLE, and zero the new table.
- v1/src/memory/paging/mod.rs declares `mod entry`, and the entry code it uses is v1/src/memory/paging/table_entry.rs, which `Entries` models.
- `deallocate_frame` of the area allocator is `unimplemented!` and is not modelled. `unmap` never frees the tables it empties, and the model frees none either.
- `Mapper.Unmap` drops the allocator argument of `unmap`, which the source never uses.
- `remap_the_kernel` is modelled through its parts: `ActivePageTables.InactiveNew`, `With` running a sequence of mapper calls, `Switch`, and the temporary page at 0xcafebabe. The kernel's ELF sections, the VGA buffer and the guard-page `unmap` are not replayed section by section.
- Raw pointer casts (`from_base_tag`, `map_table_frame`) become reads of the bytes or of the table at a frame.
- The remaining boot information tags are not modelled: boot loader name, command line, modules, framebuffer, EFI tables, RSDP, SMBIOS and image load address. Their decoders rely on helpers that are not part of this model.
- The VGA console, the interrupt handlers and their wiring, the version 2 executor and the integration tests are not modelled. They are output, hardware side effects or scheduling, not part of the memory core.
- The `Step` implementation of `Page` and the `p*_index` accessors of the x86_64 crate's page type are not modelled. They rest on `VirtAddr` arithmetic that is not part of this model. The kernel's own `Pages` indices are modelled instead.
- `PageTable::new` and indexing of the x86_64 crate are plain array construction and access.
- Mapper.MapToTranslate: requires `FreshTables`, that the frames the allocator hands out for new tables are not tables already on the page's path. A real allocator guarantees this; the model does not derive it from the allocator.
- Mapper.MapTranslate: the same `FreshTables` assumption.
- Mapper.IdentityMapTranslate: the same `FreshTables` assumption.
- Mapper.MapToThenUnmap: the same `FreshTables` assumption.
- TemporaryPages.MapTranslates: the same `FreshTables` assumption for the tables the temporary page's tiny allocator supplies.
- TemporaryPages.MapThenUnmap: the same `FreshTables` assumption.
- ActivePageTables.TempMapShape: the same `FreshTables` assumption.
- ActivePageTables.EnterRedirects: the same `FreshTables` assumption.
- ActivePageTables.WithRestores: the same `FreshTables` assumption.
- ActivePageTables.InactiveNewShape: the same `FreshTables` assumption.
- ActivePageTables.InactiveNewSteps: the same `FreshTables` assumption.
- ActivePageTables.InactiveLinked: the same `FreshTables` assumption.
- AreaFrameAllocator.AllocateFrame: requires the state invariant, which includes that every area is well formed (1 ≤ start + size < 2^64). Allocators built by `AreaFrameAllocator.New` meet it, because `new` already aborts on any other area.
- AreaFrameAllocator.ChooseNextArea: requires well-formed areas. The source aborts on any other area in its filter, and the model states that abort only once, in `AreaFrameAllocator.New`.
- BootInfos.Load: requires the given memory to hold at least the 8-byte header and all `total_size` bytes. That is the safety contract of the `unsafe fn load`, which reads through a raw pointer.
- Tags.Find: its own contract states only that a found tag has the requested type; `Tags.FindIsFirst` states that the tag is the first such tag.
- BootInfos.MemoryMapAt: a tag whose `size` reaches past the bytes of the boot information is the error `TAG_PAST_END`. In the source such a read is undefined behaviour. `BootInfos.EfiMemoryMapAt` and `BootInfos.ElfSectionsAt` do the same.
- Tags.Find: a tag of size 0 that is not the wanted one makes the source's iterator yield it forever. The model returns the error `NEVER_ENDS` in that case.
- ElfSections.Next: requires `InBounds`, the boot loader's promise that the headers still to be read lie inside the memory.
- ElfSections.CollectIsUsedHeaders: the same `InBounds` requirement.
- MemoryMaps.DecodeMemoryMapTag: requires the tag's `size` field to stay inside the bytes, which the source takes on trust from the boot loader.
- MemoryMaps.DecodeEfiMemoryMapTag: the same trust in `size`.
- ElfSections.DecodeElfSectionsTag: the same trust in `size`.
- BumpAllocators.AlignUp: requires an alignment of at least 1, which every `Layout` guarantees. It does not state that the result is a multiple of `align` when `align` is not a power of two, because the source's masking only means rounding for powers of two.
- The tag_type.rs doc comment calls `Efi64` tag 21, but the conversion code maps it to 12, which is also the Multiboot2 number. The model follows the code.

## Findings

| source | as written | input that shows it | evidently intended | confidence | as-written member | corrected member |
|---|---|---|---|---|---|---|
| v1/src/multiboot/memory_map.rs:304-308 | `ExactSizeIterator::len` of `EFIMemoryAreaIter` returns `self.entries`, the number of descriptors of the whole map, however many have already been yielded | a map of two 48-byte descriptors after one `next`: `len()` is 2 but one descriptor is left | `entries - i`, the number of descriptors still to be yielded, as `ExactSizeIterator` requires | not executed | MemoryMaps.EfiLenAsWritten, MemoryMaps.EfiLenAsWrittenOvercounts | MemoryMaps.EfiLen, MemoryMaps.EfiLenCounts |
