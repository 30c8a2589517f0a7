# Lobo and AWD, modelled and proved in Dafny

Lobo is a small x86_64 kernel; AWD is the boot loader that loads it. This project models their memory, paging,
threading and text code, and proves what it promises. `dafny verify dfyconfig.toml` checks all of it.

Memory is a sequence of bytes with little-endian 64-bit loads and stores. Objects whose methods update fields are
classes; each method is proved against a function or relation on values, and the theorems are lemmas about those.
`panic` and a failed `assert` are a `Halted` outcome that never returns; the kernel is built with assertions on
(`src/lobo/Makefile:13`). Fixed-width arithmetic is written out where it can wrap or truncate.

## What is here

| files | what they hold |
|---|---|
| `Memory.dfy`, `Outcomes.dfy` | bytes, words, alignment, bitwise or of addresses and flags; halting |
| `PageTables.dfy`, `PageRanges.dfy`, `AddressSpace.dfy` | the processor's four-level walk (4-level paging, Intel SDM volume 3A, section 4.5), trees of tables, and the flat map they stand for; shared by kernel and loader |
| `Bitset.dfy`, `KernelMemory.dfy`, `InitMemory.dfy`, `KernelEarly.dfy` | frame bitmap, first-fit allocation, the bump allocator, the boot-time set-up of the bitmap and the kernel's early boot |
| `Vmm.dfy`, `VmmTheorems.dfy`, `KernelRegion.dfy`, `LengthSafety.dfy`, `Memmap.dfy` | Lobo's paging code, what it does to translations, runs of mapping calls, and which lengths are safe to ask for |
| `AwdAlloc.dfy`, `AwdPaging.dfy`, `AwdKernel.dfy`, `AwdBoot.dfy`, `ElfFiles.dfy` | AWD's allocator, paging queue and ELF loader; the loading theorem, for memory as it is read and for the bytes of an ELF file with given records |
| `LinkedList.dfy`, `SwitchThread.dfy`, `SwitchRuns.dfy`, `Scheduling.dfy`, `Scheduler.dfy` | the thread list, the register switch, runs of switches, the scheduling relation, the scheduler |
| `Console.dfy`, `Numbers.dfy`, `Printf.dfy`, `Keyboard.dfy` | the scrolling screen, `itoa` and `atoi`, `vprintf`, the scancode queue and its decoder |

## What the proofs found

Each of these is proved with the exact condition under which the code does what one would expect, and with an input
on which it does not.

- A mapping call that no present page and no lack of heap stands in the way of maps its range if and only if the range,
  rounded up to pages, ends below 2^64 (`VmmTheorems.MapTakesEffectIff`). When it ends exactly there, its end wraps to
  0 and nothing is mapped. When it ends inside the last page of all, the cursor goes on from page 0 and the call never
  returns: with PRESENT set it panics at the latest on the page it mapped first (`AddressSpaces.LoopEndsIff`,
  `VirtualMemory.Vmm.MapPages`, `VmmTheorems.TopPageInstances`).
- `vmm::map` allocates `length / 0x1000` frames (at least one) but maps `length` rounded up. A length leaves every
  kernel-region page backed by a used frame, in every state, if and only if it is whole pages or less than one page,
  or the mapping is not PRESENT, or it is so long that it wraps (`LengthSafety.LengthSafeIff`). With any other length
  the next one-page call stops on a page that is already present; `LengthSafety.SixKilobytes` is such a run.
- `Schedule` makes the thread it leaves Ready whatever its state was: a current thread that has become Dead or
  Waiting is revived. The set of runnable threads is kept exactly otherwise (`Scheduling.KeepsAliveIff`,
  `Scheduling.DeadRevived`).
- The used count of the memory report is right exactly while no page reserved at boot has been freed
  (`InitMemory.UsedCountExact`, `InitMemory.ReservedPageFreed`).
- The kernel's `itoa` fills its 65-byte buffer from index 49, not from the end: in base 2 only numbers below 2^49
  fit; from base 3 on every 64-bit number does (`Numbers.KernelBufferFits`, `Numbers.BinaryOverflow`).
- `%d` and `%i` print an `int` as a signed decimal if and only if it is not negative; others come out as 32 unsigned
  bits (`Printf.SignedIff`, `Printf.MinusOne`).

## Model

| member | source | states |
|---|---|---|
| PageTables.AddressIndices | src/lobo/arch/x86_64/vmm.cpp:27-31 | the four shift-and-mask indices of an address are the base-512 digits of its virtual page number |
| Memory.WordBytes | src/lobo/arch/x86_64/vmm.cpp:33-46 | a 64-bit load is the sum of its eight bytes, the lowest address the least significant |
| Memory.LittleEndian | src/awd/includes/elf64.h:16-27 | 16- and 32-bit fields are read the same way |
| PageTables.CanonicalPagesDistinct | src/lobo/arch/x86_64/vmm.cpp:27-31 | different canonical pages never share all four indices |
| PageTables.WalkFromIsLeaf | src/lobo/arch/x86_64/vmm.cpp:33-50 | from any table of a tree, the processor's walk ends at the leaf entry of the page, or faults when there is none |
| PageTables.WalkRefinesFlatMap | src/lobo/arch/x86_64/vmm.cpp:22-56 | on a tree of tables the processor's four-level walk of every canonical address equals a flat map from page to leaf |
| PageTables.WalkIsFourLoads | src/lobo/arch/x86_64/vmm.cpp:22-56 | the walk in numbers: four loads at 8 times the four nine-bit fields of the address, the frame in bits 12 to 51 of the last word, a fault when bit 0 is clear |
| PageTables.StoreEntry | src/lobo/arch/x86_64/vmm.cpp:67 | writing one slot of one table changes that entry and no entry of any table |
| PageTables.LinkTable | src/lobo/arch/x86_64/vmm.cpp:62-67 | linking a zeroed page into an empty slot keeps the tree (aligned, unshared, acyclic) and every translation |
| PageTables.WriteLeaf | src/lobo/arch/x86_64/vmm.cpp:92 | writing a leaf keeps the tree and changes that page's leaf only |
| PageTables.EmptyTree | src/lobo/mem/vmm.cpp:29-30 | a zeroed root page is a tree that maps nothing |
| AddressSpaces.PassCursor | src/lobo/arch/x86_64/vmm.cpp:75-78 | the guard of the 64-bit loop in its k-th round: below the end for ceil(size / 4096) rounds, for none when the end wraps, and for ever when the end lies inside the last page |
| AddressSpaces.LoopEndsIff | src/lobo/arch/x86_64/vmm.cpp:75-78 | the loop over a range ends if and only if the range does not end inside the last page of all |
| AddressSpaces.GrowByOne | src/lobo/arch/x86_64/vmm.cpp:62-67 | a fresh page zeroed and linked: the tree, all translations, used frames and bytes outside the tables survive |
| AddressSpaces.NoRoomBefore | src/lobo/mem/heap.cpp:48-51 | running out of heap after making some tables of a range means the heap had no room for the range at the start |
| AddressSpaces.RewriteStep | src/lobo/arch/x86_64/vmm.cpp:91-92 | one round of a pass extends the rewritten part of the flat map by exactly the next page |
| AddressSpaces.StillUnmapped | src/lobo/arch/x86_64/vmm.cpp:84-89 | the remap check inside a pass sees the leaf the page had before the pass |
| PageRanges.OffsetInRange | src/lobo/arch/x86_64/vmm.cpp:78 | for canonical ranges, lying in the byte range and lying in the cyclic page range are the same |
| Bitsets.MaskBits | src/lobo/include/common/bitset.h:19-29 | or-ing and masking with a one-bit mask change exactly that bit of a byte |
| Bitsets.MaskIsShift | src/lobo/include/common/bitset.h:19 | the mask table is `1 << k` |
| Bitsets.BitLayout | src/lobo/include/common/bitset.h:19 | bit i is the one of weight 2^(i % 8) in byte i / 8 |
| Bitsets.SetBit | src/lobo/include/common/bitset.h:24 | the byte update of set is the one-bit update of the bit sequence |
| Bitsets.ClearBit | src/lobo/include/common/bitset.h:29 | the byte update of clear is the one-bit update of the bit sequence |
| Bitsets.Bitset.Test | src/lobo/include/common/bitset.h:17-20 | the bit, or a failed assertion exactly when it is out of range |
| Bitsets.Bitset.Set | src/lobo/include/common/bitset.h:22-25 | sets that bit only; fails exactly when it is out of range |
| Bitsets.Bitset.Clear | src/lobo/include/common/bitset.h:27-30 | clears that bit only; fails exactly when it is out of range |
| Bitsets.Bitset.Flip | src/lobo/include/common/bitset.h:32-35 | inverts that bit only; fails exactly when it is out of range |
| KernelMemory.Heap.KmallocAligned | src/lobo/mem/heap.cpp:41-81 | the aligned block, or why the machine stops; the cursor moves past the block; in the final mode, when the cursor has left its page, exactly the page of the new cursor becomes used, and otherwise none does |
| KernelMemory.Pmm.Init | src/lobo/mem/pmm.cpp:16-26 | all pages used, in a bitmap whose block and cursor are those of the heap; a second call does nothing; stops exactly when the heap has no room |
| KernelMemory.Pmm.Test | src/lobo/mem/pmm.cpp:68 | the bit of the address's page |
| KernelMemory.Pmm.Set | src/lobo/mem/pmm.cpp:64 | marks the address's page used |
| KernelMemory.Pmm.Free | src/lobo/mem/pmm.cpp:66 | marks the address's page free |
| KernelMemory.Pmm.RestOfRunIsFree | src/lobo/mem/pmm.cpp:43-49 | with 32-bit index and product: true exactly on a run of free pages; fails an assertion only when the free tail of memory is too short |
| KernelMemory.Pmm.MarkRun | src/lobo/mem/pmm.cpp:52 | with 32-bit index and product: a page is used afterwards exactly when it was before or lies in the run |
| KernelMemory.Pmm.Allocate | src/lobo/mem/pmm.cpp:28-62 | first fit, sound and complete: the lowest run of max(1, n) free pages is returned, and a page is used afterwards exactly when it was before or lies in that run; the machine stops if and only if there is no such run |
| KernelMemory.FirstRunIs | src/lobo/mem/pmm.cpp:28-62 | the run chosen lies within memory and every lower start has a used page, or the end of memory, within reach |
| KernelMemory.Pmm.SetFreeMemory | src/lobo/mem/pmm.cpp:110-122 | the counters are the numbers of free and of other pages |
| KernelMemory.CountFreeIs | src/lobo/mem/pmm.cpp:110-122 | the counting loop counts the set of free pages |
| KernelMemory.Pmm.PagesUsed | src/lobo/mem/pmm.cpp:93-103 | the used count is all pages less the free ones less those not backed at boot |
| InitMemory.Init | src/lobo/arch/x86_64/kernel_early.cpp:28-70 | a page is free if and only if it lies in a FREE region at or above 4 MiB; the counters add up to all pages; the heap ends after the bitmap; stops exactly when the bitmap does not fit or there are fewer than 1024 pages |
| InitMemory.FreePagesAre | src/lobo/arch/x86_64/kernel_early.cpp:53-67 | the same in bytes: a page is free exactly when it starts at 0x400000 or above and inside an entry of type 0, whose start and size are put together from their 32-bit halves |
| InitMemory.FindEnd | src/lobo/arch/x86_64/kernel_early.cpp:34-45 | the highest end of a FREE region |
| InitMemory.FreeRegions | src/lobo/arch/x86_64/kernel_early.cpp:53-63 | exactly the pages of FREE regions are released, none out of range |
| InitMemory.FreeRange | src/lobo/arch/x86_64/kernel_early.cpp:60 | exactly the pages of one region are released |
| InitMemory.ReserveLow | src/lobo/arch/x86_64/kernel_early.cpp:65-67 | exactly the first 1024 pages become used; fails exactly when there are fewer |
| InitMemory.FreeDifference | src/lobo/mem/pmm.cpp:96-103 | the change of the free count is the pages taken less the pages given back |
| InitMemory.CountTakenIs | src/lobo/mem/pmm.cpp:96-103 | the pages taken, as a set |
| InitMemory.UsedCountExact | src/lobo/mem/pmm.cpp:93-107 | the used count is the number of boot-free pages now used if and only if no page reserved at boot has been freed |
| InitMemory.ReservedPageFreed | src/lobo/mem/pmm.cpp:93-107 | one boot-reserved page freed: the report counts minus one page as used |
| KernelEarly.KernelEarly | src/lobo/arch/x86_64/kernel_early.cpp:72-100 | from the loader's heap to the allocator's final mode: the page directory is at the first page boundary of the heap, nothing is mapped, the kernel region is backed, the bitmap is exact and lies right after the only page table; for every heap and map, which stop is met, or none |
| KernelEarly.SetUpFrames | src/lobo/arch/x86_64/kernel_early.cpp:99-100 | setting up the frames keeps the page directory and the validity of the address space |
| VirtualMemory.SlotWord | src/lobo/arch/x86_64/vmm.cpp:20 | a slot is 0 exactly when there is no child, and masking 8 bits of a link gives the child's address |
| VirtualMemory.Vmm.FindPageTable | src/lobo/arch/x86_64/vmm.cpp:58-72 | the child's table; a missing one is made only when asked for; the tree and all translations stay |
| VirtualMemory.Vmm.CreateTable | src/lobo/arch/x86_64/vmm.cpp:62-67 | one new table, on a fresh page, linked where it belongs |
| VirtualMemory.Vmm.FindPageEntry | src/lobo/arch/x86_64/vmm.cpp:22-56 | the address of the page's leaf entry; exactly the missing tables of the path are made; no translation changes |
| VirtualMemory.Vmm.MapPages | src/lobo/arch/x86_64/vmm.cpp:74-95 | from any tree and for any range: on success the loop ended, the range was unmapped, now maps to the consecutive frames, all other leaves are unchanged and exactly the range's tables exist; a range that ends inside the last page never returns; otherwise the remap panic means the range was not unmapped and exhaustion that there was no room |
| VirtualMemory.ComesRound | src/lobo/arch/x86_64/vmm.cpp:78-89 | a pass that has mapped every page number as PRESENT meets the page it mapped first |
| VirtualMemory.Vmm.MapPage | src/lobo/arch/x86_64/vmm.cpp:79-93 | one round of the mapping loop |
| VirtualMemory.Vmm.UnmapPages | src/lobo/arch/x86_64/vmm.cpp:97-109 | exactly the range's leaves become not present; a loop that ends cannot stop while the range's tables exist |
| VirtualMemory.Vmm.UnmapPage | src/lobo/arch/x86_64/vmm.cpp:100-108 | one round of the unmapping loop |
| VirtualMemory.Vmm.Init | src/lobo/mem/vmm.cpp:22-42 | the first directory is a tree that maps nothing; a second call does nothing |
| VirtualMemory.Vmm.MapAllocated | src/lobo/mem/vmm.cpp:57-62 | while every mapped kernel-region page has its frame used, a call with a good length never meets the remap panic and keeps it so; why the call stops otherwise |
| VirtualMemory.Vmm.AllocateAndMap | src/lobo/mem/vmm.cpp:59-96 | the first fit's frames are marked and mapped at their kernel addresses, or the call stops for the reason it had |
| VirtualMemory.NeverRemapped | src/lobo/mem/vmm.cpp:57-62 | in a backed state no free run stops a call of good length with the remap panic |
| VirtualMemory.Vmm.Map | src/lobo/mem/vmm.cpp:44-97 | every combination of flags and address: what is mapped where, or why the machine stops; with a chosen address the call returns exactly when its loop ends, its pages are unmapped and its tables have room |
| VirtualMemory.TargetIs | src/lobo/mem/vmm.cpp:44-97 | which call that is, bit by bit of the flags: refused, anywhere, or at which address and from which frames |
| VirtualMemory.Vmm.MapDirect | src/lobo/mem/vmm.cpp:99-105 | the chosen pages map to the chosen frames and nothing else changes, or why the machine stops |
| VirtualMemory.Vmm.Unmap | src/lobo/mem/vmm.cpp:107-111 | the range is taken out and nothing else changes; the frames stay used; when the loop ends only the lack of room for its tables stops it |
| VmmTheorems.MapTranslates | src/lobo/arch/x86_64/vmm.cpp:74-95 | after mapping, the processor sends each address of the range to its frame with the given flags and every other canonical address where it went before |
| VmmTheorems.UnmapTranslates | src/lobo/arch/x86_64/vmm.cpp:97-109 | after unmapping, the range faults and every other canonical address translates as before |
| VmmTheorems.UnmapUndoesMap | src/lobo/arch/x86_64/vmm.cpp:74-109 | map then unmap restores the translation of every address, needs no table or heap for the unmapping, and leaves the range free to be mapped again |
| VmmTheorems.SameKeysSameBase | src/lobo/arch/x86_64/vmm.cpp:58-72 | a second pass over tables that exist makes none and takes no heap |
| VmmTheorems.TopRangeNotMapped | src/lobo/arch/x86_64/vmm.cpp:75-78 | a range ending at 2^64 leaves every translation as it was |
| VmmTheorems.MapReturnsIff | src/lobo/arch/x86_64/vmm.cpp:74-95 | a mapping call returns if and only if its loop ends, its pages were unmapped and the heap had room for its tables |
| VmmTheorems.MapTakesEffectIff | src/lobo/arch/x86_64/vmm.cpp:74-95 | with nothing in its way a mapping call returns with every address of its range mapped if and only if the range, rounded up to pages, ends below 2^64 |
| VmmTheorems.TopPageInstances | src/lobo/arch/x86_64/vmm.cpp:75-78 | half of the last page never ends; all of it is not mapped |
| VmmTheorems.EntriesOwnTheirTables | src/lobo/arch/x86_64/vmm.cpp:58-72 | two non-zero entries above the leaves never lead to one table, none leads to the root, and each has exactly the bits 0 and 1 set below its address |
| VmmTheorems.NewTablesAreFresh | src/lobo/arch/x86_64/vmm.cpp:63 | a table made by a call lies beyond everything allocated before it and overlaps no other table |
| VmmTheorems.TableBound | src/lobo/arch/x86_64/vmm.cpp:78-82 | n pages need at most (n + 1022) / 512 new leaf tables, and the matching bounds for the levels above |
| KernelRegion.FreeRunsAreUnmapped | src/lobo/mem/vmm.cpp:57-62 | with every mapped kernel page backed by a used frame, a free run of frames is mapped nowhere there |
| KernelRegion.BackedAfterAllocIff | src/lobo/mem/vmm.cpp:59-94 | after an allocating call the kernel region is backed if and only if a frame was allocated for each page mapped, or the one page too many has a used frame |
| KernelRegion.StepKeepsBacked | src/lobo/mem/vmm.cpp:45-97 | allocating calls of good length, unmapping and heap growth keep the kernel region backed |
| KernelRegion.RunKeepsBacked | src/lobo/mem/vmm.cpp:45-97 | in every state of every run of such calls the kernel region is backed |
| KernelRegion.RemapUnreachable | src/lobo/arch/x86_64/vmm.cpp:84-89 | over every such run from an empty directory, the pages the next allocation would map are unmapped and its loop ends: the remap panic is out of reach |
| KernelRegion.LastFrameNeverEnds | src/lobo/arch/x86_64/vmm.cpp:75-78 | the exception at the frame just below 2 GiB: a length within one page never returns |
| KernelRegion.StepIsLater | src/lobo/arch/x86_64/vmm.cpp:58-72 | mapping, unmapping and allocating never move a table or reuse memory below the cursor |
| KernelRegion.RunIsLater | src/lobo/arch/x86_64/vmm.cpp:58-72 | the same from any state of a run to any later one |
| KernelRegion.BlocksApartFromTables | src/lobo/mem/heap.cpp:41-81 | over every run, a block handed out at any step overlaps no page table of any earlier or later state |
| LengthSafety.PassExists | src/lobo/arch/x86_64/vmm.cpp:74-95 | with three pages of heap for each page to map, every pass over a range can be carried out |
| LengthSafety.LengthSafeIff | src/lobo/mem/vmm.cpp:57-94 | a length keeps the kernel region backed from every backed state if and only if it is whole pages, less than a page, not PRESENT, or wraps |
| LengthSafety.BadLengthMeetsRemap | src/lobo/mem/vmm.cpp:57-94 | with any other length, from an empty directory, the next one-page allocation is of a frame whose page is already present |
| LengthSafety.SixKilobytes | src/lobo/mem/vmm.cpp:57-94 | the run in which 0x1800 bytes are mapped before one page |
| Memmaps.Memmap.Allocate | src/lobo/include/kernel/mem/memmap.h:17-21 | the constructor that lets the manager choose |
| Memmaps.AllocTranslates | src/lobo/mem/vmm.cpp:57-94 | after an allocating call the processor sends each address of the range, rounded up to pages, to the frame at that address less 0xFFFFFFFF80000000, and every other where it went before |
| Memmaps.Memmap.At | src/lobo/include/kernel/mem/memmap.h:23-27 | the constructor that is given an address |
| Memmaps.Memmap.Direct | src/lobo/include/kernel/mem/memmap.h:30-35 | the constructor that is given both addresses |
| Memmaps.Memmap.Destroy | src/lobo/include/kernel/mem/memmap.h:37-40 | the destructor unmaps the range; when its loop ends it cannot stop while the mapping's tables exist |
| Memmaps.Memmap.Lifetime | src/lobo/include/kernel/mem/memmap.h:30-40 | once constructed the destructor cannot fail, and afterwards every address translates as before construction and the range can be mapped again |
| Memmaps.Memmap.LifetimeAt | src/lobo/include/kernel/mem/memmap.h:23-40 | the same for the constructor that is given one address |
| Memmaps.Memmap.LifetimeAnywhere | src/lobo/include/kernel/mem/memmap.h:17-40 | the same for the constructor that takes frames, which stay used |
| AwdAlloc.Allocator.MallocAligned | src/awd/memory/alloc.c:38-60 | the aligned block cut to 32 bits, or a stop exactly when the heap is not enabled or the block would reach its limit |
| AwdPaging.QueueLeafIsLast | src/awd/memory/paging.c:91-97 | a queue stands for the map in which the last region covering a page wins |
| AwdPaging.QueueLeafUncovered | src/awd/memory/paging.c:89-97 | pages in no region have no leaf |
| AwdPaging.RegionCovers | src/awd/memory/paging.c:92-97 | a region covers its addresses up to its size rounded up to pages, and sends each to the physical start plus its offset |
| AwdPaging.CommitTranslates | src/awd/memory/paging.c:86-101 | after commit the processor sends an address to the frame and attribute of the last queued region covering it |
| AwdPaging.CommittedAddress | src/awd/memory/paging.c:86-101 | the same by bytes: an address goes to the physical start plus its offset in the last queued region that contains it |
| AwdPaging.UncoveredFaults | src/awd/memory/paging.c:86-101 | after commit an address in no region faults |
| AwdPaging.InclusiveEndSamePages | src/awd/memory/paging.c:34-41 | a region whose end is its last byte covers the same pages as one whose end is the byte after |
| AwdPaging.LinkWithoutClearing | src/awd/memory/paging.c:57-59 | on a heap that is zero above its cursor, a page linked without clearing is an empty table |
| AwdPaging.Paging.NextTable | src/awd/memory/paging.c:56-62 | one create-or-load step: the child's table, with the tree and all translations kept |
| AwdPaging.Paging.LeafTable | src/awd/memory/paging.c:56-76 | the three steps: exactly the missing tables of the path are made |
| AwdPaging.Paging.MapPage | src/awd/memory/paging.c:45-84 | the page gets frame and attribute, whatever it had before; nothing else changes |
| AwdPaging.Paging.MapRegion | src/awd/memory/paging.c:92-97 | ceil(size / 4096) pages of a region are mapped and no other page changes |
| AwdPaging.Paging.ClearRoot | src/awd/memory/paging.c:89 | the root table and only it is cleared |
| AwdPaging.Paging.Commit | src/awd/memory/paging.c:86-101 | every page gets the leaf of the last region covering it; memory below the heap cursor other than the root is untouched; stops only when the heap has no room for the queue's tables |
| AwdPaging.Paging.CommitQueue | src/awd/memory/paging.c:91-98 | the loops refine the last-writer-wins map |
| AwdKernel.HeadersAgree | src/awd/kernel/kernel.c:79-82 | re-reading the headers gives the same ones while the file's bytes are unchanged |
| AwdKernel.Analyse | src/awd/kernel/kernel.c:24-71 | lowest LOAD address, lowest file address and page-rounded image size; stops exactly when the file is no ELF executable for this machine |
| AwdKernel.PhysStartIsLowest | src/awd/kernel/kernel.c:40-63 | the file address measured is the lowest of the LOAD segments, cut to 32 bits |
| AwdKernel.ImageSizeIsSum | src/awd/kernel/kernel.c:53-63 | the image size is the sum of the LOAD sizes, each rounded up to pages |
| AwdKernel.MeasureStep | src/awd/kernel/kernel.c:45-59 | one round of measuring, with its 32-bit casts, never overflows |
| AwdKernel.Load | src/awd/kernel/kernel.c:73-104 | every LOAD segment's file bytes are in place relative to the lowest address, the rest of memory is untouched; stops exactly when the heap has no room |
| AwdKernel.CopySegments | src/awd/kernel/kernel.c:79-93 | the copying loop: earlier segments survive later copies, nothing outside the image changes |
| AwdKernel.Memcpy | src/awd/kernel/kernel.c:92 | the byte loop copies disjoint ranges |
| AwdBoot.PagingInit | src/awd/memory/paging.c:31-43 | five regions are queued, the kernel last |
| AwdBoot.AddressMap | src/awd/memory/paging.c:31-43 | the address map after commit, for every address: the image, else the first 2 MiB at the kernel base, else low memory, the loader and its heap at their own addresses, else a fault |
| AwdBoot.PackedExtent | src/awd/kernel/kernel.c:40-63 | for segments packed page to page the measured size is the extent from first address to last end, and every segment lies in it |
| AwdBoot.PackedApart | src/awd/kernel/kernel.c:40-63 | packed segments do not overlap |
| AwdBoot.PackedLoads | src/awd/kernel/kernel.c:73-93 | page-aligned, packed segments with file sizes within memory sizes make a loadable image |
| AwdBoot.KernelTranslates | src/awd/memory/paging.c:31-43 | the kernel's mapping decides every page of the image |
| AwdBoot.LoadedByteReached | src/awd/memory/paging.c:86-101 | with the image in place, the committed tables reach each of its bytes |
| AwdBoot.Boot | src/awd/main.c:31-35 | end to end: after measuring, loading, queueing and committing, the processor's walk of p_vaddr + k reaches a byte equal to file byte p_offset + k for every k < p_filesz of every LOAD segment, and the committed tables are those of the five regions |
| AwdBoot.BootPacked | src/awd/main.c:31-35 | the same for every image whose LOAD segments are page-aligned, packed page to page, with file sizes within memory sizes |
| ElfFiles.HeaderDecodes | src/awd/includes/elf64.h:14-29 | when the 64 bytes of the file header are those of a given record, its entry, table offset, entry size and count are read, and it is accepted exactly when the magic number is right, the type is 2 and the machine 62 |
| ElfFiles.SegmentDecodes | src/awd/includes/elf64.h:32-41 | when the 56 bytes of a program header are those of a given record, its type, offset, virtual address, file size and memory size are read |
| ElfFiles.FileReads | src/awd/kernel/kernel.c:45-82 | for a file with given records the loader reads exactly those records, in order |
| ElfFiles.PackedFileLoads | src/awd/kernel/kernel.c:40-93 | records that are page-aligned and packed make a loadable image |
| ElfFiles.BootFile | src/awd/main.c:31-35 | end to end for the bytes of a file whose LOAD records are packed: it is refused exactly when its header is no x86_64 executable's; else, unless the heap runs out, the entry is the header's, the processor reaches byte offset + k of the file at vaddr + k for every LOAD record, the first 2 MiB at 0xFFFFFFFF80000000, low memory, loader and heap at their own addresses, and faults on every other address outside the image |
| LinkedLists.SingleLinkedList.PushBack | src/lobo/include/common/single_linked_list.h:52-64 | the value joins at the end and all nodes before it stay; stops exactly when the heap has no room for the node |
| LinkedLists.SingleLinkedList.PushFront | src/lobo/include/common/single_linked_list.h:67-78 | the value joins at the front; stops exactly when the heap has no room for the node |
| LinkedLists.SingleLinkedList.CreateHead | src/lobo/include/common/single_linked_list.h:108-114 | the first node; stops exactly when the heap has no room for it |
| LinkedLists.SingleLinkedList.At | src/lobo/include/common/single_linked_list.h:93-99 | the value at an index, nothing past the end |
| LinkedLists.SingleLinkedList.Size | src/lobo/include/common/single_linked_list.h:101 | the number of values |
| SwitchThread.Processor.SaveRegisters | src/lobo/arch/x86_64/switch_thread.s:10-24 | the stack holds all fifteen registers and the return address; nothing else in memory changes |
| SwitchThread.Processor.RestoreRegisters | src/lobo/arch/x86_64/switch_thread.s:28-43 | the processor resumes exactly the state saved |
| SwitchThread.FrameLayout | src/lobo/arch/x86_64/switch_thread.s:28-43 | a thread is saved in sixteen words, register by register at its own offset, the return address last |
| SwitchThread.Processor.Switch | src/lobo/arch/x86_64/switch_thread.s:8-43 | the old thread is saved on its own stack with its registers, its stack pointer after the return and its return address, and the processor continues as the new one; a self-switch returns to its caller unchanged |
| SwitchRuns.SavedUnique | src/lobo/arch/x86_64/switch_thread.s:28-43 | a saved frame determines the state it resumes |
| SwitchRuns.StepKeepsSuspended | src/lobo/arch/x86_64/switch_thread.s:8-43 | running code, other switches and new threads leave a suspended thread as it was |
| SwitchRuns.StaysSuspended | src/lobo/task/scheduler.cpp:60-68 | the same over any part of a run that does not resume it |
| SwitchRuns.ResumedAsLeft | src/lobo/task/scheduler.cpp:60-68 | over every run with disjoint stacks, a thread that switched away and is next resumed has all fifteen registers it had, the stack pointer eight higher, and continues at the return address on its stack |
| SwitchRuns.StartsAtFunction | src/lobo/task/scheduler.cpp:70-103 | a new thread first runs at its entry with the stack pointer at the top of its 16 KiB stack, rbp 0x80 below, and every other register 0 |
| SwitchRuns.SelfSwitchIsIdentity | src/lobo/task/scheduler.cpp:45-47 | switching to oneself keeps all registers, returns to the caller and changes nothing but the 0x78 bytes below the stack pointer |
| KernelScheduler.Scheduler.Init | src/lobo/task/scheduler.cpp:28-49 | the running code becomes the idle thread, its stack recorded by a self-switch that returns to it, alone in the list; stops exactly when the heap has no room for the list node |
| KernelScheduler.Scheduler.SwitchThread | src/lobo/task/scheduler.cpp:60-68 | the new thread is current and the processor has switched to it |
| KernelScheduler.Scheduler.CreateThread | src/lobo/task/scheduler.cpp:70-103 | a new Ready thread at the end of the list, on a fresh stack of 16 KiB, saved with its entry, the top of that stack and cleared registers; all other threads stay as saved; a creation step of the runs of switches |
| KernelScheduler.Scheduler.ForgeThread | src/lobo/task/scheduler.cpp:71-99 | the forged frame resumes at the entry with an empty stack and cleared registers |
| KernelScheduler.Scheduler.FindCandidate | src/lobo/task/scheduler.cpp:113-120 | the search finds the nearest Ready thread ahead of the index, if and only if there is one at a distance of at most 501 |
| KernelScheduler.Scheduler.SwitchTo | src/lobo/task/scheduler.cpp:122-124 | the two states change, the processor resumes the chosen thread as saved, and the one it leaves is saved with its registers, stack pointer and return address |
| KernelScheduler.Scheduler.Schedule | src/lobo/task/scheduler.cpp:108-128 | one call is one step of the scheduling relation and, when it picks a thread, one switch step of the runs of switches; the processor continues as the chosen thread exactly as it was saved, and the one it leaves is saved with its registers, stack pointer and return address |
| KernelScheduler.SwitchSystem | src/lobo/task/scheduler.cpp:60-68 | the register switch is a step of the system of all threads' stacks |
| KernelScheduler.CreateSystem | src/lobo/task/scheduler.cpp:75-101 | forging a frame and listing the thread is a step of that system |
| Scheduling.AdvanceSteps | src/lobo/task/scheduler.cpp:114 | k steps of the wrapping index reach the thread at distance k |
| Scheduling.AdvanceGoesRound | src/lobo/task/scheduler.cpp:114 | k steps lead to the index plus k, modulo the number of threads |
| Scheduling.NextReadyUnique | src/lobo/task/scheduler.cpp:113-120 | the thread a call picks is determined |
| Scheduling.ScheduledPicks | src/lobo/task/scheduler.cpp:108-128 | an enabled call with a Ready thread in reach picks the nearest one |
| Scheduling.SwitchesToFirstReady | src/lobo/task/scheduler.cpp:108-128 | if the first Ready thread ahead is d <= 501 places on, modulo the length, it becomes Running and current, the one left Ready, and nothing else changes |
| Scheduling.GivesUpAfter501 | src/lobo/task/scheduler.cpp:111-120 | if none of the next 501 is Ready, only the index moves, by 501 |
| Scheduling.StepKeepsRunning | src/lobo/task/scheduler.cpp:121-125 | no step makes a non-current thread Running |
| Scheduling.RunningIsCurrent | src/lobo/task/scheduler.cpp:108-128 | over every run every Running thread is the current one |
| Scheduling.ExactlyOneRuns | src/lobo/task/scheduler.cpp:108-128 | from the first switch on exactly one thread is Running |
| Scheduling.SleepersUntouched | src/lobo/task/scheduler.cpp:116-120 | Dead and Waiting threads that are not current are never chosen or changed |
| Scheduling.KeepsAliveIff | src/lobo/task/scheduler.cpp:121-123 | a call keeps the set of Ready-or-Running threads if and only if it does not switch or the current thread is in the set |
| Scheduling.DeadRevived | src/lobo/task/scheduler.cpp:121-123 | a Dead current thread followed by a Ready one is revived |
| Scheduling.RoundMovesTowards | src/lobo/task/scheduler.cpp:113-125 | with at most 501 threads, a call runs a Ready thread or moves the index strictly closer to it |
| Scheduling.BoundedWaiting | src/lobo/task/scheduler.cpp:108-128 | with at most 501 threads, one that stays Ready at distance d is run by the d-th call, whatever happens to the states of the others, and no thread runs twice before |
| Consoles.ChunksAppend | src/awd/console/console.c:83-85 | a character extends the last row, and a full row starts another at once |
| Consoles.LayoutAppend | src/awd/console/console.c:77-87 | the layout of a text grows character by character as the console writes |
| Consoles.LayoutGrows | src/awd/console/console.c:77-87 | the rows character by character, from one empty row: code 10 starts a row, and so does the eightieth character |
| Consoles.LayoutOk | src/awd/console/console.c:77-87 | no row is longer than 80 and the last is shorter |
| Consoles.DisplaysChar | src/awd/console/console.c:42-46 | a character at the cursor changes that cell of the window only |
| Consoles.DisplaysNewRow | src/awd/console/console.c:67-75 | a new row is blank, and scrolling loses the top row only |
| Consoles.Console.Init | src/awd/console/console.c:12-21 | a blank screen in the default color showing the empty text |
| Consoles.Console.WriteChar | src/awd/console/console.c:42-46 | one cell changes |
| Consoles.Console.Clear | src/awd/console/console.c:56-65 | every cell is a space in the default color |
| Consoles.Console.Scroll | src/awd/console/console.c:24-40 | the ascending in-place copy moves every row up by one and blanks the last in the current color |
| Consoles.Console.Newline | src/awd/console/console.c:67-75 | the window moves to a new row, and colors scroll with their rows |
| Consoles.Console.PrintChar | src/awd/console/console.c:77-87 | the screen again shows the last 25 rows of everything printed, with the cursor after it; the printed cell gets the current color and colors scroll with their rows |
| Consoles.Console.PrintString | src/awd/console/console.c:89-95 | the same for a string |
| Consoles.ScreenShows | src/awd/console/console.c:24-87 | what that means for each of the 80 by 25 cells: the last 25 rows from the top, spaces after and below them, the cursor after the last character |
| Numbers.DigitsCanonical | src/libc/stdlib/itoa.c:10-13 | the digits are below the base, have no leading zero, and their value is the number |
| Numbers.CanonicalUnique | src/libc/stdlib/itoa.c:10-13 | there is no other canonical way to write the number |
| Numbers.TextReads | src/libc/stdlib/itoa.c:3-15 | read with the digits 0 to 9 and A to F, the text of a number is a numeral of it without leading zero |
| Numbers.NumeralUnique | src/libc/stdlib/itoa.c:3-15 | and it is the only such numeral |
| Numbers.DigitCount | src/libc/stdlib/itoa.c:5-8 | a number has at most k digits if and only if it is below base^k |
| Numbers.KernelBufferFits | src/libc/stdlib/itoa.c:5-8 | the writes from index 49 down stay in the buffer if and only if the base is at least 3 or the number below 2^49 |
| Numbers.BinaryOverflow | src/libc/stdlib/itoa.c:5-8 | 2^49 in base 2 does not fit |
| Numbers.LoaderBuffersFit | src/awd/libc/stdlib/itoa.c:6-8 | the loader's exact-fit buffers hold every number in every base |
| Numbers.Itoa | src/libc/stdlib/itoa.c:3-15 | the text in front of the terminator is the number's, and no other character of the buffer changes |
| Numbers.KernelItoa | src/libc/stdlib/itoa.c:3-15 | the kernel's buffer and start index |
| Numbers.LoaderItoa | src/awd/libc/stdlib/itoa.c:4-16 | the loader's 32-bit conversion, base 2 to 16 |
| Numbers.LoaderItoa64 | src/awd/libc/stdlib/itoa.c:18-30 | the loader's 64-bit conversion, base 2 to 16 |
| Numbers.Atoi | src/libc/stdlib/atoi.c:3-11 | the value of the text before the terminator, when no intermediate result overflows |
| Numbers.NumberIsNumeral | src/libc/stdlib/atoi.c:3-11 | on decimal digits the value is that of the numeral |
| Numbers.AtoiOfItoa | src/libc/stdlib/atoi.c:3-11 | for every n < 2^31, atoi(itoa(n, 10)) is n, without overflow on the way |
| Printf.PrintPadding | src/libc/stdio/vprintf.c:12-19 | as many padding characters as the width exceeds the argument |
| Printf.PrintDirective | src/libc/stdio/vprintf.c:77-145 | each specifier emits its rendered field |
| Printf.SignedIff | src/libc/stdio/vprintf.c:100-111 | `%d` and `%i` print an int as a signed decimal if and only if it is not negative |
| Printf.MinusOne | src/libc/stdio/vprintf.c:100-111 | minus one prints as 4294967295 |
| Printf.ScanWidth | src/libc/stdio/vprintf.c:55-71 | at most seven digits are read and make the width |
| Printf.ScanDirective | src/libc/stdio/vprintf.c:43-77 | the scanner finds the parsed directive and stops at its specifier |
| Printf.Vprintf | src/libc/stdio/vprintf.c:21-147 | for every format with no dangling `%`, the output is the rendering of its pieces |
| Printf.FieldShape | src/libc/stdio/vprintf.c:84-140 | a field is as long as the longer of width and argument, shows the argument whole, and pads with zeros only right-justified `%x` and `%p` |
| Printf.ArgReads | src/libc/stdio/vprintf.c:100-140 | the text shown is the numeral of the argument modulo 2^32 in base 10 for `%d` and `%i`, modulo 2^32 in base 16 for `%x`, modulo 2^64 in base 16 for `%p` |
| Printf.OneField | src/libc/stdio/vprintf.c:79-145 | `%c` prints its argument modulo 256 as a character, and any specifier but s, c, i, d, x and p prints itself and takes no argument |
| Printf.ParsedZeros | src/libc/stdio/vprintf.c:73-74 | zero padding never goes with left justification |
| Printf.SpelledDirective | src/libc/stdio/vprintf.c:43-77 | a directive spelled from flags, width and specifier parses back to them, whatever follows |
| Printf.DirectiveIs | src/libc/stdio/vprintf.c:43-77 | every directive, well spelled or not: an optional `-`, at most seven digits that are the width, the specifier, which after seven digits may be one; a leading zero is a flag unless there is a `-` |
| Printf.SpellingParses | src/libc/stdio/vprintf.c:36-77 | any list of literals and fields, spelled out, is a format that parses back to the list |
| Printf.FormatsConcatenate | src/libc/stdio/vprintf.c:36-42 | formats put together parse to their pieces put together |
| Printf.OutputsConcatenate | src/libc/stdio/vprintf.c:79-145 | each directive takes its own argument: outputs of formats put together are put together |
| Keyboards.ShiftTypesNothing | src/lobo/hal/keyboard.cpp:20 | the shift key has no character in either table |
| Keyboards.DigitKeys | src/lobo/hal/keyboard.cpp:10-93 | the row of digits, plain and shifted, key by key |
| Keyboards.UpperKeys | src/lobo/hal/keyboard.cpp:10-93 | the upper letters, plain and shifted |
| Keyboards.MiddleKeys | src/lobo/hal/keyboard.cpp:10-93 | the middle letters, plain and shifted |
| Keyboards.LowerKeys | src/lobo/hal/keyboard.cpp:10-93 | the lower letters, plain and shifted |
| Keyboards.OtherKeys | src/lobo/hal/keyboard.cpp:10-93 | the eight other keys that type something, the same with shift; all that are left type nothing |
| Keyboards.ShiftIs | src/lobo/hal/keyboard.cpp:128-133 | shift is on exactly when a code 0x2A has come with no 0xAA after it |
| Keyboards.TypedGrows | src/lobo/hal/keyboard.cpp:121-142 | each code from 1 to 127 types one character and no other code does |
| Keyboards.DecodeFolds | src/lobo/hal/keyboard.cpp:112-146 | one call consumes codes up to a key press and types what the fold over all codes says, by the table the last shift event selects |
| Keyboards.DecodeStops | src/lobo/hal/keyboard.cpp:112-146 | a call reads up to the first code below 128, or everything, and types exactly when that code is not 0 |
| Keyboards.Keyboard.RecieveScancode | src/lobo/hal/keyboard.cpp:95-98 | the code joins the queue; fails exactly when 128 codes are pending |
| Keyboards.Keyboard.QueueEmpty | src/lobo/hal/keyboard.cpp:99-101 | is anything pending |
| Keyboards.Keyboard.ScancodeQueuePop | src/lobo/hal/keyboard.cpp:102-110 | the first code leaves and the others keep their order |
| Keyboards.Keyboard.ReadScancode | src/lobo/hal/keyboard.cpp:148-154 | the same, or 0 when there is none |
| Keyboards.Keyboard.GetcharAsync | src/lobo/hal/keyboard.cpp:112-146 | the loop ends and returns what the decoding function says, leaving what it leaves |
| Keyboards.FirstRemoved | src/lobo/hal/keyboard.cpp:105-108 | moving all codes but the first up by one and clearing the place past them removes the first |
| Keyboards.Memmove | src/libc/string/memmove.c:3-14 | the destination gets the source's old bytes, overlapping or not, in either direction |
| Keyboards.StreamDecoded | src/lobo/hal/keyboard.cpp:95-154 | over every interleaving of deliveries and calls the queue is first in, first out, and a reader that skips zeros sees the fold over the codes read |
| Keyboards.EverythingTyped | src/lobo/hal/keyboard.cpp:112-146 | one call more than there are pending key presses reads the whole queue: nothing typed is lost |

## Left out

- Port and serial I/O, interrupt tables, CPUID checks, `cli`/`sti`/`invlpg` and the entry to long mode; cr3 and the
  translation cache: making a directory current sets a field.
- Access checks of the walk: rights combined over levels, no-execute and reserved bits. The model gives the leaf's
  frame and low 12 bits.
- Kernel accesses through the direct map are accesses to physical memory at the address less KERNEL_VMB; that this
  window is mapped is an assumption.
- Page ranges that do not start on a page boundary, or that visit more than 2^36 pages and so a page twice; frames from
  2 GiB on for calls that allocate them, and `pmm::free` between mapping calls.
- VirtualMemory.Vmm.UnmapPages: a call whose loop never ends is an outcome, `NeverReturns`, without the writes it makes
  on the way; the same for a mapping call of that kind without PRESENT.
- Reentrancy: `Schedule`, `kmalloc_aligned` and the queue operations run without interruption.
- KernelMemory.Heap.KmallocAligned: requests whose end would pass 2^64. Only the page of the new cursor is marked, as in
  the code; nothing says that all pages of a block are.
- KernelMemory.Pmm.Allocate: for fewer than 2^20 pages; from there on the 32-bit product of the search wraps.
- InitMemory.Init: the memory map is a finite sequence, not a linked list in memory; FREE regions are page aligned.
- AwdPaging.Paging.Commit: the heap above its cursor is zero beforehand, since `malloc_aligned` does not clear pages
  but the paging code compares their entries with 0.
- AwdPaging.Paging.QueueMapping: an eleventh region, which the source would write past the queue.
- AwdBoot.Boot: bytes of a segment beyond its file size; the loader does not zero them.
- AwdBoot.Boot: the multiboot and memory-region set-up before it; the file, the heap's place and the three identity
  regions are parameters.
- ElfFiles.BootFile: executables whose LOAD segments are not page-aligned and packed page to page; AwdBoot.Boot speaks of
  every loadable image, in terms of the headers that ElfFiles.SegmentDecodes and ElfFiles.HeaderDecodes explain.
- LinkedLists.SingleLinkedList.PushBack: nodes take heap, but are objects and not bytes of it; `pop_back` is unused and
  unfinished.
- KernelMemory.Pmm.Init: the bitmap's bytes are an array of their own. Its block is a block of the heap, which overlaps
  no page table by KernelRegion.BlocksApartFromTables, but its bytes are not bytes of the modelled memory.
- KernelScheduler.Scheduler.CreateThread: control blocks are objects, not bytes of the modelled memory; stacks and
  their frames are bytes. Stack addresses count from the start of physical memory.
- KernelScheduler.Scheduler.Init: tasks and `switch_task_vas`, which writes the old cr3 value back.
- Numbers.Itoa: the static buffer is an array passed in or freshly made, so a second call does not overwrite the first
  result.
- Printf.Vprintf: arguments are a list that suits the format instead of a `va_list`; a dangling `%`, for which the
  source reads past the end of the format.
- Keyboards.Keyboard.ScancodeQueuePop: a pop from a full queue, for which the source writes past the end of the array.
- Log output, the debugger prompt, driver registry, version banners, `vga_console.cpp` (a near copy of the loader's
  console) and the copies of libc functions under `src/awd/libc` other than `itoa`.
