# A Dafny model of the kernel's memory stack, loader, drawing and enumeration code

The kernel hands out physical frames from a bitmap (`pmm.c`), builds a four-level page table whose tables are themselves
frames and are reclaimed by reference counts (`paging.c`), keeps a list of virtual regions above it (`vmm.c`), and lets a
process table own some of those regions (`process.c`, with `timer.c` for the clock). This project models that stack and
proves, across all of its layers, that

* the tree of tables refines a finite map from pages to frames: mapping is map update, unmapping is map removal, and no
  call changes the translation of another page;
* every table's count is the number of its present entries, every table has one parent entry, and no free frame can be
  reached from the root;
* over every run of frees and of allocations that find all their frames or none, and over every interleaving of them
  with the heap, every frame has exactly one owner: it is free, a page table, behind one page or in one heap block;
* an allocation followed by its free restores the free set, and with it the bitmap, frame for frame, page tables
  included;
* over every history of the process table at all, live processes have different pids and run times are right;
* over its runs whose creates ask for at least a byte and find all their frames, on its own or with the heap and other
  regions beside it, live processes also have disjoint, fully mapped stacks, listed or not;
* over every run at all of the virtual allocator that meets no null pointer, however short of frames, the tree stays well
  formed, no frame is owned twice and no address is handed out twice or beyond 2^48.

Beside it stand the other parts that hold an algorithm: the frame heap (`mem.c`), the ELF64 segment loader
(`bootloader.c`), the unrolled `memcpy` and `memset` (`string.c`), drawing and double buffering (`framebuffer.c`), PCI
enumeration (`pci.c`) and the decimal printers and parser (`shell.c`, `debug_panel.c`).

## How it is built

Code that works in place is a class or a method here too: `FrameAllocator` over an `array<bv8>`, `Mmu` over tables in
memory, `VmaList` over linked nodes, `VirtualMemory`, `ProcTable` over an array, `KernelHeap`, `FrameBuffer` over one
byte memory that holds both buffers, `Enumeration`. `KernelMemory` puts the heap and the address space side by side.
Each method is proved equal to a function on values; the laws are then proved about those functions, because only they
can be chained over runs. `DrawnBytes` and the lemmas named `...Is` or `...Means` say in plain numbers, bytes and bits
what the functions come to that the larger laws build on. The values are

* `Space`: the tables in memory, the root, which table stands at which place of the tree, and the free frames;
* `VmState`: a `Space`, the region list, the address cursor and the number of list nodes used;
* `World`: the process table, the clock and a `VmState`;
* `Kernel`: a `VmState` and the blocks of the heap beside it, both fed from one frame allocator;
* `System`: a `World` and those blocks.

`Shape` is the tree invariant, `Owns` adds that no table below the root is empty and that the frames are partitioned,
`Inv` adds the region list, `WorldInv` the process table, `KernelInv` the heap, `SystemInv` both; `Sound` is what is left
of `Owns` once frames have been lost. The constructor of `Boot.KernelMemory`
establishes `Inv` and `KernelInv` from the firmware's memory map, and `Boot.StartMemory` follows `kernel_main` from
there. `Left(s, p, n)` is the number of frames that will be left after mapping `n` pages from `p` on: one goes to each
page and one to each table still lacking. `Fits` says with it that `vmm_alloc` finds all it needs, `AllOrNothing` that it
does or that no frame is free, and `Obtainable` only that the code never goes on through a null pointer.

Some properties one would expect of this code do not hold of it. For each the project gives the exact condition, or an
input on which the property fails:

* `vmm_free` of the same pointer twice changes nothing the second time exactly when the pointer is not on the list twice
  (`SecondFree`); it can be on it twice after an allocation of no pages (`EmptyAllocationSharesAddress`), and only then
  (`SecondFreeAfterRun`).
* `vmm_alloc` followed by `vmm_free` of the pointer restores everything exactly when all frames needed are there and one
  of the 128 list nodes is left, or no page is asked for and no region is listed at that address; or when no frame is
  free at all (`AllocThenFree`). Without a node the pages can never be given back (`UnlistedNeverFreed`).
* `vmm_alloc` keeps the invariant exactly when it finds all its frames or none. All bytes asked for are mapped behind a
  pointer that comes back exactly when it found all frames and the rounding of the size did not wrap
  (`AllocKeepsInvIff`). With one frame left and the last table of the page missing, a pointer comes back for a page that
  is not mapped, and the frame is lost (`LastFrameLost`); with 516 usable frames a first allocation of 2 MB leads there
  (`LastFrameLostIsReachable`). Whatever runs short, no frame is ever owned twice (`RunStaysSound`).
* `paging_map` finds or makes its upper two tables, instead of going on through a null pointer, exactly when as many
  frames are free as of them are missing (`UpperMadeIff`).
* `paging_map` with its upper tables in reach is map update exactly when there are frames for all missing tables
  (`MapPageUpdatesIff`); otherwise it leaves an empty table behind exactly when it had made one on the way
  (`MapPageWithoutFrames`).
* Mapping a page that is mapped already loses its old frame (`RemapLosesFrame`).
* `process_create` keeps every live process a stack of its own exactly when the table is full, or the size is at least 1
  and does not wrap and all frames for it are there (`CreateKeepsInvIff`). A stack of no pages shares its address with the
  next region, and freeing it takes the pages of that one (`EmptyAllocationSharesAddress`). A stack that got no list node
  stays mapped for good: reaping gives back the listed ones only (`ReapKeepsInv`).
* A saved stack pointer lies in the process's region exactly for sizes of at least 8 whose rounding does not wrap
  (`StackTopInRegion`).
* `mem_alloc` yields a block that holds its header and all bytes asked for exactly when the rounding of the size does not
  wrap and the frames behind the lowest free one, as many as the size needs, are free too (`BlockHoldsBytesIff`).
  `mem_free` right after it restores the bitmap exactly when the size is not one of those from 2^64 - 4103 to 2^64 - 8,
  whose page count wraps to zero, and the managed frames of the block were free (`FreeRestoresSizeIff`). Whenever it
  happens, `mem_free` keeps every frame owned once exactly when it gives back all of the block and nothing that is in use
  (`MemFreeKeepsIff`).
* The total of memory is 4096 bytes for each frame the memory map offers exactly when no two conventional descriptors
  share a frame (`OfferedIsSumIff`), up to wrapping in 64 bits. The used memory figure never wraps, on any proper run of
  the heap and the virtual allocator, exactly when the 64-bit sum over the memory map does not fall short of the usable
  frames; with less than 2^64 bytes of conventional memory it never does (`UsageNeverWrapsIff`), and a descriptor of
  2^52 pages makes it fail (`SumWraps`).
* `memcpy` does what the byte loop does (`MemCpy`), so it copies correctly exactly when the destination does not start
  inside the source (`ByteLoopCopiesIff`).
* Clearing shows the same with and without the back buffer exactly for a colour of four equal bytes (`ClearAgreesIff`).
* The PCI scan stops before bus 255, so it meets every function the multifunction rules let through exactly when the host
  bridge has one function or no device of that bus is there (`ScanIsCompleteIff`).
* The kernel's own frame test keeps a frame for good when only one is left (`RunPmmTest`), and its region test keeps one
  when a frame but no list node is left (`RunVmmTest`).

The code's comment on `ref_count` calls it part of the table, and the table is meant to be one frame; but the field is
declared behind 512 eight-byte entries, outside the 4096 bytes. The model gives each table a separate count, which is what
the code means.

## Model

| member | source | states |
|---|---|---|
| `Bits.OneBitChanges` | `src/kernel/modules/mem/pmm.c:23-36` | setting or clearing a bit of a byte changes that bit and no other |
| `Pmm.MarkingRemovesOneFrame` | `src/kernel/modules/mem/pmm.c:23-26` | setting a frame's bit takes exactly that frame off the free set; an out-of-range index changes nothing |
| `Pmm.UnmarkingAddsOneFrame` | `src/kernel/modules/mem/pmm.c:28-31` | clearing a frame's bit adds exactly that frame to the free set; an out-of-range index changes nothing |
| `Pmm.FreeSetDeterminesBitmap` | `src/kernel/modules/mem/pmm.c:33-36` | equal free sets mean equal bitmaps bit for bit, so restoring the set restores the bitmap |
| `Pmm.OfferedAtMostSum` | `src/kernel/modules/mem/mem.c:42-47` | any set of frames that descriptors offer is at most as large as the sum of the conventional descriptors' pages, however they overlap |
| `Pmm.OfferedIsSumIff` | `src/kernel/modules/mem/mem.c:42-47` | the conventional descriptors' pages add up to the number of frames offered iff no frame is offered twice |
| `Pmm.OffersMeans` | `src/kernel/modules/mem/pmm.c:51-56` | a page-aligned descriptor offers a frame iff its type is 7 and all bytes of the frame lie in its address range |
| `Pmm.UsableMeans` | `src/kernel/modules/mem/pmm.c:38-65` | the frames shared out are the offered ones with addresses from 8 MB up to 4 GB |
| `Pmm.FrameAllocator.SetBit` | `src/kernel/modules/mem/pmm.c:23-26` | the whole new bitmap, an index out of range changing nothing |
| `Pmm.FrameAllocator.ClearBit` | `src/kernel/modules/mem/pmm.c:28-31` | the whole new bitmap, an index out of range changing nothing |
| `Pmm.FrameAllocator.TestBit` | `src/kernel/modules/mem/pmm.c:33-36` | a frame is used iff it is not in the free set; a frame out of range is used |
| `Pmm.FrameAllocator.Init` | `src/kernel/modules/mem/pmm.c:38-65` | afterwards a frame is free iff it lies at or above 8 MB, below 4 GB and inside a conventional descriptor, whatever was in the bitmap |
| `Pmm.FrameAllocator.ScanDescriptor` | `src/kernel/modules/mem/pmm.c:51-56` | one conventional descriptor frees exactly its frames below 4 GB |
| `Pmm.FrameAllocator.AllocFrame` | `src/kernel/modules/mem/pmm.c:67-75` | the lowest free frame is returned and taken; 0 and no change iff none is free |
| `Pmm.FrameAllocator.FreeFrame` | `src/kernel/modules/mem/pmm.c:77-80` | exactly the frame of the address becomes free, if it is managed |
| `Pmm.FrameAllocator.GetFreeFrames` | `src/kernel/modules/mem/pmm.c:82-88` | the count is the size of the free set |
| `PageTree.AddressIndices` | `src/kernel/modules/mem/paging.c:43-46` | the four shifted and masked fields of an address are the four indices of its 36-bit page number |
| `PageTree.PathIsInjective` | `src/kernel/modules/mem/paging.c:43-46` | pages with the same path through the tree are the same page |
| `PageTree.WalkIsLeaf` | `src/kernel/modules/mem/paging.c:104-122` | in a well-formed tree the processor's walk over memory sees exactly what stands in the last-level table of the page's path |
| `PageTree.PathIsWritable` | `src/kernel/modules/mem/paging.c:33` | on the way to every mapped page the entries of the upper three levels are present and writable |
| `PageTree.WithTableKeeps` | `src/kernel/modules/mem/paging.c:25-38` | making a missing table keeps the tree invariant and every translation, moves no table, and turns exactly one free frame into a table |
| `PageTree.LeafSetKeeps` | `src/kernel/modules/mem/paging.c:54-57` | writing a last-level entry with its count changes the translation of that one page and keeps the tree invariant |
| `PageTree.WithLeafSets` | `src/kernel/modules/mem/paging.c:54-57` | the entry written is present and writable and leads to the frame; the 32-bit count afterwards is the number of present entries, whether or not the entry was present |
| `PageTree.WithoutLeafSets` | `src/kernel/modules/mem/paging.c:77-79` | the 32-bit count after clearing a present entry is the number of present entries |
| `PageTree.WithoutTableKeeps` | `src/kernel/modules/mem/paging.c:82-96` | freeing an empty table and clearing its parent entry keeps the tree invariant and every translation, and turns that frame free |
| `PageTree.PrunedKeeps` | `src/kernel/modules/mem/paging.c:81-98` | the whole cascade keeps the tree invariant and every translation and leaves no empty table below the root |
| `PageTree.WithPathKeeps` | `src/kernel/modules/mem/paging.c:48-50` | the three table lookups of a mapping use as many frames as tables were missing and change no translation |
| `PageTree.MapPageKeeps` | `src/kernel/modules/mem/paging.c:40-60` | mapping with enough frames keeps the tree invariant, uses one frame per missing table, and changes the translation of that one page |
| `PageTree.UnmapPageKeeps` | `src/kernel/modules/mem/paging.c:62-102` | unmapping keeps the tree invariant, moves no remaining table, leaves no empty one, and changes the translation of that one page |
| `PageTree.MapPageIsUpdate` | `src/kernel/modules/mem/paging.c:40-60` | mapping is update of the page-to-frame map, tables made on the way and remaps included |
| `PageTree.MapPageUpdatesIff` | `src/kernel/modules/mem/paging.c:40-60` | with the upper tables in reach, mapping keeps the tree invariant, is map update or changes no translation, and is map update iff there are frames for all missing tables |
| `PageTree.UpperMadeIff` | `src/kernel/modules/mem/paging.c:48-50` | both upper tables are found or made, so that no null pointer is followed, iff as many frames are free as of them are missing |
| `PageTree.UnmapPageIsRemoval` | `src/kernel/modules/mem/paging.c:62-102` | unmapping is removal from the page-to-frame map, whichever tables get freed |
| `PageTree.MapPageWithoutFrames` | `src/kernel/modules/mem/paging.c:48-52` | without a last table nothing is mapped and no frame is left, and an empty table is left behind iff one had to be made on the way |
| `PageTree.EmptyTree` | `src/kernel/modules/mem/paging.c:18-23` | a root without present entries is a well-formed tree that maps nothing |
| `Paging.Mmu.constructor` | `src/kernel/modules/mem/paging.c:18-23` | the table CR3 names becomes the root, its low bits cleared |
| `Paging.Mmu.GetNextTable` | `src/kernel/modules/mem/paging.c:25-38` | the child table's frame is returned, 0 iff there is none in the end; with create it is made from the lowest free frame if there is one |
| `Paging.Mmu.AddTable` | `src/kernel/modules/mem/paging.c:31-35` | the writes for a new table: zeroed frame, parent entry, both counts |
| `Paging.Mmu.Map` | `src/kernel/modules/mem/paging.c:40-60` | memory, places and free set after the call are those of `MapPage` |
| `Paging.Mmu.WriteLeaf` | `src/kernel/modules/mem/paging.c:54-57` | memory after the last-level write is that of `WithLeaf` |
| `Paging.Mmu.Unmap` | `src/kernel/modules/mem/paging.c:62-102` | memory, places and free set after the call and its cascade are those of `UnmapPage` |
| `Paging.Mmu.ClearLeaf` | `src/kernel/modules/mem/paging.c:78-79` | memory after the present bit is cleared is that of `WithoutLeaf` |
| `Paging.Mmu.FreeTable` | `src/kernel/modules/mem/paging.c:82-96` | one step of the cascade: the frame is freed, the parent entry cleared and, below the root, the parent counted down |
| `Paging.Mmu.GetPhysical` | `src/kernel/modules/mem/paging.c:104-122` | the address of the walk's frame plus the offset, 0 if the walk fails; nothing changes |
| `Ownership.TableHasPage` | `src/kernel/modules/mem/paging.c:81-98` | below every table there is a mapped page that needs it |
| `Ownership.TablesAreCanonical` | `src/kernel/modules/mem/paging.c:25-99` | the tables in place are exactly those that the mapped pages need, so they are determined by the page map |
| `Ownership.AllocOneKeeps` | `src/kernel/modules/mem/vmm.c:23-27` | one round of the allocation loop keeps every frame owned once and maps the page to the lowest free frame |
| `Ownership.FreeOneKeeps` | `src/kernel/modules/mem/vmm.c:56-63` | one round of the free loop keeps every frame owned once and unmaps that page only; an unmapped page is skipped |
| `Ownership.AllocPagesKeep` | `src/kernel/modules/mem/vmm.c:23-27` | with enough frames the loop succeeds, maps exactly the pages asked for, changes no other translation, and leaves exactly `Left` frames |
| `Ownership.AllocPagesRunOut` | `src/kernel/modules/mem/vmm.c:23-27` | with fewer frames than pages and no table missing, the loop maps one page per frame and then fails |
| `Ownership.AllocPagesFallShort` | `src/kernel/modules/mem/vmm.c:23-27` | with too few frames for pages and tables, the loop uses up all of them, unmaps nothing, and fails with pages mapped or loses a frame; if it succeeds the last page is not mapped |
| `Ownership.FrameLost` | `src/kernel/modules/mem/paging.c:48-52` | a page's frame is lost when the last table cannot be made for it: neither free nor a table nor mapped |
| `Ownership.LeftIsObtainable` | `src/kernel/modules/mem/vmm.c:23-27` | frames for all pages and missing tables keep the loop from ever going on through a null pointer |
| `Ownership.FreePagesKeep` | `src/kernel/modules/mem/vmm.c:56-63` | the free loop unmaps exactly the pages of its range and moves no remaining table |
| `Ownership.SamePagesSameFrames` | `src/kernel/modules/mem/paging.c:77-99` | two owned states with the same page map, whose tables both sit inside a third's, have the same tables in the same frames and the same free set |
| `Ownership.AllocThenFreeRestores` | `src/kernel/modules/mem/vmm.c:19-73` | mapping fresh pages and unmapping them restores the free set, every table's place and frame, and the page map |
| `Ownership.FreeCountIsDetermined` | `src/kernel/modules/mem/vmm.c:19-73` | free frames, mapped pages and needed tables always add up to the frames given at the start; with nothing mapped all are free |
| `Ownership.RemapLosesFrame` | `src/kernel/modules/mem/vmm.c:24-26` | one round of the allocation loop keeps the partition iff the page was not mapped before |
| `Ownership.FramesReturned` | `src/kernel/modules/mem/vmm.c:48-73` | from one owned state to a smaller one, the frames that become free are those of the pages gone and of exactly the tables no page needs any more |
| `VmMachine.CursorNeverWraps` | `src/kernel/modules/mem/vmm.c:36-44` | in every reachable state the next address lies at least 2^32 below the end of the 48-bit space |
| `VmMachine.AllocKeepsInv` | `src/kernel/modules/mem/vmm.c:19-46` | a successful allocation keeps the invariant, returns the old cursor, maps exactly its pages, lists the region iff a node is left, and otherwise orphans its pages |
| `VmMachine.PagesInIs` | `src/kernel/modules/mem/vmm.c:20-21` | a region has the fewest pages that hold its size, and none if the rounding wraps |
| `VmMachine.AllocRunsOut` | `src/kernel/modules/mem/vmm.c:23-27` | out of frames with no table missing, NULL comes back and the pages reached stay mapped; the invariant survives iff there were none |
| `VmMachine.AllocKeepsInvIff` | `src/kernel/modules/mem/vmm.c:19-46` | for every call that meets no null pointer, the invariant survives iff all frames needed were there or none at all, and all bytes asked for are mapped behind a returned pointer iff all were there and the rounding of the size did not wrap |
| `VmMachine.LastFrameLost` | `src/kernel/modules/mem/paging.c:48-52` | with one frame left and only the last table missing, a listed region comes back whose page is not mapped, and the frame is lost |
| `FirstAllocations.LastFrameLostIsReachable` | `src/kernel/modules/mem/vmm.c:19-46` | from the start with 516 usable frames, an allocation of 2 MB leads to just that state |
| `FirstAllocations.SmallMemory` | `src/kernel/modules/mem/pmm.c:38-65` | one descriptor of 516 conventional pages at 8 MB makes just so many frames usable |
| `FirstAllocations.FirstPagesCost` | `src/kernel/modules/mem/vmm.c:19-27` | the first pages below one last-level table cost a frame each and three for their tables |
| `VmMachine.FreeKeepsInv` | `src/kernel/modules/mem/vmm.c:48-73` | a free keeps the invariant, unmaps exactly the first region at the pointer, and changes nothing for an unlisted pointer |
| `VmMachine.AllocThenFree` | `src/kernel/modules/mem/vmm.c:19-73` | for every call that meets no null pointer, allocating and freeing restores free set, tables, page map and list iff all frames were there and a list node was left (or no page was asked for and no region is listed at the address), or no frame was free at all |
| `VmMachine.UnlistedNeverFreed` | `src/kernel/modules/mem/vmm.c:36-42` | with 128 nodes used, no free of any pointer unmaps the pages of the next allocation |
| `VmMachine.UnlistedKeepsFrames` | `src/kernel/modules/mem/vmm.c:36-42` | and fewer frames are free after its free than before |
| `VmMachine.SecondFree` | `src/kernel/modules/mem/vmm.c:48-73` | a second free touches no page, table or frame, and changes nothing iff the pointer was not listed twice |
| `VmMachine.EmptyAllocationSharesAddress` | `src/kernel/modules/mem/vmm.c:44-45` | after an allocation of size 0 the next one gets the same address, the address is listed twice, and freeing it undoes the second allocation |
| `VmMachine.FullRegionsListedOnce` | `src/kernel/modules/mem/vmm.c:36-42` | a list of non-empty regions is strictly descending, disjoint, and holds no address twice |
| `VmMachine.RunKeepsInv` | `src/kernel/modules/mem/vmm.c:19-73` | over every run whose allocations find all their frames or none, tree invariant, partition, list and cursor stay right, and the cursor never falls |
| `VmMachine.RunStaysSound` | `src/kernel/modules/mem/vmm.c:19-73` | over every run that meets no null pointer, calls short of frames included, the tree stays well formed, no frame is owned twice and none appears from nowhere |
| `VmMachine.RunSurvives` | `src/kernel/modules/mem/vmm.c:19-73` | over every run that meets no null pointer, calls short of frames included, the cursor stays at least 2^32 below 2^48: every page it passed was given to one of 128 listed allocations, is mapped, or cost a frame |
| `Soundness.RoundsCount` | `src/kernel/modules/mem/vmm.c:23-27` | each round of the allocation loop maps a page that was not mapped or loses a frame |
| `Soundness.AllocOneSound` | `src/kernel/modules/mem/vmm.c:24-26` | a round of the allocation loop owns no frame twice, and loses none iff its tables can be made and the page was not mapped |
| `Soundness.FreeOneSound` | `src/kernel/modules/mem/vmm.c:57-62` | a round of the free loop owns no frame twice and loses none, whatever happened before |
| `VmMachine.IssuedNeverOverlap` | `src/kernel/modules/mem/vmm.c:44-45` | over any calls at all, the regions handed out lie one above the other, freed ones included: no address of a page is issued twice |
| `VmMachine.IssuedInSpace` | `src/kernel/modules/mem/vmm.c:44-45` | over every run that meets no null pointer, they all end below 2^48, so that no address wraps |
| `VmMachine.RunKeepsListed` | `src/kernel/modules/mem/vmm.c:33-73` | over any calls at all, the list stays sorted, disjoint, aligned and below the cursor |
| `VmMachine.SecondFreeAfterRun` | `src/kernel/modules/mem/vmm.c:48-73` | after any calls that never ask for no pages, a second free of any pointer changes nothing |
| `VmMachine.NothingLeaks` | `src/kernel/modules/mem/vmm.c:19-73` | after a run of at most 128 allocations in which every region was freed, every frame given at the start is free again |
| `Vmm.VmaList.constructor` | `src/kernel/modules/mem/vmm.c:13-17` | the list is empty and no node is used |
| `Vmm.VmaList.Record` | `src/kernel/modules/mem/vmm.c:33-42` | the linked list gets the region as its first element iff a node is left; the rest is unchanged |
| `Vmm.VmaList.Unlink` | `src/kernel/modules/mem/vmm.c:65-67` | the linked list loses exactly its k-th element and stays acyclic through distinct nodes |
| `Vmm.Cut` | `src/kernel/modules/mem/vmm.c:65-67` | leading the pointer before the k-th node past it takes that element off the chain |
| `Vmm.VirtualMemory.constructor` | `src/kernel/modules/mem/vmm.c:13-17` | the invariant holds at the start, with all free frames as the ones to be partitioned |
| `Vmm.VirtualMemory.MapRound` | `src/kernel/modules/mem/vmm.c:24-26` | one round is `AllocOne`, or fails without change iff no frame is free |
| `Vmm.VirtualMemory.MapPages` | `src/kernel/modules/mem/vmm.c:23-27` | the loop is `AllocPages`, running out of frames with or without tables missing included |
| `Vmm.VirtualMemory.Alloc` | `src/kernel/modules/mem/vmm.c:19-46` | the new state and the pointer are those of `VmMachine.Alloc`, also in states left by a call short of frames; and from a good state all is well afterwards iff all frames needed were there or none |
| `Vmm.VirtualMemory.UnmapRound` | `src/kernel/modules/mem/vmm.c:57-62` | one round is `FreeOne` |
| `Vmm.VirtualMemory.UnmapPages` | `src/kernel/modules/mem/vmm.c:56-63` | the loop is `FreePages` |
| `Vmm.VirtualMemory.Free` | `src/kernel/modules/mem/vmm.c:48-73` | the walk along the linked list and what follows is `VmMachine.Free`, for any pointer, also in states left by a call short of frames |
| `Boot.KernelMemory.constructor` | `src/kernel/modules/mem/mem.c:27-48` | brought up from the memory map, the whole stack satisfies its invariant with exactly the usable frames to be shared out and nothing mapped or held |
| `Boot.KernelMemory.MemAlloc` | `src/kernel/modules/mem/mem.c:54-71` | the state shared with the virtual allocator becomes that of `KernelMachine.MemAlloc`, and the invariant holds |
| `Boot.KernelMemory.MemFree` | `src/kernel/modules/mem/mem.c:73-83` | the shared state becomes that of `KernelMachine.MemFree`, and the invariant holds iff the block gives back its own frames and none in use |
| `Boot.KernelMemory.MemUsage` | `src/kernel/modules/sysinfo/sysinfo.c:86-91` | the total is 4096 bytes for each offered frame, in 64-bit arithmetic, if no two conventional descriptors share a frame; at any time, the used figure is the total less the free frames on every memory map whose 64-bit sum does not fall short of its usable frames |
| `Boot.KernelMemory.VmmAlloc` | `src/kernel/modules/mem/vmm.c:19-46` | the heap's blocks stay, and the invariant holds iff all frames needed were there or none |
| `Boot.KernelMemory.VmmFree` | `src/kernel/modules/mem/vmm.c:48-73` | the heap's blocks stay and the invariant holds |
| `Boot.StartMemory` | `src/kernel/kernel.c:70-121` | from `mem_init` over the back buffer's `mem_alloc` to both tests: with four frames to spare the tests pass, and what is not free afterwards is exactly the block |
| `FirstAllocations.FirstPageFits` | `src/kernel/modules/mem/vmm.c:19-27` | the first allocation of a page finds what it needs iff four frames are free: the page's own and three tables' |
| `SelfTest.RunVmmTest` | `src/kernel/kernel.c:55-68` | the kernel's region test passes iff a frame was left, and leaves the bitmap as it was bit for bit iff a list node was left or no frame |
| `SelfTest.RunPmmTest` | `src/kernel/kernel.c:43-53` | the kernel's frame test passes and restores the bitmap iff two frames are free; otherwise none is free afterwards |
| `ProcMachine.PidPigeonhole` | `src/kernel/modules/process/process.c:16-32` | with a free slot among 16, pids 1 to 16 cannot all be taken, so the search stops at 16 at the latest |
| `ProcMachine.LeastPidIsUnique` | `src/kernel/modules/process/process.c:19-32` | the least pid not in use is determined |
| `ProcMachine.StacksDisjoint` | `src/kernel/modules/process/process.c:15-48` | two live processes have different pids and disjoint stacks, and the stacks are mapped throughout, listed or not |
| `ProcMachine.StackTopInRegion` | `src/kernel/modules/process/process.c:37-44` | the saved stack pointer lies in the region iff the size is at least 8 and its rounding does not wrap |
| `ProcMachine.StackPointerTranslates` | `src/kernel/modules/process/process.c:37-44` | the saved stack pointer of every live process with a stack of at least 8 bytes translates to a frame that is in use for that page alone |
| `ProcMachine.CreateKeepsInv` | `src/kernel/modules/process/process.c:15-48` | creating gives the least unused pid, at most 16, and a stack of fresh pages, and keeps the invariant; a full table changes nothing |
| `ProcMachine.CreatedEntry` | `src/kernel/modules/process/process.c:32-44` | the new entry stands in the first free slot, running, with the old cursor as its base, the stack pointer 8 bytes below its end and no run time; no other entry changes |
| `ProcMachine.CreateKeepsInvIff` | `src/kernel/modules/process/process.c:15-48` | for every call that meets no null pointer, the invariant survives iff the table is full, or the size gets pages and all frames for it are there |
| `ProcMachine.KillKeepsInv` | `src/kernel/modules/process/process.c:81-86` | killing terminates the first entry with the pid, which keeps its other fields, changes nothing else and keeps the invariant |
| `ProcMachine.KillThenReap` | `src/kernel/modules/shell/shell.c:200-201` | killing a live process and reaping takes its pid off the table, unmaps its listed stack, and frees the stack's frames and those of every table that no page left needs; every other process not already killed stays as it was, its pages in the same frames |
| `ProcMachine.ReapKeepsInv` | `src/kernel/modules/process/process.c:50-57` | reaping unmaps exactly the listed stacks of the killed processes, frees exactly their slots, and keeps the invariant |
| `ProcMachine.ReapReturnsFrames` | `src/kernel/modules/process/process.c:50-57` | the frames that become free are exactly those of the killed processes' listed stacks and of the tables that no other page needs |
| `ProcMachine.ScheduleKeepsInv` | `src/kernel/modules/process/process.c:59-70` | the scheduler keeps the invariant, run times included, and catches up with the clock |
| `ProcMachine.TickKeepsInv` | `src/kernel/modules/timer/timer.c:25-31` | a tick keeps uptime at ticks / 100 and the rest of the invariant |
| `ProcMachine.HistoryKeepsClock` | `src/kernel/modules/process/process.c:15-86` | over every interleaving of creates, kills, reaps, schedules and ticks at all, pids stay distinct, uptime is ticks / 100, `last_time` is at most uptime, and a running process has run for `last_time` less its value at the creation |
| `ProcMachine.RunKeepsWorldInv` | `src/kernel/modules/process/process.c:15-86` | over every interleaving whose creates on a free slot ask for at least a byte and find all their frames, each live process has a mapped stack of its own and each frame one owner |
| `ProcMachine.RunTimeIsElapsedTime` | `src/kernel/modules/process/process.c:59-70` | over any stretch of any interleaving, while a process keeps running its run time grows by exactly what `last_time` grows |
| `ProcMachine.NotRunningKeepsTime` | `src/kernel/modules/process/process.c:59-70` | over any event a process that is not running is charged nothing and does not run again |
| `SystemMachine.SystemRunKeeps` | `src/kernel/modules/process/process.c:15-86` | over every interleaving of such creates and the other events with proper heap calls, allocations of other regions that find all their frames or none, and frees of anything but a live stack, every frame has one owner and pids, stacks and run times stay right |
| `SystemMachine.HeapKeeps` | `src/kernel/modules/mem/mem.c:54-83` | such a call of the heap or the virtual allocator keeps the processes' stacks and everything else of theirs |
| `Process.Timer.Handler` | `src/kernel/modules/timer/timer.c:25-31` | one tick more, and one second more at every hundredth |
| `Process.ProcTable.constructor` | `src/kernel/modules/process/process.c:10-13` | the empty table satisfies the invariant |
| `Process.ProcTable.FindPid` | `src/kernel/modules/process/process.c:18-32` | the search ends and returns the least positive pid not in the table |
| `Process.ProcTable.Occupy` | `src/kernel/modules/process/process.c:34-45` | the slot's new entry and the allocator's new state, stack pointer arithmetic in 64 bits |
| `Process.ProcTable.Create` | `src/kernel/modules/process/process.c:15-48` | the new table, memory and pid are those of `ProcMachine.Create`, 0 on a full table, whatever went wrong before; and from a good state all is well afterwards iff `Creatable` held before |
| `Process.ProcTable.GetProcByPid` | `src/kernel/modules/process/process.c:72-79` | the first entry with the pid, none iff there is none |
| `Process.ProcTable.Kill` | `src/kernel/modules/process/process.c:81-86` | the first entry with the pid becomes terminated and keeps its other fields, every other entry stays, whatever went wrong before, and good states stay good |
| `Process.ProcTable.CheckAndFree` | `src/kernel/modules/process/process.c:50-57` | the new table and memory are those of `Reap`, whatever went wrong before, and good states stay good |
| `Process.ProcTable.Scheduler` | `src/kernel/modules/process/process.c:59-70` | the new table and time are those of `Schedule`, whatever went wrong before, and good states stay good |
| `Process.ProcTable.Tick` | `src/kernel/modules/timer/timer.c:25-31` | the interrupt between the calls is `ProcMachine.Tick`, whatever went wrong before, and good states stay good |
| `Heap.TakenAreLowest` | `src/kernel/modules/mem/pmm.c:67-75` | k successive allocations return the k lowest free frames, in increasing order, or all there are |
| `Heap.BlockIsContiguousIff` | `src/kernel/modules/mem/mem.c:54-71` | the frames taken are as many as pages and consecutive iff the frames behind the lowest free one are free, however few are left |
| `Heap.BlockHoldsBytesIff` | `src/kernel/modules/mem/mem.c:54-71` | the block holds its header and all bytes asked for iff the rounding of the size does not wrap and the frames behind the lowest free one are free |
| `Heap.PagesHoldSize` | `src/kernel/modules/mem/mem.c:55-56` | unless the rounding wraps, the block has the fewest pages that hold its header and all bytes asked for |
| `Heap.BlockIs` | `src/kernel/modules/mem/mem.c:77-82` | what `mem_free` gives back are the managed frames of the block's page addresses, each computed in 64 bits |
| `Heap.FreeRestoresIff` | `src/kernel/modules/mem/mem.c:54-83` | `mem_free` after `mem_alloc` restores the free set iff a page was computed and the managed frames of the block were free |
| `Heap.FreeRestoresSizeIff` | `src/kernel/modules/mem/mem.c:54-83` | in terms of the size: restored iff the page count does not wrap to zero and the managed frames of the block were free |
| `Heap.KernelHeap.Init` | `src/kernel/modules/mem/mem.c:27-48` | the usable frames are free and the total is the sum of the conventional pages in 64-bit arithmetic; if no two conventional descriptors share a frame, that is 4096 bytes for each frame offered |
| `Heap.KernelHeap.Alloc` | `src/kernel/modules/mem/mem.c:54-71` | NULL iff nothing is free; else the block behind the header in the lowest free frame, the header's page count, and exactly the lowest frames taken |
| `Heap.KernelHeap.Free` | `src/kernel/modules/mem/mem.c:73-83` | exactly the managed frames of the block become free, addresses wrapping; NULL changes nothing |
| `KernelMachine.EveryFrameOwnedOnce` | `src/kernel/modules/mem/mem.c:54-83` | the usable frames are the disjoint union of free frames, page tables, mapped frames and the frames of each heap block |
| `KernelMachine.MemAllocKeeps` | `src/kernel/modules/mem/mem.c:54-71` | `mem_alloc` keeps it so, whatever the size and however few frames are left |
| `KernelMachine.MemFreeKeepsIff` | `src/kernel/modules/mem/mem.c:73-83` | `mem_free` of a held block keeps it so iff it frees all frames of the block and none in use beside them |
| `KernelMachine.WholeBlockGivesBack` | `src/kernel/modules/mem/mem.c:54-83` | a block whose frames were all free when it was handed out satisfies that condition |
| `KernelMachine.KernelRunKeeps` | `src/kernel/modules/mem/mem.c:54-83` | it stays so over every interleaving of `mem_alloc`, such `mem_free`, `vmm_alloc` that finds all its frames or none, and `vmm_free` |
| `KernelMachine.RunNeverExceedsMemory` | `src/kernel/modules/mem/pmm.c:82-88` | over every such interleaving the free frames stay usable and never exceed the conventional pages |
| `KernelMachine.UsageNeverWrapsIff` | `src/kernel/modules/sysinfo/sysinfo.c:86-91` | from the start on, the free frames never exceed the pages of the total on any proper run iff the map's 64-bit sum does not fall short of its usable frames, as it never does below 2^64 bytes |
| `KernelMachine.SumWraps` | `src/kernel/modules/mem/mem.c:42-47` | a descriptor of 2^52 conventional pages makes the total zero while frames are usable |
| `Heap.GetMemUsage` | `src/kernel/modules/sysinfo/sysinfo.c:86-91` | the used figure and the free bytes add up to the total's whole pages modulo 2^64; it is their difference iff no more frames are free than the total has pages |
| `Loader.DisjointImage` | `src/bootloader/bootloader.c:175-183` | with disjoint segments every address holds its own segment's file byte, counted from the segment's offset, or zero past the file part, whatever the order of the headers |
| `Loader.SegmentStands` | `src/bootloader/bootloader.c:175-183` | wherever no later header's segment lies, the image holds the bytes of the file from the segment's offset on, then zeros; with overlaps the last header wins |
| `Loader.ImageIsAsked` | `src/bootloader/bootloader.c:175-183` | with disjoint segments the block holds each segment's file bytes and then zeros, and its old contents outside all segments |
| `Loader.UncoveredImage` | `src/bootloader/bootloader.c:175-183` | exactly the addresses outside all segments keep what the block held |
| `Loader.CoveredInBlock` | `src/bootloader/bootloader.c:167-179` | every covered address falls inside the allocated pages |
| `Loader.FindSpan` | `src/bootloader/bootloader.c:158-167` | the bounds enclose all loadable segments and are reached by two of them; the count is 0 iff there is none |
| `Loader.ZeroFill` | `src/bootloader/bootloader.c:123-126` | exactly the given bytes become zero |
| `Loader.PlaceSegments` | `src/bootloader/bootloader.c:175-183` | the block holds the described image, later segments winning, and old contents elsewhere |
| `Loader.LoadKernel` | `src/bootloader/bootloader.c:135-188` | the whole outcome: load error iff the four magic bytes or the loadable segments are missing; else the fewest pages that hold the span, in which disjoint segments stand with their file bytes and zeros behind them, old contents elsewhere, and the relocated entry |
| `StringOps.WordIsBytes` | `src/kernel/string.c:14-36` | one word copied between ranges that start a word or more apart, overlapping or not, is eight rounds of the byte loop |
| `StringOps.CopyWords` | `src/kernel/string.c:9-36` | the 8, 4, 2 and 1 word loops do what the byte loop does on a prefix of the range, overlapping or not |
| `StringOps.MemCpy` | `src/kernel/string.c:3-47` | for every length, alignment and overlap memory becomes what the byte loop makes of it; so exactly the n bytes are copied when the destination does not start inside the source, as written out byte by byte for disjoint ranges |
| `StringOps.ByteLoopCopiesIff` | `src/kernel/string.c:3-47` | that result is the correct copy whatever memory holds iff the range is empty or the destination does not start inside the source |
| `StringOps.LoopRepeats` | `src/kernel/string.c:40-44` | with the destination above the source, a byte of it gets the old source byte if that lies below the destination, and otherwise what was just copied there |
| `StringOps.LoopKeepsOutside` | `src/kernel/string.c:40-44` | bytes outside the destination stay |
| `StringOps.PatternBytes` | `src/kernel/string.c:55-60` | every byte of the 64-bit fill pattern is the fill byte |
| `StringOps.StoreWords` | `src/kernel/string.c:62-85` | the word loops fill a prefix of the range and touch nothing else |
| `StringOps.MemSet` | `src/kernel/string.c:49-96` | for every length and alignment exactly the n bytes become the low byte of the value |
| `Framebuffer.HueToRgb` | `src/kernel/modules/framebuffer/framebuffer.c:66-80` | no unsigned subtraction of the hue arithmetic goes below zero, and every channel fits a byte |
| `Framebuffer.DiscHue` | `src/kernel/modules/framebuffer/framebuffer.c:177` | the hue of every column of a disc fits a byte |
| `Framebuffer.PixelsApart` | `src/kernel/modules/framebuffer/framebuffer.c:105` | different pixels share no byte |
| `Framebuffer.PixelWritten` | `src/kernel/modules/framebuffer/framebuffer.c:105-106` | the four bytes written change that pixel and nothing else |
| `Framebuffer.WrappedIsOffScreen` | `src/kernel/modules/framebuffer/framebuffer.c:192` | a coordinate below zero wraps to one no screen reaches |
| `Framebuffer.FrameBuffer.constructor` | `src/kernel/modules/framebuffer/framebuffer.c:82-88` | drawing starts on the visible buffer |
| `Framebuffer.FrameBuffer.EnableDoubleBuffering` | `src/kernel/modules/framebuffer/framebuffer.c:198-204` | buffering is on iff a block was obtained, and then draws into it; otherwise exactly the warning is drawn on the visible buffer |
| `Framebuffer.FrameBuffer.PutPixel` | `src/kernel/modules/framebuffer/framebuffer.c:100-107` | exactly the pixel changes if it is on screen, and nothing otherwise: the drawing of a dot |
| `Framebuffer.FrameBuffer.ClearAll` | `src/kernel/modules/framebuffer/framebuffer.c:109-117` | every pixel gets the colour, or with the back buffer its low byte four times |
| `Framebuffer.FrameBuffer.DrawChar` | `src/kernel/modules/framebuffer/framebuffer.c:119-128` | exactly the on-screen pixels of the glyph's 8 by 8 box get the colours of `GlyphBytes`, wrapped coordinates included |
| `Framebuffer.FrameBuffer.DrawString` | `src/kernel/modules/framebuffer/framebuffer.c:130-135` | exactly the on-screen pixels of the glyphs side by side get the colours of `TextBytes` |
| `Framebuffer.FrameBuffer.DrawColorBar` | `src/kernel/modules/framebuffer/framebuffer.c:137-171` | exactly the on-screen rows of the bar get the colours of `BarBytes` |
| `Framebuffer.FrameBuffer.DrawBarRow` | `src/kernel/modules/framebuffer/framebuffer.c:145-150` | one row of a band adds exactly that row to the picture |
| `Framebuffer.FrameBuffer.DrawFilledCircle` | `src/kernel/modules/framebuffer/framebuffer.c:173-196` | exactly the on-screen lattice points of the disc get the hues of `DiscBytes` |
| `Framebuffer.FrameBuffer.SwapBuffers` | `src/kernel/modules/framebuffer/framebuffer.c:206-214` | the visible buffer shows what the back buffer showed, and nothing outside it changes; without buffering nothing changes |
| `Framebuffer.UniformIsSmeared` | `src/kernel/modules/framebuffer/framebuffer.c:110-111` | repeating the low byte gives the colour back iff its four bytes are equal |
| `Framebuffer.RunsAgree` | `src/kernel/modules/framebuffer/framebuffer.c:100-196` | any sequence of calls with such clears leaves both buffers showing the same picture, whichever it was drawn into |
| `Framebuffer.DoubleBufferingRefines` | `src/kernel/modules/framebuffer/framebuffer.c:100-214` | and after a swap the visible buffer shows what direct drawing would have shown |
| `Framebuffer.BackShowsDirect` | `src/kernel/modules/framebuffer/framebuffer.c:100-214` | with swaps anywhere between the calls, the back buffer always shows what direct drawing would show |
| `Framebuffer.SwapsShowDirect` | `src/kernel/modules/framebuffer/framebuffer.c:206-214` | from any swap until the next the screen shows what direct drawing would have shown at that swap |
| `Framebuffer.ClearAgreesIff` | `src/kernel/modules/framebuffer/framebuffer.c:109-117` | a clear shows the same in both modes iff the colour's four bytes are equal |
| `DrawnBytes.InkBytes` | `src/kernel/modules/framebuffer/framebuffer.c:100-107` | a drawing leaves the four bytes of an untouched pixel alone, and gives a touched one those of its colour, lowest first, at row times pitch plus four times the column |
| `DrawnBytes.RgbBytes` | `src/kernel/modules/framebuffer/framebuffer.c:94-98` | the order of the channels in memory in either format |
| `DrawnBytes.GlyphBytes` | `src/kernel/modules/framebuffer/framebuffer.c:119-128` | each on-screen pixel of a character's box has the four bytes of the foreground colour if bit `col` of that row of the glyph is set, and of the background colour if not; codes outside 32 to 126 have the glyph of a question mark |
| `DrawnBytes.GlyphTouches` | `src/kernel/modules/framebuffer/framebuffer.c:119-128` | a character touches exactly the pixels fewer than 8 to the right of and below its position, in 64-bit arithmetic |
| `DrawnBytes.TextBytes` | `src/kernel/modules/framebuffer/framebuffer.c:130-135` | the i-th character of a string has its pixels, with those bytes, 8 i columns to the right |
| `DrawnBytes.TextTouches` | `src/kernel/modules/framebuffer/framebuffer.c:130-135` | a string touches exactly the pixels of the boxes of its characters |
| `DrawnBytes.ClearInk` | `src/kernel/modules/framebuffer/framebuffer.c:113-116` | a clear gives every pixel its colour |
| `DrawnBytes.DotInk` | `src/kernel/modules/framebuffer/framebuffer.c:100-107` | a dot gives its own pixel its colour and touches no other |
| `DrawnBytes.ByteValue` | `src/kernel/modules/framebuffer/framebuffer.c:73-78` | the truncation to a byte keeps the values of a byte |
| `DrawnBytes.HueColors` | `src/kernel/modules/framebuffer/framebuffer.c:66-80` | the six arcs of the colour wheel with the channel that is full, the falling and the rising one, their quotients given by what they are quotients of |
| `DrawnBytes.BarBytes` | `src/kernel/modules/framebuffer/framebuffer.c:137-171` | the four bytes of every on-screen pixel of a bar: green to red in the first third, blue to green in the second, the hues below, by how far to the right the pixel lies |
| `DrawnBytes.BarTouches` | `src/kernel/modules/framebuffer/framebuffer.c:137-171` | a bar touches exactly its rows |
| `DrawnBytes.DiscBytes` | `src/kernel/modules/framebuffer/framebuffer.c:173-196` | the four bytes of every on-screen lattice point of a disc: the hue by how far it lies from the left edge |
| `DrawnBytes.DiscTouches` | `src/kernel/modules/framebuffer/framebuffer.c:173-196` | a disc touches exactly the lattice points no further from its centre than its radius |
| `Pci.AddressIsInjective` | `src/kernel/modules/pci/pci.c:13-21` | different aligned registers of different functions have different address words |
| `Pci.AddressFields` | `src/kernel/modules/pci/pci.c:13-18` | bit 31 of the address word is set, bits 16 to 23 are the bus, 11 to 15 the device, 8 to 10 the function, 2 to 7 the register, and all others are clear |
| `Pci.ReadIs` | `src/kernel/modules/pci/pci.c:13-21` | a register is what the configuration space answers to that address word |
| `Pci.PresentIs` | `src/kernel/modules/pci/pci.c:90-92` | a function is there iff the low half of its register 0 is not all ones |
| `Pci.MultiIs` | `src/kernel/modules/pci/pci.c:96-98` | a device has several functions iff bit 23 of its register 0x0C is set |
| `Pci.FunctionsListed` | `src/kernel/modules/pci/pci.c:97-105` | the function loop meets exactly the present functions from 1 to 7, in order |
| `Pci.AllListed` | `src/kernel/modules/pci/pci.c:88-124` | the scan meets exactly the present functions that the multifunction rules let through on buses 0 to 254, in bus, device, function order, none twice |
| `Pci.ScanIsCompleteIff` | `src/kernel/modules/pci/pci.c:110-124` | every such function of the 256 buses is met iff the host bridge has one function or no device of bus 255 is there |
| `Pci.Enumeration.CheckDevice` | `src/kernel/modules/pci/pci.c:68-86` | a present function is appended unless 64 are listed |
| `Pci.Enumeration.CheckFunctions` | `src/kernel/modules/pci/pci.c:99-105` | the loop appends the list of `Functions` |
| `Pci.Enumeration.CheckSlot` | `src/kernel/modules/pci/pci.c:90-106` | one round of the device loop appends the list of `OneDevice` |
| `Pci.Enumeration.CheckBus` | `src/kernel/modules/pci/pci.c:88-108` | the device loop appends the list of `Devices` |
| `Pci.Enumeration.Init` | `src/kernel/modules/pci/pci.c:110-124` | the device table is the first 64 of the whole list, entry by entry, whatever it held before |
| `Decimal.ValueOfDigits` | `src/kernel/modules/shell/shell.c:22-25` | the digits by repeated division stand for the number |
| `Decimal.NumeralDigits` | `src/kernel/modules/shell/shell.c:22-26` | each character of the numeral is 48 plus the decimal digit of its place |
| `Decimal.NumeralStarts` | `src/kernel/modules/shell/shell.c:13-28` | the numeral of 0 is "0", and no other starts with a zero |
| `Decimal.ValueOfSnoc` | `src/kernel/modules/shell/shell.c:30-37` | the value of digits followed by one more is ten times their value plus that digit |
| `Decimal.Peel` | `src/kernel/modules/shell/shell.c:20-25` | the digit loop fills at most 20 characters, least significant digit first |
| `Decimal.Itoa` | `src/kernel/modules/shell/shell.c:13-28` | the numeral without leading zeros, a terminator, and nothing else is written |
| `Decimal.Atoi` | `src/kernel/modules/shell/shell.c:30-37` | the value of the leading digits modulo 2^64, for any string |
| `Decimal.PrefixEnds` | `src/kernel/modules/shell/shell.c:32` | the digits read are those before the first character that is none |
| `Decimal.AtoiOfItoa` | `src/kernel/modules/shell/shell.c:13-37` | parsing what was printed gives back every 64-bit number |
| `Decimal.AppendDec` | `src/kernel/modules/debug_panel/debug_panel.c:32-45` | the longest prefix of the numeral that fits before the last byte is appended, and nothing else is written |

## Left out

- Where `ref_count` really lies: it is a separate field of each table here, not the bytes behind the frame.
- Firmware-built page tables and large pages: the root starts without present entries, as a tree with counts of its own.
- The root's count is only ever counted up by the code, so no property of it is stated.
- Calls before `paging_init` (which do nothing), `invlpg`, CR3 and the TLB.
- Paging.Mmu.Map: requires that the upper two tables are there or obtainable, because the code goes on through a null
  pointer when they are not; the missing last table is modelled.
- Vmm.VirtualMemory.Alloc: requires that the upper tables of each page it reaches can be had, for the same reason
  (`Obtainable`); every other way of running out is modelled, and so is what is called afterwards.
- Boot.KernelMemory.MemFree: the methods that put heap and address space side by side are not stated for what is called
  after one of them broke their invariant.
- SelfTest.RunVmmTest: requires all frames or none, because otherwise the kernel's test writes through a pointer that is
  not mapped.
- Process.ProcTable.Create: requires the same as `vmm_alloc`, and only if a slot is free. Where the entry point is written
  when the region is missing or too small is not followed up.
- The contents of data frames: the entry point `process_create` writes to the stack and the word the kernel's region test
  writes are not stored anywhere, only where they would go is proved.
- The raw bytes of the memory map, its descriptor size and a null map: the map is a sequence of descriptors, and the
  frame numbers of each stay within 64 bits.
- Overflow of the tick, uptime and run-time counters: they are unbounded here.
- Heap.KernelHeap.Free: takes a pointer that `mem_alloc` returned, with its header still there.
- Loader.LoadKernel: file reads are full reads and the page allocator's answer is a parameter; more than 16 headers,
  segments past the end of the file and address overflow are excluded. Opening the file, the messages and the rest of
  `EfiMain` are not part of this model.
- Framebuffer.FrameBuffer.EnableDoubleBuffering: the block is a parameter and buffering is not yet on.
- Boot.StartMemory: leaves out what `kernel_main` does between the memory calls.
- The font's bits are a parameter of the screen; screen sizes are 32-bit, as the firmware reports them.
- Pci.Enumeration.CheckDevice: the registers that `pci_read_device` copies, the serial messages and the class names are left
  out; a configuration read is a function of the address word.
- `str_append`, `str_append_hex` and `format_uptime` would only add easier members beside `str_append_dec`.
- Interrupt tables, the keyboard, IDE, the shell's commands, panels and CPUID strings.
