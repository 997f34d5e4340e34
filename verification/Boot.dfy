/** mem_init (mem.c) and what kernel_main (kernel.c) does with memory after it: the allocators brought up one on top of
    the other, and the heap and the virtual allocator sharing one frame allocator. */
module Boot {
  import opened Wrappers
  import opened Pmm
  import opened PageTree
  import opened Paging
  import opened Ownership
  import opened VmMachine
  import opened Vmm
  import opened Heap
  import opened KernelMachine
  import opened SelfTest
  import opened FirstAllocations

  class KernelMemory {
    const heap: KernelHeap
    const vm: VirtualMemory
    // The firmware's memory map, and the frames of it that are shared out.
    ghost const mmap: seq<Descriptor>
    ghost const usable: set<nat>

    ghost function State(): Kernel
      reads heap, vm, vm.list, vm.list.nodes, vm.mmu, vm.mmu.pmm.bitmap
      requires vm.mmu.pmm.Sized()
    {
      Kernel(vm.State(), heap.blocks)
    }

    ghost predicate Valid()
      reads heap, vm, vm.list, vm.list.nodes, vm.mmu, vm.mmu.pmm, vm.mmu.pmm.bitmap
    {
      && heap.pmm == vm.mmu.pmm && vm.Valid() && vm.base == usable - Held(heap.blocks)
      && KernelInv(usable, State()) && HeadersStand(heap.blocks, heap.headers)
      && usable == Usable(mmap) && heap.totalRamBytes == ConventionalPages(mmap) * PAGE_SIZE % U64
    }

    // mem_init, with the root table that CR3 names: exactly the usable frames are shared out.
    constructor (mmap: seq<Descriptor>, cr3: nat, table: Table)
      requires forall d | d in mmap :: FramesDoNotWrap(d)
      requires cr3 / PAGE_SIZE !in Usable(mmap) && |table.entries| == ENTRIES && Present(table) == {}
      ensures Valid() && fresh(heap) && fresh(vm) && fresh(vm.list) && fresh(vm.list.nodes)
      ensures fresh(vm.mmu) && fresh(vm.mmu.pmm) && fresh(vm.mmu.pmm.bitmap)
      ensures this.mmap == mmap && usable == Usable(mmap) == vm.mmu.pmm.Free()
      ensures heap.totalRamBytes == ConventionalPages(mmap) * PAGE_SIZE % U64
      ensures State() == Kernel(VmState(vm.mmu.Snap(), [], START, 0), map[])
      ensures Pages(vm.mmu.Snap()) == map[] && Tables(vm.mmu.Snap()) == {}
    {
      hide Inv, KernelInv, Pages, Tables, Tidy, Shape, FreeSet, Usable, Held, VmaList.Valid, VmaList.Regions,
          ConventionalPages;
      LowIsNotUsable(mmap);
      var pmm := new FrameAllocator();
      var h := new KernelHeap(pmm);
      h.Init(mmap);
      var mmu := new Mmu(pmm, cr3, table);
      var v := new VirtualMemory(mmu);
      heap, vm, usable, this.mmap := h, v, Usable(mmap), mmap;
      new;
      NothingHeld(usable, State());
    }

    // mem_alloc
    method MemAlloc(size: nat) returns (ptr: nat)
      requires Valid() && size < U64
      modifies heap, vm`base, vm.mmu.pmm.bitmap
      ensures Valid() && State() == KernelMachine.MemAlloc(old(State()), size)
      ensures ptr == if old(vm.mmu.pmm.Free()) == {} then 0 else Lowest(old(vm.mmu.pmm.Free())) * PAGE_SIZE + HEADER
    {
      hide Inv, KernelInv, NewChunk, FreeSet, Shape, Held, VmaList.Valid, VmaList.Regions;
      MemAllocKeeps(usable, State(), size);
      FreeNotNull(usable, State());
      NewHeader(heap.blocks, heap.headers, vm.mmu.pmm.Free(), size);
      ptr := heap.Alloc(size);
      vm.base := usable - Held(heap.blocks);
      InvOfKernel(usable, State());
    }

    // mem_free of NULL or of a block that is handed out. All stays well exactly when the block gives back what was
    // taken for it and nothing that is in use.
    method MemFree(ptr: nat)
      requires Valid()
      requires ptr != 0 ==>
                 ptr >= HEADER && (ptr - HEADER) % PAGE_SIZE == 0 && (ptr - HEADER) / PAGE_SIZE in heap.blocks
      modifies heap, vm`base, vm.mmu.pmm.bitmap
      ensures State() == if ptr == 0 then old(State())
              else KernelMachine.MemFree(old(State()), (ptr - HEADER) / PAGE_SIZE)
      ensures Valid() <==> ptr == 0 || GivesBack(old(State()), (ptr - HEADER) / PAGE_SIZE)
    {
      hide Inv, KernelInv, Block, GivesBack, FreeSet, Shape, Held, VmaList.Valid, VmaList.Regions;
      if ptr == 0 {
        heap.Free(0);
        return;
      }
      ghost var b, k := (ptr - HEADER) / PAGE_SIZE, State();
      MemFreeKeepsIff(usable, k, b);
      BlockInRange(usable, k, b);
      heap.Free(ptr);
      vm.base := usable - Held(heap.blocks);
      if GivesBack(k, b) {
        InvOfKernel(usable, State());
      }
    }

    // sysinfo_get_mem_usage: on a memory map whose sum does not fall short of the usable frames by wrapping, the used
    // figure is at every time the total less what is free.
    method MemUsage() returns (used: nat, total: nat)
      requires Valid()
      ensures total == TotalPages(mmap) * PAGE_SIZE
      ensures OfferedOnce(mmap) ==> total == |OfferedFrames(mmap)| * PAGE_SIZE % U64
      ensures |usable| <= TotalPages(mmap) ==> used == total - |vm.mmu.pmm.Free()| * PAGE_SIZE
    {
      hide OfferedOnce, OfferedFrames, Inv, KernelInv, FreeSet, Shape, Held, Usable, VmaList.Valid, VmaList.Regions;
      KernelFreeIsUsable(usable, State());
      SubsetSize(vm.mmu.pmm.Free(), usable);
      TotalInPages(ConventionalPages(mmap));
      OfferedIsSumIff(mmap);
      used, total := GetMemUsage(heap);
    }

    // vmm_alloc
    method VmmAlloc(size: nat) returns (ptr: nat)
      requires Valid() && size < U64 && Obtainable(vm.mmu.Snap(), Page(vm.nextVaddr), PagesIn(size))
      modifies vm, vm.list, vm.list.nodes, vm.mmu`mem, vm.mmu`at, vm.mmu.pmm.bitmap
      ensures (State().vm, ptr) == VmMachine.Alloc(old(State()).vm, size) && State().blocks == old(State()).blocks
      ensures Valid() <==> AllOrNothing(old(State()).vm, size)
    {
      hide Inv, Surviving, Owns, AllOrNothing, Shape, FreeSet, VmaList.Valid, VmaList.Regions, VmMachine.Alloc, Held,
          Apart,
          Obtainable, PagesIn;
      ghost var k := State();
      vm.ValidSurvives();
      ptr := vm.Alloc(size);
      if AllOrNothing(k.vm, size) {
        RootStays(vm.base, k.vm, Call.VmmAlloc(size));
      }
    }

    // vmm_free
    method VmmFree(ptr: nat)
      requires Valid()
      modifies vm.list, vm.list.nodes, vm.mmu`mem, vm.mmu`at, vm.mmu.pmm.bitmap
      ensures Valid() && State() == Served(old(State()), Virtual(Call.VmmFree(ptr)))
    {
      hide Inv, Surviving, Owns, Shape, FreeSet, VmaList.Valid, VmaList.Regions, VmMachine.Free, Held, Apart;
      RootStays(vm.base, State().vm, Call.VmmFree(ptr));
      vm.ValidSurvives();
      vm.Free(ptr);
    }
  }

  // The memory work of kernel_main up to its loop: mem_init, the mem_alloc of fb_enable_double_buffering, and the two
  // tests. With four frames to spare both tests pass, and what is not free afterwards is the block.
  method StartMemory(mmap: seq<Descriptor>, cr3: nat, table: Table, bufferSize: nat)
      returns (k: KernelMemory, buffer: nat, pmmStatus: nat, vmmStatus: nat)
    requires forall d | d in mmap :: FramesDoNotWrap(d)
    requires cr3 / PAGE_SIZE !in Usable(mmap) && |table.entries| == ENTRIES && Present(table) == {}
    requires bufferSize < U64 && FramesFor(bufferSize) + 4 <= |Usable(mmap)|
    ensures fresh(k) && k.Valid() && k.usable == Usable(mmap) && pmmStatus == 1 && vmmStatus == 1
    ensures buffer == Lowest(Usable(mmap)) * PAGE_SIZE + HEADER
    ensures k.heap.blocks == map[Lowest(Usable(mmap)) := NewChunk(Usable(mmap), bufferSize)]
    ensures k.vm.mmu.pmm.Free() == Usable(mmap) - NewChunk(Usable(mmap), bufferSize).frames
    ensures |k.vm.mmu.pmm.Free()| == |Usable(mmap)| - FramesFor(bufferSize)
  {
    hide Inv, KernelInv, Usable, Pages, Tables, Tidy, Shape, Fits, Held, VmaList.Valid, VmaList.Regions, FreeSet,
        NewChunk;
    ghost var usable := Usable(mmap);
    k := new KernelMemory(mmap, cr3, table);
    ghost var s := k.vm.mmu.Snap();
    ChunkSize(usable, bufferSize);
    buffer := k.MemAlloc(bufferSize);
    ghost var k1 := k.State();
    FirstFits(usable, k1, s, bufferSize);
    pmmStatus := RunPmmTest(k.heap.pmm);
    assert k.State() == k1;
    vmmStatus := RunVmmTest(k.vm);
    StillKernel(usable, k1, k.State());
  }

  lemma ChunkSize(free: set<nat>, size: nat)
    requires FramesFor(size) <= |free|
    ensures free != {} && |NewChunk(free, size).frames| == FramesFor(size) && NewChunk(free, size).frames <= free
    ensures |free - NewChunk(free, size).frames| == |free| - FramesFor(size)
  {
    hide BlockPages;
    assert free != {};
    TakenAreLowest(free, FramesFor(size));
    TakenSize(Taken(free, FramesFor(size)));
    ChunkIsFree(free, size);
    hide Taken, NewChunk;
    assert free == NewChunk(free, size).frames + (free - NewChunk(free, size).frames);
  }

  lemma FirstFits(usable: set<nat>, k: Kernel, s: Space, size: nat)
    requires KernelInv(usable, k) && Tables(s) == {} && FramesFor(size) + 4 <= |s.free|
    requires k == KernelMachine.MemAlloc(Kernel(VmState(s, [], START, 0), map[]), size)
    ensures AllOrNothing(k.vm, 4096) && 4 <= |k.vm.space.free| && 0 !in k.vm.space.free
  {
    hide Shape, Fits, NewChunk, Tables, Inv, Held;
    ChunkSize(s.free, size);
    InvOfKernel(usable, k);
    FreeNotNull(usable, k);
    SameTree(s, k.vm.space);
    FirstPageFits(k.vm.space);
  }

  // The kernel's invariant after a change that the virtual allocator's invariant and its tables survived.
  lemma StillKernel(usable: set<nat>, k: Kernel, k': Kernel)
    requires KernelInv(usable, k) && k'.blocks == k.blocks && k'.vm.space.at == k.vm.space.at
    requires Inv(usable - Held(k.blocks), k'.vm)
    ensures KernelInv(usable, k')
  {
    hide Inv, Held, Apart;
    RootOf(usable - Held(k.blocks), k.vm);
    RootOf(usable - Held(k.blocks), k'.vm);
  }

  lemma RootOf(base: set<nat>, v: VmState)
    requires Inv(base, v)
    ensures Root in v.space.at && v.space.root == v.space.at[Root]
  {
    hide Linked, Separate, Counted, Tidy, Partition, Listed, Covered, CursorBounded;
  }

  // The headers of the blocks handed out still hold their page counts.
  ghost predicate HeadersStand(blocks: map<nat, Chunk>, headers: map<nat, nat>) {
    forall b | b in blocks :: b in headers && headers[b] == blocks[b].pages < FRAME_NUMBERS
  }

  lemma NewHeader(blocks: map<nat, Chunk>, headers: map<nat, nat>, free: set<nat>, size: nat)
    requires HeadersStand(blocks, headers)
    ensures free != {} ==>
              HeadersStand(blocks[Lowest(free) := NewChunk(free, size)],
                  headers[Lowest(free) := NewChunk(free, size).pages])
  {
    hide Taken, Elements;
    assert BlockPages(size) < FRAME_NUMBERS;
  }

  lemma LowIsNotUsable(mmap: seq<Descriptor>)
    ensures 0 !in Usable(mmap)
  {
  }

  lemma NothingHeld(usable: set<nat>, k: Kernel)
    requires Inv(usable, k.vm) && k.blocks == map[]
    ensures KernelInv(usable, k) && usable - Held(k.blocks) == usable
  {
    hide Shape, Tidy, Listed, Covered, CursorBounded, Pages, Tables;
    assert usable - Held(k.blocks) == usable;
  }

  lemma InvOfKernel(usable: set<nat>, k: Kernel)
    requires KernelInv(usable, k)
    ensures Inv(usable - Held(k.blocks), k.vm) && Shape(k.vm.space)
  {
    hide Shape, Tidy, Partition, Listed, Covered, CursorBounded, Held, Apart;
  }

  lemma KernelFreeIsUsable(usable: set<nat>, k: Kernel)
    requires KernelInv(usable, k)
    ensures k.vm.space.free <= usable
  {
    hide Inv, Held, Apart;
    FreeIsShared(usable - Held(k.blocks), k.vm);
  }

  lemma TotalInPages(pages: nat)
    ensures pages * PAGE_SIZE % U64 == pages % FRAME_NUMBERS * PAGE_SIZE
    ensures pages % FRAME_NUMBERS * PAGE_SIZE / PAGE_SIZE == pages % FRAME_NUMBERS
  {
    var k, r := pages / FRAME_NUMBERS, pages % FRAME_NUMBERS;
    assert pages * PAGE_SIZE == r * PAGE_SIZE + k * U64;
  }

  lemma FreeNotNull(usable: set<nat>, k: Kernel)
    requires KernelInv(usable, k)
    ensures 0 !in k.vm.space.free
  {
    hide Inv, Held, Apart;
    FreeIsShared(usable - Held(k.blocks), k.vm);
  }

  lemma BlockInRange(usable: set<nat>, k: Kernel, b: nat)
    requires KernelInv(usable, k) && b in k.blocks
    ensures b < FRAMES
  {
    hide Inv;
    assert b in k.blocks[b].frames;
    assert b in Held(k.blocks);
  }
}
