/** The heap (mem.c) and the virtual allocator (vmm.c) at work on one frame allocator, as a value. */
module KernelMachine {
  import opened Pmm
  import opened PageTree
  import opened Ownership
  import opened VmMachine
  import opened Heap

  // blocks: what mem_alloc has handed out and mem_free not taken back, by first frame.
  datatype Kernel = Kernel(vm: VmState, blocks: map<nat, Chunk>)

  ghost function Held(blocks: map<nat, Chunk>): set<nat> {
    set b, f | b in blocks && f in blocks[b].frames :: f
  }

  ghost function WithFree(v: VmState, free: set<nat>): VmState {
    v.(space := v.space.(free := free))
  }

  // mem_alloc; without a free frame nothing happens.
  ghost function MemAlloc(k: Kernel, size: nat): Kernel {
    var free := k.vm.space.free;
    if free == {} then k
    else Kernel(WithFree(k.vm, free - NewChunk(free, size).frames), k.blocks[Lowest(free) := NewChunk(free, size)])
  }

  // mem_free of the block at frame b.
  ghost function MemFree(k: Kernel, b: nat): Kernel
    requires b in k.blocks
  {
    Kernel(WithFree(k.vm, k.vm.space.free + Block(b, k.blocks[b].pages)), k.blocks - {b})
  }

  // ---- The invariant ----

  ghost predicate Apart(blocks: map<nat, Chunk>) {
    forall b, c | b in blocks && c in blocks && b != c :: blocks[b].frames !! blocks[c].frames
  }

  // The virtual allocator shares out what the blocks leave of the usable frames.
  ghost predicate KernelInv(usable: set<nat>, k: Kernel) {
    && Inv(usable - Held(k.blocks), k.vm)
    && Held(k.blocks) <= usable && Apart(k.blocks) && (forall b | b in k.blocks :: b in k.blocks[b].frames)
    && k.vm.space.root !in usable && (forall f | f in usable :: 0 < f < FRAMES)
  }

  // The usable frames are the disjoint union of free frames, page tables, mapped frames and heap blocks.
  lemma EveryFrameOwnedOnce(usable: set<nat>, k: Kernel)
    requires KernelInv(usable, k)
    ensures var s, held := k.vm.space, Held(k.blocks);
            && usable == s.free + Tables(s) + Data(s) + held
            && s.free !! Tables(s) && s.free !! Data(s) && Tables(s) !! Data(s)
            && held !! s.free && held !! Tables(s) && held !! Data(s)
    ensures forall b, c | b in k.blocks && c in k.blocks && b != c :: k.blocks[b].frames !! k.blocks[c].frames
  {
    hide Pages, Shape, Tidy, Tables, Held, Listed, Covered, CursorBounded;
  }

  // ---- Frames changing hands ----

  lemma TakeFrames(base: set<nat>, v: VmState, h: set<nat>)
    requires Inv(base, v) && h <= v.space.free
    ensures Inv(base - h, WithFree(v, v.space.free - h))
  {
    hide Pages, Shape, Tidy, Tables, Stacked, Partition, Live;
    FewerFree(v.space, v.space.free - h);
    PartitionMoves(base, base - h, v.space, v.space.free - h, h);
  }

  lemma GiveFrames(base: set<nat>, v: VmState, h: set<nat>)
    requires Inv(base, v) && h !! base && v.space.root !in h && forall f | f in h :: 0 < f < FRAMES
    ensures Inv(base + h, WithFree(v, v.space.free + h))
  {
    hide Pages, Shape, Tidy, Tables, Stacked, Partition, Live;
    TablesOwned(base, v.space);
    SeveralFree(v.space, h);
    PartitionMoves(base, base + h, v.space, v.space.free + h, h);
  }

  lemma TablesOwned(base: set<nat>, s: Space)
    requires Partition(base, s)
    ensures Tables(s) <= base
  {
    hide Pages, Tables;
  }

  // Frames that are free before or after may join or leave the frames to be shared out.
  lemma PartitionMoves(base: set<nat>, base': set<nat>, s: Space, free: set<nat>, h: set<nat>)
    requires Partition(base, s) && Pages(s.(free := free)) == Pages(s) && Tables(s.(free := free)) == Tables(s)
    requires (h <= s.free && base' == base - h && free == s.free - h)
          || (h !! base && s.root !in h && (forall f | f in h :: 0 < f < FRAMES) && base' == base + h
              && free == s.free + h)
    ensures Partition(base', s.(free := free))
  {
    hide Pages, Tables;
  }

  lemma SeveralFree(s: Space, h: set<nat>)
    requires Shape(s) && h !! Tables(s) && s.root !in h && forall f | f in h :: 0 < f < FRAMES
    ensures var s' := s.(free := s.free + h);
            Shape(s') && Pages(s') == Pages(s) && Tables(s') == Tables(s) && (Tidy(s) ==> Tidy(s'))
  {
    var s' := s.(free := s.free + h);
    assert forall n, i: nat :: Slot(s', n, i) == Slot(s, n, i);
    forall n | n in s.at
      ensures s.at[n] !in h
    {
      if n != Root {
        assert s.at[n] in Tables(s);
      }
    }
    hide Walk;
    assert Pages(s') == Pages(s);
  }

  lemma HeldWith(blocks: map<nat, Chunk>, b: nat, c: Chunk)
    requires b !in blocks
    ensures Held(blocks[b := c]) == Held(blocks) + c.frames
  {
    assert forall d | d in blocks :: blocks[b := c][d] == blocks[d];
    assert blocks[b := c][b] == c;
  }

  lemma HeldWithout(blocks: map<nat, Chunk>, b: nat)
    requires b in blocks && Apart(blocks)
    ensures Held(blocks - {b}) == Held(blocks) - blocks[b].frames && blocks[b].frames <= Held(blocks)
  {
    assert forall d | d in blocks && d != b :: (blocks - {b})[d] == blocks[d];
  }

  // ---- mem_alloc and mem_free ----

  lemma ChunkIsFree(free: set<nat>, size: nat)
    requires free != {}
    ensures NewChunk(free, size).frames <= free && Lowest(free) in NewChunk(free, size).frames
  {
    var n := FramesFor(size);
    TakenAreLowest(free, n);
    assert Taken(free, n)[0] == Lowest(free);
  }

  // mem_alloc keeps the frames owned once, whatever the size and however many frames are left.
  lemma MemAllocKeeps(usable: set<nat>, k: Kernel, size: nat)
    requires KernelInv(usable, k)
    ensures KernelInv(usable, MemAlloc(k, size))
  {
    hide Inv, NewChunk, Held, Apart;
    var free := k.vm.space.free;
    if free != {} {
      var b, c := Lowest(free), NewChunk(free, size);
      FreeIsShared(usable - Held(k.blocks), k.vm);
      ChunkIsFree(free, size);
      NotABlock(usable, k, b);
      TakeFrames(usable - Held(k.blocks), k.vm, c.frames);
      HeldWith(k.blocks, b, c);
      ApartWith(k.blocks, b, c);
      MinusTwice(usable, Held(k.blocks), c.frames);
    }
  }

  lemma FreeIsShared(base: set<nat>, v: VmState)
    requires Inv(base, v)
    ensures v.space.free <= base
  {
    hide Pages, Shape, Tidy, Tables, Listed, Covered, CursorBounded;
  }

  lemma NotABlock(usable: set<nat>, k: Kernel, b: nat)
    requires KernelInv(usable, k) && b in k.vm.space.free
    ensures b !in k.blocks
  {
    hide Inv;
    FreeIsShared(usable - Held(k.blocks), k.vm);
    assert forall c | c in k.blocks :: c in k.blocks[c].frames && c in Held(k.blocks);
  }

  lemma ApartWith(blocks: map<nat, Chunk>, b: nat, c: Chunk)
    requires Apart(blocks) && c.frames !! Held(blocks)
    ensures Apart(blocks[b := c])
  {
    forall d | d in blocks
      ensures blocks[d].frames <= Held(blocks)
    {
    }
  }

  lemma MinusTwice(a: set<nat>, b: set<nat>, c: set<nat>)
    ensures a - b - c == a - (b + c)
  {
  }

  // mem_free keeps the frames owned once exactly when it gives back all frames of the block, and no frame in use
  // beside them.
  ghost predicate GivesBack(k: Kernel, b: nat)
    requires b in k.blocks
  {
    k.blocks[b].frames <= Block(b, k.blocks[b].pages) <= k.blocks[b].frames + k.vm.space.free
  }

  lemma MemFreeKeepsIff(usable: set<nat>, k: Kernel, b: nat)
    requires KernelInv(usable, k) && b in k.blocks
    ensures KernelInv(usable, MemFree(k, b)) <==> GivesBack(k, b)
  {
    hide Inv, Block, Held, Apart;
    var c := k.blocks[b];
    var base := usable - Held(k.blocks);
    HeldWithout(k.blocks, b);
    ApartWithout(k.blocks, b);
    BaseGrows(usable, Held(k.blocks), c.frames);
    FreeIsShared(base, k.vm);
    if GivesBack(k, b) {
      GiveFrames(base, k.vm, c.frames);
      assert k.vm.space.free + Block(b, c.pages) == k.vm.space.free + c.frames;
    } else if Inv(base + c.frames, MemFree(k, b).vm) {
      OnlyOwnFrames(base, k.vm, c.frames, Block(b, c.pages));
    }
  }

  lemma BaseGrows(usable: set<nat>, held: set<nat>, h: set<nat>)
    requires h <= held <= usable
    ensures usable - (held - h) == usable - held + h && h !! usable - held
  {
  }

  lemma ApartWithout(blocks: map<nat, Chunk>, b: nat)
    requires Apart(blocks)
    ensures Apart(blocks - {b})
  {
  }

  lemma OnlyOwnFrames(base: set<nat>, v: VmState, h: set<nat>, given: set<nat>)
    requires Inv(base, v) && h !! base && Inv(base + h, WithFree(v, v.space.free + given))
    ensures h <= given <= h + v.space.free
  {
    hide Pages, Tidy, Stacked, Listed, Covered, CursorBounded, Shape;
    var s, s' := v.space, v.space.(free := v.space.free + given);
    SameTree(s, s');
    hide Tables;
    assert base + h == s.free + given + Tables(s) + Data(s);
  }

  lemma SameTree(s: Space, s': Space)
    requires s' == s.(free := s'.free)
    ensures Tables(s') == Tables(s) && Data(s') == Data(s)
  {
    hide Walk;
    assert Pages(s') == Pages(s);
  }

  // A block whose frames were all free when it was handed out is given back whole, whenever that happens.
  lemma WholeBlockGivesBack(free: set<nat>, size: nat)
    requires free != {} && forall f | f in free :: f < FRAMES
    requires BlockPages(size) >= 1 && Range(Lowest(free), BlockPages(size)) <= free
    ensures NewChunk(free, size).frames == Block(Lowest(free), BlockPages(size))
  {
    var b, n := Lowest(free), BlockPages(size);
    BlockIsContiguousIff(free, n);
    InRange(b, n);
    assert b + n - 1 in Range(b, n);
  }

  // ---- Whole runs ----

  datatype Request = Kmalloc(size: nat) | Kfree(block: nat) | Virtual(call: Call)

  ghost function Served(k: Kernel, r: Request): Kernel {
    match r
    case Kmalloc(size) => MemAlloc(k, size)
    case Kfree(b) => if b in k.blocks then MemFree(k, b) else k
    case Virtual(c) => k.(vm := Step(k.vm, c))
  }

  // mem_free is called for blocks it gives back whole, and vmm_alloc finds all its frames or none.
  ghost predicate Proper(k: Kernel, r: Request) {
    && (r.Kfree? ==> r.block in k.blocks && GivesBack(k, r.block))
    && (r.Virtual? && r.call.VmmAlloc? ==> AllOrNothing(k.vm, r.call.size))
  }

  ghost function KernelRun(k: Kernel, rs: seq<Request>): Kernel
    decreases |rs|
  {
    if rs == [] then k else KernelRun(Served(k, rs[0]), rs[1..])
  }

  ghost predicate AllProper(k: Kernel, rs: seq<Request>)
    decreases |rs|
  {
    rs != [] ==> Proper(k, rs[0]) && AllProper(Served(k, rs[0]), rs[1..])
  }

  lemma ServedKeeps(usable: set<nat>, k: Kernel, r: Request)
    requires KernelInv(usable, k) && Proper(k, r)
    ensures KernelInv(usable, Served(k, r))
  {
    hide Inv, MemAlloc, MemFree, Held, Apart, Step, GivesBack, AllOrNothing;
    match r
    case Kmalloc(size) => MemAllocKeeps(usable, k, size);
    case Kfree(b) => MemFreeKeepsIff(usable, k, b);
    case Virtual(c) =>
      StepKeepsInv(usable - Held(k.blocks), k.vm, c);
      RootStays(usable - Held(k.blocks), k.vm, c);
  }

  lemma RootStays(base: set<nat>, v: VmState, c: Call)
    requires Inv(base, v) && (c.VmmAlloc? ==> AllOrNothing(v, c.size))
    ensures Step(v, c).space.root == v.space.root
  {
    hide Owns, Listed, Covered, CursorBounded, Alloc, Free, Fits, Pages, PagesIn, Orphans, Left;
    match c
    case VmmAlloc(size) =>
      if Fits(v, size) {
        AllocKeepsInv(base, v, size);
      } else {
        NothingAllocated(v, size);
      }
    case VmmFree(ptr) =>
      FreeKeepsInv(base, v, ptr);
      SameRoot(base, Free(v, ptr).space, v.space);
  }

  lemma SameRoot(base: set<nat>, s': Space, s: Space)
    requires Grows(s', s)
    requires Owns(base, s') && Owns(base, s)
    ensures s'.root == s.root
  {
    hide Partition, Tidy, Linked, Counted, Separate;
  }

  // Over every proper interleaving of heap and virtual allocator each usable frame is free, a page table, behind one
  // page or in one block.
  lemma {:induction false} KernelRunKeeps(usable: set<nat>, k: Kernel, rs: seq<Request>)
    requires KernelInv(usable, k) && AllProper(k, rs)
    ensures KernelInv(usable, KernelRun(k, rs))
    decreases |rs|
  {
    hide KernelInv, Proper, Served;
    if rs != [] {
      ServedKeeps(usable, k, rs[0]);
      KernelRunKeeps(usable, Served(k, rs[0]), rs[1..]);
    }
  }

  // And never are more frames free than the memory map has conventional pages.
  lemma RunNeverExceedsMemory(mmap: seq<Descriptor>, usable: set<nat>, k: Kernel, rs: seq<Request>)
    requires KernelInv(usable, k) && AllProper(k, rs) && usable <= Usable(mmap)
    ensures KernelRun(k, rs).vm.space.free <= Usable(mmap)
    ensures |KernelRun(k, rs).vm.space.free| <= ConventionalPages(mmap)
  {
    hide KernelRun, AllProper, Inv, Held, Apart;
    KernelRunKeeps(usable, k, rs);
    var k' := KernelRun(k, rs);
    FreeIsShared(usable - Held(k'.blocks), k'.vm);
    OfferedAtMostSum(mmap, k'.vm.space.free);
  }

  // The total that mem_init computes has so many pages; the sum wraps in 64 bits.
  function TotalPages(mmap: seq<Descriptor>): nat {
    ConventionalPages(mmap) % FRAME_NUMBERS
  }

  // From the start on, the used memory figure never wraps on any proper run exactly when the memory map's sum does not
  // fall short of the usable frames by wrapping; below 2^64 bytes it never does.
  lemma UsageNeverWrapsIff(mmap: seq<Descriptor>, k: Kernel)
    requires KernelInv(Usable(mmap), k) && k.vm.space.free == Usable(mmap)
    ensures (forall rs | AllProper(k, rs) :: |KernelRun(k, rs).vm.space.free| <= TotalPages(mmap))
            <==> |Usable(mmap)| <= TotalPages(mmap)
    ensures ConventionalPages(mmap) < FRAME_NUMBERS ==> |Usable(mmap)| <= TotalPages(mmap)
  {
    hide KernelRun, AllProper, KernelInv, Usable;
    NoRequests(k);
    forall rs | AllProper(k, rs)
      ensures |KernelRun(k, rs).vm.space.free| <= |Usable(mmap)|
    {
      RunNeverExceedsMemory(mmap, Usable(mmap), k, rs);
      SubsetSize(KernelRun(k, rs).vm.space.free, Usable(mmap));
    }
    RunNeverExceedsMemory(mmap, Usable(mmap), k, []);
  }

  // A memory map that fails: its 2^52 pages wrap the sum to zero, while all frames from 8 MB to 4 GB are usable.
  lemma SumWraps()
    ensures var d := Descriptor(CONVENTIONAL, 0, FRAME_NUMBERS);
            FramesDoNotWrap(d) && TotalPages([d]) == 0 && LOW_FRAMES in Usable([d]) && |Usable([d])| > TotalPages([d])
  {
    var d := Descriptor(CONVENTIONAL, 0, FRAME_NUMBERS);
    assert [d][0] == d && Offers(d, LOW_FRAMES);
    assert ConventionalPages([d]) == FRAME_NUMBERS by {
      assert [d][..0] == [];
    }
  }

  lemma NoRequests(k: Kernel)
    ensures AllProper(k, []) && KernelRun(k, []) == k
  {
  }
}
