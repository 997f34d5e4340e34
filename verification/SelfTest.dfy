/** The kernel's own allocator tests (kernel.c), as clients of the allocators. */
module SelfTest {
  import opened Pmm
  import opened PageTree
  import opened Ownership
  import opened VmMachine
  import opened Vmm

  // run_vmm_test, short of writing to the page: whether or not a frame was left, the bitmap ends up as it was, bit for
  // bit, exactly when a list node was left or no frame.
  method RunVmmTest(vm: VirtualMemory) returns (status: nat)
    requires vm.Valid() && AllOrNothing(vm.State(), 4096)
    modifies vm, vm.list, vm.list.nodes, vm.mmu`mem, vm.mmu`at, vm.mmu.pmm.bitmap
    ensures vm.Valid() && vm.base == old(vm.base) && status == (if old(vm.mmu.pmm.Free()) != {} then 1 else 2)
    ensures vm.mmu.pmm.bitmap[..] == old(vm.mmu.pmm.bitmap[..]) <==>
              old(vm.list.count) < VMA_NODES || old(vm.mmu.pmm.Free()) == {}
    ensures old(vm.list.count) < VMA_NODES ==>
              Pages(vm.mmu.Snap()) == old(Pages(vm.mmu.Snap())) && vm.mmu.at == old(vm.mmu.at)
  {
    hide Inv, Surviving, Owns, Pages, AllocPages, FreePages, FreeSet, Fits, Obtainable, Left, VmMachine.Alloc,
        VmMachine.Free,
        PagesIn;
    ghost var v := vm.State();
    OnePage();
    CursorNotNull(vm.base, v);
    AllOrNothingIsObtainable(vm.base, v, 4096);
    OutcomeOfTest(vm.base, v);
    vm.ValidSurvives();
    var v1 := vm.Alloc(4096);
    if v1 != 0 {
      status := 1;
      vm.Free(v1);
    } else {
      status := 2;
    }
    SameSetSameBitmap(vm.mmu.pmm.bitmap[..], old(vm.mmu.pmm.bitmap[..]));
  }

  lemma SameSetSameBitmap(bm: seq<bv8>, cm: seq<bv8>)
    requires |bm| == |cm| == BITMAP_BYTES
    ensures bm == cm <==> FreeSet(bm) == FreeSet(cm)
  {
    if FreeSet(bm) == FreeSet(cm) {
      FreeSetDeterminesBitmap(bm, cm);
    }
  }

  lemma OutcomeOfTest(base: set<nat>, v: VmState)
    requires Inv(base, v) && AllOrNothing(v, 4096) && PagesIn(4096) == 1
    ensures var (v1, ptr) := VmMachine.Alloc(v, 4096);
            && (v.space.free == {} ==> (v1, ptr) == (v, 0))
            && (v.space.free != {} ==> ptr == v.cursor)
            && (v.space.free != {} && v.count < VMA_NODES ==> Restored(v, VmMachine.Free(v1, ptr)))
            && (v.space.free != {} && v.count >= VMA_NODES ==> VmMachine.Free(v1, ptr).space.free != v.space.free)
  {
    hide Inv, Owns, Pages, Fits, VmMachine.Alloc, VmMachine.Free, PagesIn, Find, Restored, Mapped, Orphans, Left, Range;
    if v.space.free == {} {
      NoFrameNoFit(v);
      NothingAllocated(v, 4096);
    } else {
      AllocKeepsInv(base, v, 4096);
      FittingThenFree(base, v, 4096);
      NodesBound(base, v);
      if v.count == VMA_NODES {
        UnlistedKeepsFrames(base, v, 4096);
      }
    }
  }

  lemma NoFrameNoFit(v: VmState)
    requires v.space.free == {} && PagesIn(4096) == 1
    ensures !Fits(v, 4096)
  {
    hide Left, PagesIn;
    LeftBound(v.space, Page(v.cursor), 1);
  }

  lemma OnePage()
    ensures PagesIn(4096) == 1
  {
  }

  lemma CursorNotNull(base: set<nat>, v: VmState)
    requires Inv(base, v)
    ensures v.cursor != 0
  {
    hide Owns, Covered, CursorBounded, Stacked;
  }

  // run_pmm_test takes two frames and puts them back, but when only one is free it keeps that one for good.
  method RunPmmTest(pmm: FrameAllocator) returns (status: nat)
    requires pmm.Valid() && 0 !in pmm.Free()
    modifies pmm.bitmap
    ensures status == if |old(pmm.Free())| >= 2 then 1 else 2
    ensures if status == 1 then pmm.bitmap[..] == old(pmm.bitmap[..]) else pmm.Free() == {}
  {
    hide FreeSet, FrameAllocator.Free;
    ghost var free, bm := pmm.Free(), pmm.bitmap[..];
    FreeInRange(pmm);
    TwoFrames(free);
    var p1 := pmm.AllocFrame();
    var p2 := pmm.AllocFrame();
    if p1 != 0 && p2 != 0 && p1 != p2 {
      status := 1;
      ghost var a, b := Lowest(free), Lowest(free - {Lowest(free)});
      assert p1 / PAGE_SIZE == a && p2 / PAGE_SIZE == b;
      pmm.FreeFrame(p1);
      assert pmm.Free() == free - {a} - {b} + {a};
      pmm.FreeFrame(p2);
      SameBitmap(pmm, bm);
    } else {
      status := 2;
    }
  }

  // The two lowest of the free frames, if there are two.
  lemma TwoFrames(free: set<nat>)
    ensures free != {} ==>
              var rest := free - {Lowest(free)};
              && |free| == 1 + |rest| && (rest == {} <==> |rest| == 0)
              && (rest != {} ==>
                   Lowest(free) < Lowest(rest) && rest - {Lowest(rest)} + {Lowest(free)} + {Lowest(rest)} == free)
  {
  }

  lemma SameBitmap(pmm: FrameAllocator, bm: seq<bv8>)
    requires pmm.Sized() && |bm| == BITMAP_BYTES && pmm.Free() == FreeSet(bm)
    ensures pmm.bitmap[..] == bm
  {
    FreeSetDeterminesBitmap(pmm.bitmap[..], bm);
  }

  lemma FreeInRange(pmm: FrameAllocator)
    requires pmm.Sized()
    ensures pmm.Free() == FreeSet(pmm.bitmap[..]) && forall f | f in pmm.Free() :: f < FRAMES
  {
  }
}
