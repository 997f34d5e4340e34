/** The process table, the heap and the virtual allocator on one frame allocator (process.c, mem.c, vmm.c),
    as a value. */
module SystemMachine {
  import opened PageTree
  import opened Ownership
  import opened VmMachine
  import opened Heap
  import opened KernelMachine
  import opened ProcMachine

  datatype System = System(world: World, blocks: map<nat, Chunk>)

  function KernelOf(y: System): Kernel {
    Kernel(y.world.vm, y.blocks)
  }

  // The heap's invariant, and the process table's over what the heap leaves.
  ghost predicate SystemInv(usable: set<nat>, y: System) {
    KernelInv(usable, KernelOf(y)) && WorldInv(usable - Held(y.blocks), y.world)
  }

  datatype Action = Proc(e: Event) | Heap(r: Request)

  ghost function WithKernel(y: System, k: Kernel): System {
    System(y.world.(vm := k.vm), k.blocks)
  }

  ghost function Acted(y: System, a: Action): System
    requires |y.world.procs| == |y.world.born| == MAX_PROCS
  {
    match a
    case Proc(e) => y.(world := After(y.world, e))
    case Heap(r) => WithKernel(y, Served(KernelOf(y), r))
  }

  // Processes are created as before and the heap is used properly; regions may be made and freed beside it, but nobody
  // frees the stack of a live process under it.
  ghost predicate Allowed(y: System, a: Action) {
    match a
    case Proc(e) => Possible(y.world, e)
    case Heap(r) =>
      && Proper(KernelOf(y), r)
      && (r.Virtual? && r.call.VmmFree? ==> NoStackAt(y.world, r.call.ptr))
  }

  predicate NoStackAt(w: World, ptr: nat) {
    forall i | 0 <= i < |w.procs| && w.procs[i].pid != 0 :: w.procs[i].memBase != ptr
  }

  // A World in which only the free frames have changed keeps its invariant if its address space does.
  lemma FramesMove(base: set<nat>, base': set<nat>, w: World, free: set<nat>)
    requires WorldInv(base, w) && Inv(base', WithFree(w.vm, free))
    ensures WorldInv(base', w.(vm := WithFree(w.vm, free)))
  {
    hide Inv, Find, PagesIn;
    var w' := w.(vm := WithFree(w.vm, free));
    assert forall i | 0 <= i < |w.procs| && w.procs[i].pid != 0 :: HasStack(w.vm, w.procs[i]);
  }

  lemma HeapKeeps(usable: set<nat>, y: System, r: Request)
    requires SystemInv(usable, y) && Allowed(y, Heap(r))
    ensures SystemInv(usable, WithKernel(y, Served(KernelOf(y), r)))
  {
    hide Inv, WorldInv, Held, Apart, NewChunk, Block, GivesBack, Step, NoStackAt, AllOrNothing;
    var k, k' := KernelOf(y), Served(KernelOf(y), r);
    ServedKeeps(usable, k, r);
    if r.Virtual? {
      RegionsKeep(usable - Held(y.blocks), y.world, r.call);
    } else {
      assert k'.vm == WithFree(k.vm, k'.vm.space.free);
      FramesMove(usable - Held(y.blocks), usable - Held(k'.blocks), y.world, k'.vm.space.free);
    }
  }

  // Regions made and freed beside the process table leave every stack where it is.
  lemma RegionsKeep(base: set<nat>, w: World, c: Call)
    requires WorldInv(base, w) && Inv(base, Step(w.vm, c))
    requires c.VmmAlloc? ==> AllOrNothing(w.vm, c.size)
    requires c.VmmFree? ==> NoStackAt(w, c.ptr)
    ensures WorldInv(base, w.(vm := Step(w.vm, c)))
  {
    hide Inv, HasStack, PagesOf, StackOf, Alloc, Free, Fits;
    var w' := w.(vm := Step(w.vm, c));
    forall i | 0 <= i < |w.procs| && w.procs[i].pid != 0
      ensures HasStack(w'.vm, w.procs[i])
    {
      StackStays(base, w.vm, c, w.procs[i]);
    }
  }

  lemma StackStays(base: set<nat>, v: VmState, c: Call, p: Pcb)
    requires Inv(base, v) && HasStack(v, p)
    requires c.VmmAlloc? ==> AllOrNothing(v, c.size)
    requires c.VmmFree? ==> p.memBase != c.ptr
    ensures HasStack(Step(v, c), p)
  {
    hide Inv, Find, PagesOf, StackOf, Alloc, Free, Fits, Orphans, Pages, Range;
    match c
    case VmmAlloc(size) =>
      if Fits(v, size) {
        OldStackStays(base, v, size, p);
      } else {
        NothingAllocated(v, size);
      }
    case VmmFree(ptr) =>
      FreeKeepsInv(base, v, ptr);
      RegionsAfterFree(v, ptr, p.memBase);
  }

  lemma ProcKeeps(usable: set<nat>, y: System, e: Event)
    requires SystemInv(usable, y) && Possible(y.world, e)
    ensures |y.world.procs| == |y.world.born| == MAX_PROCS && SystemInv(usable, y.(world := After(y.world, e)))
  {
    hide Inv, Possible, After, Held, Apart, DistinctPids, StacksOk, TimeOk;
    EventKeepsInv(usable - Held(y.blocks), y.world, e);
    EventKeepsRoot(usable - Held(y.blocks), y.world, e);
  }

  lemma EventKeepsRoot(base: set<nat>, w: World, e: Event)
    requires WorldInv(base, w) && Possible(w, e) && |w.procs| == |w.born| == MAX_PROCS
    ensures After(w, e).vm.space.root == w.vm.space.root
  {
    hide Inv, WorldInv, Pages, Fits, Alloc, Reap, DeadPages, Grows;
    HasInv(base, w);
    match e
    case Creates(size) =>
      FreeSlot(w.procs);
      if 0 in Pids(w.procs) {
        RootStays(base, w.vm, Call.VmmAlloc(size));
      }
    case Reaps =>
      ReapKeepsInv(base, w, 0);
      HasInv(base, Reap(w, 0));
      OwnsOf(base, w.vm);
      OwnsOf(base, Reap(w, 0).vm);
      SameRoot(base, Reap(w, 0).vm.space, w.vm.space);
    case Kills(_) =>
    case Schedules =>
    case Ticks =>
  }

  lemma HasInv(base: set<nat>, w: World)
    requires WorldInv(base, w)
    ensures Inv(base, w.vm)
  {
    hide Inv;
  }

  lemma OwnsOf(base: set<nat>, v: VmState)
    requires Inv(base, v)
    ensures Owns(base, v.space)
  {
    hide Owns;
  }

  // A run of the system: each action is allowed in the system it happens in.
  ghost predicate IsSystemRun(ys: seq<System>, acts: seq<Action>) {
    && |ys| == |acts| + 1
    && (forall k | 0 <= k < |acts| ::
          |ys[k].world.procs| == |ys[k].world.born| == MAX_PROCS && Allowed(ys[k], acts[k])
          && ys[k + 1] == Acted(ys[k], acts[k]))
  }

  // Along every allowed interleaving of processes, scheduler, timer, heap and virtual allocator: each usable frame is
  // free, a page table, behind one page or in one block; pids and stacks stay distinct, and run times right.
  lemma {:induction false} SystemRunKeeps(usable: set<nat>, ys: seq<System>, acts: seq<Action>, k: nat)
    requires IsSystemRun(ys, acts) && SystemInv(usable, ys[0]) && k < |ys|
    ensures SystemInv(usable, ys[k])
    decreases k
  {
    hide SystemInv, Possible, After, Proper, Served;
    if k > 0 {
      SystemRunKeeps(usable, ys, acts, k - 1);
      assert ys[k - 1 + 1] == Acted(ys[k - 1], acts[k - 1]);
      match acts[k - 1]
      case Proc(e) => ProcKeeps(usable, ys[k - 1], e);
      case Heap(r) => HeapKeeps(usable, ys[k - 1], r);
    }
  }
}
