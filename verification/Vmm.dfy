/** vmm.c: the virtual allocator itself, a list of preallocated nodes over the page tables. */
module Vmm {
  import opened Wrappers
  import opened Pmm
  import opened PageTree
  import opened Paging
  import opened Ownership
  import opened Soundness
  import opened VmMachine

  // A node of the region list.
  class Vma {
    var vaddr: nat
    var size: nat
    var next: Vma?

    constructor ()
    {
      vaddr, size, next := 0, 0, null;
    }
  }

  // vma_list, vma_nodes and vma_count: a linked list through nodes of a static array.
  class VmaList {
    // The static array of nodes; the first count have been used.
    const nodes: seq<Vma>
    var count: nat
    var head: Vma?
    // The indices of the nodes on the list, in list order: newer nodes come first.
    ghost var order: seq<nat>

    ghost predicate Valid()
      reads this, nodes
    {
      && |nodes| == VMA_NODES && count <= VMA_NODES
      && Distinct(nodes) && Newest(order, count)
      && Chained(nodes, Nexts(), head, order)
    }

    // What the nodes hold.
    ghost function Nexts(): seq<Vma?>
      reads this, nodes
    {
      seq(|nodes|, i requires 0 <= i < |nodes| reads this, nodes => nodes[i].next)
    }

    ghost function Cells(): seq<Region>
      reads this, nodes
    {
      seq(|nodes|, i requires 0 <= i < |nodes| reads this, nodes => Region(nodes[i].vaddr, nodes[i].size))
    }

    ghost function Regions(): seq<Region>
      reads this, nodes
    {
      Picked(Cells(), order)
    }

    constructor ()
      ensures Valid() && Regions() == [] && count == 0 && fresh(nodes)
    {
      var made: seq<Vma> := [];
      while |made| < VMA_NODES
        invariant |made| <= VMA_NODES
        invariant forall i | 0 <= i < |made| :: fresh(made[i])
        invariant forall i, j | 0 <= i < j < |made| :: made[i] != made[j]
      {
        var node := new Vma();
        made := made + [node];
      }
      nodes, count, head, order := made, 0, null, [];
    }

    // While nodes are left, the next one becomes the head of the list.
    method Record(vaddr: nat, size: nat)
      requires Valid()
      modifies this, nodes
      ensures Valid() && count == (if old(count) < VMA_NODES then old(count) + 1 else old(count))
      ensures Regions() == if old(count) < VMA_NODES then [Region(vaddr, size)] + old(Regions()) else old(Regions())
    {
      hide Chained, Newest, Picked;
      if count < VMA_NODES {
        Pushed(nodes, Nexts(), Cells(), head, order, count, Region(vaddr, size));
        ghost var was, cells := Nexts(), Cells();
        var newVma := nodes[count];
        newVma.vaddr := vaddr;
        newVma.size := size;
        newVma.next := head;
        assert Nexts() == was[count := head];
        assert Cells() == cells[count := Region(vaddr, size)];
        head := newVma;
        order := [count] + order;
        count := count + 1;
        assert Nexts() == was[old(count) := old(head)];
        assert Cells() == cells[old(count) := Region(vaddr, size)];
      }
    }

    lemma FirstNode()
      requires Valid()
      ensures head == At(nodes, order, 0) && (head == null <==> |order| == 0) && |Regions()| == |order|
    {
    }

    lemma NodeAt(k: nat)
      requires Valid() && k < |order|
      ensures order[k] < |nodes| && At(nodes, order, k) == nodes[order[k]]
              && nodes[order[k]].next == At(nodes, order, k + 1)
      ensures At(nodes, order, k + 1) == null <==> k + 1 == |order|
      ensures |Regions()| == |order| && Regions()[k] == Region(nodes[order[k]].vaddr, nodes[order[k]].size)
    {
      assert nodes[order[k]].next == Nexts()[order[k]];
    }

    // Take a node off the list.
    method Unlink(prev: Vma?, curr: Vma, ghost k: nat)
      requires Valid() && k < |order| && order[k] < |nodes| && curr == nodes[order[k]]
               && prev == (if k == 0 then null else At(nodes, order, k - 1))
      modifies this, nodes
      ensures Valid() && count == old(count)
      ensures Regions() == old(Regions())[..k] + old(Regions())[k + 1..]
    {
      hide Chained, Picked, Newest;
      NodeAt(k);
      Cut(nodes, Nexts(), Cells(), head, order, count, k);
      ghost var was, cells := Nexts(), Cells();
      if prev != null {
        prev.next := curr.next;
      } else {
        head := curr.next;
      }
      order := Without(order, k);
      assert Nexts() == Rerouted(was, old(order), k);
      assert Cells() == cells;
    }
  }

  // ---- Chains of nodes ----

  ghost predicate Distinct(nodes: seq<Vma>) {
    forall i, j | 0 <= i < |nodes| && 0 <= j < |nodes| && nodes[i] == nodes[j] :: i == j
  }

  // Used nodes only, newer ones first.
  ghost predicate Newest(order: seq<nat>, count: nat) {
    && (forall i | 0 <= i < |order| :: order[i] < count)
    && (forall i, j | 0 <= i < j < |order| :: order[j] < order[i])
  }

  // The i-th node of a list, and the null pointer after the last.
  ghost function At(nodes: seq<Vma>, order: seq<nat>, i: nat): Vma? {
    if i < |order| && order[i] < |nodes| then nodes[order[i]] else null
  }

  // The pointers lead from the head through the nodes of the list, in order, to null.
  ghost predicate Chained(nodes: seq<Vma>, next: seq<Vma?>, head: Vma?, order: seq<nat>) {
    && |next| == |nodes| && head == At(nodes, order, 0)
    && (forall i | 0 <= i < |order| :: order[i] < |nodes| && next[order[i]] == At(nodes, order, i + 1))
  }

  function Picked(cells: seq<Region>, order: seq<nat>): (rs: seq<Region>) {
    seq(|order|, i requires 0 <= i < |order| => if order[i] < |cells| then cells[order[i]] else Region(0, 0))
  }

  lemma Pushed(nodes: seq<Vma>, next: seq<Vma?>, cells: seq<Region>, head: Vma?, order: seq<nat>, count: nat, r: Region)
    requires Chained(nodes, next, head, order) && Newest(order, count) && count < |nodes| == |cells|
    ensures Chained(nodes, next[count := head], nodes[count], [count] + order)
    ensures Newest([count] + order, count + 1)
    ensures Picked(cells[count := r], [count] + order) == [r] + Picked(cells, order)
  {
    hide Chained, Newest, Picked;
    PushedChain(nodes, next, head, order, count);
    PushedNewest(order, count);
    PushedPicked(cells, order, count, r);
  }

  lemma PushedChain(nodes: seq<Vma>, next: seq<Vma?>, head: Vma?, order: seq<nat>, count: nat)
    requires Chained(nodes, next, head, order) && Newest(order, count) && count < |nodes|
    ensures |next| == |nodes| && Chained(nodes, next[count := head], nodes[count], [count] + order)
  {
    var order', next' := [count] + order, next[count := head];
    forall i | 0 <= i < |order'|
      ensures order'[i] < |nodes| && next'[order'[i]] == At(nodes, order', i + 1)
    {
      if i > 0 {
        assert order'[i] == order[i - 1];
      }
    }
  }

  lemma PushedNewest(order: seq<nat>, count: nat)
    requires Newest(order, count)
    ensures Newest([count] + order, count + 1)
  {
    var order' := [count] + order;
    assert forall i | 0 < i < |order'| :: order'[i] == order[i - 1];
  }

  lemma PushedPicked(cells: seq<Region>, order: seq<nat>, count: nat, r: Region)
    requires Newest(order, count) && count < |cells|
    ensures Picked(cells[count := r], [count] + order) == [r] + Picked(cells, order)
  {
    var order' := [count] + order;
    assert forall i | 0 < i < |order'| :: order'[i] == order[i - 1];
  }

  function Without<T>(s: seq<T>, k: nat): seq<T>
    requires k < |s|
  {
    s[..k] + s[k + 1..]
  }

  // Where element i of a list was before element k was taken off.
  function Skip(i: nat, k: nat): nat { if i < k then i else i + 1 }

  lemma WithoutAt<T>(s: seq<T>, k: nat)
    requires k < |s|
    ensures |Without(s, k)| == |s| - 1
    ensures forall i | 0 <= i < |s| - 1 :: Without(s, k)[i] == s[Skip(i, k)]
  {
  }

  // The pointers once the node before the k-th leads past it.
  ghost function Rerouted(next: seq<Vma?>, order: seq<nat>, k: nat): seq<Vma?>
    requires k < |order| && order[k] < |next| && (k == 0 || order[k - 1] < |next|)
  {
    if k == 0 then next else next[order[k - 1] := next[order[k]]]
  }

  lemma Cut(nodes: seq<Vma>, next: seq<Vma?>, cells: seq<Region>, head: Vma?, order: seq<nat>, count: nat, k: nat)
    requires Chained(nodes, next, head, order) && Newest(order, count) && count <= |nodes| == |cells| && k < |order|
    ensures forall i | 0 <= i < |order| :: order[i] < |next|
    ensures Chained(nodes, Rerouted(next, order, k), if k == 0 then next[order[0]] else head, Without(order, k))
    ensures Newest(Without(order, k), count)
    ensures Picked(cells, Without(order, k)) == Without(Picked(cells, order), k)
  {
    CutChain(nodes, next, head, order, count, k);
    hide Rerouted, Without;
    CutNewest(order, count, k);
    CutPicked(cells, order, k);
  }

  lemma CutNewest(order: seq<nat>, count: nat, k: nat)
    requires Newest(order, count) && k < |order|
    ensures Newest(Without(order, k), count)
  {
    hide Without;
    WithoutAt(order, k);
  }

  lemma CutPicked(cells: seq<Region>, order: seq<nat>, k: nat)
    requires k < |order|
    ensures Picked(cells, Without(order, k)) == Without(Picked(cells, order), k)
  {
    hide Without;
    WithoutAt(order, k);
    WithoutAt(Picked(cells, order), k);
  }

  lemma CutChain(nodes: seq<Vma>, next: seq<Vma?>, head: Vma?, order: seq<nat>, count: nat, k: nat)
    requires Chained(nodes, next, head, order) && Newest(order, count) && k < |order|
    ensures k == 0 || order[k - 1] < |next|
    ensures order[k] < |next|
    ensures Chained(nodes, Rerouted(next, order, k), if k == 0 then next[order[0]] else head, Without(order, k))
  {
    hide Without;
    WithoutAt(order, k);
    var order', next' := Without(order, k), Rerouted(next, order, k);
    forall i | 0 <= i < |order'|
      ensures order'[i] < |nodes| && next'[order'[i]] == At(nodes, order', i + 1)
    {
      assert next[order[Skip(i, k)]] == At(nodes, order, Skip(i, k) + 1);
    }
  }

  class VirtualMemory {
    const mmu: Mmu
    const list: VmaList
    var nextVaddr: nat
    // The frames this address space shares out: what other users of the frame allocator hold is not among them.
    ghost var base: set<nat>

    ghost function State(): VmState
      reads this, list, list.nodes, mmu, mmu.pmm.bitmap
      requires mmu.pmm.Sized()
    {
      VmState(mmu.Snap(), list.Regions(), nextVaddr, list.count)
    }

    ghost predicate Valid()
      reads this, list, list.nodes, mmu, mmu.pmm, mmu.pmm.bitmap
    {
      mmu.Valid() && list.Valid() && Inv(base, State())
    }

    // What is left of that once a call has run short of frames.
    ghost predicate Survives()
      reads this, list, list.nodes, mmu, mmu.pmm, mmu.pmm.bitmap
    {
      mmu.Valid() && list.Valid() && Surviving(base, State())
    }

    lemma ValidSurvives()
      requires Valid()
      ensures Survives()
    {
      hide Inv, Surviving;
      InvSurvives(base, State());
    }

    // The static state of vmm.c, and vmm_init.
    constructor (mmu: Mmu)
      requires mmu.Valid() && Tidy(mmu.Snap()) && Pages(mmu.Snap()) == map[] && Tables(mmu.Snap()) == {}
      ensures Valid() && this.mmu == mmu && base == mmu.pmm.Free() && fresh(list) && fresh(list.nodes)
      ensures State() == VmState(mmu.Snap(), [], START, 0)
    {
      this.mmu := mmu;
      list := new VmaList();
      nextVaddr := START;
      base := mmu.pmm.Free();
      new;
      hide Inv, Pages, Tidy, Tables, Shape;
      FreshInv(mmu.Snap());
    }

    // One round of vmm_alloc's loop; false when no frame is left.
    method MapRound(vaddr: nat) returns (ok: bool)
      requires mmu.Valid() && (mmu.Snap().free != {} ==> MissingUpper(mmu.Snap(), PageOf(vaddr)) < |mmu.Snap().free|)
      modifies mmu`mem, mmu`at, mmu.pmm.bitmap
      ensures mmu.Valid() && (ok <==> old(mmu.Snap()).free != {})
      ensures mmu.Snap() == if ok then AllocOne(old(mmu.Snap()), PageOf(vaddr)) else old(mmu.Snap())
    {
      hide Shape, UpperTables, MapPage, PageOf, FreeSet;
      ghost var s := mmu.Snap();
      NoFrameNull(s);
      if s.free != {} {
        FrameTaken(s);
      }
      var paddr := mmu.pmm.AllocFrame();
      if paddr == 0 {
        return false;
      }
      assert mmu.Snap() == s.(free := s.free - {Lowest(s.free)});
      assert paddr / PAGE_SIZE == Lowest(s.free);
      mmu.Map(vaddr, paddr);
      return true;
    }

    // The loop of vmm_alloc.
    method MapPages(vaddr: nat, numPages: nat) returns (ok: bool)
      requires mmu.Valid() && vaddr % PAGE_SIZE == 0 && Page(vaddr) + |mmu.Snap().free| <= PAGES
      requires Obtainable(mmu.Snap(), Page(vaddr), numPages)
      modifies mmu`mem, mmu`at, mmu.pmm.bitmap
      ensures mmu.Valid() && (mmu.Snap(), ok) == AllocPages(old(mmu.Snap()), Page(vaddr), numPages)
    {
      hide Obtainable, MissingUpper, Shape, AllocPages, AllocOne, FreeSet, PageOf;
      ghost var p, s0 := Page(vaddr), mmu.Snap();
      var i := 0;
      while i < numPages
        invariant 0 <= i <= numPages
        invariant mmu.Valid() && p + i + |mmu.Snap().free| <= PAGES
        invariant AllocPages(mmu.Snap(), p + i, numPages - i) == AllocPages(s0, p, numPages)
        invariant Obtainable(mmu.Snap(), p + i, numPages - i)
      {
        ghost var s := mmu.Snap();
        AllocPagesUnfold(s, p + i, numPages - i);
        if s.free != {} {
          ObtainableNext(s, p + i, numPages - i);
          AllocOneUses(s, p + i);
          PageOfRound(vaddr, i);
        }
        var mapped := MapRound(vaddr + i * PAGE_SIZE);
        if !mapped {
          return false;
        }
        i := i + 1;
      }
      AllocPagesUnfold(mmu.Snap(), p + numPages, 0);
      return true;
    }

    // vmm_alloc
    method Alloc(size: nat) returns (ptr: nat)
      requires Survives() && size < U64 && Obtainable(mmu.Snap(), Page(nextVaddr), PagesIn(size))
      modifies this, list, list.nodes, mmu`mem, mmu`at, mmu.pmm.bitmap
      ensures (State(), ptr) == VmMachine.Alloc(old(State()), size)
      ensures Survives() && base == old(base)
      ensures old(Valid()) ==> (Valid() <==> AllOrNothing(old(State()), size))
    {
      hide AllOrNothing, Fits, Pages, Left, Range, Inv, Surviving, Obtainable, Owns, AllocPages, Shape, FreeSet;
      hide VmaList.Valid, VmaList.Regions;
      var numPages := (size + 4095) % U64 / PAGE_SIZE;
      SurvivingBound(base, State());
      AllocSurvives(base, State(), size);
      if Inv(base, State()) {
        AllocKeepsInvIff(base, State(), size);
      }
      var vaddr := nextVaddr;
      var ok := MapPages(vaddr, numPages);
      if !ok {
        return 0;
      }
      list.Record(vaddr, numPages * PAGE_SIZE);
      nextVaddr := nextVaddr + numPages * PAGE_SIZE;
      return vaddr;
    }

    // One round of vmm_free's loop.
    method UnmapRound(vaddr: nat)
      requires mmu.Valid() && Sound(mmu.Snap()) && vaddr % PAGE_SIZE == 0
      modifies mmu`mem, mmu`at, mmu.pmm.bitmap
      ensures mmu.Valid() && Sound(mmu.Snap())
      ensures mmu.Snap() == FreeOne(old(mmu.Snap()), PageOf(vaddr))
    {
      hide Sound, Shape, Pages, UnmapPage, PageOf, FreeSet;
      ghost var s := mmu.Snap();
      FreeOneSound(s, PageOf(vaddr));
      SoundShape(FreeOne(s, PageOf(vaddr)));
      var paddr := mmu.GetPhysical(vaddr);
      if paddr != 0 {
        mmu.Unmap(vaddr);
        mmu.pmm.FreeFrame(paddr - paddr % PAGE_SIZE);
      }
      assert mmu.Snap() == FreeOne(s, PageOf(vaddr));
    }

    // The loop of vmm_free.
    method UnmapPages(vaddr: nat, numPages: nat)
      requires mmu.Valid() && Sound(mmu.Snap()) && vaddr % PAGE_SIZE == 0
      requires Page(vaddr) + numPages <= PAGES
      modifies mmu`mem, mmu`at, mmu.pmm.bitmap
      ensures mmu.Valid() && Sound(mmu.Snap())
      ensures mmu.Snap() == FreePages(old(mmu.Snap()), Page(vaddr), numPages)
    {
      hide Sound, Shape, Pages, FreeOne, PageOf, FreeSet;
      ghost var p, s0 := Page(vaddr), mmu.Snap();
      var i := 0;
      while i < numPages
        invariant 0 <= i <= numPages
        invariant mmu.Valid() && Sound(mmu.Snap())
        invariant FreePages(mmu.Snap(), p + i, numPages - i) == FreePages(s0, p, numPages)
      {
        PageOfRound(vaddr, i);
        UnmapRound(vaddr + i * PAGE_SIZE);
        i := i + 1;
      }
    }

    // vmm_free
    method Free(ptr: nat)
      requires Survives()
      modifies list, list.nodes, mmu`mem, mmu`at, mmu.pmm.bitmap
      ensures Survives() && State() == VmMachine.Free(old(State()), ptr)
      ensures old(Valid()) ==> Valid()
    {
      hide Inv, Surviving, Sound, Shape, Pages, Orphans, Grows, PagesOf, Range, Live, FreePages, FreeSet, Find, Remove;
      hide At, Chained, Newest, Distinct, Picked;
      ghost var v := State();
      FreeSurvives(base, v, ptr);
      FreeFinds(base, v, ptr);
      if Inv(base, v) {
        FreeKeepsInv(base, v, ptr);
      }
      var prev: Vma? := null;
      var curr := list.head;
      ghost var k := 0;
      list.FirstNode();
      while curr != null
        invariant Survives() && State() == v
        invariant 0 <= k <= |list.order| == |v.regions|
        invariant curr == At(list.nodes, list.order, k)
        invariant curr == null <==> k == |list.order|
        invariant prev == (if k == 0 then null else At(list.nodes, list.order, k - 1))
        invariant forall j | 0 <= j < k :: v.regions[j].vaddr != ptr
        decreases |list.order| - k
      {
        list.NodeAt(k);
        if curr.vaddr == ptr {
          FindAt(v.regions, ptr, k);
          UnmapPages(curr.vaddr, curr.size / PAGE_SIZE);
          list.Unlink(prev, curr, k);
          return;
        }
        prev := curr;
        curr := curr.next;
        k := k + 1;
      }
      FindAt(v.regions, ptr, k);
    }
  }

  lemma {:induction false} FindAt(rs: seq<Region>, ptr: nat, k: nat)
    requires k <= |rs| && forall j | 0 <= j < k :: rs[j].vaddr != ptr
    requires k < |rs| ==> rs[k].vaddr == ptr
    ensures k == |rs| ==> Find(rs, ptr) == None
    ensures k < |rs| ==> Find(rs, ptr) == Some(rs[k]) && Remove(rs, ptr) == rs[..k] + rs[k + 1..]
  {
    if k > 0 {
      FindAt(rs[1..], ptr, k - 1);
      if k < |rs| {
        assert [rs[0]] + (rs[1..][..k - 1] + rs[1..][k..]) == rs[..k] + rs[k + 1..];
      }
    }
  }

  // What vmm_free finds lies inside the address space.
  lemma FreeFinds(base: set<nat>, v: VmState, ptr: nat)
    requires Surviving(base, v)
    ensures Sound(v.space)
    ensures Find(v.regions, ptr).Some? ==>
              var r := Find(v.regions, ptr).value;
              Page(r.vaddr) + Page(r.size) <= PAGES && r.vaddr % PAGE_SIZE == 0
  {
    hide Sound, Balance, Accounted, Live;
    if Find(v.regions, ptr).Some? {
      FoundBelow(v.regions, v.cursor, ptr);
      SurvivingBound(base, v);
    }
  }

  lemma SoundShape(s: Space)
    requires Sound(s)
    ensures Shape(s)
  {
    hide Shape, Partition;
  }

  lemma NoFrameNull(s: Space)
    requires Shape(s)
    ensures s.free != {} ==> Lowest(s.free) * PAGE_SIZE != 0
  {
  }

  lemma PageOfRound(vaddr: nat, i: nat)
    requires vaddr % PAGE_SIZE == 0 && Page(vaddr) + i < PAGES
    ensures PageOf(vaddr + i * PAGE_SIZE) == Page(vaddr) + i
  {
    PagesRounded(vaddr, i);
  }

  // With the frame for the page taken, the tree is what it was, and as many frames are left but one.
  lemma FrameTaken(s: Space)
    requires Shape(s) && s.free != {}
    ensures var s0 := s.(free := s.free - {Lowest(s.free)});
            Shape(s0) && |s0.free| == |s.free| - 1
  {
    FewerFree(s, s.free - {Lowest(s.free)});
  }
}
