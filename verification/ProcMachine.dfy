/** The process table, its clock and the address space its stacks come from (process.c, timer.c), as a value. */
module ProcMachine {
  import opened Wrappers
  import opened Pmm
  import opened PageTree
  import opened Ownership
  import opened VmMachine

  const MAX_PROCS: nat := 16
  const TICKS_PER_SECOND: nat := 100

  datatype Status = Ready | Running | Terminated

  datatype Pcb = Pcb(pid: nat, status: Status, stackPtr: nat, memBase: nat, memSize: nat, runTime: nat)

  // born[i] is what lastTime was when the process in slot i was created; the kernel does not store it.
  datatype World = World(procs: seq<Pcb>, born: seq<nat>, lastTime: nat, ticks: nat, uptime: nat, vm: VmState)

  // ---- The table ----

  function Pids(procs: seq<Pcb>): set<nat> {
    set i | 0 <= i < |procs| :: procs[i].pid
  }

  // The first slot from i on with that pid, or the length of the table; pid 0 marks a free slot.
  function IndexOf(procs: seq<Pcb>, pid: nat, i: nat): (k: nat)
    requires i <= |procs|
    ensures i <= k <= |procs| && (k < |procs| ==> procs[k].pid == pid)
    ensures forall j | i <= j < k :: procs[j].pid != pid
    decreases |procs| - i
  {
    if i == |procs| || procs[i].pid == pid then i else IndexOf(procs, pid, i + 1)
  }

  ghost predicate IsLeastPid(procs: seq<Pcb>, pid: nat) {
    1 <= pid && pid !in Pids(procs) && forall q | 1 <= q < pid :: q in Pids(procs)
  }

  lemma PidsCount(procs: seq<Pcb>)
    ensures |Pids(procs)| <= |procs|
  {
    if procs != [] {
      var rest := procs[..|procs| - 1];
      PidsCount(rest);
      var last := procs[|procs| - 1].pid;
      assert Pids(procs) == Pids(rest) + {last} by {
        assert forall i | 0 <= i < |rest| :: rest[i] == procs[i];
        assert procs[|procs| - 1].pid == last;
      }
    }
  }

  // With a free slot, the pids 1 to 16 cannot all be taken.
  lemma PidPigeonhole(procs: seq<Pcb>, pid: nat)
    requires |procs| == MAX_PROCS && 0 in Pids(procs)
    requires forall q | 1 <= q < pid :: q in Pids(procs)
    ensures pid <= MAX_PROCS
  {
    if pid > MAX_PROCS {
      InRange(0, pid);
      assert Range(0, pid) <= Pids(procs);
      SubsetSize(Range(0, pid), Pids(procs));
      PidsCount(procs);
      assert false;
    }
  }

  lemma LeastPidExists(procs: seq<Pcb>, from: nat) returns (pid: nat)
    requires |procs| == MAX_PROCS && 0 in Pids(procs) && 1 <= from
    requires forall q | 1 <= q < from :: q in Pids(procs)
    ensures IsLeastPid(procs, pid)
    decreases MAX_PROCS + 1 - from
  {
    PidPigeonhole(procs, from);
    if from in Pids(procs) {
      PidPigeonhole(procs, from + 1);
      pid := LeastPidExists(procs, from + 1);
    } else {
      pid := from;
    }
  }

  lemma SomeLeastPid(procs: seq<Pcb>)
    requires |procs| == MAX_PROCS && 0 in Pids(procs)
    ensures exists pid :: IsLeastPid(procs, pid)
  {
    var pid := LeastPidExists(procs, 1);
  }

  ghost function LeastPid(procs: seq<Pcb>): (pid: nat)
    requires |procs| == MAX_PROCS && 0 in Pids(procs)
    ensures IsLeastPid(procs, pid)
  {
    SomeLeastPid(procs);
    var pid: nat :| IsLeastPid(procs, pid);
    pid
  }

  lemma LeastPidIsUnique(procs: seq<Pcb>, a: nat, b: nat)
    requires IsLeastPid(procs, a) && IsLeastPid(procs, b)
    ensures a == b
  {
  }

  // ---- The operations ----

  // The address the entry point is pushed at, in 64-bit arithmetic.
  function StackTop(mem: nat, size: nat): nat {
    (mem + size + U64 - 8) % U64
  }

  // process_create: the new world and the pid returned, 0 when the table is full.
  ghost function Create(w: World, size: nat): (World, nat)
    requires |w.procs| == |w.born| == MAX_PROCS
  {
    var i := IndexOf(w.procs, 0, 0);
    if i == |w.procs| then (w, 0)
    else
      assert w.procs[i].pid in Pids(w.procs);
      var pid := LeastPid(w.procs);
      var (vm, mem) := Alloc(w.vm, size);
      (w.(procs := w.procs[i := Pcb(pid, Running, StackTop(mem, size), mem, size, 0)],
          born := w.born[i := w.lastTime], vm := vm), pid)
  }

  // kill_proc; with pid 0 it marks the first free slot, if any.
  function Kill(w: World, pid: nat): World {
    var i := IndexOf(w.procs, pid, 0);
    if i == |w.procs| then w else w.(procs := w.procs[i := w.procs[i].(status := Terminated)])
  }

  // One round of process_check_and_free.
  ghost function ReapSlot(w: World, i: nat): World
    requires i < |w.procs|
  {
    var p := w.procs[i];
    if p.pid != 0 && p.status == Terminated
    then w.(procs := w.procs[i := p.(pid := 0)], vm := Free(w.vm, p.memBase))
    else w
  }

  // process_check_and_free from slot i on.
  ghost function Reap(w: World, i: nat): World
    requires i <= |w.procs|
    decreases |w.procs| - i
  {
    if i == |w.procs| then w else Reap(ReapSlot(w, i), i + 1)
  }

  function Charged(p: Pcb, d: nat): Pcb {
    if p.pid != 0 && p.status == Running then p.(runTime := p.runTime + d) else p
  }

  // scheduler
  function Schedule(w: World): World {
    if w.uptime > w.lastTime
    then w.(procs := seq(|w.procs|, i requires 0 <= i < |w.procs| => Charged(w.procs[i], w.uptime - w.lastTime)),
        lastTime := w.uptime)
    else w
  }

  // timer_handler
  function Tick(w: World): World {
    w.(ticks := w.ticks + 1, uptime := if (w.ticks + 1) % TICKS_PER_SECOND == 0 then w.uptime + 1 else w.uptime)
  }

  // ---- The invariant ----

  function StackOf(p: Pcb): Region {
    Region(p.memBase, PagesIn(p.memSize) * PAGE_SIZE)
  }

  // A stack size process_create can serve: the entry point fits, and the rounding does not wrap.
  predicate GoodSize(size: nat) {
    8 <= size && size + 4095 < U64
  }

  // A size that gets any pages at all.
  predicate GetsPages(size: nat) {
    0 < size && size + 4095 < U64
  }

  // The stack of p is the region vmm_free will find at its base.
  ghost predicate InList(vm: VmState, p: Pcb) {
    Find(vm.regions, p.memBase) == Some(StackOf(p))
  }

  // The stack of p is listed, or it got no list node and its pages belong to no region of the list.
  ghost predicate HasStack(vm: VmState, p: Pcb) {
    && GetsPages(p.memSize) && p.memBase % PAGE_SIZE == 0 && p.stackPtr == p.memBase + p.memSize - 8
    && (InList(vm, p) || PagesOf(StackOf(p)) <= Orphans(vm))
  }

  ghost predicate DistinctPids(w: World) {
    forall i, j | 0 <= i < j < |w.procs| && w.procs[i].pid != 0 :: w.procs[i].pid != w.procs[j].pid
  }

  ghost predicate StacksOk(w: World) {
    && (forall i | 0 <= i < |w.procs| && w.procs[i].pid != 0 :: HasStack(w.vm, w.procs[i]))
    && (forall i, j | 0 <= i < j < |w.procs| && w.procs[i].pid != 0 && w.procs[j].pid != 0 ::
         PagesOf(StackOf(w.procs[i])) !! PagesOf(StackOf(w.procs[j])))
  }

  predicate TimeOf(p: Pcb, born: nat, lastTime: nat) {
    born <= lastTime && (if p.status == Running then p.runTime == lastTime - born else p.runTime <= lastTime - born)
  }

  ghost predicate TimeOk(w: World) {
    && |w.born| == |w.procs| && w.uptime == w.ticks / TICKS_PER_SECOND && w.lastTime <= w.uptime
    && (forall i | 0 <= i < |w.procs| && w.procs[i].pid != 0 :: TimeOf(w.procs[i], w.born[i], w.lastTime))
  }

  ghost predicate WorldInv(base: set<nat>, w: World) {
    && |w.procs| == |w.born| == MAX_PROCS
    && Inv(base, w.vm) && DistinctPids(w) && StacksOk(w) && TimeOk(w)
  }

  // ---- Stacks ----

  // A process's stack is mapped throughout, below the address cursor, and holds at least the page at its base.
  lemma StackMapped(base: set<nat>, v: VmState, p: Pcb)
    requires Inv(base, v) && HasStack(v, p)
    ensures PagesOf(StackOf(p)) == Range(Page(p.memBase), PagesIn(p.memSize)) && 0 < PagesIn(p.memSize)
    ensures PagesOf(StackOf(p)) <= Pages(v.space).Keys && Page(p.memBase) in PagesOf(StackOf(p))
    ensures Page(START) <= Page(p.memBase) && Page(p.memBase) + PagesIn(p.memSize) <= Page(v.cursor)
  {
    hide Owns, Pages, Live, CursorBounded, Stacked, Range, PagesIn, Find;
    var m, n := Page(p.memBase), PagesIn(p.memSize);
    PagesOfNumber(n);
    InRange(m, n);
    SomePages(p.memSize);
    if InList(v, p) {
      RemoveTakesPages(v.regions, v.cursor, p.memBase);
    }
    assert m in Range(m, n) && m + n - 1 in Range(m, n);
  }

  lemma SomePages(size: nat)
    requires GetsPages(size)
    ensures 0 < PagesIn(size)
  {
  }

  // Live processes have different pids and disjoint, fully mapped stacks.
  lemma StacksDisjoint(base: set<nat>, w: World, i: nat, j: nat)
    requires WorldInv(base, w) && i < j < MAX_PROCS && w.procs[i].pid != 0 && w.procs[j].pid != 0
    ensures w.procs[i].pid != w.procs[j].pid && w.procs[i].memBase != w.procs[j].memBase
    ensures PagesOf(StackOf(w.procs[i])) !! PagesOf(StackOf(w.procs[j]))
    ensures PagesOf(StackOf(w.procs[i])) <= Pages(w.vm.space).Keys
  {
    hide Inv, Pages, PagesOf, HasStack;
    StackMapped(base, w.vm, w.procs[i]);
    StackMapped(base, w.vm, w.procs[j]);
  }

  // The saved stack pointer lies in the process's own region exactly for the sizes process_create can serve;
  // for any other size the entry point is written outside it.
  lemma StackTopInRegion(mem: nat, size: nat)
    requires size < U64 && mem + PagesIn(size) * PAGE_SIZE <= U64
    ensures mem <= StackTop(mem, size) < mem + PagesIn(size) * PAGE_SIZE <==> GoodSize(size)
  {
  }

  // Every saved stack pointer of a size that has room for it translates to a frame that is in use for this page alone.
  lemma StackPointerTranslates(base: set<nat>, w: World, i: nat)
    requires WorldInv(base, w) && i < MAX_PROCS && w.procs[i].pid != 0 && GoodSize(w.procs[i].memSize)
    ensures var p := PageOf(w.procs[i].stackPtr);
            p in PagesOf(StackOf(w.procs[i])) && p in Pages(w.vm.space)
            && Pages(w.vm.space)[p] in base && Pages(w.vm.space)[p] !in w.vm.space.free
            && forall q | q in Pages(w.vm.space) && q != p :: Pages(w.vm.space)[q] != Pages(w.vm.space)[p]
  {
    hide Inv, Pages, DistinctPids, TimeOk, HasStack, PagesOf, Range, PagesIn;
    var pcb := w.procs[i];
    StackPointerOf(w.vm, pcb);
    StackMapped(base, w.vm, pcb);
    CursorNeverWraps(base, w.vm);
    TopPage(pcb.memBase, pcb.memSize);
    OwnedAlone(base, w.vm, PageOf(pcb.stackPtr));
  }

  lemma StackPointerOf(v: VmState, p: Pcb)
    requires HasStack(v, p)
    ensures p.stackPtr == p.memBase + p.memSize - 8 && p.memBase % PAGE_SIZE == 0
  {
  }

  lemma OwnedAlone(base: set<nat>, v: VmState, p: nat)
    requires Inv(base, v) && p in Pages(v.space)
    ensures Pages(v.space)[p] in base && Pages(v.space)[p] !in v.space.free
    ensures forall q | q in Pages(v.space) && q != p :: Pages(v.space)[q] != Pages(v.space)[p]
  {
    hide Shape, Tidy, Tables, Pages, Listed, Covered, CursorBounded;
    assert Pages(v.space)[p] in Data(v.space);
  }

  lemma TopPage(mem: nat, size: nat)
    requires GoodSize(size) && mem % PAGE_SIZE == 0 && Page(mem) + PagesIn(size) <= PAGES
    ensures PageOf(mem + size - 8) in Range(Page(mem), PagesIn(size))
  {
    hide Range, PagesIn;
    var m, n := Page(mem), PagesIn(size);
    InRange(m, n);
    PageAbove(m, size - 8);
    LastPage(size);
  }

  lemma PageAbove(m: nat, x: nat)
    ensures Page(m * PAGE_SIZE + x) == m + Page(x)
  {
  }

  lemma LastPage(size: nat)
    requires GoodSize(size)
    ensures Page(size - 8) < PagesIn(size)
  {
  }

  // ---- Every operation keeps the invariant ----

  lemma OtherRegionsStay(rs: seq<Region>, ptr: nat, q: nat)
    requires ptr != q
    ensures Find(Remove(rs, ptr), q) == Find(rs, q)
  {
    if rs != [] && rs[0].vaddr != ptr {
      OtherRegionsStay(rs[1..], ptr, q);
      assert ([rs[0]] + Remove(rs[1..], ptr))[1..] == Remove(rs[1..], ptr);
    }
  }

  // A new process gets the least pid not in use, at most 16, and a stack of freshly mapped pages; every other
  // process keeps its slot and its stack. With a full table nothing changes and 0 comes back.
  lemma CreateKeepsInv(base: set<nat>, w: World, size: nat)
    requires WorldInv(base, w) && Fits(w.vm, size) && GetsPages(size)
    ensures var (w', pid) := Create(w, size);
            && WorldInv(base, w')
            && (0 !in Pids(w.procs) ==> w' == w && pid == 0)
            && (0 in Pids(w.procs) ==>
                  && IsLeastPid(w.procs, pid) && pid <= MAX_PROCS
                  && Pages(w'.vm.space).Keys == Pages(w.vm.space).Keys + Range(Page(w.vm.cursor), PagesIn(size))
                  && Range(Page(w.vm.cursor), PagesIn(size)) !! Pages(w.vm.space).Keys)
  {
    hide Inv, Alloc, Fits, Pages, Mapped, Left, PagesIn, Owns, Orphans, Range, HasStack, TimeOk, DistinctPids,
        StacksOk, IsLeastPid, Pids;
    AllocKeepsInv(base, w.vm, size);
    MappedPages(base, w.vm.space, Alloc(w.vm, size).0.space, Page(w.vm.cursor), PagesIn(size));
    AllocFits(base, w.vm, size);
    var i := IndexOf(w.procs, 0, 0);
    FreeSlot(w.procs);
    if i < MAX_PROCS {
      var (w', pid) := Create(w, size);
      LeastIsNew(w.procs, pid);
      PidPigeonhole(w.procs, pid);
      NewStack(base, w.vm, size, w'.procs[i]);
      DistinctAfter(w, w', i);
      StacksAfter(base, w, w', i, size);
      TimeAfter(w, w', i);
    }
  }

  // The entry of the new process stands in the first free slot, and no other slot changes.
  lemma CreatedEntry(base: set<nat>, w: World, size: nat, i: nat)
    requires WorldInv(base, w) && Fits(w.vm, size) && GetsPages(size) && i < MAX_PROCS && IsFirst(w.procs, 0, i)
    ensures 0 in Pids(w.procs)
    ensures var (w', pid) := Create(w, size);
            && w'.procs == w.procs[i := w'.procs[i]]
            && w'.procs[i] == Pcb(pid, Running, w.vm.cursor + size - 8, w.vm.cursor, size, 0)
            && w' == w.(procs := w'.procs, born := w'.born, vm := w'.vm)
  {
    hide Inv, Alloc, Fits, Pages, Mapped, Left, PagesIn, Owns, Orphans, Range, HasStack, TimeOk, DistinctPids,
        StacksOk, IsLeastPid;
    AllocKeepsInv(base, w.vm, size);
    RoomAbove(base, w.vm);
    FitsBound(base, w.vm, size);
    StackTopIs(w.vm.cursor, size);
  }

  // Slot i of w has been filled.
  ghost predicate Filled(w: World, w': World, i: nat) {
    && i < |w.procs| == |w.born| == |w'.procs|
    && w' == w.(procs := w.procs[i := w'.procs[i]], born := w.born[i := w.lastTime], vm := w'.vm)
  }

  lemma FreeSlot(procs: seq<Pcb>)
    ensures IndexOf(procs, 0, 0) < |procs| <==> 0 in Pids(procs)
  {
  }

  lemma LeastIsNew(procs: seq<Pcb>, pid: nat)
    requires IsLeastPid(procs, pid)
    ensures pid != 0 && pid !in Pids(procs) && forall q | 1 <= q < pid :: q in Pids(procs)
  {
  }

  lemma MappedPages(base: set<nat>, s: Space, s': Space, p: nat, n: nat)
    requires Mapped(base, s, s', p, n)
    ensures Pages(s').Keys == Pages(s).Keys + Range(p, n)
  {
    hide Pages, Range, Owns, Grows;
  }

  lemma DistinctAfter(w: World, w': World, i: nat)
    requires DistinctPids(w) && Filled(w, w', i) && w'.procs[i].pid !in Pids(w.procs)
    ensures DistinctPids(w')
  {
    assert forall j | 0 <= j < |w.procs| :: w.procs[j].pid in Pids(w.procs);
  }

  lemma StacksAfter(base: set<nat>, w: World, w': World, i: nat, size: nat)
    requires StacksOk(w) && Filled(w, w', i) && w'.vm == Alloc(w.vm, size).0
    requires Inv(base, w.vm) && Fits(w.vm, size)
    requires HasStack(w'.vm, w'.procs[i]) && PagesOf(StackOf(w'.procs[i])) == Range(Page(w.vm.cursor), PagesIn(size))
    ensures StacksOk(w')
  {
    hide Inv, Alloc, Fits, HasStack, PagesOf, StackOf, Range, PagesIn;
    forall j | 0 <= j < |w.procs| && j != i && w.procs[j].pid != 0
      ensures HasStack(w'.vm, w.procs[j])
      ensures PagesOf(StackOf(w.procs[j])) !! PagesOf(StackOf(w'.procs[i]))
    {
      OldStackStays(base, w.vm, size, w.procs[j]);
    }
  }

  lemma TimeAfter(w: World, w': World, i: nat)
    requires TimeOk(w) && Filled(w, w', i) && w'.procs[i].status == Running && w'.procs[i].runTime == 0
    ensures TimeOk(w')
  {
  }

  // process_create keeps the invariant exactly when the table is full, or the size gets pages and every frame that
  // the stack needs is there.
  ghost predicate Creatable(w: World, size: nat) {
    0 in Pids(w.procs) ==> GetsPages(size) && Fits(w.vm, size)
  }

  lemma CreateKeepsInvIff(base: set<nat>, w: World, size: nat)
    requires WorldInv(base, w) && (0 in Pids(w.procs) ==> Obtainable(w.vm.space, Page(w.vm.cursor), PagesIn(size)))
    ensures WorldInv(base, Create(w, size).0) <==> Creatable(w, size)
  {
    hide Inv, Alloc, Fits, Pages, PagesIn, Owns, Orphans, Range, HasStack, TimeOk, DistinctPids, Obtainable, Page,
        GetsPages;
    var i := IndexOf(w.procs, 0, 0);
    if i == MAX_PROCS {
      assert forall p | p in w.procs :: p.pid != 0;
    } else {
      assert w.procs[i].pid in Pids(w.procs);
      if Creatable(w, size) {
        CreateKeepsInv(base, w, size);
      } else {
        var w' := Create(w, size).0;
        AllocKeepsInvIff(base, w.vm, size);
        if AllOrNothing(w.vm, size) {
          NoStack(base, w.vm, size, w'.procs[i]);
        }
        assert !WorldInv(base, w');
      }
    }
  }

  lemma CreateOrFull(base: set<nat>, w: World, size: nat)
    requires WorldInv(base, w) && Creatable(w, size)
    ensures WorldInv(base, Create(w, size).0)
  {
    hide Inv, Alloc, Fits, HasStack, TimeOk, DistinctPids, GetsPages, PagesOf;
    if 0 in Pids(w.procs) {
      CreateKeepsInv(base, w, size);
    } else {
      assert forall j | 0 <= j < MAX_PROCS :: w.procs[j].pid in Pids(w.procs);
    }
  }

  lemma NoStack(base: set<nat>, v: VmState, size: nat, p: Pcb)
    requires Inv(base, v) && AllOrNothing(v, size) && !(GetsPages(size) && Fits(v, size))
    requires p.memBase == Alloc(v, size).1 && p.memSize == size
    ensures !HasStack(Alloc(v, size).0, p)
  {
    hide Inv, Fits, Pages, PagesOf, Range, PagesIn, Alloc;
    if GetsPages(size) {
      NothingAllocated(v, size);
      if HasStack(v, p) {
        StackMapped(base, v, p);
        assert false;
      }
    }
  }

  lemma NewStack(base: set<nat>, v: VmState, size: nat, p: Pcb)
    requires Inv(base, v) && Fits(v, size) && GetsPages(size)
    requires p.memBase == v.cursor && p.memSize == size && p.stackPtr == StackTop(v.cursor, size)
    ensures HasStack(Alloc(v, size).0, p) && PagesOf(StackOf(p)) == Range(Page(v.cursor), PagesIn(size))
  {
    hide Inv, Fits, Pages, Mapped, Left, Owns, Orphans, Range, AllocPages, PagesIn;
    AllocKeepsInv(base, v, size);
    RoomAbove(base, v);
    FitsBound(base, v, size);
    PagesOfNumber(PagesIn(size));
    StackTopIs(v.cursor, size);
  }

  lemma StackTopIs(mem: nat, size: nat)
    requires GetsPages(size) && START <= mem && Page(mem) + PagesIn(size) <= PAGES
    ensures StackTop(mem, size) == mem + size - 8
  {
  }

  lemma OldStackStays(base: set<nat>, v: VmState, size: nat, p: Pcb)
    requires Inv(base, v) && Fits(v, size) && HasStack(v, p)
    ensures HasStack(Alloc(v, size).0, p)
    ensures PagesOf(StackOf(p)) !! Range(Page(v.cursor), PagesIn(size))
  {
    hide Inv, Fits, Pages, Mapped, Left, Owns, Orphans, Range, PagesOf, PagesIn, Alloc;
    AllocKeepsInv(base, v, size);
    AllocFits(base, v, size);
    StackMapped(base, v, p);
    var r := Alloc(v, size).0.regions;
    assert v.count < VMA_NODES ==> r[1..] == v.regions;
  }

  lemma KillKeepsInv(base: set<nat>, w: World, pid: nat)
    requires WorldInv(base, w)
    ensures WorldInv(base, Kill(w, pid)) && Kill(w, pid) == w.(procs := Kill(w, pid).procs)
    ensures forall i | 0 <= i < MAX_PROCS ::
              Kill(w, pid).procs[i] ==
              if IsFirst(w.procs, pid, i) then w.procs[i].(status := Terminated) else w.procs[i]
  {
    hide Inv, Find, PagesOf, PagesIn, Orphans;
    var i := IndexOf(w.procs, pid, 0);
    if i < MAX_PROCS {
      assert forall j | 0 <= j < MAX_PROCS && j != i :: Kill(w, pid).procs[j] == w.procs[j];
    }
  }

  // Slot i is the first one with that pid.
  ghost predicate IsFirst(procs: seq<Pcb>, pid: nat, i: nat)
    requires i < |procs|
  {
    procs[i].pid == pid && forall j | 0 <= j < i :: procs[j].pid != pid
  }

  predicate Dead(p: Pcb) {
    p.pid != 0 && p.status == Terminated
  }

  // The pages of the terminated processes from slot i on, as far as their stacks are listed.
  ghost function DeadPages(vm: VmState, procs: seq<Pcb>, i: nat): set<nat>
    requires i <= |procs|
    decreases |procs| - i
  {
    if i == |procs| then {} else Reclaimed(vm, procs[i]) + DeadPages(vm, procs, i + 1)
  }

  // What reaping p gives back: its stack, if it was listed.
  ghost function Reclaimed(vm: VmState, p: Pcb): set<nat> {
    if Dead(p) && InList(vm, p) then PagesOf(StackOf(p)) else {}
  }

  lemma ReapSlotKeepsInv(base: set<nat>, w: World, i: nat)
    requires WorldInv(base, w) && i < MAX_PROCS
    ensures var w' := ReapSlot(w, i);
            && WorldInv(base, w')
            && w' == w.(procs := w'.procs, vm := w'.vm)
            && w'.procs == w.procs[i := if Dead(w.procs[i]) then w.procs[i].(pid := 0) else w.procs[i]]
            && Pages(w'.vm.space) == Pages(w.vm.space) - Reclaimed(w.vm, w.procs[i])
            && Grows(w'.vm.space, w.vm.space)
            && (forall j | 0 <= j < MAX_PROCS && j != i && w.procs[j].pid != 0 ::
                 InList(w'.vm, w.procs[j]) <==> InList(w.vm, w.procs[j]))
  {
    hide Inv, Pages, Grows, Orphans, Find, Free, PagesOf, StackOf;
    var p := w.procs[i];
    if Dead(p) {
      FreeKeepsInv(base, w.vm, p.memBase);
      FreedPages(base, w.vm, p);
      forall j | 0 <= j < MAX_PROCS && j != i && w.procs[j].pid != 0
        ensures HasStack(ReapSlot(w, i).vm, w.procs[j])
        ensures InList(ReapSlot(w, i).vm, w.procs[j]) <==> InList(w.vm, w.procs[j])
      {
        assert HasStack(w.vm, w.procs[j]);
        if i < j {
          StacksDisjoint(base, w, i, j);
        } else {
          StacksDisjoint(base, w, j, i);
        }
        RegionsAfterFree(w.vm, p.memBase, w.procs[j].memBase);
      }
    } else {
      NothingRemoved(Pages(w.vm.space), {});
      GrowsItself(w.vm.space);
    }
  }

  // vmm_free of a stack's base unmaps the stack if it is listed, and nothing if it is not.
  lemma FreedPages(base: set<nat>, v: VmState, p: Pcb)
    requires Inv(base, v) && HasStack(v, p)
    ensures Pages(Free(v, p.memBase).space) == Pages(v.space) - if InList(v, p) then PagesOf(StackOf(p)) else {}
  {
    hide Inv, Pages, Grows, Free, StackOf, Find, PagesOf;
    FreeKeepsInv(base, v, p.memBase);
    if !InList(v, p) && Find(v.regions, p.memBase).Some? {
      EmptyNamesake(base, v, p);
    }
  }

  // A region listed at the base of an unlisted stack is empty.
  lemma EmptyNamesake(base: set<nat>, v: VmState, p: Pcb)
    requires Inv(base, v) && HasStack(v, p) && !InList(v, p) && Find(v.regions, p.memBase).Some?
    ensures PagesOf(Find(v.regions, p.memBase).value) == {}
  {
    hide Owns, Pages, Live, Covered, CursorBounded, Stacked, Find, Range, PagesIn;
    StackMapped(base, v, p);
    RemoveTakesPages(v.regions, v.cursor, p.memBase);
    FoundBelow(v.regions, v.cursor, p.memBase);
    var r := Find(v.regions, p.memBase).value;
    InRange(Page(r.vaddr), Page(r.size));
    assert Page(p.memBase) !in PagesOf(r);
    assert |PagesOf(r)| == 0;
  }

  lemma RegionsAfterFree(v: VmState, ptr: nat, q: nat)
    requires ptr != q
    ensures Find(Free(v, ptr).regions, q) == Find(v.regions, q)
  {
    OtherRegionsStay(v.regions, ptr, q);
  }

  // Reaping returns exactly the listed stacks of the killed processes: their pages are unmapped and no others,
  // every other process is untouched, and no killed process is left.
  lemma {:induction false} ReapKeepsInv(base: set<nat>, w: World, i: nat)
    requires WorldInv(base, w) && i <= MAX_PROCS
    ensures var w' := Reap(w, i);
            && WorldInv(base, w')
            && w' == w.(procs := w'.procs, vm := w'.vm)
            && Pages(w'.vm.space) == Pages(w.vm.space) - DeadPages(w.vm, w.procs, i) && Grows(w'.vm.space, w.vm.space)
            && (forall j | 0 <= j < MAX_PROCS :: w'.procs[j] ==
                 if i <= j && Dead(w.procs[j]) then w.procs[j].(pid := 0) else w.procs[j])
    decreases MAX_PROCS - i
  {
    hide WorldInv, Pages, InList, Reclaimed, Grows;
    WorldSize(base, w);
    if i == MAX_PROCS {
      NothingRemoved(Pages(w.vm.space), {});
      GrowsItself(w.vm.space);
    } else {
      ReapSlotKeepsInv(base, w, i);
      var w1 := ReapSlot(w, i);
      WorldSize(base, w1);
      hide ReapSlot;
      ReapKeepsInv(base, w1, i + 1);
      SameDead(w.vm, w.procs, w1.vm, w1.procs, i + 1);
      GrowsFrom(Reap(w1, i + 1).vm.space, w1.vm.space, w.vm.space);
      RemovedTwice(Pages(w.vm.space), Reclaimed(w.vm, w.procs[i]), DeadPages(w.vm, w.procs, i + 1));
    }
  }

  // And the frames that become free are exactly those of the killed processes' listed stacks and of the tables that no
  // other page needs.
  lemma ReapReturnsFrames(base: set<nat>, w: World)
    requires WorldInv(base, w)
    ensures |w.procs| == MAX_PROCS
    ensures var s, s' := w.vm.space, Reap(w, 0).vm.space;
            && s'.free == s.free + PageFrames(s, DeadPages(w.vm, w.procs, 0)) + TableFrames(s, s.at.Keys - s'.at.Keys)
            && s.at.Keys - s'.at.Keys ==
                 TablesFor(Pages(s).Keys) - TablesFor(Pages(s).Keys - DeadPages(w.vm, w.procs, 0))
  {
    hide Pages, Owns, DistinctPids, StacksOk, TimeOk, Listed, Covered, CursorBounded, DeadPages, Grows, TablesFor,
        TableFrames;
    ReapKeepsInv(base, w, 0);
    var s, s' := w.vm.space, Reap(w, 0).vm.space;
    FramesReturned(base, s, s');
    OnlyMapped(s, DeadPages(w.vm, w.procs, 0));
    KeysWithout(Pages(s), DeadPages(w.vm, w.procs, 0));
  }

  // The shell's pkill calls kill_proc and process_check_and_free in turn: the pid is gone from the table, the stack is
  // unmapped if it was listed, its frames are free, and so are those of the tables that no page left needs. Every
  // other process that was not already killed stays as it was, stack and all.
  lemma KillThenReap(base: set<nat>, w: World, i: nat)
    requires WorldInv(base, w) && i < MAX_PROCS && w.procs[i].pid != 0
    ensures var p, w' := w.procs[i], Reap(Kill(w, w.procs[i].pid), 0);
            var s, s' := w.vm.space, w'.vm.space;
            && WorldInv(base, w') && p.pid !in Pids(w'.procs)
            && (InList(w.vm, p) ==> PagesOf(StackOf(p)) !! Pages(s').Keys)
            && (InList(w.vm, p) ==>
                 forall q | q in PagesOf(StackOf(p)) :: q in Pages(s) && Pages(s)[q] in s'.free)
            && (forall n | n in TablesFor(Pages(s).Keys) && n !in TablesFor(Pages(s').Keys) ::
                 n in s.at && s.at[n] in s'.free)
            && (forall j | 0 <= j < MAX_PROCS && w.procs[j].pid != p.pid && w.procs[j].status != Terminated ::
                 w'.procs[j] == w.procs[j])
            && (forall j, q | 0 <= j < MAX_PROCS && w.procs[j].pid != p.pid && w.procs[j].pid != 0
                 && w.procs[j].status != Terminated && q in PagesOf(StackOf(w.procs[j])) ::
                 q in Pages(s) && q in Pages(s') && Pages(s')[q] == Pages(s)[q])
  {
    hide Inv, Pages, HasStack, PagesOf, Find, DistinctPids, StacksOk, TimeOk, Reap, Grows, TablesFor, DeadPages,
        PageFrames, TableFrames, Kill, PagesIn;
    var p, w1 := w.procs[i], Kill(w, w.procs[i].pid);
    var w' := Reap(w1, 0);
    KillKeepsInv(base, w, p.pid);
    ReapKeepsInv(base, w1, 0);
    OnlyHere(w, i);
    TablesGivenBack(base, w1);
    StackGivenBack(base, w1, i);
    forall j | 0 <= j < MAX_PROCS && w.procs[j].pid != p.pid && w.procs[j].pid != 0 && w.procs[j].status != Terminated
      ensures forall q | q in PagesOf(StackOf(w.procs[j])) ::
                q in Pages(w.vm.space) && q in Pages(w'.vm.space) && Pages(w'.vm.space)[q] == Pages(w.vm.space)[q]
    {
      StackKept(base, w1, j);
    }
  }

  lemma TablesGivenBack(base: set<nat>, w: World)
    requires WorldInv(base, w)
    ensures |w.procs| == MAX_PROCS
    ensures var s, s' := w.vm.space, Reap(w, 0).vm.space;
            forall n | n in TablesFor(Pages(s).Keys) && n !in TablesFor(Pages(s').Keys) ::
              n in s.at && s.at[n] in s'.free
  {
    hide Inv, Pages, DistinctPids, StacksOk, TimeOk, Reap, Grows, TablesFor, DeadPages, PageFrames;
    ReapKeepsInv(base, w, 0);
    ReapReturnsFrames(base, w);
    var s, s' := w.vm.space, Reap(w, 0).vm.space;
    KeysWithout(Pages(s), DeadPages(w.vm, w.procs, 0));
    forall n | n in TablesFor(Pages(s).Keys) && n !in TablesFor(Pages(s').Keys)
      ensures n in s.at && s.at[n] in TableFrames(s, s.at.Keys - s'.at.Keys)
    {
      assert n in s.at.Keys - s'.at.Keys;
    }
  }

  lemma StackGivenBack(base: set<nat>, w: World, i: nat)
    requires WorldInv(base, w) && i < MAX_PROCS && Dead(w.procs[i])
    ensures |w.procs| == MAX_PROCS
    ensures var p, s, s' := w.procs[i], w.vm.space, Reap(w, 0).vm.space;
            InList(w.vm, p) ==>
              && PagesOf(StackOf(p)) !! Pages(s').Keys
              && forall q | q in PagesOf(StackOf(p)) :: q in Pages(s) && Pages(s)[q] in s'.free
  {
    hide Inv, Pages, PagesOf, InList, DistinctPids, StackOf, HasStack, TimeOk, Reap, Grows, TablesFor, DeadPages,
        TableFrames;
    var s := w.vm.space;
    if InList(w.vm, w.procs[i]) {
      ReapKeepsInv(base, w, 0);
      ReapReturnsFrames(base, w);
      DeadPagesHold(w.vm, w.procs, 0, i);
      StackMapped(base, w.vm, w.procs[i]);
      KeysWithout(Pages(s), DeadPages(w.vm, w.procs, 0));
      forall q | q in PagesOf(StackOf(w.procs[i]))
        ensures Pages(s)[q] in PageFrames(s, DeadPages(w.vm, w.procs, 0))
      {
      }
    }
  }

  lemma StackKept(base: set<nat>, w: World, i: nat)
    requires WorldInv(base, w) && i < MAX_PROCS && w.procs[i].pid != 0 && !Dead(w.procs[i])
    ensures |w.procs| == MAX_PROCS
    ensures var s, s' := w.vm.space, Reap(w, 0).vm.space;
            forall q | q in PagesOf(StackOf(w.procs[i])) :: q in Pages(s) && q in Pages(s')
                && Pages(s')[q] == Pages(s)[q]
  {
    hide Inv, Pages, PagesOf, InList, DistinctPids, StackOf, HasStack, TimeOk, Reap, Grows, DeadPages;
    ReapKeepsInv(base, w, 0);
    StackMapped(base, w.vm, w.procs[i]);
    forall q | q in PagesOf(StackOf(w.procs[i]))
      ensures q !in DeadPages(w.vm, w.procs, 0)
    {
      if q in DeadPages(w.vm, w.procs, 0) {
        var j := DeadPagesOnly(w.vm, w.procs, 0, q);
        if i < j {
          StacksDisjoint(base, w, i, j);
        } else {
          StacksDisjoint(base, w, j, i);
        }
      }
    }
  }

  lemma {:induction false} DeadPagesHold(vm: VmState, procs: seq<Pcb>, k: nat, i: nat)
    requires k <= i < |procs|
    ensures Reclaimed(vm, procs[i]) <= DeadPages(vm, procs, k)
    decreases i - k
  {
    hide Reclaimed;
    if k < i {
      DeadPagesHold(vm, procs, k + 1, i);
    }
  }

  lemma {:induction false} DeadPagesOnly(vm: VmState, procs: seq<Pcb>, k: nat, q: nat) returns (j: nat)
    requires k <= |procs| && q in DeadPages(vm, procs, k)
    ensures k <= j < |procs| && q in Reclaimed(vm, procs[j])
    decreases |procs| - k
  {
    hide Reclaimed;
    if q in Reclaimed(vm, procs[k]) {
      j := k;
    } else {
      j := DeadPagesOnly(vm, procs, k + 1, q);
    }
  }

  lemma OnlyHere(w: World, i: nat)
    requires DistinctPids(w) && i < |w.procs| && w.procs[i].pid != 0
    ensures IsFirst(w.procs, w.procs[i].pid, i)
    ensures forall j | 0 <= j < |w.procs| && j != i :: w.procs[j].pid != w.procs[i].pid
  {
  }

  lemma OnlyMapped(s: Space, ps: set<nat>)
    ensures PageFrames(s, Pages(s).Keys - (Pages(s) - ps).Keys) == PageFrames(s, ps)
  {
    hide Pages;
  }

  lemma KeysWithout(m: map<nat, nat>, ps: set<nat>)
    ensures (m - ps).Keys == m.Keys - ps
  {
  }

  lemma WorldSize(base: set<nat>, w: World)
    requires WorldInv(base, w)
    ensures |w.procs| == |w.born| == MAX_PROCS
  {
  }

  lemma {:induction false} SameDead(vm: VmState, procs: seq<Pcb>, vm': VmState, procs': seq<Pcb>, i: nat)
    requires |procs| == |procs'| && i <= |procs| && forall j | i <= j < |procs| :: procs[j] == procs'[j]
    requires forall j | i <= j < |procs| && procs[j].pid != 0 :: InList(vm', procs[j]) <==> InList(vm, procs[j])
    ensures DeadPages(vm, procs, i) == DeadPages(vm', procs', i)
    decreases |procs| - i
  {
    hide InList, PagesOf, StackOf;
    if i < |procs| {
      SameDead(vm, procs, vm', procs', i + 1);
    }
  }

  lemma ScheduleKeepsInv(base: set<nat>, w: World)
    requires WorldInv(base, w)
    ensures WorldInv(base, Schedule(w)) && Schedule(w).vm == w.vm && Schedule(w).lastTime == w.uptime
  {
    hide Inv, Find, PagesIn, PagesOf, Orphans;
    var w' := Schedule(w);
    assert forall i | 0 <= i < MAX_PROCS ::
             w'.procs[i].pid == w.procs[i].pid && StackOf(w'.procs[i]) == StackOf(w.procs[i]);
    assert forall i | 0 <= i < MAX_PROCS && w.procs[i].pid != 0 :: HasStack(w.vm, w.procs[i]);
  }

  lemma TickKeepsInv(base: set<nat>, w: World)
    requires WorldInv(base, w)
    ensures WorldInv(base, Tick(w)) && Tick(w).vm == w.vm && Tick(w).ticks == w.ticks + 1
  {
    hide Inv, HasStack;
    assert forall i | 0 <= i < MAX_PROCS :: Tick(w).procs[i] == w.procs[i];
  }

  // ---- Whole runs ----

  datatype Event = Creates(size: nat) | Kills(pid: nat) | Reaps | Schedules | Ticks

  ghost function After(w: World, e: Event): World
    requires |w.procs| == |w.born| == MAX_PROCS
  {
    match e
    case Creates(size) => Create(w, size).0
    case Kills(pid) => Kill(w, pid)
    case Reaps => Reap(w, 0)
    case Schedules => Schedule(w)
    case Ticks => Tick(w)
  }

  // The creates of a run are those that keep the invariant.
  ghost predicate Possible(w: World, e: Event) {
    e.Creates? ==> Creatable(w, e.size)
  }

  lemma EventKeepsInv(base: set<nat>, w: World, e: Event)
    requires WorldInv(base, w) && Possible(w, e)
    ensures |w.procs| == |w.born| == MAX_PROCS && WorldInv(base, After(w, e))
  {
    hide WorldInv, Pages, Fits, Create, Kill, Reap, Schedule, Tick;
    WorldSize(base, w);
    match e
    case Creates(size) => CreateOrFull(base, w, size);
    case Kills(pid) => KillKeepsInv(base, w, pid);
    case Reaps => ReapKeepsInv(base, w, 0);
    case Schedules => ScheduleKeepsInv(base, w);
    case Ticks => TickKeepsInv(base, w);
  }

  // A history of the process table: each world comes from the one before by its event.
  ghost predicate IsHistory(worlds: seq<World>, events: seq<Event>) {
    && |worlds| == |events| + 1
    && (forall k | 0 <= k < |events| ::
          |worlds[k].procs| == |worlds[k].born| == MAX_PROCS && worlds[k + 1] == After(worlds[k], events[k]))
  }

  // In a run, each event is possible in the world it happens in.
  ghost predicate IsRun(worlds: seq<World>, events: seq<Event>) {
    IsHistory(worlds, events) && forall k | 0 <= k < |events| :: Possible(worlds[k], events[k])
  }

  // ---- Pids and times ----

  // What holds whatever the memory does.
  ghost predicate ClockInv(w: World) {
    |w.procs| == |w.born| == MAX_PROCS && DistinctPids(w) && TimeOk(w)
  }

  lemma WorldHasClock(base: set<nat>, w: World)
    requires WorldInv(base, w)
    ensures ClockInv(w)
  {
    hide Inv, StacksOk, DistinctPids, TimeOk;
  }

  lemma {:induction false} ReapedProcs(w: World, i: nat)
    requires i <= |w.procs|
    ensures var w' := Reap(w, i);
            && w' == w.(procs := w'.procs, vm := w'.vm) && |w'.procs| == |w.procs|
            && (forall j | 0 <= j < |w.procs| ::
                 w'.procs[j] == if i <= j && Dead(w.procs[j]) then w.procs[j].(pid := 0) else w.procs[j])
    decreases |w.procs| - i
  {
    hide Free;
    if i < |w.procs| {
      ReapedProcs(ReapSlot(w, i), i + 1);
    }
  }

  // Every event keeps pids distinct and times right, whatever stack size is asked for and however little memory is
  // left.
  lemma EventKeepsClock(w: World, e: Event)
    requires ClockInv(w)
    ensures ClockInv(After(w, e))
  {
    hide Reap, Alloc, IsLeastPid, Pids;
    match e
    case Creates(size) =>
      FreeSlot(w.procs);
      var i := IndexOf(w.procs, 0, 0);
      if i < MAX_PROCS {
        var (w', pid) := Create(w, size);
        LeastIsNew(w.procs, pid);
        DistinctAfter(w, w', i);
        TimeAfter(w, w', i);
      }
    case Kills(pid) =>
    case Reaps => ReapedProcs(w, 0);
    case Schedules =>
    case Ticks =>
  }

  // Over every history at all, pids stay distinct, uptime is ticks / 100, lastTime is at most uptime, and the run time
  // of every running process is lastTime less what it was at its creation.
  lemma {:induction false} HistoryKeepsClock(worlds: seq<World>, events: seq<Event>, k: nat)
    requires IsHistory(worlds, events) && ClockInv(worlds[0]) && k < |worlds|
    ensures ClockInv(worlds[k])
    decreases k
  {
    hide ClockInv, After;
    if k > 0 {
      HistoryKeepsClock(worlds, events, k - 1);
      assert worlds[k - 1 + 1] == After(worlds[k - 1], events[k - 1]);
      EventKeepsClock(worlds[k - 1], events[k - 1]);
    }
  }

  // ---- Runs ----

  // A process that does not run is charged nothing, whatever happens, and does not run again.
  lemma NotRunningKeepsTime(w: World, e: Event, i: nat)
    requires |w.procs| == |w.born| == MAX_PROCS && i < MAX_PROCS
    requires w.procs[i].pid != 0 && w.procs[i].status != Running
    ensures |After(w, e).procs| == MAX_PROCS
    ensures After(w, e).procs[i].runTime == w.procs[i].runTime && After(w, e).procs[i].status != Running
  {
    hide Alloc, Reap, IsLeastPid;
    if e.Reaps? {
      ReapedProcs(w, 0);
    }
  }

  // Along every run whose creates find all the frames they need and ask for some pages, each frame keeps one owner, and
  // every live process a stack of its own.
  lemma {:induction false} RunKeepsWorldInv(base: set<nat>, worlds: seq<World>, events: seq<Event>, k: nat)
    requires IsRun(worlds, events) && WorldInv(base, worlds[0]) && k < |worlds|
    ensures WorldInv(base, worlds[k])
    decreases k
  {
    hide WorldInv, Possible, After;
    if k > 0 {
      RunKeepsWorldInv(base, worlds, events, k - 1);
      EventKeepsInv(base, worlds[k - 1], events[k - 1]);
    }
  }

  // Each elapsed second is charged exactly once: over any stretch of any history in which the process in slot i is
  // running throughout, its run time grows by exactly what lastTime grows.
  lemma {:induction false} RunTimeIsElapsedTime(worlds: seq<World>, events: seq<Event>, i: nat, pid: nat)
    requires IsHistory(worlds, events) && i < MAX_PROCS && pid != 0
    requires forall k | 0 <= k < |worlds| ::
               i < |worlds[k].procs| && worlds[k].procs[i].pid == pid && worlds[k].procs[i].status == Running
    ensures var first, last := worlds[0], worlds[|worlds| - 1];
            last.procs[i].runTime - first.procs[i].runTime == last.lastTime - first.lastTime
    decreases |events|
  {
    hide After;
    if |events| > 0 {
      var n := |events|;
      assert worlds[n - 1 + 1] == After(worlds[n - 1], events[n - 1]);
      RunTimeIsElapsedTime(worlds[..n], events[..n - 1], i, pid);
      OneEventCharges(worlds[n - 1], events[n - 1], i, pid);
    }
  }

  lemma OneEventCharges(w: World, e: Event, i: nat, pid: nat)
    requires |w.procs| == |w.born| == MAX_PROCS && i < MAX_PROCS && pid != 0 && i < |After(w, e).procs|
    requires w.procs[i].pid == pid && w.procs[i].status == Running && After(w, e).procs[i].pid == pid
    ensures After(w, e).procs[i].runTime - w.procs[i].runTime == After(w, e).lastTime - w.lastTime
  {
    hide Alloc, Reap, IsLeastPid;
    if e.Reaps? {
      ReapedProcs(w, 0);
    }
  }
}
