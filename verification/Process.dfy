/** process.c and timer.c: the process table, worked on in place. */
module Process {
  import opened Wrappers
  import opened Pmm
  import opened PageTree
  import opened Ownership
  import opened VmMachine
  import opened Vmm
  import opened ProcMachine

  // The counters of timer.c.
  class Timer {
    var ticks: nat
    var uptime: nat

    constructor ()
      ensures ticks == 0 && uptime == 0
    {
      ticks, uptime := 0, 0;
    }

    method Handler()
      modifies this
      ensures ticks == old(ticks) + 1
      ensures uptime == if ticks % TICKS_PER_SECOND == 0 then old(uptime) + 1 else old(uptime)
    {
      ticks := ticks + 1;
      if ticks % TICKS_PER_SECOND == 0 {
        uptime := uptime + 1;
      }
    }
  }

  class ProcTable {
    const procs: array<Pcb>
    var lastTime: nat
    const vm: VirtualMemory
    const timer: Timer
    ghost var born: seq<nat>

    ghost predicate Sized()
      reads this
    {
      procs.Length == |born| == MAX_PROCS
    }

    ghost function State(): World
      reads this, procs, timer, vm, vm.list, vm.list.nodes, vm.mmu, vm.mmu.pmm.bitmap
      requires vm.mmu.pmm.Sized()
    {
      World(procs[..], born, lastTime, timer.ticks, timer.uptime, vm.State())
    }

    ghost predicate Valid()
      reads this, procs, timer, vm, vm.list, vm.list.nodes, vm.mmu, vm.mmu.pmm, vm.mmu.pmm.bitmap
    {
      Sized() && vm.Valid() && WorldInv(vm.base, State())
    }

    // What is left of that once a process was created without the stack it asked for.
    ghost predicate Survives()
      reads this, procs, timer, vm, vm.list, vm.list.nodes, vm.mmu, vm.mmu.pmm, vm.mmu.pmm.bitmap
    {
      Sized() && vm.Survives() && ClockInv(State())
    }

    lemma ValidSurvives()
      requires Valid()
      ensures Survives()
    {
      hide Inv, WorldInv, ClockInv, Surviving;
      vm.ValidSurvives();
      WorldHasClock(vm.base, State());
    }

    // process_init
    constructor (vm: VirtualMemory, timer: Timer)
      requires vm.Valid() && timer.uptime == timer.ticks / TICKS_PER_SECOND
      ensures Valid() && fresh(procs) && this.vm == vm && this.timer == timer
      ensures forall p | p in procs[..] :: p.pid == 0
    {
      hide Inv, WorldInv;
      procs := new Pcb[MAX_PROCS](_ => Pcb(0, Status.Ready, 0, 0, 0, 0));
      lastTime := timer.uptime;
      this.vm, this.timer := vm, timer;
      born := seq(MAX_PROCS, _ => 0);
      new;
      FreshWorld(vm.base, State());
    }

    // The do-while search of process_create for the lowest pid not in the table.
    method FindPid() returns (lowest: nat)
      requires procs.Length == MAX_PROCS && 0 in Pids(procs[..])
      ensures IsLeastPid(procs[..], lowest)
    {
      lowest := 1;
      var found := true;
      while found
        invariant 1 <= lowest <= MAX_PROCS + 1
        invariant forall q | 1 <= q < lowest :: q in Pids(procs[..])
        invariant !found ==> lowest !in Pids(procs[..])
        decreases MAX_PROCS + 1 - lowest, found
      {
        PidPigeonhole(procs[..], lowest);
        found := false;
        ghost var before := lowest;
        for j := 0 to MAX_PROCS
          invariant !found && lowest == before
          invariant forall k | 0 <= k < j :: procs[k].pid != lowest
        {
          if procs[j].pid == lowest {
            assert procs[..][j].pid == lowest;
            lowest := lowest + 1;
            found := true;
            break;
          }
        }
      }
    }

    // The body of process_create for the free slot i.
    method Occupy(i: nat, size: nat) returns (pid: nat)
      requires Sized() && i < MAX_PROCS && procs[i].pid == 0
      requires vm.Survives() && size < U64 && Obtainable(vm.mmu.Snap(), Page(vm.nextVaddr), PagesIn(size))
      modifies this`born, procs, vm, vm.list, vm.list.nodes, vm.mmu`mem, vm.mmu`at, vm.mmu.pmm.bitmap
      ensures Sized() && vm.Survives() && vm.base == old(vm.base)
      ensures old(vm.Valid()) ==> (vm.Valid() <==> AllOrNothing(old(vm.State()), size))
      ensures IsLeastPid(old(procs[..]), pid)
      ensures var (v, mem) := VmMachine.Alloc(old(vm.State()), size);
              && vm.State() == v && born == old(born)[i := lastTime]
              && procs[..] == old(procs[..])[i := Pcb(pid, Running, StackTop(mem, size), mem, size, 0)]
    {
      hide Inv, Surviving, Owns, AllOrNothing, VmMachine.Alloc, PagesIn, IsLeastPid, Obtainable, StackTop, FreeSet,
          Shape, VmaList.Valid, VmaList.Regions;
      assert procs[..][i].pid in Pids(procs[..]);
      pid := FindPid();
      procs[i] := procs[i].(pid := pid, status := Running);
      var mem := vm.Alloc(size);
      var sp := (mem + size) % U64;
      procs[i] := procs[i].(memBase := mem, memSize := size, stackPtr := sp, runTime := 0);
      procs[i] := procs[i].(stackPtr := (sp + U64 - 8) % U64);
      StackTopInSteps(mem, size);
      born := born[i := lastTime];
    }

    // process_create
    method Create(size: nat) returns (pid: nat)
      requires Survives() && size < U64
      requires 0 in Pids(procs[..]) ==> Obtainable(vm.mmu.Snap(), Page(vm.nextVaddr), PagesIn(size))
      modifies this`born, procs, vm, vm.list, vm.list.nodes, vm.mmu`mem, vm.mmu`at, vm.mmu.pmm.bitmap
      ensures Survives() && vm.base == old(vm.base)
      ensures (State(), pid) == ProcMachine.Create(old(State()), size)
      ensures old(Valid()) ==> (Valid() <==> Creatable(old(State()), size))
    {
      hide WorldInv, ClockInv, Inv, Surviving, Owns, Creatable, VmMachine.Alloc, PagesIn, IsLeastPid, StackTop,
          FreeSet, Shape,
          VmaList.Valid, VmaList.Regions, IndexOf, LeastPid, Obtainable;
      EventKeepsClock(State(), Creates(size));
      if Valid() {
        CreateKeepsInvIff(vm.base, State(), size);
        if Creatable(State(), size) {
          WorldHasInv(vm.base, ProcMachine.Create(State(), size).0);
        }
      }
      for i := 0 to MAX_PROCS
        invariant forall j | 0 <= j < i :: procs[j].pid != 0
      {
        if procs[i].pid == 0 {
          FirstAt(procs[..], 0, i);
          assert procs[..][i].pid in Pids(procs[..]);
          LeastPidOf(procs[..]);
          pid := Occupy(i, size);
          return;
        }
      }
      FirstAt(procs[..], 0, MAX_PROCS);
      return 0;
    }

    // get_proc_by_pid: the index of the entry, or None for NULL. Pid 0 finds a free slot.
    method GetProcByPid(pid: nat) returns (r: Option<nat>)
      requires Sized()
      ensures r == if IndexOf(procs[..], pid, 0) < MAX_PROCS then Some(IndexOf(procs[..], pid, 0)) else None
    {
      for i := 0 to MAX_PROCS
        invariant forall j | 0 <= j < i :: procs[j].pid != pid
      {
        if procs[i].pid == pid {
          FirstAt(procs[..], pid, i);
          return Some(i);
        }
      }
      FirstAt(procs[..], pid, MAX_PROCS);
      return None;
    }

    // kill_proc
    method Kill(pid: nat)
      requires Survives()
      modifies procs
      ensures Survives() && State() == ProcMachine.Kill(old(State()), pid)
      ensures forall i | 0 <= i < MAX_PROCS ::
                procs[i] == if IsFirst(old(procs[..]), pid, i) then old(procs[i]).(status := Terminated)
                else old(procs[i])
      ensures old(Valid()) ==> Valid()
    {
      hide WorldInv, ClockInv, Inv, Surviving, Shape, FreeSet, VmaList.Valid, VmaList.Regions;
      EventKeepsClock(State(), Kills(pid));
      if Valid() {
        KillKeepsInv(vm.base, State(), pid);
      }
      var proc := GetProcByPid(pid);
      if proc.Some? {
        procs[proc.value] := procs[proc.value].(status := Terminated);
      }
    }

    // process_check_and_free
    method CheckAndFree()
      requires Survives()
      modifies procs, vm.list, vm.list.nodes, vm.mmu`mem, vm.mmu`at, vm.mmu.pmm.bitmap
      ensures Survives() && State() == Reap(old(State()), 0)
      ensures old(Valid()) ==> Valid()
    {
      hide WorldInv, ClockInv, Inv, Surviving, VmMachine.Free, FreeSet, Shape, VmaList.Valid, VmaList.Regions, Reap;
      hide DeadPages, Pages;
      ghost var w0 := State();
      EventKeepsClock(w0, Reaps);
      for i := 0 to MAX_PROCS
        invariant Sized() && vm.Survives() && Reap(State(), i) == Reap(w0, 0)
        invariant old(Valid()) ==> Valid()
      {
        ghost var w := State();
        ReapUnfold(w, i);
        if Valid() {
          ReapSlotKeepsInv(vm.base, w, i);
        }
        if procs[i].pid != 0 && procs[i].status == Terminated {
          vm.Free(procs[i].memBase);
          procs[i] := procs[i].(pid := 0);
        }
        assert State() == ReapSlot(w, i);
      }
      ReapUnfold(State(), MAX_PROCS);
    }

    // scheduler
    method Scheduler()
      requires Survives()
      modifies this`lastTime, procs
      ensures Survives() && State() == Schedule(old(State()))
      ensures old(Valid()) ==> Valid()
    {
      hide WorldInv, ClockInv, Inv, Surviving, FreeSet, Shape, VmaList.Valid, VmaList.Regions;
      ghost var w := State();
      ClockSize(w);
      EventKeepsClock(w, Schedules);
      if Valid() {
        ScheduleKeepsInv(vm.base, w);
      }
      var currentTime := timer.uptime;
      if currentTime > lastTime {
        for i := 0 to MAX_PROCS
          invariant lastTime == w.lastTime
          invariant forall j | 0 <= j < MAX_PROCS ::
                      procs[j] == if j < i then Charged(w.procs[j], currentTime - lastTime) else w.procs[j]
        {
          if procs[i].pid != 0 && procs[i].status == Running {
            procs[i] := procs[i].(runTime := procs[i].runTime + (currentTime - lastTime));
          }
        }
        assert procs[..] == Schedule(w).procs;
        lastTime := currentTime;
      }
    }

    // timer_handler, as the interrupt that arrives between the calls.
    method Tick()
      requires Survives()
      modifies timer
      ensures Survives() && State() == ProcMachine.Tick(old(State()))
      ensures old(Valid()) ==> Valid()
    {
      hide WorldInv, ClockInv, Inv, Surviving, Shape, FreeSet, VmaList.Valid, VmaList.Regions;
      ClockSize(State());
      EventKeepsClock(State(), Ticks);
      if Valid() {
        TickKeepsInv(vm.base, State());
      }
      timer.Handler();
    }
  }

  lemma ClockSize(w: World)
    requires ClockInv(w)
    ensures |w.procs| == |w.born| == MAX_PROCS
  {
    hide DistinctPids, TimeOk;
  }

  lemma ReapUnfold(w: World, i: nat)
    requires i <= |w.procs|
    ensures Reap(w, i) == if i == |w.procs| then w else Reap(ReapSlot(w, i), i + 1)
  {
  }

  lemma StackTopInSteps(mem: nat, size: nat)
    ensures ((mem + size) % U64 + U64 - 8) % U64 == StackTop(mem, size)
  {
  }

  lemma LeastPidOf(procs: seq<Pcb>)
    requires |procs| == MAX_PROCS && 0 in Pids(procs)
    ensures forall pid :: IsLeastPid(procs, pid) ==> pid == LeastPid(procs)
  {
    forall pid | IsLeastPid(procs, pid)
      ensures pid == LeastPid(procs)
    {
      LeastPidIsUnique(procs, pid, LeastPid(procs));
    }
  }

  lemma FirstAt(procs: seq<Pcb>, pid: nat, k: nat)
    requires k <= |procs| && forall j | 0 <= j < k :: procs[j].pid != pid
    requires k < |procs| ==> procs[k].pid == pid
    ensures IndexOf(procs, pid, 0) == k
  {
  }

  lemma WorldHasInv(base: set<nat>, w: World)
    requires WorldInv(base, w)
    ensures Inv(base, w.vm)
  {
    hide Inv;
  }

  lemma FreshWorld(base: set<nat>, w: World)
    requires |w.procs| == |w.born| == MAX_PROCS && Inv(base, w.vm)
    requires w.uptime == w.ticks / TICKS_PER_SECOND && w.lastTime == w.uptime
    requires forall p | p in w.procs :: p.pid == 0
    ensures WorldInv(base, w)
  {
    hide Inv;
    assert forall i | 0 <= i < MAX_PROCS :: w.procs[i] in w.procs;
  }
}
