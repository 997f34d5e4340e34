/** The virtual allocator (mem/vmm.c) as a value: the address space, the list of regions, the address
    cursor and the number of list nodes used. */
module VmMachine {
  import opened Wrappers
  import opened Pmm
  import opened PageTree
  import opened Ownership
  import opened Soundness

  const START: nat := 0x1000_0000
  const VMA_NODES: nat := 128

  datatype Region = Region(vaddr: nat, size: nat)

  datatype VmState = VmState(space: Space, regions: seq<Region>, cursor: nat, count: nat)

  // The rounding of vmm_alloc, in 64-bit arithmetic.
  function PagesIn(size: nat): nat {
    (size + 4095) % U64 / PAGE_SIZE
  }

  // The fewest whole pages that hold the size, or none if the rounding wraps.
  lemma PagesInIs(size: nat)
    requires size < 0x1_0000_0000_0000_0000
    ensures size + 4095 < 0x1_0000_0000_0000_0000 ==> size <= PagesIn(size) * 4096 < size + 4096
    ensures size + 4095 >= 0x1_0000_0000_0000_0000 ==> PagesIn(size) == 0
  {
  }

  function Page(vaddr: nat): nat {
    vaddr / PAGE_SIZE
  }

  ghost function PagesOf(r: Region): set<nat> {
    Range(Page(r.vaddr), Page(r.size))
  }

  ghost function Live(rs: seq<Region>): set<nat> {
    if rs == [] then {} else PagesOf(rs[0]) + Live(rs[1..])
  }

  function Find(rs: seq<Region>, ptr: nat): Option<Region> {
    if rs == [] then None else if rs[0].vaddr == ptr then Some(rs[0]) else Find(rs[1..], ptr)
  }

  function Remove(rs: seq<Region>, ptr: nat): seq<Region> {
    if rs == [] then [] else if rs[0].vaddr == ptr then rs[1..] else [rs[0]] + Remove(rs[1..], ptr)
  }

  // vmm_alloc: the new state and the pointer returned, 0 for NULL.
  ghost function Alloc(v: VmState, size: nat): (VmState, nat) {
    var n := PagesIn(size);
    var (s, ok) := AllocPages(v.space, Page(v.cursor), n);
    if !ok then (v.(space := s), 0)
    else if v.count < VMA_NODES
    then (VmState(s, [Region(v.cursor, n * PAGE_SIZE)] + v.regions, v.cursor + n * PAGE_SIZE, v.count + 1), v.cursor)
    else (VmState(s, v.regions, v.cursor + n * PAGE_SIZE, v.count), v.cursor)
  }

  // vmm_free: the first region of the list at that address goes, with its pages and their frames.
  ghost function Free(v: VmState, ptr: nat): VmState {
    match Find(v.regions, ptr)
    case None => v
    case Some(r) => v.(space := FreePages(v.space, Page(r.vaddr), Page(r.size)), regions := Remove(v.regions, ptr))
  }

  // ---- The invariant ----

  // Aligned regions in strictly descending order below top, newest first; only empty ones may share an address.
  ghost predicate Stacked(rs: seq<Region>, top: nat) {
    rs != [] ==>
      && rs[0].vaddr % PAGE_SIZE == 0 && rs[0].size % PAGE_SIZE == 0
      && START <= rs[0].vaddr && rs[0].vaddr + rs[0].size <= top
      && Stacked(rs[1..], rs[0].vaddr)
  }

  // Mapped pages that no region on the list covers; vmm_free can never reach them.
  ghost function Orphans(v: VmState): set<nat> {
    Pages(v.space).Keys - Live(v.regions)
  }

  ghost predicate Listed(v: VmState) {
    && Stacked(v.regions, v.cursor) && v.cursor % PAGE_SIZE == 0 && START <= v.cursor
    && |v.regions| <= v.count <= VMA_NODES
  }

  // The listed regions are mapped throughout, and nothing is mapped outside [START, cursor).
  ghost predicate Covered(v: VmState) {
    && Live(v.regions) <= Pages(v.space).Keys
    && (forall p | p in Pages(v.space) :: Page(START) <= p < Page(v.cursor))
  }

  // Every page the cursor has passed was either given to one of the listed allocations or is an orphan.
  ghost predicate CursorBounded(v: VmState) {
    Page(v.cursor) <= Page(START) + v.count * FRAMES + |Orphans(v)|
  }

  ghost predicate Inv(base: set<nat>, v: VmState) {
    Owns(base, v.space) && Listed(v) && Covered(v) && CursorBounded(v)
  }

  // Every page and every table that is missing gets a frame.
  ghost predicate Fits(v: VmState, size: nat) {
    0 <= Left(v.space, Page(v.cursor), PagesIn(size))
  }

  // vmm_alloc gets all the frames it needs, or there is none to begin with.
  ghost predicate AllOrNothing(v: VmState, size: nat) {
    Fits(v, size) || v.space.free == {}
  }

  lemma LeftBound(s: Space, p: nat, n: nat)
    ensures Left(s, p, n) <= |s.free| - n
  {
  }

  // An address space that maps nothing owns what is free.
  lemma FreshInv(s: Space)
    requires Shape(s) && Tidy(s) && Pages(s) == map[] && Tables(s) == {}
    ensures Inv(s.free, VmState(s, [], START, 0))
  {
    hide Pages, Tables, Tidy;
    assert s.root !in s.free;
  }

  // ---- Lists of regions ----

  lemma LiveBelow(rs: seq<Region>, top: nat)
    requires Stacked(rs, top)
    ensures forall p | p in Live(rs) :: Page(START) <= p < Page(top)
  {
    if rs != [] {
      InRange(Page(rs[0].vaddr), Page(rs[0].size));
      LiveBelow(rs[1..], rs[0].vaddr);
    }
  }

  lemma HeadStandsAlone(rs: seq<Region>, top: nat)
    requires rs != [] && Stacked(rs, top)
    ensures PagesOf(rs[0]) !! Live(rs[1..])
  {
    InRange(Page(rs[0].vaddr), Page(rs[0].size));
    LiveBelow(rs[1..], rs[0].vaddr);
  }

  // Taking the first region at an address off the list takes exactly its pages out.
  lemma {:induction false} RemoveTakesPages(rs: seq<Region>, top: nat, ptr: nat)
    requires Stacked(rs, top) && Find(rs, ptr).Some?
    ensures var r := Find(rs, ptr).value;
            PagesOf(r) <= Live(rs) && Live(Remove(rs, ptr)) == Live(rs) - PagesOf(r)
  {
    hide PagesOf;
    var first, rest := rs[0], rs[1..];
    HeadStandsAlone(rs, top);
    if first.vaddr != ptr {
      RemoveTakesPages(rest, first.vaddr, ptr);
      assert ([first] + Remove(rest, ptr))[1..] == Remove(rest, ptr);
    }
  }

  // What is left at that address after the first region is gone is empty.
  lemma {:induction false} RemoveKeepsStacked(rs: seq<Region>, top: nat, ptr: nat)
    requires Stacked(rs, top) && Find(rs, ptr).Some?
    ensures var rest := Remove(rs, ptr);
            && Stacked(rest, top) && |rest| == |rs| - 1
            && (Find(rest, ptr).Some? ==> Find(rest, ptr).value.size == 0)
  {
    var first, rest := rs[0], rs[1..];
    if first.vaddr == ptr {
      if Find(rest, ptr).Some? {
        FoundBelow(rest, first.vaddr, ptr);
      }
    } else {
      RemoveKeepsStacked(rest, first.vaddr, ptr);
      assert ([first] + Remove(rest, ptr))[1..] == Remove(rest, ptr);
    }
  }

  lemma FoundBelow(rs: seq<Region>, top: nat, ptr: nat)
    requires Stacked(rs, top) && Find(rs, ptr).Some?
    ensures var r := Find(rs, ptr).value;
            r.vaddr == ptr && r.vaddr + r.size <= top && r.vaddr % PAGE_SIZE == 0 && r.size % PAGE_SIZE == 0
                && Page(r.vaddr) + Page(r.size) <= Page(top)
  {
    if rs[0].vaddr != ptr {
      FoundBelow(rs[1..], rs[0].vaddr, ptr);
    }
  }

  // ---- The address space never runs out ----

  lemma FramesBound(base: set<nat>, s: Space)
    requires Owns(base, s)
    ensures |s.free| <= FRAMES && |Pages(s)| <= FRAMES
  {
    hide Pages, Shape, Tidy, Tables;
    IntervalSize(0, FRAMES, base);
    SubsetSize(s.free, base);
    SubsetSize(Data(s), base);
    ImageSize(Pages(s));
  }

  // However long the kernel runs, the next allocation starts at least 2^32 bytes below the end of the
  // 48-bit address space: at most 128 allocations are ever listed, and the pages of the others stay mapped.
  lemma CursorNeverWraps(base: set<nat>, v: VmState)
    requires Inv(base, v)
    ensures Page(v.cursor) + FRAMES <= PAGES
  {
    hide Owns, Pages, Listed, Covered, Live;
    FramesBound(base, v.space);
    SubsetSize(Orphans(v), Pages(v.space).Keys);
    assert v.count <= VMA_NODES by { assert Listed(v); OfListed(v); }
  }

  lemma OfListed(v: VmState)
    requires Listed(v)
    ensures v.count <= VMA_NODES && v.cursor % PAGE_SIZE == 0 && START <= v.cursor
    ensures Stacked(v.regions, v.cursor) && |v.regions| <= v.count
  {
  }

  lemma PagesRounded(cursor: nat, n: nat)
    requires cursor % PAGE_SIZE == 0
    ensures (cursor + n * PAGE_SIZE) % PAGE_SIZE == 0 && Page(cursor + n * PAGE_SIZE) == Page(cursor) + n
    ensures (n * PAGE_SIZE) % PAGE_SIZE == 0 && Page(n * PAGE_SIZE) == n
  {
  }

  // ---- vmm_alloc ----

  lemma AllocFits(base: set<nat>, v: VmState, size: nat)
    requires Inv(base, v) && Fits(v, size)
    ensures var n := PagesIn(size);
            var (s, ok) := AllocPages(v.space, Page(v.cursor), n);
            ok && Mapped(base, v.space, s, Page(v.cursor), n) && |s.free| == Left(v.space, Page(v.cursor), n)
    ensures Range(Page(v.cursor), PagesIn(size)) !! Pages(v.space).Keys
    ensures PagesIn(size) <= FRAMES
  {
    hide Owns, Pages, Mapped, Left, PagesIn, CursorBounded, Listed, Range;
    CursorNeverWraps(base, v);
    FramesBound(base, v.space);
    var n := PagesIn(size);
    assert n <= |v.space.free| by { LeftBound(v.space, Page(v.cursor), n); }
    InRange(Page(v.cursor), n);
    AllocPagesKeep(base, v.space, Page(v.cursor), n);
  }

  // What a successful vmm_alloc does: the pointer is the old cursor, the pages from there on are mapped and
  // no others change, and the frames used are one per page and one per missing table.
  lemma AllocKeepsInv(base: set<nat>, v: VmState, size: nat)
    requires Inv(base, v) && Fits(v, size)
    ensures var (v', ptr) := Alloc(v, size);
            var n := PagesIn(size);
            && Inv(base, v')
            && ptr == v.cursor && v'.cursor == v.cursor + n * PAGE_SIZE
            && Mapped(base, v.space, v'.space, Page(ptr), n)
            && |v'.space.free| == Left(v.space, Page(ptr), n)
            && v'.regions == (if v.count < VMA_NODES then [Region(ptr, n * PAGE_SIZE)] + v.regions else v.regions)
            && Orphans(v') == Orphans(v) + (if v.count < VMA_NODES then {} else Range(Page(ptr), n))
  {
    hide Owns, Pages, Left, PagesIn, AllocPages, Range, Grows, Listed, Covered, CursorBounded, Orphans;
    AllocFits(base, v, size);
    AllocMoves(base, v, Alloc(v, size).0, PagesIn(size));
  }

  // How vmm_alloc moves the cursor, the node count and the list over n pages.
  ghost predicate Moved(v: VmState, v': VmState, n: nat) {
    && v'.cursor == v.cursor + n * PAGE_SIZE
    && (if v.count < VMA_NODES
        then v'.count == v.count + 1 && v'.regions == [Region(v.cursor, n * PAGE_SIZE)] + v.regions
        else v'.count == v.count && v'.regions == v.regions)
  }

  lemma MovedListed(v: VmState, v': VmState, n: nat)
    requires Listed(v) && Moved(v, v', n)
    ensures Listed(v') && Page(v'.cursor) == Page(v.cursor) + n
    ensures Live(v'.regions) ==
            if v.count < VMA_NODES then Range(Page(v.cursor), n) + Live(v.regions) else Live(v.regions)
  {
    hide Range;
    PagesRounded(v.cursor, n);
    if v.count < VMA_NODES {
      assert v'.regions[1..] == v.regions;
    } else {
      StackedHigher(v.regions, v.cursor, v'.cursor);
    }
  }

  lemma MovedOrphans(v: VmState, v': VmState, n: nat, r: set<nat>)
    requires Live(v.regions) <= Pages(v.space).Keys && r !! Pages(v.space).Keys
    requires Pages(v'.space).Keys == Pages(v.space).Keys + r && |r| == n
    requires Live(v'.regions) == if v.count < VMA_NODES then r + Live(v.regions) else Live(v.regions)
    ensures Live(v'.regions) <= Pages(v'.space).Keys
    ensures Orphans(v') == Orphans(v) + (if v.count < VMA_NODES then {} else r)
    ensures |Orphans(v')| == |Orphans(v)| + (if v.count < VMA_NODES then 0 else n)
  {
    hide Pages, Live;
    SameGap(Pages(v.space).Keys, Live(v.regions), r);
    WiderGap(Pages(v.space).Keys, Live(v.regions), r);
  }

  lemma MovedCovered(base: set<nat>, v: VmState, v': VmState, n: nat)
    requires Listed(v) && Covered(v) && Moved(v, v', n) && Mapped(base, v.space, v'.space, Page(v.cursor), n)
    requires Range(Page(v.cursor), n) !! Pages(v.space).Keys
    ensures Covered(v')
    ensures Orphans(v') == Orphans(v) + (if v.count < VMA_NODES then {} else Range(Page(v.cursor), n))
    ensures |Orphans(v')| == |Orphans(v)| + (if v.count < VMA_NODES then 0 else n)
  {
    MovedListed(v, v', n);
    assert Page(START) <= Page(v.cursor);
    InRange(Page(v.cursor), n);
    hide Owns, Pages, Grows, Range, Listed, Live, Page, Moved, Orphans;
    var r, k := Range(Page(v.cursor), n), Pages(v.space).Keys;
    BothWithin(k, r, Page(START), Page(v.cursor), Page(v'.cursor));
    MovedOrphans(v, v', n, r);
  }

  lemma BothWithin(k: set<nat>, r: set<nat>, lo: nat, mid: nat, hi: nat)
    requires lo <= mid <= hi
    requires forall p | p in k :: lo <= p < mid
    requires forall p | p in r :: mid <= p < hi
    ensures forall p | p in k + r :: lo <= p < hi
  {
  }

  lemma AllocMoves(base: set<nat>, v: VmState, v': VmState, n: nat)
    requires Inv(base, v) && Moved(v, v', n) && Mapped(base, v.space, v'.space, Page(v.cursor), n)
    requires Range(Page(v.cursor), n) !! Pages(v.space).Keys && n <= FRAMES
    ensures Inv(base, v')
    ensures Orphans(v') == Orphans(v) + (if v.count < VMA_NODES then {} else Range(Page(v.cursor), n))
  {
    hide Owns, Pages, Grows, Range, Listed, Covered, Orphans;
    MovedListed(v, v', n);
    MovedCovered(base, v, v', n);
  }

  lemma SameGap(k: set<nat>, l: set<nat>, r: set<nat>)
    requires l <= k && r !! k
    ensures k + r - (r + l) == k - l && r + l <= k + r
  {
  }

  lemma WiderGap(k: set<nat>, l: set<nat>, r: set<nat>)
    requires l <= k && r !! k
    ensures k + r - l == k - l + r && |k - l + r| == |k - l| + |r|
  {
  }

  lemma StackedHigher(rs: seq<Region>, top: nat, top': nat)
    requires Stacked(rs, top) && top <= top'
    ensures Stacked(rs, top')
  {
  }

  // With no frame left and pages asked for, NULL comes back and nothing changes.
  lemma NothingAllocated(v: VmState, size: nat)
    requires v.space.free == {} && !Fits(v, size)
    ensures Alloc(v, size) == (v, 0)
  {
    hide Left, PagesIn, Page;
    if PagesIn(size) == 0 {
      NothingLacking(v.space, Page(v.cursor));
    }
    AllocPagesUnfold(v.space, Page(v.cursor), PagesIn(size));
  }

  // When the frames run out, with no table missing for the pages they suffice for, NULL comes back but the pages
  // reached stay mapped: the invariant survives exactly when no frame was left to begin with.
  lemma AllocRunsOut(base: set<nat>, v: VmState, size: nat)
    requires Inv(base, v) && |v.space.free| < PagesIn(size) && 0 <= Left(v.space, Page(v.cursor), |v.space.free|)
    ensures var (v', ptr) := Alloc(v, size);
            && ptr == 0 && v'.space.free == {} && v' == v.(space := v'.space)
            && Mapped(base, v.space, v'.space, Page(v.cursor), |v.space.free|)
            && (Inv(base, v') <==> v.space.free == {})
  {
    hide Owns, Pages, Left, PagesIn, AllocPages, Range, Grows, Listed, CursorBounded, Orphans;
    var c, k := Page(v.cursor), |v.space.free|;
    CursorNeverWraps(base, v);
    FramesBound(base, v.space);
    InRange(c, k);
    AllocPagesRunOut(base, v.space, c, PagesIn(size));
    var v' := Alloc(v, size).0;
    if k == 0 {
      AllocPagesUnfold(v.space, c, PagesIn(size));
    } else {
      assert c in Range(c, k);
      assert c in Pages(v'.space);
    }
  }

  // Whether or not the frames suffice, as long as the code does not go on through a null pointer: the invariant
  // survives exactly when all frames needed were there or none at all, and all bytes asked for are mapped behind a
  // pointer that comes back exactly when all were there and the rounding of the size did not wrap.
  lemma AllocKeepsInvIff(base: set<nat>, v: VmState, size: nat)
    requires Inv(base, v) && Obtainable(v.space, Page(v.cursor), PagesIn(size))
    ensures var (v', ptr) := Alloc(v, size);
            && (Inv(base, v') <==> AllOrNothing(v, size))
            && (ptr != 0 ==> (Range(Page(ptr), PagesIn(size)) <= Pages(v'.space).Keys <==> Fits(v, size)))
            && (ptr != 0 && size < U64 ==> (Backed(v'.space, ptr, size) <==> Fits(v, size) && size + 4095 < U64))
            && (!Fits(v, size) ==> v'.space.free == {})
  {
    hide Owns, Pages, PagesIn, AllocPages, Range, Grows, Listed, Covered, CursorBounded, Orphans, Fits, Obtainable;
    hide Page, Backed;
    if Fits(v, size) {
      AllocKeepsInv(base, v, size);
      InMapped(base, v.space, Alloc(v, size).0.space, Page(v.cursor), PagesIn(size));
      FitsBacked(base, v, size);
    } else if v.space.free == {} {
      NothingAllocated(v, size);
    } else {
      AllocFallsShort(base, v, size);
    }
  }

  lemma AllOrNothingIsObtainable(base: set<nat>, v: VmState, size: nat)
    requires Inv(base, v) && AllOrNothing(v, size)
    ensures Obtainable(v.space, Page(v.cursor), PagesIn(size))
  {
    hide Inv, Pages, PagesIn, Range, Page, Left, AllocPages, Mapped;
    if v.space.free != {} {
      AllocFits(base, v, size);
      RoomAbove(base, v);
      FitsBound(base, v, size);
      LeftIsObtainable(base, v.space, Page(v.cursor), PagesIn(size));
    }
  }

  lemma FitsBound(base: set<nat>, v: VmState, size: nat)
    requires Inv(base, v) && Fits(v, size)
    ensures Page(v.cursor) + PagesIn(size) <= PAGES
  {
    hide Inv, Pages, PagesIn, Page, Left;
    RoomAbove(base, v);
    LeftBound(v.space, Page(v.cursor), PagesIn(size));
  }

  lemma InMapped(base: set<nat>, s: Space, s': Space, p: nat, n: nat)
    requires Mapped(base, s, s', p, n)
    ensures Range(p, n) <= Pages(s').Keys
  {
    hide Owns, Grows, Range, Pages;
  }

  lemma AllocFallsShort(base: set<nat>, v: VmState, size: nat)
    requires Inv(base, v) && Obtainable(v.space, Page(v.cursor), PagesIn(size)) && !AllOrNothing(v, size)
    ensures var (v', ptr) := Alloc(v, size);
            && !Inv(base, v') && v'.space.free == {}
            && (ptr != 0 ==> !(Range(Page(ptr), PagesIn(size)) <= Pages(v'.space).Keys))
            && (ptr != 0 && size < U64 ==> !Backed(v'.space, ptr, size))
            && (ptr != 0 ==> !Partition(base, v'.space))
  {
    hide Pages, PagesIn, AllocPages, Range, Listed, CursorBounded, Obtainable, Page, Left, Shape, Tidy, Partition;
    hide Backed;
    var p, n := Page(v.cursor), PagesIn(size);
    RoomAbove(base, v);
    AllocPagesFallShort(base, v.space, p, n);
    LastInRange(p, n);
    if Alloc(v, size).1 != 0 && size < U64 {
      BackedIff(Alloc(v, size).0.space, v.cursor, size);
    }
  }

  // All of the size bytes from ptr on are mapped.
  ghost predicate Backed(s: Space, ptr: nat, size: nat) {
    forall a: nat {:trigger PageOf(a)} | ptr <= a < ptr + size :: PageOf(a) in Pages(s)
  }

  lemma BackedIff(s: Space, ptr: nat, size: nat)
    requires ptr % PAGE_SIZE == 0 && size < U64 && Page(ptr) + PagesIn(size) <= PAGES
    ensures size + 4095 < U64 ==> (Backed(s, ptr, size) <==> Range(Page(ptr), PagesIn(size)) <= Pages(s).Keys)
    ensures size + 4095 >= U64 && Page(ptr) < PAGES && Page(ptr) !in Pages(s) ==> !Backed(s, ptr, size)
    ensures size + 4095 >= U64 ==> PagesIn(size) == 0
  {
    hide Pages, Range;
    InRange(Page(ptr), PagesIn(size));
    if size + 4095 < U64 {
      if Backed(s, ptr, size) {
        forall q | q in Range(Page(ptr), PagesIn(size))
          ensures q in Pages(s)
        {
          FirstByteOf(ptr, size, q);
        }
      }
      if Range(Page(ptr), PagesIn(size)) <= Pages(s).Keys {
        forall a: nat | ptr <= a < ptr + size
          ensures PageOf(a) in Pages(s)
        {
          PageOfByte(ptr, size, a);
        }
      }
    } else if Page(ptr) < PAGES {
      assert PageOf(ptr) == Page(ptr);
    }
  }

  lemma FirstByteOf(ptr: nat, size: nat, q: nat)
    requires ptr % PAGE_SIZE == 0 && size + 4095 < U64 && Page(ptr) <= q < Page(ptr) + PagesIn(size) <= PAGES
    ensures ptr <= q * PAGE_SIZE < ptr + size && PageOf(q * PAGE_SIZE) == q
  {
  }

  lemma PageOfByte(ptr: nat, size: nat, a: nat)
    requires ptr % PAGE_SIZE == 0 && size + 4095 < U64 && Page(ptr) + PagesIn(size) <= PAGES && ptr <= a < ptr + size
    ensures Page(ptr) <= PageOf(a) < Page(ptr) + PagesIn(size)
  {
  }

  lemma FitsBacked(base: set<nat>, v: VmState, size: nat)
    requires Inv(base, v) && Fits(v, size)
    requires Range(Page(v.cursor), PagesIn(size)) <= Pages(Alloc(v, size).0.space).Keys
    ensures size < U64 ==> (Backed(Alloc(v, size).0.space, v.cursor, size) <==> size + 4095 < U64)
  {
    hide Inv, Pages, PagesIn, Alloc, Range, Fits, Page, Backed;
    FitsBound(base, v, size);
    RoomAbove(base, v);
    if PagesIn(size) == 0 {
      NextPageFree(base, v, size);
    }
    if size < U64 {
      BackedIff(Alloc(v, size).0.space, v.cursor, size);
    }
  }

  // An allocation of no pages leaves the next page unmapped.
  lemma NextPageFree(base: set<nat>, v: VmState, size: nat)
    requires Inv(base, v) && PagesIn(size) == 0
    ensures Page(v.cursor) !in Pages(Alloc(v, size).0.space) && Page(v.cursor) < PAGES
  {
    hide Pages, PagesIn, AllocPages, Owns, Listed, Covered, CursorBounded, Page;
    RoomAbove(base, v);
    CursorNeverWraps(base, v);
    AllocPagesUnfold(v.space, Page(v.cursor), 0);
  }

  lemma LastInRange(p: nat, n: nat)
    ensures n > 0 ==> p + n - 1 in Range(p, n)
  {
    InRange(p, n);
  }

  // A pointer can come back for a page that is not mapped: with one frame left and only the last table of the
  // page missing, that frame is lost.
  lemma LastFrameLost(base: set<nat>, v: VmState, size: nat)
    requires Inv(base, v) && v.count < VMA_NODES && PagesIn(size) == 1 && |v.space.free| == 1
    requires UpperTables(Page(v.cursor)) <= v.space.at.Keys && PtOf(Page(v.cursor)) !in v.space.at
    ensures var (v', ptr) := Alloc(v, size);
            && ptr == v.cursor && v'.regions == [Region(ptr, PAGE_SIZE)] + v.regions
            && Page(ptr) !in Pages(v'.space) && v'.space.free == {} && !Inv(base, v')
  {
    hide Pages, PagesIn, AllocPages, AllocOne, Range, Listed, CursorBounded, Page, Left, Shape, Tidy, Partition,
        Missing, MissingUpper;
    var s, p := v.space, Page(v.cursor);
    RoomAbove(base, v);
    OnlyLastTableMissing(s, p);
    FrameLost(base, s, p);
    AllocPagesUnfold(s, p, 1);
    AllocPagesUnfold(AllocOne(s, p), p + 1, 0);
  }

  lemma OnlyLastTableMissing(s: Space, p: nat)
    requires UpperTables(p) <= s.at.Keys && PtOf(p) !in s.at
    ensures MissingUpper(s, p) == 0 && Missing(s, p) == 1
  {
    hide UpperTables, PathTables;
    PathIsUpperAndLast(p);
    assert UpperTables(p) - s.at.Keys == {};
    assert PathTables(p) - s.at.Keys == {PtOf(p)};
  }

  // vmm_alloc finds its pages unmapped and inside the address space.
  lemma RoomAbove(base: set<nat>, v: VmState)
    requires Inv(base, v)
    ensures Owns(base, v.space) && v.cursor % PAGE_SIZE == 0 && START <= v.cursor
    ensures Page(v.cursor) + |v.space.free| <= PAGES && Below(Pages(v.space).Keys, Page(v.cursor))
    ensures Page(v.cursor) !in Pages(v.space)
  {
    hide Owns, Pages, CursorBounded, Stacked;
    CursorNeverWraps(base, v);
    FramesBound(base, v.space);
  }

  // ---- vmm_free ----

  // vmm_free unmaps exactly the pages of the first region at the pointer and gives back their frames and
  // the tables they alone needed; a pointer that is not on the list changes nothing.
  lemma FreeKeepsInv(base: set<nat>, v: VmState, ptr: nat)
    requires Inv(base, v)
    ensures var v' := Free(v, ptr);
            && Inv(base, v') && Grows(v'.space, v.space)
            && Pages(v'.space) ==
                 Pages(v.space) - (if Find(v.regions, ptr).Some? then PagesOf(Find(v.regions, ptr).value) else {})
            && Orphans(v') == Orphans(v) && v'.cursor == v.cursor && v'.count == v.count
  {
    hide Inv, Pages, Orphans, Grows, FreePages;
    if Find(v.regions, ptr).Some? {
      FreeRegion(base, v, ptr, Find(v.regions, ptr).value);
    } else {
      GrowsItself(v.space);
      NothingRemoved(Pages(v.space), {});
    }
  }

  lemma FreeRegion(base: set<nat>, v: VmState, ptr: nat, r: Region)
    requires Inv(base, v) && Find(v.regions, ptr) == Some(r)
    ensures var v' := Free(v, ptr);
            && Inv(base, v') && Grows(v'.space, v.space)
            && Pages(v'.space) == Pages(v.space) - PagesOf(r)
            && Orphans(v') == Orphans(v)
  {
    hide Owns, Pages, Live, Stacked, Range, FreePages, Grows, Page, PagesOf;
    RemoveTakesPages(v.regions, v.cursor, ptr);
    RemoveKeepsStacked(v.regions, v.cursor, ptr);
    FoundBelow(v.regions, v.cursor, ptr);
    CursorNeverWraps(base, v);
    LiveLeaves(Pages(v.space), Live(v.regions), PagesOf(r));
    FreeRegionPages(base, v.space, r);
  }

  lemma FreeRegionPages(base: set<nat>, s: Space, r: Region)
    requires Owns(base, s) && Page(r.vaddr) + Page(r.size) <= PAGES && PagesOf(r) <= Pages(s).Keys
    ensures var s' := FreePages(s, Page(r.vaddr), Page(r.size));
            Owns(base, s') && Grows(s', s) && Pages(s') == Pages(s) - PagesOf(r)
  {
    hide Owns, Pages, FreePages, Grows;
    FreePagesKeep(base, s, Page(r.vaddr), Page(r.size));
  }

  lemma LiveLeaves(m: map<nat, nat>, l: set<nat>, r: set<nat>)
    requires r <= l <= m.Keys
    ensures (m - r).Keys - (l - r) == m.Keys - l
    ensures l - r <= (m - r).Keys
  {
  }

  // ---- Round trips ----

  ghost predicate Restored(v: VmState, v': VmState) {
    v'.space.free == v.space.free && v'.space.at == v.space.at && Pages(v'.space) == Pages(v.space)
        && v'.regions == v.regions
  }

  // vmm_alloc followed by vmm_free of the pointer, for every call that meets no null pointer: it restores the free set,
  // every table's place and frame, the page map and the list exactly when there are all the frames needed and a list
  // node is left, or no page is asked for and none is listed at that address; or when no frame is free at all.
  lemma AllocThenFree(base: set<nat>, v: VmState, size: nat)
    requires Inv(base, v) && Obtainable(v.space, Page(v.cursor), PagesIn(size))
    ensures var (v1, ptr) := Alloc(v, size);
            Restored(v, Free(v1, ptr)) <==>
              if Fits(v, size) then v.count < VMA_NODES || (PagesIn(size) == 0 && Find(v.regions, v.cursor) == None)
              else v.space.free == {}
  {
    hide Inv, Fits, Restored, PagesIn, Pages, Alloc, Free, Find, Obtainable;
    if Fits(v, size) {
      FittingThenFree(base, v, size);
    } else if v.space.free == {} {
      NothingAllocated(v, size);
      NullNotListed(base, v);
      FreeUnlisted(v, 0);
    } else {
      ShortIsNotRestored(base, v, size);
    }
  }

  lemma FreeUnlisted(v: VmState, ptr: nat)
    requires Find(v.regions, ptr) == None
    ensures Free(v, ptr) == v && Restored(v, v)
  {
    hide Pages, Find;
  }

  lemma NullNotListed(base: set<nat>, v: VmState)
    requires Inv(base, v)
    ensures Find(v.regions, 0) == None
  {
    hide Owns, Covered, CursorBounded;
    if Find(v.regions, 0).Some? {
      FoundAbove(v.regions, v.cursor, 0);
    }
  }

  lemma FoundAbove(rs: seq<Region>, top: nat, ptr: nat)
    requires Stacked(rs, top) && Find(rs, ptr).Some?
    ensures START <= ptr
  {
    if rs[0].vaddr != ptr {
      FoundAbove(rs[1..], rs[0].vaddr, ptr);
    }
  }

  // A call short of frames leaves fewer frames accounted for, or fails with pages mapped; no vmm_free undoes either.
  lemma ShortIsNotRestored(base: set<nat>, v: VmState, size: nat)
    requires Inv(base, v) && Obtainable(v.space, Page(v.cursor), PagesIn(size)) && !AllOrNothing(v, size)
    ensures var (v1, ptr) := Alloc(v, size);
            !Restored(v, Free(v1, ptr))
  {
    hide Owns, Partition, Pages, PagesIn, Obtainable, AllocPages, Listed, Covered, CursorBounded, Fits, Page;
    hide Restored, Sound, Accounted, Find, Range, FreePages, Backed, Shape, Tidy;
    var (v1, ptr) := Alloc(v, size);
    AllocFallsShort(base, v, size);
    RoomAbove(base, v);
    if ptr == 0 {
      NullNotListed(base, v);
      FreeUnlisted(v1, 0);
      NotRestoredWithoutFrames(v, v1);
    } else {
      OwnedIsSound(base, v.space);
      AllocPagesSound(v.space, Page(v.cursor), PagesIn(size));
      FreeSound(v1, ptr);
      SoundPartition(base, v1.space);
      RestoredAccounts(v, Free(v1, ptr));
    }
  }

  lemma NotRestoredWithoutFrames(v: VmState, v': VmState)
    requires v.space.free != {} && v'.space.free == {}
    ensures !Restored(v, v')
  {
    hide Pages;
  }

  lemma SoundPartition(base: set<nat>, s: Space)
    requires Sound(s) && !Partition(base, s)
    ensures Accounted(s) != base
  {
    hide Shape, Partition, Accounted;
  }

  lemma RestoredAccounts(v: VmState, v': VmState)
    ensures Restored(v, v') ==> Accounted(v'.space) == Accounted(v.space)
  {
    hide Pages;
  }

  // vmm_free keeps each frame owned once and the same frames accounted for, whatever happened before.
  lemma FreeSound(v: VmState, ptr: nat)
    requires Sound(v.space)
    ensures var s' := Free(v, ptr).space;
            Sound(s') && Accounted(s') == Accounted(v.space) && s'.root == v.space.root
  {
    hide Sound, Accounted, FreePages, Find, Page;
    if Find(v.regions, ptr).Some? {
      var r := Find(v.regions, ptr).value;
      FreePagesSound(v.space, Page(r.vaddr), Page(r.size));
    }
  }

  lemma FittingThenFree(base: set<nat>, v: VmState, size: nat)
    requires Inv(base, v) && Fits(v, size)
    ensures var (v1, ptr) := Alloc(v, size);
            Restored(v, Free(v1, ptr)) <==>
              v.count < VMA_NODES || (PagesIn(size) == 0 && Find(v.regions, v.cursor) == None)
  {
    hide Inv, Fits, Restored, PagesIn, Pages, Alloc, Free, Find;
    NodesBound(base, v);
    if v.count < VMA_NODES {
      ListedIsRestored(base, v, size);
    } else if PagesIn(size) == 0 {
      NothingAskedFor(base, v, size);
    } else {
      UnlistedIsNotRestored(base, v, size);
    }
  }

  lemma NodesBound(base: set<nat>, v: VmState)
    requires Inv(base, v)
    ensures v.count <= VMA_NODES
  {
    hide Owns, Covered, CursorBounded, Stacked;
  }

  lemma ListedIsRestored(base: set<nat>, v: VmState, size: nat)
    requires Inv(base, v) && Fits(v, size) && v.count < VMA_NODES
    ensures var (v1, ptr) := Alloc(v, size);
            Restored(v, Free(v1, ptr))
  {
    hide Owns, Pages, Left, PagesIn, AllocPages, FreePages, Range, Grows, CursorBounded, Listed;
    var n := PagesIn(size);
    AllocFits(base, v, size);
    CursorNeverWraps(base, v);
    FramesBound(base, v.space);
    PagesOfNumber(n);
    AllocThenFreeRestores(base, v.space, Page(v.cursor), n);
  }

  lemma NothingAskedFor(base: set<nat>, v: VmState, size: nat)
    requires Inv(base, v) && PagesIn(size) == 0 && v.count == VMA_NODES
    ensures Alloc(v, size) == (v, v.cursor)
    ensures Restored(v, Free(v, v.cursor)) <==> Find(v.regions, v.cursor) == None
  {
    hide Owns, Pages, Left, PagesIn, Range, Grows, CursorBounded, Listed;
    AllocPagesUnfold(v.space, Page(v.cursor), 0);
    if Find(v.regions, v.cursor).Some? {
      ShorterList(v.regions, v.cursor);
    }
  }

  lemma UnlistedIsNotRestored(base: set<nat>, v: VmState, size: nat)
    requires Inv(base, v) && Fits(v, size) && v.count == VMA_NODES && PagesIn(size) > 0
    ensures var (v1, ptr) := Alloc(v, size);
            !Restored(v, Free(v1, ptr))
  {
    hide Inv, Fits, Pages, PagesIn, Alloc, Free, Range, Orphans;
    UnlistedNeverFreed(base, v, size);
    AllocKeepsInv(base, v, size);
    AllocFits(base, v, size);
    LastInRange(Page(v.cursor), PagesIn(size));
  }

  lemma PagesOfNumber(n: nat)
    ensures Page(n * PAGE_SIZE) == n
  {
  }

  // With all 128 list nodes used, an allocation can never be given back: its pages are orphans from then on.
  lemma UnlistedNeverFreed(base: set<nat>, v: VmState, size: nat)
    requires Inv(base, v) && Fits(v, size) && v.count == VMA_NODES
    ensures var (v1, ptr) := Alloc(v, size);
            Range(Page(ptr), PagesIn(size)) <= Orphans(v1)
            && (forall q :: Range(Page(ptr), PagesIn(size)) <= Orphans(Free(v1, q)) <= Pages(Free(v1, q).space).Keys)
  {
    hide Owns, Pages, PagesIn, Range, Listed, Live, Left, AllocPages, Grows;
    AllocKeepsInv(base, v, size);
    var v1 := Alloc(v, size).0;
    forall q: nat
      ensures Orphans(Free(v1, q)) == Orphans(v1) && Orphans(v1) <= Pages(Free(v1, q).space).Keys
    {
      FreeKeepsInv(base, v1, q);
    }
  }

  // So at least a frame is lost to it.
  lemma UnlistedKeepsFrames(base: set<nat>, v: VmState, size: nat)
    requires Inv(base, v) && Fits(v, size) && v.count == VMA_NODES && PagesIn(size) > 0
    ensures var (v1, ptr) := Alloc(v, size);
            |Free(v1, ptr).space.free| < |v.space.free|
  {
    hide Owns, Pages, PagesIn, Range, Covered, CursorBounded, Left, AllocPages, Grows, Stacked;
    AllocKeepsInv(base, v, size);
    LeftBound(v.space, Page(v.cursor), PagesIn(size));
    if Find(v.regions, v.cursor).Some? {
      FoundBelow(v.regions, v.cursor, v.cursor);
    }
  }

  predicate TwiceListed(rs: seq<Region>, ptr: nat) {
    exists i, j :: 0 <= i < j < |rs| && rs[i].vaddr == ptr && rs[j].vaddr == ptr
  }

  // Freeing a pointer twice never touches a page, a frame or a table the second time; and it changes nothing
  // at all exactly when the pointer was not listed twice.
  lemma SecondFree(v: VmState, ptr: nat)
    requires Listed(v)
    ensures var v1 := Free(v, ptr);
            Free(v1, ptr).space == v1.space && (Free(v1, ptr) == v1 <==> !TwiceListed(v.regions, ptr))
  {
    var v1 := Free(v, ptr);
    SecondIsListed(v.regions, ptr);
    if Find(v.regions, ptr).Some? {
      RemoveKeepsStacked(v.regions, v.cursor, ptr);
      if Find(v1.regions, ptr).Some? {
        ShorterList(v1.regions, ptr);
      }
    }
  }

  lemma {:induction false} SecondIsListed(rs: seq<Region>, ptr: nat)
    ensures Find(rs, ptr).Some? <==> exists i :: 0 <= i < |rs| && rs[i].vaddr == ptr
    ensures Find(Remove(rs, ptr), ptr).Some? <==> TwiceListed(rs, ptr)
  {
    if rs != [] {
      var rest := rs[1..];
      SecondIsListed(rest, ptr);
      assert forall i | 0 < i < |rs| :: rs[i] == rest[i - 1];
      assert forall i | 0 <= i < |rest| :: rest[i] == rs[i + 1];
      if rs[0].vaddr != ptr {
        assert ([rs[0]] + Remove(rest, ptr))[1..] == Remove(rest, ptr);
        assert TwiceListed(rest, ptr) ==> TwiceListed(rs, ptr);
      }
    }
  }

  lemma {:induction false} ShorterList(rs: seq<Region>, ptr: nat)
    requires Find(rs, ptr).Some?
    ensures |Remove(rs, ptr)| == |rs| - 1
  {
    if rs[0].vaddr != ptr {
      ShorterList(rs[1..], ptr);
    }
  }

  // A pointer can be listed twice: an allocation of no pages does not move the cursor, so the next one gets the same
  // address; and freeing the empty one takes the pages of the other.
  lemma EmptyAllocationSharesAddress(base: set<nat>, v: VmState, size: nat)
    requires Inv(base, v) && Fits(v, size) && v.count < VMA_NODES - 1
    ensures var (v1, ptr) := Alloc(v, 0);
            var (v2, ptr2) := Alloc(v1, size);
            ptr2 == ptr && TwiceListed(v2.regions, ptr) && Restored(v1, Free(v2, ptr))
  {
    hide Inv, Pages, Left, AllocPages, Fits, Mapped, Range, PagesIn, Free, Restored;
    AllocFits(base, v, size);
    AllocPagesUnfold(v.space, Page(v.cursor), 0);
    assert PagesIn(0) == 0 by { NoPagesForNothing(); }
    var v1, v2 := Alloc(v, 0).0, Alloc(Alloc(v, 0).0, size).0;
    assert v1 == VmState(v.space, [Region(v.cursor, 0)] + v.regions, v.cursor, v.count + 1);
    assert v2.regions[0].vaddr == v.cursor && v2.regions[1].vaddr == v.cursor;
    EmptyKeepsInv(base, v);
    FittingThenFree(base, v1, size) by { SameFits(v, v1, size); }
  }

  lemma EmptyKeepsInv(base: set<nat>, v: VmState)
    requires Inv(base, v)
    ensures Inv(base, Alloc(v, 0).0)
  {
    hide Inv, Left, Alloc, Mapped, PagesIn, Lacking, Pages, Orphans;
    NoPagesForNothing();
    NothingLacking(v.space, Page(v.cursor));
    AllocKeepsInv(base, v, 0);
  }

  lemma SameFits(v: VmState, v': VmState, size: nat)
    requires v'.space == v.space && v'.cursor == v.cursor
    ensures Fits(v', size) <==> Fits(v, size)
  {
    hide Left;
  }

  lemma NoPagesForNothing()
    ensures PagesIn(0) == 0
  {
  }

  // Regions that hold pages are never listed twice.
  lemma {:induction false} FullRegionsListedOnce(rs: seq<Region>, top: nat, ptr: nat)
    requires Stacked(rs, top) && forall r | r in rs :: r.size > 0
    ensures !TwiceListed(rs, ptr)
    ensures forall i, j | 0 <= i < j < |rs| :: rs[j].vaddr + rs[j].size <= rs[i].vaddr
  {
    if rs != [] {
      var rest := rs[1..];
      FullRegionsListedOnce(rest, rs[0].vaddr, ptr);
      forall j | 0 < j < |rs|
        ensures rs[j].vaddr + rs[j].size <= rs[0].vaddr
      {
        StackedBelow(rest, rs[0].vaddr, j - 1);
      }
      assert forall i, j | 0 < i < j < |rs| :: rs[i] == rest[i - 1] && rs[j] == rest[j - 1];
    }
  }

  lemma {:induction false} StackedBelow(rs: seq<Region>, top: nat, j: nat)
    requires Stacked(rs, top) && j < |rs|
    ensures rs[j].vaddr + rs[j].size <= top
  {
    if j > 0 {
      StackedBelow(rs[1..], rs[0].vaddr, j - 1);
    }
  }

  // ---- Whole runs ----

  datatype Call = VmmAlloc(size: nat) | VmmFree(ptr: nat)

  ghost function Step(v: VmState, c: Call): VmState {
    match c
    case VmmAlloc(size) => Alloc(v, size).0
    case VmmFree(ptr) => Free(v, ptr)
  }

  ghost function Run(v: VmState, calls: seq<Call>): VmState
    decreases |calls|
  {
    if calls == [] then v else Run(Step(v, calls[0]), calls[1..])
  }

  // Every allocation of the run finds all the frames it needs, or none at all and fails.
  ghost predicate Supplied(v: VmState, calls: seq<Call>)
    decreases |calls|
  {
    calls != [] ==> (calls[0].VmmAlloc? ==> AllOrNothing(v, calls[0].size)) && Supplied(Step(v, calls[0]), calls[1..])
  }

  // The regions the run hands out, in order; a failed allocation hands out none.
  ghost function Issued(v: VmState, calls: seq<Call>): seq<Region>
    decreases |calls|
  {
    if calls == [] then []
    else (if calls[0].VmmAlloc?
        && Alloc(v, calls[0].size).1 != 0 then [Region(Alloc(v, calls[0].size).1, PagesIn(calls[0].size) * PAGE_SIZE)]
             else [])
         + Issued(Step(v, calls[0]), calls[1..])
  }

  function Allocs(calls: seq<Call>): nat {
    if calls == [] then 0 else (if calls[0].VmmAlloc? then 1 else 0) + Allocs(calls[1..])
  }

  // Over every run each frame has one owner, and the counting, the list and the cursor stay right.
  lemma {:induction false} RunKeepsInv(base: set<nat>, v: VmState, calls: seq<Call>)
    requires Inv(base, v) && Supplied(v, calls)
    ensures Inv(base, Run(v, calls))
    ensures v.cursor <= Run(v, calls).cursor
    decreases |calls|
  {
    hide Inv, Alloc, Free, AllOrNothing, Grows, Mapped, Orphans, Pages, PagesIn, Left;
    if calls != [] {
      StepKeepsInv(base, v, calls[0]);
      RunKeepsInv(base, Step(v, calls[0]), calls[1..]);
    }
  }

  lemma StepKeepsInv(base: set<nat>, v: VmState, c: Call)
    requires Inv(base, v) && (c.VmmAlloc? ==> AllOrNothing(v, c.size))
    ensures Inv(base, Step(v, c)) && v.cursor <= Step(v, c).cursor
    ensures c.VmmFree? || v.count < VMA_NODES ==> Orphans(Step(v, c)) == Orphans(v)
    ensures Step(v, c).count <= v.count + (if c.VmmAlloc? then 1 else 0)
  {
    hide Inv, Alloc, Free, Fits, Grows, Mapped, Orphans, Pages, PagesIn, Left;
    match c
    case VmmAlloc(size) =>
      CountAfterAlloc(v, size);
      if Fits(v, size) {
        AllocKeepsInv(base, v, size);
      } else {
        NothingAllocated(v, size);
      }
    case VmmFree(ptr) => FreeKeepsInv(base, v, ptr);
  }

  lemma CountAfterAlloc(v: VmState, size: nat)
    ensures Alloc(v, size).0.count <= v.count + 1
  {
  }

  // No call of the run goes on through a null pointer.
  ghost predicate NullFree(v: VmState, calls: seq<Call>)
    decreases |calls|
  {
    calls != [] ==>
      && (calls[0].VmmAlloc? ==> Obtainable(v.space, Page(v.cursor), PagesIn(calls[0].size)))
      && NullFree(Step(v, calls[0]), calls[1..])
  }

  // Whatever runs short on the way: over every run that meets no null pointer the tree stays well formed, no frame is
  // owned twice, and the frames accounted for are never more than before.
  lemma {:induction false} RunStaysSound(v: VmState, calls: seq<Call>)
    requires Sound(v.space) && NullFree(v, calls)
    ensures var s' := Run(v, calls).space;
            Sound(s') && Accounted(s') <= Accounted(v.space) && s'.root == v.space.root
    decreases |calls|
  {
    hide Sound, Accounted, Alloc, Free, Obtainable, PagesIn, Page;
    if calls != [] {
      match calls[0] {
        case VmmAlloc(size) => AllocSound(v, size);
        case VmmFree(ptr) => FreeSound(v, ptr);
      }
      RunStaysSound(Step(v, calls[0]), calls[1..]);
    }
  }

  lemma AllocSound(v: VmState, size: nat)
    requires Sound(v.space) && Obtainable(v.space, Page(v.cursor), PagesIn(size))
    ensures var s' := Alloc(v, size).0.space;
            Sound(s') && Accounted(s') <= Accounted(v.space) && s'.root == v.space.root
  {
    hide Sound, Accounted, AllocPages, Obtainable, PagesIn, Page;
    AllocPagesSound(v.space, Page(v.cursor), PagesIn(size));
  }

  // ---- The address space never runs out, whatever runs short ----

  // What survives every call that meets no null pointer. Every page that the cursor has passed was given to one of the
  // listed allocations, or is mapped but listed nowhere, or cost a frame that is lost.
  ghost predicate Surviving(base: set<nat>, v: VmState) {
    && Sound(v.space) && Accounted(v.space) <= base && (forall f | f in base :: f < FRAMES)
    && Listed(v) && Page(v.cursor) <= Page(START) + v.count * FRAMES + Balance(v.space, Live(v.regions)) + |base|
  }

  lemma InvSurvives(base: set<nat>, v: VmState)
    requires Inv(base, v)
    ensures Surviving(base, v)
  {
    hide Listed, Covered, Shape, Tidy, Pages, Live;
    OwnedIsSound(base, v.space);
  }

  lemma BalanceBound(s: Space, l: set<nat>)
    requires Sound(s)
    ensures Balance(s, l) <= 0
  {
    hide Pages, Shape, Tables;
    ImageSize(Pages(s));
    SubsetSize(Pages(s).Keys - l, Pages(s).Keys);
    SubsetSize(Data(s), Accounted(s));
  }

  // So the next allocation still starts at least 2^32 bytes below the end of the 48-bit address space.
  lemma SurvivingBound(base: set<nat>, v: VmState)
    requires Surviving(base, v)
    ensures Page(v.cursor) + FRAMES <= PAGES && |base| <= FRAMES && |v.space.free| <= FRAMES
    ensures v.cursor % PAGE_SIZE == 0 && START <= v.cursor
  {
    hide Sound, Balance, Live, Stacked;
    IntervalSize(0, FRAMES, base);
    BalanceBound(v.space, Live(v.regions));
    FreeAccounted(v.space);
    SubsetSize(v.space.free, base);
  }

  lemma FreeAccounted(s: Space)
    ensures s.free <= Accounted(s)
  {
    hide Tables, Data;
  }

  lemma AllocSurvives(base: set<nat>, v: VmState, size: nat)
    requires Surviving(base, v) && Obtainable(v.space, Page(v.cursor), PagesIn(size))
    ensures Surviving(base, Alloc(v, size).0)
    ensures var (v', ptr) := Alloc(v, size);
            ptr != 0 ==> ptr == v.cursor && v'.cursor == v.cursor + PagesIn(size) * PAGE_SIZE && PagesIn(size) <= FRAMES
  {
    hide Surviving, Sound, Accounted, Balance, Live, AllocPages, Obtainable, PagesIn, Page, Listed;
    var n := PagesIn(size);
    SurvivingBound(base, v);
    SurvivingMeans(base, v);
    AllocSound(v, size);
    ListedBelow(v);
    RoundsCount(v.space, Page(v.cursor), n, Live(v.regions));
    var (s', ok) := AllocPages(v.space, Page(v.cursor), n);
    if ok {
      SurvivesMoved(base, v, Alloc(v, size).0, n);
    } else {
      SurvivesFailed(base, v, s');
    }
  }

  lemma SurvivingMeans(base: set<nat>, v: VmState)
    requires Surviving(base, v)
    ensures Sound(v.space) && Listed(v)
  {
    hide Sound, Listed, Accounted, Balance;
  }

  lemma SurvivesMoved(base: set<nat>, v: VmState, v': VmState, n: nat)
    requires Surviving(base, v) && Moved(v, v', n) && n <= FRAMES
    requires Sound(v'.space) && Accounted(v'.space) <= Accounted(v.space)
    requires Balance(v'.space, Live(v.regions)) >= Balance(v.space, Live(v.regions)) + n
    ensures Surviving(base, v')
  {
    hide Sound, Accounted, Balance, Live, Listed, Moved, Page;
    MovedSurvives(v, v', n);
    MovedListed(v, v', n);
  }

  lemma SurvivesFailed(base: set<nat>, v: VmState, s: Space)
    requires Surviving(base, v) && Sound(s) && Accounted(s) <= Accounted(v.space)
    requires Balance(s, Live(v.regions)) >= Balance(v.space, Live(v.regions))
    ensures Surviving(base, v.(space := s))
  {
    hide Sound, Accounted, Balance, Live, Listed;
    SameListed(v, s);
  }

  lemma ListedBelow(v: VmState)
    requires Listed(v)
    ensures Below(Live(v.regions), Page(v.cursor))
  {
    LiveBelow(v.regions, v.cursor);
  }

  lemma SameListed(v: VmState, s: Space)
    requires Listed(v)
    ensures Listed(v.(space := s))
  {
  }

  lemma MovedSurvives(v: VmState, v': VmState, n: nat)
    requires Listed(v) && Moved(v, v', n) && n <= FRAMES
    ensures Listed(v') && Page(v'.cursor) == Page(v.cursor) + n
    ensures v.count < VMA_NODES ==>
              v'.count == v.count + 1 && Balance(v'.space, Live(v'.regions)) >= Balance(v'.space, Live(v.regions)) - n
    ensures v.count >= VMA_NODES ==> v'.count == v.count && v'.regions == v.regions
  {
    hide Pages, Live, Range, Listed, Accounted;
    MovedListed(v, v', n);
    InRange(Page(v.cursor), n);
    if v.count < VMA_NODES {
      FewerOutside(Pages(v'.space).Keys, Live(v.regions), Range(Page(v.cursor), n));
    }
    NodesOf(v);
  }

  lemma NodesOf(v: VmState)
    requires Listed(v)
    ensures v.count <= VMA_NODES
  {
    hide Stacked;
  }

  lemma FewerOutside(k: set<nat>, l: set<nat>, r: set<nat>)
    ensures |k - (r + l)| >= |k - l| - |r|
  {
    assert k - l == (k - (r + l)) + (k * r - l);
    SubsetSize(k * r - l, r);
  }

  lemma FreeSurvives(base: set<nat>, v: VmState, ptr: nat)
    requires Surviving(base, v)
    ensures Surviving(base, Free(v, ptr)) && Free(v, ptr).cursor == v.cursor
  {
    hide Sound, Live, Stacked, Find, Remove, FreePages, Accounted, Pages;
    FreeSound(v, ptr);
    if Find(v.regions, ptr).Some? {
      SurvivingBound(base, v);
      RemoveTakesPages(v.regions, v.cursor, ptr);
      RemoveKeepsStacked(v.regions, v.cursor, ptr);
      FoundBelow(v.regions, v.cursor, ptr);
      var r := Find(v.regions, ptr).value;
      FreePagesSound(v.space, Page(r.vaddr), Page(r.size));
      SameOutside(Pages(v.space), Live(v.regions), PagesOf(r));
    }
  }

  lemma SameOutside(m: map<nat, nat>, l: set<nat>, r: set<nat>)
    requires r <= l
    ensures (m - r).Keys - (l - r) == m.Keys - l
  {
  }

  // The cursor stays below 2^48 over every run that meets no null pointer, calls short of frames included.
  lemma {:induction false} RunSurvives(base: set<nat>, v: VmState, calls: seq<Call>)
    requires Surviving(base, v) && NullFree(v, calls)
    ensures Surviving(base, Run(v, calls)) && Page(Run(v, calls).cursor) + FRAMES <= PAGES
    decreases |calls|
  {
    hide Surviving, Alloc, Free, Obtainable, PagesIn, Page;
    if calls != [] {
      match calls[0] {
        case VmmAlloc(size) => AllocSurvives(base, v, size);
        case VmmFree(ptr) => FreeSurvives(base, v, ptr);
      }
      RunSurvives(base, Step(v, calls[0]), calls[1..]);
    } else {
      SurvivingBound(base, v);
    }
  }

  // ---- Addresses handed out ----

  // No address is handed out twice: the regions of any run lie one above the other.
  lemma {:induction false} IssuedNeverOverlap(v: VmState, calls: seq<Call>)
    requires START <= v.cursor
    ensures forall i | 0 <= i < |Issued(v, calls)| :: v.cursor <= Issued(v, calls)[i].vaddr
    ensures forall i, j | 0 <= i < j < |Issued(v, calls)| ::
              Issued(v, calls)[i].vaddr + Issued(v, calls)[i].size <= Issued(v, calls)[j].vaddr
    decreases |calls|
  {
    hide Alloc, Free, PagesIn;
    if calls != [] {
      CursorMoves(v, calls[0]);
      IssuedNeverOverlap(Step(v, calls[0]), calls[1..]);
    }
  }

  lemma CursorMoves(v: VmState, c: Call)
    ensures v.cursor <= Step(v, c).cursor
    ensures c.VmmAlloc? && Alloc(v, c.size).1 != 0 ==>
              Alloc(v, c.size).1 == v.cursor && Step(v, c).cursor == v.cursor + PagesIn(c.size) * PAGE_SIZE
  {
    hide AllocPages, FreePages, PagesIn, Find;
  }

  // And over runs that meet no null pointer they all end below 2^48, so that none of these addresses wraps.
  lemma {:induction false} IssuedInSpace(base: set<nat>, v: VmState, calls: seq<Call>)
    requires Surviving(base, v) && NullFree(v, calls)
    ensures forall i | 0 <= i < |Issued(v, calls)| ::
              Issued(v, calls)[i].vaddr + Issued(v, calls)[i].size <= PAGES * PAGE_SIZE
    decreases |calls|
  {
    hide Surviving, Alloc, Free, Obtainable, PagesIn;
    if calls != [] {
      match calls[0] {
        case VmmAlloc(size) =>
          AllocSurvives(base, v, size);
          CursorMoves(v, calls[0]);
          SurvivingBound(base, Step(v, calls[0]));
        case VmmFree(ptr) => FreeSurvives(base, v, ptr);
      }
      IssuedInSpace(base, Step(v, calls[0]), calls[1..]);
    }
  }

  predicate HoldPages(rs: seq<Region>) {
    forall r | r in rs :: r.size > 0
  }

  // After any run that never asks for no pages, a second vmm_free of any pointer changes nothing.
  lemma SecondFreeAfterRun(v: VmState, calls: seq<Call>, ptr: nat)
    requires Listed(v) && HoldPages(v.regions)
    requires forall c | c in calls && c.VmmAlloc? :: PagesIn(c.size) > 0
    ensures var v' := Run(v, calls);
            Free(Free(v', ptr), ptr) == Free(v', ptr)
  {
    hide Stacked, Free, Run, PagesIn;
    RunKeepsListed(v, calls);
    RunHoldsPages(v, calls);
    var v' := Run(v, calls);
    FullRegionsListedOnce(v'.regions, v'.cursor, ptr);
    SecondFree(v', ptr);
  }

  // The list stays sorted, disjoint and below the cursor over any run at all.
  lemma {:induction false} RunKeepsListed(v: VmState, calls: seq<Call>)
    requires Listed(v)
    ensures Listed(Run(v, calls))
    decreases |calls|
  {
    hide Listed, Alloc, Free;
    if calls != [] {
      match calls[0] {
        case VmmAlloc(size) => AllocKeepsListed(v, size);
        case VmmFree(ptr) => FreeKeepsListed(v, ptr);
      }
      RunKeepsListed(Step(v, calls[0]), calls[1..]);
    }
  }

  lemma AllocKeepsListed(v: VmState, size: nat)
    requires Listed(v)
    ensures Listed(Alloc(v, size).0)
  {
    hide Listed, AllocPages, PagesIn, Live, Range;
    var (s', ok) := AllocPages(v.space, Page(v.cursor), PagesIn(size));
    if ok {
      MovedListed(v, Alloc(v, size).0, PagesIn(size));
    } else {
      SameListed(v, s');
    }
  }

  lemma FreeKeepsListed(v: VmState, ptr: nat)
    requires Listed(v)
    ensures Listed(Free(v, ptr))
  {
    hide Stacked, FreePages, Find, Remove;
    if Find(v.regions, ptr).Some? {
      RemoveKeepsStacked(v.regions, v.cursor, ptr);
    }
  }

  lemma {:induction false} RunHoldsPages(v: VmState, calls: seq<Call>)
    requires HoldPages(v.regions) && forall c | c in calls && c.VmmAlloc? :: PagesIn(c.size) > 0
    ensures HoldPages(Run(v, calls).regions)
    decreases |calls|
  {
    hide PagesIn, AllocPages, FreePages;
    if calls != [] {
      assert calls[0] in calls;
      if calls[0].VmmFree? {
        RemoveTakesOff(v.regions, calls[0].ptr);
      }
      RunHoldsPages(Step(v, calls[0]), calls[1..]);
    }
  }

  lemma {:induction false} RemoveTakesOff(rs: seq<Region>, ptr: nat)
    ensures forall r | r in Remove(rs, ptr) :: r in rs
  {
    if rs != [] {
      RemoveTakesOff(rs[1..], ptr);
    }
  }

  // Nothing leaks: if nothing is orphaned, at most 128 allocations happen in all and at the end every region has been
  // freed, then every frame, page tables included, is free again.
  lemma NothingLeaks(base: set<nat>, v: VmState, calls: seq<Call>)
    requires Inv(base, v) && Supplied(v, calls)
    requires Orphans(v) == {} && v.count + Allocs(calls) <= VMA_NODES
    requires Run(v, calls).regions == []
    ensures Run(v, calls).space.free == base && Pages(Run(v, calls).space) == map[]
  {
    RunKeepsInv(base, v, calls);
    NoOrphans(base, v, calls);
    var v' := Run(v, calls);
    hide Pages, Owns, Run, Supplied;
    assert Pages(v'.space).Keys == {};
    FreeCountIsDetermined(base, v'.space);
  }

  lemma {:induction false} NoOrphans(base: set<nat>, v: VmState, calls: seq<Call>)
    requires Inv(base, v) && Supplied(v, calls)
    requires Orphans(v) == {} && v.count + Allocs(calls) <= VMA_NODES
    ensures Orphans(Run(v, calls)) == {}
    decreases |calls|
  {
    hide Inv, Alloc, Free, AllOrNothing, Grows, Mapped, Orphans, Pages, PagesIn, Left;
    if calls != [] {
      StepKeepsInv(base, v, calls[0]);
      NoOrphans(base, Step(v, calls[0]), calls[1..]);
    }
  }
}
