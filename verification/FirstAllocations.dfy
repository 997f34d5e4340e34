/** What the first allocations of an address space cost (vmm.c, paging.c), and a memory map on which the kernel loses a
    frame by them. */
module FirstAllocations {
  import opened Pmm
  import opened PageTree
  import opened Ownership
  import opened VmMachine

  // The tables of n pages that all lie below one last-level table.
  lemma {:induction false} TablesOfRun(p: nat, n: nat)
    requires n > 0 && (p + n - 1) / 512 == p / 512
    ensures TablesFor(Range(p, n)) == {PdptOf(p), PdOf(p), PtOf(p)}
    decreases n
  {
    hide PathTables, PdptOf, PdOf, PtOf, TablesFor, Range;
    TablesForSplit(p, n);
    ThreeOnPath(p);
    if n == 1 {
      NoPagesLeft(p + 1);
    } else {
      assert (p + 1) / 512 == p / 512;
      TablesOfRun(p + 1, n - 1);
      SameTables512(p, p + 1);
    }
  }

  lemma NoPagesLeft(p: nat)
    ensures TablesFor(Range(p, 0)) == {}
  {
  }

  lemma ThreeOnPath(p: nat)
    ensures PathTables(p) == {PdptOf(p), PdOf(p), PtOf(p)} && |{PdptOf(p), PdOf(p), PtOf(p)} - {Root}| == 3
  {
    hide Index4, Index3, Index2;
    var a := PdptOf(p);
    var b := PdOf(p);
    var c := PtOf(p);
    assert {a, b, c} - {Root} == {a, b, c};
    assert |{a, b, c}| == 3;
  }

  lemma SameTables512(p: nat, q: nat)
    requires p / 512 == q / 512
    ensures PdptOf(p) == PdptOf(q) && PdOf(p) == PdOf(q) && PtOf(p) == PtOf(q)
  {
  }

  lemma OnlyRoot(s: Space)
    requires Sized(s) && Tables(s) == {}
    ensures s.at.Keys == {Root}
  {
    assert forall n | n in s.at && n != Root :: s.at[n] in Tables(s);
  }

  // The first n pages of an address space, of those that fit below one last-level table, cost a frame each and three
  // for their tables.
  lemma FirstPagesCost(s: Space, n: nat)
    requires Shape(s) && Tables(s) == {} && 0 < n <= 512
    ensures Left(s, Page(START), n) == |s.free| - n - 3
  {
    hide Linked, Separate, Counted, PdptOf, PdOf, PtOf, TablesFor, PathTables, Tables;
    var p := Page(START);
    OnlyRoot(s);
    SameTable(n);
    TablesOfRun(p, n);
    ThreeOnPath(p);
  }

  lemma SameTable(n: nat)
    requires 0 < n <= 512
    ensures (Page(START) + n - 1) / 512 == Page(START) / 512
  {
  }

  // The first page of an address space costs four frames: the page's own and those of its three tables.
  lemma FirstPageFits(s: Space)
    requires Shape(s) && Tables(s) == {}
    ensures Fits(VmState(s, [], START, 0), 4096) <==> 4 <= |s.free|
  {
    hide Shape, Tables, Left;
    FirstPagesCost(s, 1);
    assert PagesIn(4096) == 1;
  }

  // With 516 usable frames, one allocation of 2 MB takes 512 for its pages and three for their tables. It leaves one
  // frame, and the next page needs a new last-level table: just what it takes to lose that frame.
  lemma LastFrameLostIsReachable(s: Space)
    requires Shape(s) && Tidy(s) && Pages(s) == map[] && Tables(s) == {} && |s.free| == 516
    ensures var v := VmState(s, [], START, 0);
            var (v1, ptr) := Alloc(v, 0x20_0000);
            && Inv(s.free, v) && Fits(v, 0x20_0000) && ptr == START && Inv(s.free, v1) && v1.count == 1
            && PagesIn(4096) == 1 && |v1.space.free| == 1
            && UpperTables(Page(v1.cursor)) <= v1.space.at.Keys && PtOf(Page(v1.cursor)) !in v1.space.at
  {
    hide Shape, Tidy, Pages, Tables, Left, Inv, TablesFor, PathTables, UpperTables, PdptOf, PdOf, PtOf, Range,
        AllocPages;
    hide Grows, Orphans;
    var v, p := VmState(s, [], START, 0), Page(START);
    assert PagesIn(0x20_0000) == 512 && PagesIn(4096) == 1;
    FirstPagesCost(s, 512);
    FreshInv(s);
    AllocKeepsInv(s.free, v, 0x20_0000);
    var v1 := Alloc(v, 0x20_0000).0;
    assert Page(v1.cursor) == p + 512;
    KeysOfEmpty(Pages(s), Range(p, 512));
    TablesAfter(s.free, v1, p);
  }

  lemma KeysOfEmpty(m: map<nat, nat>, a: set<nat>)
    requires m == map[]
    ensures m.Keys + a == a
  {
  }

  lemma TablesAfter(base: set<nat>, v: VmState, p: nat)
    requires Inv(base, v) && p == Page(START) && Pages(v.space).Keys == Range(p, 512)
    ensures UpperTables(p + 512) <= v.space.at.Keys && PtOf(p + 512) !in v.space.at
  {
    hide Shape, Tidy, Partition, Pages, TablesFor, PathTables, Range, Listed, Covered, CursorBounded;
    TablesAreCanonical(v.space);
    SameTable(512);
    TablesOfRun(p, 512);
    assert Index4(p) == Index4(p + 512) == 0 && Index3(p) == Index3(p + 512) == 0;
    assert Index2(p) == 128 && Index2(p + 512) == 129;
    hide Index4, Index3, Index2;
    assert UpperTables(p + 512) == {PdptOf(p), PdOf(p)};
  }

  // One descriptor of 516 conventional pages at 8 MB makes just so many usable.
  lemma SmallMemory()
    ensures var d := Descriptor(CONVENTIONAL, 0x80_0000, 516);
            FramesDoNotWrap(d) && |Usable([d])| == 516
  {
    hide Offered, Range;
    var d := Descriptor(CONVENTIONAL, 0x80_0000, 516);
    InRange(2048, 516);
    forall f: nat
      ensures f in Usable([d]) <==> f in Range(2048, 516)
    {
      OfferedByOne(d, f);
    }
    assert Usable([d]) == Range(2048, 516);
  }

  lemma OfferedByOne(d: Descriptor, f: nat)
    ensures Offered([d], f) <==> Offers(d, f)
  {
    hide Offers;
    assert [d][0] == d;
  }
}
