/** Who owns each frame: every frame handed to the allocator is free, holds one page table, or backs one
    page. Allocating and freeing runs of pages (the loops of vmm_alloc and vmm_free) keep it so. */
module Ownership {
  import opened Wrappers
  import opened Pmm
  import opened PageTree

  ghost predicate OneToOne<K(!new)>(m: map<K, nat>) {
    forall p, q | p in m && q in m && m[p] == m[q] :: p == q
  }

  ghost function Data(s: Space): set<nat> {
    Pages(s).Values
  }

  // base is the disjoint union of the free frames, the table frames and the mapped frames.
  ghost predicate Partition(base: set<nat>, s: Space) {
    && base == s.free + Tables(s) + Data(s)
    && s.free !! Data(s) && Tables(s) !! Data(s) && s.free !! Tables(s)
    && OneToOne(Pages(s))
    && s.root !in base && (forall f | f in base :: 0 < f < FRAMES)
  }

  ghost predicate Owns(base: set<nat>, s: Space) {
    Shape(s) && Tidy(s) && Partition(base, s)
  }

  // ---- The tables are determined by the mapped pages ----

  ghost function TablesFor(ps: set<nat>): set<Node> {
    set p, n | p in ps && n in PathTables(p) :: n
  }

  lemma PageNumber(i4: nat, i3: nat, i2: nat, i1: nat) returns (p: nat)
    requires i4 < 512 && i3 < 512 && i2 < 512 && i1 < 512
    ensures p < PAGES && Index4(p) == i4 && Index3(p) == i3 && Index2(p) == i2 && Index1(p) == i1
  {
    p := ((i4 * 512 + i3) * 512 + i2) * 512 + i1;
    assert p / 512 == (i4 * 512 + i3) * 512 + i2;
    assert p / 512 / 512 == i4 * 512 + i3;
    assert p / 512 / 512 / 512 == i4;
  }

  lemma NonEmptyTable(s: Space, n: Node) returns (i: nat)
    requires Sized(s) && Counted(s) && Tidy(s) && n in s.at && n != Root
    ensures i < ENTRIES && Slot(s, n, i).present
  {
    assert Present(TableAt(s, n)) != {};
    i :| i in Present(TableAt(s, n));
  }

  // Below every table there is a mapped page: an unmapped range keeps no table alive.
  lemma {:induction false} TableHasPage(s: Space, n: Node) returns (p: nat)
    requires Shape(s) && Tidy(s) && n in s.at && n != Root
    ensures p in Pages(s) && n in PathTables(p)
    decreases if n.up.Root? then 2 else if n.up.up.Root? then 1 else 0
  {
    hide Pages, Separate, Index4, Index3, Index2, Index1;
    var i := NonEmptyTable(s, n);
    if Inner(n) {
      assert Sub(n, i) in s.at;
      p := TableHasPage(s, Sub(n, i));
      assert PathTables(p) == {PdptOf(p), PdOf(p), PtOf(p)};
    } else {
      PathOfLeafTable(s, n);
      p := PageNumber(n.up.up.ix, n.up.ix, n.ix, i);
      PagesAreLeaves(s);
      assert PtOf(p) == n && Leaf(s, p).Some?;
    }
  }

  lemma PathOfLeafTable(s: Space, n: Node)
    requires Linked(s) && n in s.at && !Inner(n)
    ensures n == Sub(Sub(Sub(Root, n.up.up.ix), n.up.ix), n.ix)
    ensures n.up.up.ix < ENTRIES && n.up.ix < ENTRIES && n.ix < ENTRIES
  {
    assert n == Sub(n.up, n.ix);
    assert n.up == Sub(n.up.up, n.up.ix);
    assert n.up.up == Sub(n.up.up.up, n.up.up.ix);
  }

  // The canonical form of a tree: its tables are exactly the ones its mapped pages need.
  lemma TablesAreCanonical(s: Space)
    requires Shape(s) && Tidy(s)
    ensures s.at.Keys == {Root} + TablesFor(Pages(s).Keys)
  {
    hide Pages, PathTables, Leaf;
    forall n | n in s.at && n != Root
      ensures n in TablesFor(Pages(s).Keys)
    {
      var p := TableHasPage(s, n);
    }
    forall n | n in TablesFor(Pages(s).Keys)
      ensures n in s.at
    {
      var p :| p in Pages(s) && n in PathTables(p);
      PathOfMapped(s, p);
    }
  }

  lemma PathOfMapped(s: Space, p: nat)
    requires Shape(s) && p in Pages(s)
    ensures PathTables(p) <= s.at.Keys
  {
    hide Sized, Linked, Separate, Counted, Pages, Index4, Index3, Index2, Index1;
    PagesAreLeaves(s);
    assert Leaf(s, p) == Lookup(Pages(s), p);
    assert PtOf(p) !in s.at ==> TableAt(s, PtOf(p)) == Zeroed();
    PathStands(s, p) by { assert Linked(s); }
  }

  // ---- One page at a time ----

  lemma FewerFree(s: Space, free: set<nat>)
    requires Shape(s) && free <= s.free
    ensures Shape(s.(free := free)) && Pages(s.(free := free)) == Pages(s) && Tables(s.(free := free)) == Tables(s)
    ensures Tidy(s) ==> Tidy(s.(free := free))
  {
    var s' := s.(free := free);
    assert forall n, i: nat :: Slot(s', n, i) == Slot(s, n, i);
    hide Walk;
    assert Pages(s') == Pages(s);
  }

  lemma MoreFree(s: Space, f: nat)
    requires Shape(s) && 0 < f < FRAMES && f !in Tables(s) && f != s.root
    ensures var s' := s.(free := s.free + {f});
            Shape(s') && Pages(s') == Pages(s) && Tables(s') == Tables(s) && (Tidy(s) ==> Tidy(s'))
                && s'.free !! Tables(s')
  {
    var s' := s.(free := s.free + {f});
    assert forall n, i: nat :: Slot(s', n, i) == Slot(s, n, i);
    forall n | n in s.at
      ensures s.at[n] != f
    {
      if n != Root {
        assert s.at[n] in Tables(s);
      }
    }
    hide Walk;
    assert Pages(s') == Pages(s);
  }

  // The partition only looks at the free set, the tables, the page map and the root.
  lemma PartitionAfterMap(base: set<nat>, s: Space, s': Space, p: nat, f: nat)
    requires Partition(base, s) && p !in Pages(s) && f in s.free
    requires Pages(s') == Pages(s)[p := f] && s'.root == s.root
    requires s'.free + Tables(s') == s.free - {f} + Tables(s) && s'.free !! Tables(s')
    ensures Partition(base, s')
  {
    hide Pages, Tables;
    assert Data(s') == Data(s) + {f} by {
      assert forall q | q in Pages(s) :: q in Pages(s') && Pages(s')[q] == Pages(s)[q];
      assert Pages(s')[p] == f;
    }
    assert forall q | q in Pages(s) :: Pages(s)[q] in Data(s);
  }

  lemma PartitionAfterUnmap(base: set<nat>, s: Space, s': Space, p: nat)
    requires Partition(base, s) && p in Pages(s)
    requires Pages(s') == Pages(s) - {p} && s'.root == s.root
    requires s'.free + Tables(s') == s.free + Tables(s) + {Pages(s)[p]} && s'.free !! Tables(s')
    ensures Partition(base, s')
  {
    hide Pages, Tables;
    assert Data(s') == Data(s) - {Pages(s)[p]} by {
      assert forall q | q in Pages(s') :: q in Pages(s) && Pages(s')[q] == Pages(s)[q];
      assert forall q | q in Pages(s) && q != p :: q in Pages(s') && Pages(s')[q] == Pages(s)[q];
    }
    assert Pages(s)[p] in Data(s);
  }

  lemma FreeAndTablesDisjoint(s: Space)
    requires Separate(s)
    ensures s.free !! Tables(s)
  {
  }

  // One round of vmm_alloc's loop: the lowest free frame is taken and mapped at p.
  ghost function AllocOne(s: Space, p: nat): Space
    requires s.free != {}
  {
    var f := Lowest(s.free);
    MapPage(s.(free := s.free - {f}), p, f)
  }

  // One round of vmm_free's loop: a mapped page is unmapped and its frame given back.
  ghost function FreeOne(s: Space, p: nat): Space {
    match Walk(s.mem, s.root, p)
    case None => s
    case Some(f) =>
      if f == 0 then s
      else
        var s1 := UnmapPage(s, p);
        s1.(free := s1.free + if f < FRAMES then {f} else {})
  }

  lemma AllocOneKeeps(base: set<nat>, s: Space, p: nat)
    requires Owns(base, s) && p < PAGES && p !in Pages(s)
    requires |PathTables(p) - s.at.Keys| < |s.free|
    ensures var s' := AllocOne(s, p);
            && Owns(base, s') && Pages(s') == Pages(s)[p := Lowest(s.free)]
            && Extended(s.(free := s.free - {Lowest(s.free)}), s', PathTables(p))
  {
    hide Pages, PathTables, Shape, Partition, Tidy, Extended, AllocOne;
    RoundMaps(base, s, p);
  }

  // A round with frames for all its tables maps the page, whatever was mapped there; the partition does not survive
  // only if something was.
  lemma RoundMaps(base: set<nat>, s: Space, p: nat)
    requires Shape(s) && Partition(base, s) && p < PAGES
    requires |PathTables(p) - s.at.Keys| < |s.free|
    ensures s.free != {}
    ensures var s' := AllocOne(s, p);
            && Shape(s') && Pages(s') == Pages(s)[p := Lowest(s.free)] && (Tidy(s) ==> Tidy(s'))
            && Extended(s.(free := s.free - {Lowest(s.free)}), s', PathTables(p))
            && s'.free + Tables(s') == s.free - {Lowest(s.free)} + Tables(s) && s'.free !! Tables(s')
            && (p !in Pages(s) ==> Partition(base, s'))
  {
    hide Pages, PathTables, Leaf, Partition, Sized, Linked, Counted, Grows, MapPage, Tidy;
    assert s.free != {};
    var f := Lowest(s.free);
    var s0 := s.(free := s.free - {f});
    FewerFree(s, s.free - {f});
    MapPageKeeps(s0, p, f);
    MapPageIsUpdate(s0, p, f);
    FreeAndTablesDisjoint(MapPage(s0, p, f));
    if p !in Pages(s) {
      PartitionAfterMap(base, s, MapPage(s0, p, f), p, f);
    }
  }

  lemma FreeOneKeeps(base: set<nat>, s: Space, p: nat)
    requires Owns(base, s) && p < PAGES
    ensures var s' := FreeOne(s, p);
            && Owns(base, s') && Pages(s') == Pages(s) - {p} && Grows(s', s)
  {
    hide Pages, Shape, Tidy, Partition, Grows, FreeOne;
    FreeOneMoves(base, s, p);
  }

  lemma FreeOneMoves(base: set<nat>, s: Space, p: nat)
    requires Shape(s) && Partition(base, s) && p < PAGES
    ensures var s' := FreeOne(s, p);
            && Shape(s') && Partition(base, s') && Pages(s') == Pages(s) - {p} && Grows(s', s) && (Tidy(s) ==> Tidy(s'))
  {
    hide Pages, Shape, Tidy, Partition, Grows, FreeOne;
    if p in Pages(s) {
      FreeMappedKeeps(base, s, p);
    } else {
      UnmappedStays(s, p);
      NothingRemoved(Pages(s), {p});
      GrowsItself(s);
    }
  }

  lemma UnmappedStays(s: Space, p: nat)
    requires p < PAGES && p !in Pages(s)
    ensures FreeOne(s, p) == s
  {
    hide Walk, UnmapPage;
  }

  lemma FreeMappedKeeps(base: set<nat>, s: Space, p: nat)
    requires Shape(s) && Partition(base, s) && p in Pages(s)
    ensures var s' := FreeOne(s, p);
            && Shape(s') && Partition(base, s') && Pages(s') == Pages(s) - {p} && Grows(s', s) && (Tidy(s) ==> Tidy(s'))
  {
    var f := Pages(s)[p];
    assert Walk(s.mem, s.root, p) == Some(f);
    assert f in Data(s);
    hide Pages, Walk, Leaf, Sized, Linked, Counted, Separate, Tidy, UnmapPage, Tables, Data;
    var s1 := UnmapPage(s, p);
    UnmapPageKeeps(s, p);
    UnmapPageIsRemoval(s, p);
    TablesShrink(s1, s);
    MoreFree(s1, f);
    var s' := s1.(free := s1.free + {f});
    assert s' == FreeOne(s, p);
    hide FreeOne;
    assert s'.free + Tables(s') == s.free + Tables(s) + {f} by {
      OneMore(s1.free, Tables(s1), s.free, Tables(s), f);
    }
    PartitionAfterUnmap(base, s, s', p);
  }

  lemma OneMore(a: set<nat>, b: set<nat>, c: set<nat>, d: set<nat>, f: nat)
    requires a + b == c + d
    ensures a + {f} + b == c + d + {f}
  {
    assert a + {f} + b == a + b + {f};
  }

  lemma TablesShrink(s1: Space, s: Space)
    requires Grows(s1, s)
    ensures Tables(s1) <= Tables(s)
  {
  }

  // ---- Runs of pages ----

  function Range(p: nat, n: nat): set<nat>
    decreases n
  {
    if n == 0 then {} else {p} + Range(p + 1, n - 1)
  }

  lemma InRange(p: nat, n: nat)
    ensures forall q: nat :: q in Range(p, n) <==> p <= q < p + n
    ensures |Range(p, n)| == n
    decreases n
  {
    if n > 0 {
      InRange(p + 1, n - 1);
    }
  }

  lemma RangeStep(p: nat, n: nat)
    requires n > 0
    ensures Range(p, n) == {p} + Range(p + 1, n - 1) && p !in Range(p + 1, n - 1)
  {
    InRange(p + 1, n - 1);
  }

  // The loop of vmm_alloc from page p on; false when a frame is missing on the way.
  ghost function AllocPages(s: Space, p: nat, n: nat): (Space, bool)
    decreases n
  {
    if n == 0 then (s, true)
    else if s.free == {} then (s, false)
    else AllocPages(AllocOne(s, p), p + 1, n - 1)
  }

  // The loop of vmm_free from page p on.
  ghost function FreePages(s: Space, p: nat, n: nat): Space
    decreases n
  {
    if n == 0 then s else FreePages(FreeOne(s, p), p + 1, n - 1)
  }

  // The tables a run of pages still lacks.
  ghost function Lacking(s: Space, p: nat, n: nat): set<Node> {
    TablesFor(Range(p, n)) - s.at.Keys
  }

  // The frames that will be left, each page taking one and each lacking table one.
  ghost function Left(s: Space, p: nat, n: nat): int {
    |s.free| - n - |Lacking(s, p, n)|
  }

  lemma TablesForSplit(p: nat, n: nat)
    requires n > 0
    ensures TablesFor(Range(p, n)) == PathTables(p) + TablesFor(Range(p + 1, n - 1))
  {
    hide PathTables, Range;
    RangeStep(p, n);
  }

  // Each round uses one frame for its page and one for each table it makes.
  lemma LeftStep(s: Space, s1: Space, p: nat, n: nat)
    requires n > 0 && s.free != {}
    requires Extended(s.(free := s.free - {Lowest(s.free)}), s1, PathTables(p))
    ensures Left(s1, p + 1, n - 1) == Left(s, p, n)
  {
    hide Shape, Tables, TablesFor, PathTables, Grows, Range;
    TablesForSplit(p, n);
    var c := TablesFor(Range(p, n));
    NeedFalls(s.(free := s.free - {Lowest(s.free)}), s1, PathTables(p), c);
    DropSubset(PathTables(p), TablesFor(Range(p + 1, n - 1)), s1.at.Keys);
  }

  lemma DropSubset<T>(a: set<T>, b: set<T>, k: set<T>)
    requires a <= k
    ensures a + b - k == b - k
  {
  }

  lemma PathIsLacking(s: Space, p: nat, n: nat)
    requires n > 0 && 0 <= Left(s, p, n)
    ensures s.free != {} && |PathTables(p) - s.at.Keys| < |s.free|
  {
    TablesForSplit(p, n);
    SubsetSize(PathTables(p) - s.at.Keys, Lacking(s, p, n));
  }

  lemma SubsetSize<T>(a: set<T>, b: set<T>)
    requires a <= b
    ensures |a| <= |b|
  {
    assert b == a + (b - a);
  }

  // s' is s with the pages from p on, k of them, mapped as well: every frame is still owned once,
  // no table has moved and no other page is translated differently.
  ghost predicate Mapped(base: set<nat>, s: Space, s': Space, p: nat, k: nat) {
    && Owns(base, s') && Grows(s, s') && s'.root == s.root && s'.free <= s.free
    && Pages(s').Keys == Pages(s).Keys + Range(p, k)
    && (forall q | q in Pages(s) :: Pages(s')[q] == Pages(s)[q])
  }

  lemma NothingMapped(base: set<nat>, s: Space, p: nat)
    requires Owns(base, s)
    ensures Mapped(base, s, s, p, 0)
  {
    hide Owns, Pages;
    GrowsItself(s);
  }

  lemma MappedOneMore(base: set<nat>, s: Space, s': Space, p: nat, k: nat)
    requires s.free != {} && p !in Pages(s)
    requires Pages(AllocOne(s, p)) == Pages(s)[p := Lowest(s.free)]
    requires Extended(s.(free := s.free - {Lowest(s.free)}), AllocOne(s, p), PathTables(p))
    requires Mapped(base, AllocOne(s, p), s', p + 1, k)
    ensures Mapped(base, s, s', p, k + 1)
  {
    hide Owns, Pages, Range, AllocOne, PathTables, Shape, Tables, TablesFor;
    RangeStep(p, k + 1);
    KeysJoin(Pages(s), p, Lowest(s.free), Pages(s'), Range(p + 1, k));
    GrowsFrom(s, AllocOne(s, p), s');
  }

  // With enough frames vmm_alloc's loop succeeds, maps exactly the pages asked for, and uses one frame for each
  // of them and for each table they lacked.
  lemma {:induction false} AllocPagesKeep(base: set<nat>, s: Space, p: nat, n: nat)
    requires Owns(base, s) && p + n <= PAGES && 0 <= Left(s, p, n)
    requires Range(p, n) !! Pages(s).Keys
    ensures var (s', ok) := AllocPages(s, p, n);
            ok && Mapped(base, s, s', p, n) && |s'.free| == Left(s, p, n)
    decreases n
  {
    hide Owns, Pages, Range, AllocOne, Mapped, Extended, PathTables, Left, AllocPages;
    AllocPagesUnfold(s, p, n);
    if n == 0 {
      NothingLacking(s, p);
      NothingMapped(base, s, p);
    } else {
      FirstRound(base, s, p, n);
      AllocPagesKeep(base, AllocOne(s, p), p + 1, n - 1);
    }
  }

  lemma OneRound(base: set<nat>, s: Space, p: nat, n: nat)
    requires Owns(base, s) && n > 0 && p + n <= PAGES && 0 <= Left(s, p, n)
    requires Range(p, n) !! Pages(s).Keys
    ensures s.free != {} && p !in Pages(s)
    ensures var s1 := AllocOne(s, p);
            && Owns(base, s1) && Left(s1, p + 1, n - 1) == Left(s, p, n)
            && Range(p + 1, n - 1) !! Pages(s1).Keys
            && Pages(s1) == Pages(s)[p := Lowest(s.free)]
            && Extended(s.(free := s.free - {Lowest(s.free)}), s1, PathTables(p))
  {
    hide Owns, Pages, Range, AllocOne, Extended, PathTables, Left;
    PathIsLacking(s, p, n);
    RangeStep(p, n);
    KeysStep(Pages(s), p, Lowest(s.free), Range(p + 1, n - 1));
    AllocOneKeeps(base, s, p);
    LeftStep(s, AllocOne(s, p), p, n);
  }

  lemma FirstRound(base: set<nat>, s: Space, p: nat, n: nat)
    requires Owns(base, s) && n > 0 && p + n <= PAGES && 0 <= Left(s, p, n)
    requires Range(p, n) !! Pages(s).Keys
    ensures s.free != {}
    ensures var s1 := AllocOne(s, p);
            && Owns(base, s1) && Left(s1, p + 1, n - 1) == Left(s, p, n)
            && Range(p + 1, n - 1) !! Pages(s1).Keys
            && (forall s' | Mapped(base, s1, s', p + 1, n - 1) :: Mapped(base, s, s', p, n))
  {
    hide Owns, Pages, Range, AllocOne, Mapped, Extended, PathTables, Left;
    OneRound(base, s, p, n);
    var s1 := AllocOne(s, p);
    forall s' | Mapped(base, s1, s', p + 1, n - 1)
      ensures Mapped(base, s, s', p, n)
    {
      MappedOneMore(base, s, s', p, n - 1);
    }
  }

  lemma AllocPagesUnfold(s: Space, p: nat, n: nat)
    ensures n == 0 ==> AllocPages(s, p, n) == (s, true)
    ensures n > 0 && s.free == {} ==> AllocPages(s, p, n) == (s, false)
    ensures n > 0 && s.free != {} ==> AllocPages(s, p, n) == AllocPages(AllocOne(s, p), p + 1, n - 1)
  {
  }

  lemma NothingLacking(s: Space, p: nat)
    ensures Left(s, p, 0) == |s.free|
  {
    assert Lacking(s, p, 0) == {};
  }

  // The loop may be cut in two.
  lemma {:induction false} AllocPagesSplit(s: Space, p: nat, k: nat, n: nat)
    requires k <= n && AllocPages(s, p, k).1
    ensures AllocPages(s, p, n) == AllocPages(AllocPages(s, p, k).0, p + k, n - k)
    decreases k
  {
    hide AllocOne;
    if k > 0 {
      AllocPagesSplit(AllocOne(s, p), p + 1, k - 1, n - 1);
    }
  }

  // With fewer frames than pages and no table missing, the loop maps one page per frame and then fails,
  // leaving those pages mapped.
  lemma AllocPagesRunOut(base: set<nat>, s: Space, p: nat, n: nat)
    requires Owns(base, s) && |s.free| < n && p + |s.free| <= PAGES && 0 <= Left(s, p, |s.free|)
    requires Range(p, |s.free|) !! Pages(s).Keys
    ensures var (s', ok) := AllocPages(s, p, n);
            !ok && Mapped(base, s, s', p, |s.free|) && s'.free == {}
  {
    hide Owns, Pages, Range, AllocOne, Mapped;
    AllocPagesKeep(base, s, p, |s.free|);
    AllocPagesSplit(s, p, |s.free|, n);
  }

  // How many tables on the path to a page are missing, and how many of the upper two.
  ghost function Missing(s: Space, p: nat): nat {
    |PathTables(p) - s.at.Keys|
  }

  ghost function MissingUpper(s: Space, p: nat): nat {
    |UpperTables(p) - s.at.Keys|
  }

  // vmm_alloc's loop never goes on through a null pointer: on each page it reaches, the frames suffice for the page
  // and for the upper two tables.
  ghost predicate Obtainable(s: Space, p: nat, n: nat)
    decreases n
  {
    n > 0 && s.free != {} ==> MissingUpper(s, p) < |s.free| && Obtainable(AllocOne(s, p), p + 1, n - 1)
  }

  lemma ObtainableNext(s: Space, p: nat, n: nat)
    requires n > 0 && s.free != {} && Obtainable(s, p, n)
    ensures MissingUpper(s, p) < |s.free| && Obtainable(AllocOne(s, p), p + 1, n - 1)
  {
    hide AllocOne, MissingUpper;
  }

  // Frames for every page and every missing table are more than enough for that.
  lemma {:induction false} LeftIsObtainable(base: set<nat>, s: Space, p: nat, n: nat)
    requires Owns(base, s) && p + n <= PAGES && 0 <= Left(s, p, n) && Range(p, n) !! Pages(s).Keys
    ensures Obtainable(s, p, n)
    decreases n
  {
    hide Owns, Pages, Range, AllocOne, Left, MissingUpper, PathTables, Extended;
    if n > 0 {
      OneRound(base, s, p, n);
      UpperIsLacking(s, p, n);
      LeftIsObtainable(base, AllocOne(s, p), p + 1, n - 1);
    }
  }

  lemma UpperIsLacking(s: Space, p: nat, n: nat)
    requires n > 0 && 0 <= Left(s, p, n)
    ensures MissingUpper(s, p) < |s.free|
  {
    hide PathTables, UpperTables, Left;
    PathIsLacking(s, p, n);
    PathIsUpperAndLast(p);
    SubsetSize(UpperTables(p) - s.at.Keys, PathTables(p) - s.at.Keys);
  }

  // What vmm_alloc's loop does when its frames do not suffice: it uses up all frames, and either it fails with
  // pages mapped or it loses a frame. Even if it succeeds the last page is not mapped.
  ghost predicate FellShort(base: set<nat>, s: Space, s': Space, ok: bool, p: nat, n: nat) {
    && s'.free == {} && Pages(s).Keys <= Pages(s').Keys
    && (Partition(base, s') ==> !ok && p in Pages(s'))
    && (ok ==> 0 < n <= |s.free| && p + n - 1 !in Pages(s'))
  }

  lemma {:induction false} AllocPagesFallShort(base: set<nat>, s: Space, p: nat, n: nat)
    requires Owns(base, s) && s.free != {} && Left(s, p, n) < 0 && Obtainable(s, p, n)
    requires p + |s.free| <= PAGES && Below(Pages(s).Keys, p)
    ensures FellShort(base, s, AllocPages(s, p, n).0, AllocPages(s, p, n).1, p, n)
    decreases n
  {
    hide Owns, Pages, AllocOne, Missing, MissingUpper, Left, AllocPages, Partition, FellShort, Below, Obtainable, Shape;
    if n == 0 {
      NothingLacking(s, p);
      return;
    }
    AllocPagesUnfold(s, p, n);
    ObtainableNext(s, p, n);
    BelowNext(Pages(s), p, Lowest(s.free));
    if Missing(s, p) < |s.free| {
      var s1 := AllocOne(s, p);
      ShortLater(base, s, p, n);
      AllocPagesUnfold(s1, p + 1, n - 1);
      if s1.free != {} {
        AllocPagesFallShort(base, s1, p + 1, n - 1);
      }
      ShortAfterRound(base, s, p, n);
    } else {
      ShortByLoss(base, s, p, n);
    }
  }

  predicate Below(ps: set<nat>, p: nat) {
    forall q | q in ps :: q < p
  }

  lemma BelowNext(m: map<nat, nat>, p: nat, f: nat)
    requires Below(m.Keys, p)
    ensures p !in m && Below(m[p := f].Keys, p + 1)
  {
  }

  lemma ShortAfterRound(base: set<nat>, s: Space, p: nat, n: nat)
    requires n > 1 && s.free != {} && Pages(AllocOne(s, p)) == Pages(s)[p := Lowest(s.free)]
    requires |AllocOne(s, p).free| < |s.free|
    requires var s1 := AllocOne(s, p);
             if s1.free == {} then AllocPages(s, p, n) == (s1, false)
             else AllocPages(s, p, n) == AllocPages(s1, p + 1, n - 1)
                  && FellShort(base, s1, AllocPages(s1, p + 1, n - 1).0, AllocPages(s1, p + 1, n - 1).1, p + 1, n - 1)
    ensures FellShort(base, s, AllocPages(s, p, n).0, AllocPages(s, p, n).1, p, n)
  {
    hide Pages, AllocOne, AllocPages, Partition;
  }

  lemma ShortByLoss(base: set<nat>, s: Space, p: nat, n: nat)
    requires Owns(base, s) && n > 0 && p < PAGES && p !in Pages(s) && s.free != {}
    requires MissingUpper(s, p) < |s.free| <= Missing(s, p)
    ensures FellShort(base, s, AllocPages(s, p, n).0, AllocPages(s, p, n).1, p, n)
  {
    hide Shape, Tidy, Pages, AllocOne, Missing, MissingUpper, AllocPages, Partition;
    FrameLost(base, s, p);
    AllocPagesUnfold(s, p, n);
    AllocPagesUnfold(AllocOne(s, p), p + 1, n - 1);
  }

  lemma ShortLater(base: set<nat>, s: Space, p: nat, n: nat)
    requires Owns(base, s) && n > 0 && s.free != {} && Left(s, p, n) < 0
    requires p < PAGES && p !in Pages(s)
    requires Missing(s, p) < |s.free|
    ensures var s1 := AllocOne(s, p);
            && Owns(base, s1) && n > 1 && Left(s1, p + 1, n - 1) < 0 && |s1.free| < |s.free|
            && Pages(s1) == Pages(s)[p := Lowest(s.free)]
  {
    hide Owns, Pages, AllocOne, PathTables, Left, Extended;
    AllocOneKeeps(base, s, p);
    LeftStep(s, AllocOne(s, p), p, n);
    NothingLacking(AllocOne(s, p), p + 1);
    AllocOneUses(s, p);
  }

  lemma AllocOneUses(s: Space, p: nat)
    requires s.free != {}
    ensures AllocOne(s, p).free <= s.free - {Lowest(s.free)} && |AllocOne(s, p).free| < |s.free|
  {
    hide TableAt, Index4, Index3, Index2, Index1;
    SubsetSize(AllocOne(s, p).free, s.free - {Lowest(s.free)});
  }

  // The frame taken for a page whose last table cannot be made is neither free nor a table nor mapped afterwards.
  lemma FrameLost(base: set<nat>, s: Space, p: nat)
    requires Shape(s) && Partition(base, s) && p < PAGES && s.free != {}
    requires MissingUpper(s, p) < |s.free| <= Missing(s, p)
    ensures var s' := AllocOne(s, p);
            && s'.free == {} && Pages(s') == Pages(s) && Shape(s') && s'.root == s.root
            && Tables(s') == s.free - {Lowest(s.free)} + Tables(s) && !Partition(base, s') && p !in Pages(s)
  {
    hide Pages, PathTables, UpperTables, Leaf, Sized, Linked, Counted, Grows, MapPage, Tidy, Tables;
    var f := Lowest(s.free);
    var s0 := s.(free := s.free - {f});
    FewerFree(s, s.free - {f});
    LastTableMissing(s0, p);
    MapPageWithoutFrames(s0, p, f);
    NoTableNoPage(s, p);
  }

  lemma KeysStep(m: map<nat, nat>, p: nat, f: nat, rest: set<nat>)
    requires {p} + rest !! m.Keys && p !in rest
    ensures rest !! m[p := f].Keys && p !in m
  {
  }

  lemma KeysJoin(m: map<nat, nat>, p: nat, f: nat, m': map<nat, nat>, r: set<nat>)
    requires m'.Keys == m[p := f].Keys + r && p !in m
    requires forall q | q in m[p := f] :: m'[q] == m[p := f][q]
    ensures m'.Keys == m.Keys + ({p} + r)
    ensures forall q | q in m :: m'[q] == m[q]
  {
    assert forall q | q in m :: q in m[p := f];
  }

  // vmm_free's loop unmaps exactly the pages of its range, and every table left stays in its frame.
  lemma {:induction false} FreePagesKeep(base: set<nat>, s: Space, p: nat, n: nat)
    requires Owns(base, s) && p + n <= PAGES
    ensures var s' := FreePages(s, p, n);
            Owns(base, s') && Grows(s', s) && Pages(s') == Pages(s) - Range(p, n)
    decreases n
  {
    hide Owns, Pages, Range, FreeOne, Grows;
    if n == 0 {
      InRange(p, 0);
      NothingRemoved(Pages(s), Range(p, 0));
      GrowsItself(s);
    } else {
      RangeStep(p, n);
      FreeOneKeeps(base, s, p);
      var s1 := FreeOne(s, p);
      FreePagesKeep(base, s1, p + 1, n - 1);
      GrowsFrom(FreePages(s1, p + 1, n - 1), s1, s);
      RemovedTwice(Pages(s), {p}, Range(p + 1, n - 1));
    }
  }

  lemma GrowsItself(s: Space)
    ensures Grows(s, s)
  {
  }

  lemma GrowsFrom(a: Space, b: Space, c: Space)
    requires Grows(a, b) && Grows(b, c)
    ensures Grows(a, c)
  {
  }

  lemma NothingRemoved(m: map<nat, nat>, a: set<nat>)
    requires a !! m.Keys
    ensures m - a == m
  {
  }

  lemma RemovedTwice(m: map<nat, nat>, a: set<nat>, b: set<nat>)
    ensures m - a - b == m - (a + b)
  {
  }

  // ---- Alloc then free restores ----

  // Two owned states with the same page map, whose tables sit inside a third state's tables, agree on
  // every table's place and frame and on the free set.
  lemma SamePagesSameFrames(base: set<nat>, s: Space, s': Space, s1: Space)
    requires Owns(base, s) && Owns(base, s') && Pages(s) == Pages(s')
    requires Grows(s, s1) && Grows(s', s1)
    ensures s'.at == s.at && s'.free == s.free
  {
    hide Pages, Sized, Linked, Separate, Counted, Tidy, TablesFor;
    TablesAreCanonical(s);
    TablesAreCanonical(s');
    assert s'.at.Keys == s.at.Keys;
    assert s'.at == s.at;
    hide Grows;
    assert Tables(s') == Tables(s);
    hide Tables;
    assert s.free == base - Tables(s) - Data(s);
    assert s'.free == base - Tables(s) - Data(s);
  }

  // Mapping n fresh pages and unmapping them again restores the free set frame for frame: each table made
  // on the way is freed again and each table that was there stays where it was.
  lemma AllocThenFreeRestores(base: set<nat>, s: Space, p: nat, n: nat)
    requires Owns(base, s) && p + n <= PAGES && 0 <= Left(s, p, n)
    requires Range(p, n) !! Pages(s).Keys
    ensures var s' := FreePages(AllocPages(s, p, n).0, p, n);
            s'.free == s.free && s'.at == s.at && Pages(s') == Pages(s) && Owns(base, s')
  {
    hide Owns, Pages, Range, Left, AllocPages, FreePages, Grows;
    AllocPagesKeep(base, s, p, n);
    var s1 := AllocPages(s, p, n).0;
    FreePagesKeep(base, s1, p, n);
    RestoredMap(Pages(s), Pages(s1), Range(p, n));
    SamePagesSameFrames(base, s, FreePages(s1, p, n), s1);
  }

  lemma RestoredMap(m: map<nat, nat>, m1: map<nat, nat>, r: set<nat>)
    requires m1.Keys == m.Keys + r && r !! m.Keys && forall q | q in m :: m1[q] == m[q]
    ensures m1 - r == m
  {
  }

  // ---- Nothing leaks ----

  lemma {:induction false} ImageSize<K(!new)>(m: map<K, nat>)
    requires OneToOne(m)
    ensures |m.Values| == |m.Keys|
    decreases |m|
  {
    if m != map[] {
      var p :| p in m;
      var rest := m - {p};
      ImageSize(rest);
      WithoutKey(m, p);
      assert m[p] !in rest.Values;
    }
  }

  lemma WithoutKey<K(!new)>(m: map<K, nat>, p: K)
    requires p in m
    ensures m.Keys == (m - {p}).Keys + {p} && m.Values == (m - {p}).Values + {m[p]}
  {
    var rest := m - {p};
    forall v | v in m.Values
      ensures v in rest.Values + {m[p]}
    {
      var q :| q in m && m[q] == v;
      assert q == p || (q in rest && rest[q] == v);
    }
  }

  // The tables below the root are as many as their places.
  lemma TableCount(s: Space)
    requires Separate(s)
    ensures |Tables(s)| == |s.at.Keys - {Root}|
  {
    var below := s.at - {Root};
    assert OneToOne(below) by {
      assert forall n | n in below :: below[n] == s.at[n];
    }
    ImageSize(below);
    assert below.Values == Tables(s) by {
      assert forall n | n in below :: below[n] == s.at[n];
    }
    assert below.Keys == s.at.Keys - {Root};
  }

  // The number of free frames depends on nothing but which pages are mapped; with nothing mapped every
  // frame is free again.
  lemma FreeCountIsDetermined(base: set<nat>, s: Space)
    requires Owns(base, s)
    ensures |s.free| + |Pages(s)| + |TablesFor(Pages(s).Keys)| == |base|
    ensures Pages(s) == map[] ==> s.free == base
  {
    hide Pages, TablesFor, Sized, Linked, Counted, Tidy, Tables;
    TablesAreCanonical(s);
    ImageSize(Pages(s));
    TableCount(s);
    RootIsNoTableFor(Pages(s).Keys);
    hide Separate;
    assert {Root} + TablesFor(Pages(s).Keys) - {Root} == TablesFor(Pages(s).Keys);
    assert |s.free + Tables(s) + Data(s)| == |s.free| + |Tables(s)| + |Data(s)|;
    if Pages(s) == map[] {
      assert Data(s) == {};
      NoPagesNoTables();
    }
  }

  // Going from one owned state to a smaller one returns exactly the frames of the pages that are gone and of the tables
  // that no page needs any more.
  lemma FramesReturned(base: set<nat>, s: Space, s': Space)
    requires Owns(base, s) && Owns(base, s') && Grows(s', s)
    requires forall q | q in Pages(s') :: q in Pages(s) && Pages(s')[q] == Pages(s)[q]
    ensures s'.free == s.free + PageFrames(s, Pages(s).Keys - Pages(s').Keys) + TableFrames(s, s.at.Keys - s'.at.Keys)
    ensures s.at.Keys - s'.at.Keys == TablesFor(Pages(s).Keys) - TablesFor(Pages(s').Keys)
  {
    hide Pages, TablesFor, Sized, Linked, Counted, Tidy;
    TablesAreCanonical(s);
    TablesAreCanonical(s');
    RootIsNoTableFor(Pages(s).Keys);
    RootIsNoTableFor(Pages(s').Keys);
    TablesGone(s, s');
    PagesGone(Pages(s), Pages(s'));
    PageFramesAre(s, Pages(s).Keys - Pages(s').Keys);
    hide Tables, Separate, Grows, TableFrames, PageFrames;
    Complement(base, s.free, Tables(s), Data(s), s'.free, Tables(s'), Data(s'));
  }

  ghost function PageFrames(s: Space, ps: set<nat>): set<nat> {
    set q | q in ps && q in Pages(s) :: Pages(s)[q]
  }

  ghost function TableFrames(s: Space, ns: set<Node>): set<nat> {
    set n | n in ns && n in s.at :: s.at[n]
  }

  lemma TablesGone(s: Space, s': Space)
    requires Separate(s) && Grows(s', s) && Root in s'.at
    ensures Tables(s) - Tables(s') == TableFrames(s, s.at.Keys - s'.at.Keys) && Tables(s') <= Tables(s)
  {
    forall f | f in Tables(s) - Tables(s')
      ensures f in TableFrames(s, s.at.Keys - s'.at.Keys)
    {
      var n :| n in s.at && n != Root && s.at[n] == f;
      assert n !in s'.at;
    }
  }

  lemma PagesGone(m: map<nat, nat>, m': map<nat, nat>)
    requires OneToOne(m) && forall q | q in m' :: q in m && m'[q] == m[q]
    ensures m.Values - m'.Values == (set q | q in m.Keys - m'.Keys :: m[q]) && m'.Values <= m.Values
  {
    forall f | f in m.Values - m'.Values
      ensures f in (set q | q in m.Keys - m'.Keys :: m[q])
    {
      var q :| q in m && m[q] == f;
      assert q !in m';
    }
  }

  lemma PageFramesAre(s: Space, ps: set<nat>)
    requires ps <= Pages(s).Keys
    ensures PageFrames(s, ps) == (set q | q in ps :: Pages(s)[q])
  {
    hide Pages;
  }

  lemma Complement(base: set<nat>, a: set<nat>, b: set<nat>, c: set<nat>, a': set<nat>, b': set<nat>, c': set<nat>)
    requires base == a + b + c == a' + b' + c'
    requires a !! b && a !! c && b !! c && a' !! b' && a' !! c' && b' !! c'
    requires b' <= b && c' <= c
    ensures a' == a + (c - c') + (b - b')
  {
  }

  lemma RootIsNoTableFor(ps: set<nat>)
    ensures Root !in TablesFor(ps)
  {
  }

  lemma NoPagesNoTables()
    ensures TablesFor({}) == {}
  {
  }

  // One round of vmm_alloc's loop keeps the partition exactly when the page was not mapped: otherwise the frame
  // it had is lost, neither free nor in use.
  lemma RemapLosesFrame(base: set<nat>, s: Space, p: nat)
    requires Owns(base, s) && p < PAGES && s.free != {} && |PathTables(p) - s.at.Keys| < |s.free|
    ensures Partition(base, AllocOne(s, p)) <==> p !in Pages(s)
  {
    hide Pages, PathTables, Shape, Partition, AllocOne, Tables, Tidy;
    RoundMaps(base, s, p);
    PartitionAfterMapIff(base, s, AllocOne(s, p), p, Lowest(s.free));
  }

  lemma PartitionAfterMapIff(base: set<nat>, s: Space, s': Space, p: nat, f: nat)
    requires Partition(base, s) && f in s.free
    requires Pages(s') == Pages(s)[p := f] && s'.root == s.root
    requires s'.free + Tables(s') == s.free - {f} + Tables(s) && s'.free !! Tables(s')
    ensures Partition(base, s') <==> p !in Pages(s)
  {
    if p in Pages(s) {
      var g := Pages(s)[p];
      assert g in Data(s) && g in base;
      hide Pages, Tables;
      assert g !in Data(s') by {
        assert forall q | q in Pages(s') :: Pages(s')[q] == if q == p then f else Pages(s)[q];
      }
      assert g !in s'.free + Tables(s');
    } else {
      PartitionAfterMap(base, s, s', p, f);
    }
  }
}
