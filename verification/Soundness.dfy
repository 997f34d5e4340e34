/** What survives every call, also those that run short of frames: no frame is ever owned twice, and none comes from
    nowhere. Frames can only be lost. */
module Soundness {
  import opened Pmm
  import opened PageTree
  import opened Ownership

  // The frames that are free, hold a table or back a page.
  ghost function Accounted(s: Space): set<nat> {
    s.free + Tables(s) + Data(s)
  }

  // The tree is well formed, and each frame accounted for has exactly one owner.
  ghost predicate Sound(s: Space) {
    Shape(s) && Partition(Accounted(s), s)
  }

  lemma OwnedIsSound(base: set<nat>, s: Space)
    requires Owns(base, s)
    ensures Sound(s) && Accounted(s) == base
  {
    hide Shape, Tidy, Pages, Tables;
  }

  lemma AccountedFor(base: set<nat>, s: Space)
    requires Partition(base, s)
    ensures Accounted(s) == base
  {
    hide Pages, Tables;
  }

  // The walk looks at 36 bits of a page number only.
  lemma Wraps(s: Space, p: nat)
    ensures PathTables(p) == PathTables(p % PAGES) && UpperTables(p) == UpperTables(p % PAGES)
    ensures s.free != {} ==> AllocOne(s, p) == AllocOne(s, p % PAGES)
    ensures FreeOne(s, p) == FreeOne(s, p % PAGES)
  {
    SameIndices(p);
    hide Index4, Index3, Index2, Index1, Pruned, WithPath, WithLeaf, WithoutLeaf;
  }

  lemma SameIndices(p: nat)
    ensures Index4(p % PAGES) == Index4(p) && Index3(p % PAGES) == Index3(p)
    ensures Index2(p % PAGES) == Index2(p) && Index1(p % PAGES) == Index1(p)
  {
    FieldsOfRemainder(p);
  }

  // ---- One page at a time ----

  // A round keeps every frame owned once, and all frames accounted for exactly when its tables can be made and the
  // page was not mapped.
  lemma AllocOneSound(s: Space, p: nat)
    requires Sound(s) && s.free != {} && MissingUpper(s, p) < |s.free|
    ensures var s' := AllocOne(s, p);
            && Sound(s') && Accounted(s') <= Accounted(s) && s'.root == s.root
            && (Accounted(s') == Accounted(s) <==> Missing(s, p) < |s.free| && p % PAGES !in Pages(s))
  {
    hide Shape, Partition, Pages, AllocOne, Tables, Tidy, PathTables, UpperTables;
    var base, q, f := Accounted(s), p % PAGES, Lowest(s.free);
    Wraps(s, p);
    var s' := AllocOne(s, q);
    if Missing(s, q) < |s.free| {
      RoundMaps(base, s, q);
      SameRootExtended(s.(free := s.free - {f}), s', PathTables(q));
      if q in Pages(s) {
        Remapped(base, s, s', q, f);
      } else {
        AccountedFor(base, s');
      }
    } else {
      FrameLost(base, s, q);
      LostOne(base, s, s', f);
    }
  }

  lemma SameRootExtended(s: Space, s': Space, ks: set<Node>)
    requires Extended(s, s', ks)
    ensures s'.root == s.root
  {
    hide Shape, Grows, Tables;
  }

  // The frame a page had is lost when the page is mapped to another.
  lemma Remapped(base: set<nat>, s: Space, s': Space, p: nat, f: nat)
    requires Partition(base, s) && p in Pages(s) && f in s.free
    requires Pages(s') == Pages(s)[p := f] && s'.root == s.root
    requires s'.free + Tables(s') == s.free - {f} + Tables(s) && s'.free !! Tables(s')
    ensures Partition(Accounted(s'), s') && Accounted(s') < base
  {
    hide Pages, Tables;
    var g := Pages(s)[p];
    assert g in Data(s) && f !in Data(s);
    assert Data(s') == Data(s) - {g} + {f} by {
      assert forall q | q in Pages(s) && q != p :: q in Pages(s') && Pages(s')[q] == Pages(s)[q];
      assert Pages(s')[p] == f;
    }
    assert g !in Accounted(s');
  }

  lemma LostOne(base: set<nat>, s: Space, s': Space, f: nat)
    requires Partition(base, s) && f in s.free
    requires Pages(s') == Pages(s) && s'.root == s.root && s'.free == {} && Tables(s') == s.free - {f} + Tables(s)
    ensures Partition(Accounted(s'), s') && Accounted(s') < base
  {
    hide Pages, Tables;
    assert f !in Accounted(s');
  }

  // Unmapping and giving back keeps exactly the same frames accounted for.
  lemma FreeOneSound(s: Space, p: nat)
    requires Sound(s)
    ensures var s' := FreeOne(s, p);
            && Sound(s') && Accounted(s') == Accounted(s) && s'.root == s.root
            && (p < PAGES ==> Pages(s') == Pages(s) - {p})
  {
    hide Partition, Pages, FreeOne, Tables, Tidy, Linked, Separate, Counted;
    Wraps(s, p);
    FreeOneMoves(Accounted(s), s, p % PAGES);
    AccountedFor(Accounted(s), FreeOne(s, p));
    hide Sized;
    GrowsKeepsRoot(FreeOne(s, p), s);
  }

  lemma GrowsKeepsRoot(s': Space, s: Space)
    requires Grows(s', s) && Shape(s') && Shape(s)
    ensures s'.root == s.root
  {
    hide Linked, Separate, Counted;
  }

  // ---- Runs of pages ----

  lemma {:induction false} AllocPagesSound(s: Space, p: nat, n: nat)
    requires Sound(s) && Obtainable(s, p, n)
    ensures var s' := AllocPages(s, p, n).0;
            Sound(s') && Accounted(s') <= Accounted(s) && s'.root == s.root
    decreases n
  {
    hide Sound, Accounted, Obtainable, AllocPages, AllocOne, MissingUpper, Missing, Pages;
    AllocPagesUnfold(s, p, n);
    if n > 0 && s.free != {} {
      ObtainableNext(s, p, n);
      AllocOneSound(s, p);
      AllocPagesSound(AllocOne(s, p), p + 1, n - 1);
    }
  }

  lemma {:induction false} FreePagesSound(s: Space, p: nat, n: nat)
    requires Sound(s)
    ensures var s' := FreePages(s, p, n);
            && Sound(s') && Accounted(s') == Accounted(s) && s'.root == s.root
            && (p + n <= PAGES ==> Pages(s') == Pages(s) - Range(p, n))
    decreases n
  {
    hide Sound, Accounted, FreeOne, Pages;
    if n > 0 {
      FreeOneSound(s, p);
      FreePagesSound(FreeOne(s, p), p + 1, n - 1);
      RemovedTwice(Pages(s), {p}, Range(p + 1, n - 1));
    } else {
      NothingRemoved(Pages(s), {});
    }
  }

  // ---- What rounds that go on use up ----

  // How many pages outside l are mapped, less the frames accounted for.
  ghost function Balance(s: Space, l: set<nat>): int {
    |Pages(s).Keys - l| - |Accounted(s)|
  }

  // Each round either maps a page that was not mapped or loses a frame.
  lemma RoundCounts(s: Space, p: nat, l: set<nat>)
    requires Sound(s) && s.free != {} && MissingUpper(s, p) < |s.free| && p < PAGES && p !in l
    ensures Balance(AllocOne(s, p), l) >= Balance(s, l) + 1
  {
    hide Sound, Pages, AllocOne, Accounted, Missing, MissingUpper, Balance;
    AllocOneSound(s, p);
    PagesAfterRound(s, p);
    if p in Pages(s) || Missing(s, p) >= |s.free| {
      BalanceByLoss(s, AllocOne(s, p), p, l);
    } else {
      BalanceByMapping(s, AllocOne(s, p), p, l);
    }
  }

  lemma PagesAfterRound(s: Space, p: nat)
    requires Sound(s) && s.free != {} && MissingUpper(s, p) < |s.free| && p < PAGES
    ensures var s1 := AllocOne(s, p);
            if Missing(s, p) < |s.free| then Pages(s1).Keys == Pages(s).Keys + {p} else Pages(s1) == Pages(s)
  {
    hide Shape, Partition, Pages, AllocOne, Accounted, PathTables, MissingUpper, Tables, Tidy;
    if Missing(s, p) < |s.free| {
      RoundMaps(Accounted(s), s, p);
      KeysOf(Pages(s), p, Lowest(s.free));
    } else {
      FrameLost(Accounted(s), s, p);
    }
  }

  lemma BalanceByLoss(s: Space, s1: Space, p: nat, l: set<nat>)
    requires (Pages(s1).Keys == Pages(s).Keys + {p} && p in Pages(s)) || Pages(s1) == Pages(s)
    requires Accounted(s1) <= Accounted(s) && Accounted(s1) != Accounted(s)
    ensures Balance(s1, l) >= Balance(s, l) + 1
  {
    hide Pages, Accounted;
    SmallerSet(Accounted(s1), Accounted(s));
    assert Pages(s1).Keys == Pages(s).Keys;
  }

  lemma BalanceByMapping(s: Space, s1: Space, p: nat, l: set<nat>)
    requires Pages(s1).Keys == Pages(s).Keys + {p} && p !in Pages(s) && p !in l && Accounted(s1) == Accounted(s)
    ensures Balance(s1, l) == Balance(s, l) + 1
  {
    hide Pages, Accounted;
    OneMoreOutside(Pages(s).Keys, p, l);
  }

  lemma KeysOf(m: map<nat, nat>, p: nat, f: nat)
    ensures m[p := f].Keys == m.Keys + {p}
    ensures p in m ==> m.Keys + {p} == m.Keys
  {
  }

  lemma OneMoreOutside(k: set<nat>, p: nat, l: set<nat>)
    requires p !in k && p !in l
    ensures |k + {p} - l| == |k - l| + 1
  {
    assert k + {p} - l == (k - l) + {p};
  }

  lemma SmallerSet(a: set<nat>, b: set<nat>)
    requires a <= b && a != b
    ensures |a| < |b|
  {
    assert b == a + (b - a);
    assert b - a != {};
  }

  // Over the whole loop the balance never falls, and grows by at least the pages asked for if it succeeds.
  lemma {:induction false} RoundsCount(s: Space, p: nat, n: nat, l: set<nat>)
    requires Sound(s) && Obtainable(s, p, n) && p + |s.free| <= PAGES && Below(l, p)
    ensures var (s', ok) := AllocPages(s, p, n);
            && Balance(s', l) >= Balance(s, l) + (if ok then n else 0)
            && (ok ==> n <= |s.free|)
    decreases n
  {
    hide Sound, Obtainable, AllocPages, AllocOne, Balance, Below;
    AllocPagesUnfold(s, p, n);
    if n > 0 && s.free != {} {
      NextRound(s, p, n, l);
      RoundsCount(AllocOne(s, p), p + 1, n - 1, l);
    }
  }

  lemma NextRound(s: Space, p: nat, n: nat, l: set<nat>)
    requires Sound(s) && n > 0 && s.free != {} && Obtainable(s, p, n) && p + |s.free| <= PAGES && Below(l, p)
    ensures var s1 := AllocOne(s, p);
            && Sound(s1) && Obtainable(s1, p + 1, n - 1) && |s1.free| < |s.free| && Below(l, p + 1)
            && Balance(s1, l) >= Balance(s, l) + 1
  {
    hide Sound, Accounted, Obtainable, AllocOne, MissingUpper, Missing, Pages, Balance;
    ObtainableNext(s, p, n);
    AllocOneSound(s, p);
    AllocOneUses(s, p);
    RoundCounts(s, p, l);
  }
}
