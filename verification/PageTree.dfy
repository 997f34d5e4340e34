/** The reference-counted four-level page-table tree (mem/paging.c) as a value: the memory it
    lives in, which table stands at which place of the tree, and the free frames. The functions here are
    the effects of the C functions, and the lemmas say what those effects mean for translation. */
module PageTree {
  import opened Wrappers
  import opened Pmm

  const ENTRIES: nat := 512
  const PAGES: nat := 0x10_0000_0000
  const U32: nat := 0x1_0000_0000

  // A place in the tree: the PML4, or the child at an index of another place.
  datatype Node = Root | Sub(up: Node, ix: nat)

  // The PML4 and the tables of the next two levels: their entries lead to tables.
  predicate Inner(n: Node) {
    n.Root? || n.up.Root? || n.up.up.Root?
  }

  datatype Entry = Entry(frame: nat, present: bool, writable: bool)
  const NO_ENTRY := Entry(0, false, false)

  datatype Table = Table(entries: seq<Entry>, refCount: nat)

  // A frame after memset: no entry, no reference.
  function Zeroed(): Table {
    Table(seq(ENTRIES, _ => NO_ENTRY), 0)
  }

  // mem: the tables by frame number; at: the frame of the table at each place; free: the allocator's free set.
  datatype Space = Space(mem: map<nat, Table>, root: nat, at: map<Node, nat>, free: set<nat>)

  // ---- Virtual pages and their paths ----

  function Index4(p: nat): nat { p / 512 / 512 / 512 % 512 }
  function Index3(p: nat): nat { p / 512 / 512 % 512 }
  function Index2(p: nat): nat { p / 512 % 512 }
  function Index1(p: nat): nat { p % 512 }

  function PdptOf(p: nat): Node { Sub(Root, Index4(p)) }
  function PdOf(p: nat): Node { Sub(PdptOf(p), Index3(p)) }
  function PtOf(p: nat): Node { Sub(PdOf(p), Index2(p)) }

  // The page an address belongs to: translation looks at bits 12 to 47 only.
  function PageOf(vaddr: nat): nat { vaddr / PAGE_SIZE % PAGES }

  // The four 9-bit fields that the code shifts and masks out of an address.
  lemma AddressIndices(vaddr: nat)
    ensures vaddr / 0x80_0000_0000 % 512 == Index4(PageOf(vaddr))
    ensures vaddr / 0x4000_0000 % 512 == Index3(PageOf(vaddr))
    ensures vaddr / 0x20_0000 % 512 == Index2(PageOf(vaddr))
    ensures vaddr / 0x1000 % 512 == Index1(PageOf(vaddr))
  {
    var q := vaddr / 0x1000;
    assert vaddr / 0x20_0000 == q / 512;
    assert vaddr / 0x4000_0000 == q / 512 / 512;
    assert vaddr / 0x80_0000_0000 == q / 512 / 512 / 512;
    FieldsOfRemainder(q);
  }

  lemma FieldsOfRemainder(q: nat)
    ensures q % PAGES % 512 == q % 512
    ensures q % PAGES / 512 % 512 == q / 512 % 512
    ensures q % PAGES / 512 / 512 % 512 == q / 512 / 512 % 512
    ensures q % PAGES / 512 / 512 / 512 % 512 == q / 512 / 512 / 512 % 512
  {
    var k, r := q / PAGES, q % PAGES;
    assert q == r + 512 * (k * 0x800_0000);
    FieldUp(q, r, k * 0x800_0000, k * 0x4_0000);
    FieldUp(q / 512, r / 512, k * 0x4_0000, k * 512);
    FieldUp(q / 512 / 512, r / 512 / 512, k * 512, k);
    SameField(q / 512 / 512 / 512, r / 512 / 512 / 512, k);
  }

  lemma SameField(q: nat, r: nat, k: nat)
    requires q == r + 512 * k
    ensures q % 512 == r % 512
  {
  }

  // Dropping the lowest field of numbers that differ by a multiple of 512 * 512.
  lemma FieldUp(q: nat, r: nat, k: nat, j: nat)
    requires q == r + 512 * k && k == 512 * j
    ensures q % 512 == r % 512 && q / 512 == r / 512 + 512 * j
  {
  }

  lemma PathIsInjective(p: nat, q: nat)
    requires p < PAGES && q < PAGES
    requires PtOf(p) == PtOf(q) && Index1(p) == Index1(q)
    ensures p == q
  {
    assert p / 512 / 512 / 512 < 512 && q / 512 / 512 / 512 < 512;
    assert p / 512 / 512 / 512 == q / 512 / 512 / 512;
    assert p / 512 / 512 == q / 512 / 512;
    assert p / 512 == q / 512;
  }

  // ---- Reading the tree ----

  function SlotOf(mem: map<nat, Table>, t: nat, i: nat): Entry {
    if t in mem && i < |mem[t].entries| then mem[t].entries[i] else NO_ENTRY
  }

  // One step of the processor's walk: the frame a present entry points to.
  function Next(mem: map<nat, Table>, t: nat, i: nat): Option<nat> {
    if SlotOf(mem, t, i).present then Some(SlotOf(mem, t, i).frame) else None
  }

  // The page walk of section 4.5 of volume 3A of the Intel SDM: it sees memory and the root, nothing else.
  function Walk(mem: map<nat, Table>, root: nat, p: nat): Option<nat> {
    match Next(mem, root, Index4(p))
    case None => None
    case Some(pdpt) =>
      match Next(mem, pdpt, Index3(p))
      case None => None
      case Some(pd) =>
        match Next(mem, pd, Index2(p))
        case None => None
        case Some(pt) => Next(mem, pt, Index1(p))
  }

  // The finite map from pages to frames that the tree stands for.
  ghost function Pages(s: Space): map<nat, nat> {
    map p: nat | p < PAGES && Walk(s.mem, s.root, p).Some? :: Walk(s.mem, s.root, p).value
  }

  function TableAt(s: Space, n: Node): Table {
    if n in s.at && s.at[n] in s.mem then s.mem[s.at[n]] else Zeroed()
  }

  function Slot(s: Space, n: Node, i: nat): Entry {
    if i < |TableAt(s, n).entries| then TableAt(s, n).entries[i] else NO_ENTRY
  }

  ghost function Present(t: Table): set<nat> {
    set i: nat | i < |t.entries| && t.entries[i].present
  }

  // ---- The tree invariant ----

  ghost predicate Sized(s: Space) {
    && Root in s.at && s.at[Root] == s.root
    && (forall n | n in s.at :: s.at[n] in s.mem && |TableAt(s, n).entries| == ENTRIES)
  }

  // A place below another one is exactly a present entry of it, and the entry leads to its table.
  ghost predicate Linked(s: Space) {
    && (forall n, i: nat | Sub(n, i) in s.at :: n in s.at && Inner(n) && i < ENTRIES
         && Slot(s, n, i) == Entry(s.at[Sub(n, i)], true, true))
    && (forall n, i: nat | n in s.at && Inner(n) && Slot(s, n, i).present :: Sub(n, i) in s.at)
  }

  // Each table has one place, and none is free.
  ghost predicate Separate(s: Space) {
    && (forall n, m {:trigger s.at[n], s.at[m]} | n in s.at && m in s.at && s.at[n] == s.at[m] :: n == m)
    && (forall n | n in s.at :: s.at[n] !in s.free && (n == Root || 0 < s.at[n] < FRAMES))
    && (forall f | f in s.free :: 0 < f < FRAMES)
  }

  ghost predicate Counted(s: Space) {
    forall n | n in s.at && n != Root :: TableAt(s, n).refCount == |Present(TableAt(s, n))|
  }

  ghost predicate Shape(s: Space) {
    Sized(s) && Linked(s) && Separate(s) && Counted(s)
  }

  // No table but the root is empty, except possibly the one at x.
  ghost predicate TidyBut(s: Space, x: Node) {
    forall n | n in s.at && n != Root && n != x :: TableAt(s, n).refCount != 0
  }

  ghost predicate Tidy(s: Space) {
    TidyBut(s, Root)
  }

  ghost function Tables(s: Space): set<nat> {
    set n | n in s.at && n != Root :: s.at[n]
  }

  // ---- The writes ----

  function Increment(c: nat): nat { (c + 1) % U32 }
  function Decrement(c: nat): nat { (c + U32 - 1) % U32 }

  // get_next_table with create: the place below n at i gets a zeroed table if it has none and a frame is free.
  ghost function WithTable(s: Space, n: Node, i: nat): Space {
    if n !in s.at || Sub(n, i) in s.at || s.free == {} || i >= |TableAt(s, n).entries| then s
    else
      var f := Lowest(s.free);
      var t := TableAt(s, n);
      s.(mem := s.mem[f := Zeroed()][s.at[n] := Table(t.entries[i := Entry(f, true, true)], Increment(t.refCount))],
         at := s.at[Sub(n, i) := f],
         free := s.free - {f})
  }

  // The last-level write of paging_map.
  function WithLeaf(s: Space, n: Node, i: nat, f: nat): Space {
    if n !in s.at || i >= |TableAt(s, n).entries| then s
    else
      var t := TableAt(s, n);
      s.(mem := s.mem[s.at[n] := Table(t.entries[i := Entry(f, true, true)],
                                       if t.entries[i].present then t.refCount else Increment(t.refCount))])
  }

  // The last-level write of paging_unmap: only the present bit goes.
  function WithoutLeaf(s: Space, n: Node, i: nat): Space {
    if n !in s.at || i >= |TableAt(s, n).entries| then s
    else
      var t := TableAt(s, n);
      s.(mem := s.mem[s.at[n] := Table(t.entries[i := t.entries[i].(present := false)], Decrement(t.refCount))])
  }

  // Freeing the table at n and clearing the entry that led to it; the root's count is not touched.
  function WithoutTable(s: Space, n: Node): Space {
    if n !in s.at || n.Root? || n.up !in s.at || n.ix >= |TableAt(s, n.up).entries| then s
    else
      var t := TableAt(s, n.up);
      s.(mem := s.mem[s.at[n.up] := Table(t.entries[n.ix := NO_ENTRY],
                                          if n.up.Root? then t.refCount else Decrement(t.refCount))],
         at := s.at - {n},
         free := s.free + {s.at[n]})
  }

  // The cascade of paging_unmap: free the table at n if it is empty, then look at the one above.
  function Pruned(s: Space, n: Node): Space
    decreases n
  {
    if n.Root? || TableAt(s, n).refCount != 0 then s else Pruned(WithoutTable(s, n), n.up)
  }

  // The three get_next_table calls of paging_map.
  ghost function WithPath(s: Space, i4: nat, i3: nat, i2: nat): Space {
    WithTable(WithTable(WithTable(s, Root, i4), Sub(Root, i4), i3), Sub(Sub(Root, i4), i3), i2)
  }

  // Without a last-level table paging_map gives up.
  ghost function MapPage(s: Space, p: nat, f: nat): Space {
    WithLeaf(WithPath(s, Index4(p), Index3(p), Index2(p)), PtOf(p), Index1(p), f)
  }

  function UnmapPage(s: Space, p: nat): Space {
    if Slot(s, PtOf(p), Index1(p)).present
    then Pruned(WithoutLeaf(s, PtOf(p), Index1(p)), PtOf(p))
    else s
  }

  // ---- Counting ----

  lemma PresentAfterWrite(t: Table, i: nat, e: Entry, c: nat)
    requires i < |t.entries|
    ensures Present(Table(t.entries[i := e], c)) == if e.present then Present(t) + {i} else Present(t) - {i}
  {
  }

  lemma PresentBound(t: Table)
    ensures |Present(t)| <= |t.entries|
  {
    IntervalSize(0, |t.entries|, Present(t));
  }

  // ---- Translation through the tree ----

  function Leaf(s: Space, p: nat): Option<nat> {
    if Slot(s, PtOf(p), Index1(p)).present then Some(Slot(s, PtOf(p), Index1(p)).frame) else None
  }

  lemma NextIsChild(s: Space, n: Node, i: nat)
    requires Shape(s) && n in s.at && Inner(n)
    ensures Next(s.mem, s.at[n], i) == if Sub(n, i) in s.at then Some(s.at[Sub(n, i)]) else None
  {
    assert SlotOf(s.mem, s.at[n], i) == Slot(s, n, i);
  }

  // What the processor sees is what stands in the last-level table of the page's path.
  lemma WalkIsLeaf(s: Space, p: nat)
    requires Shape(s)
    ensures Walk(s.mem, s.root, p) == Leaf(s, p)
  {
    NextIsChild(s, Root, Index4(p));
    if PdptOf(p) in s.at {
      NextIsChild(s, PdptOf(p), Index3(p));
      if PdOf(p) in s.at {
        NextIsChild(s, PdOf(p), Index2(p));
        if PtOf(p) in s.at {
          assert SlotOf(s.mem, s.at[PtOf(p)], Index1(p)) == Slot(s, PtOf(p), Index1(p));
        }
      }
    }
  }

  // The processor lets a write through only where every entry on its way allows it, and all those above the last level
  // do so.
  lemma PathIsWritable(s: Space, p: nat)
    requires Shape(s) && Walk(s.mem, s.root, p).Some?
    ensures var e4 := SlotOf(s.mem, s.root, Index4(p));
            var e3 := SlotOf(s.mem, e4.frame, Index3(p));
            var e2 := SlotOf(s.mem, e3.frame, Index2(p));
            e4.present && e4.writable && e3.present && e3.writable && e2.present && e2.writable
  {
    hide Counted, Separate, Index4, Index3, Index2, Index1;
    WalkIsLeaf(s, p);
    PresentStands(s, PtOf(p), Index1(p));
    assert SlotOf(s.mem, s.at[Root], Index4(p)) == Slot(s, Root, Index4(p));
    assert SlotOf(s.mem, s.at[PdptOf(p)], Index3(p)) == Slot(s, PdptOf(p), Index3(p));
    assert SlotOf(s.mem, s.at[PdOf(p)], Index2(p)) == Slot(s, PdOf(p), Index2(p));
  }

  // ---- What each write keeps ----

  // Every table of s is a table of s' too, in the same frame.
  ghost predicate Grows(s: Space, s': Space) {
    forall n | n in s.at :: n in s'.at && s'.at[n] == s.at[n]
  }

  // s and s' translate every page alike, and have the same frames in tables and free.
  ghost predicate SameView(s: Space, s': Space) {
    && s'.root == s.root
    && (forall p: nat :: Leaf(s', p) == Leaf(s, p))
    && s'.free + Tables(s') == s.free + Tables(s)
  }

  // s' has the places of s, and the table at n is now t while the others are as they were.
  ghost predicate Rewritten(s: Space, s': Space, n: Node, t: Table) {
    && s'.root == s.root && s'.at == s.at && s'.free == s.free
    && TableAt(s', n) == t
    && (forall m | m in s.at && m != n :: TableAt(s', m) == TableAt(s, m))
  }

  // A zeroed table has been put below n at i, in frame f.
  ghost predicate TableAdded(s: Space, s': Space, n: Node, i: nat, f: nat) {
    && s'.root == s.root && s'.at == s.at[Sub(n, i) := f] && s'.free == s.free - {f}
    && f in s.free
    && TableAt(s', Sub(n, i)) == Zeroed()
    && i < |TableAt(s, n).entries|
    && TableAt(s', n) == Table(TableAt(s, n).entries[i := Entry(f, true, true)], Increment(TableAt(s, n).refCount))
    && (forall m | m in s.at && m != n :: TableAt(s', m) == TableAt(s, m))
  }

  lemma WithTableAdds(s: Space, n: Node, i: nat)
    requires Sized(s) && Separate(s) && n in s.at && i < ENTRIES
    requires Sub(n, i) !in s.at && s.free != {}
    ensures TableAdded(s, WithTable(s, n, i), n, i, Lowest(s.free))
    ensures Sized(WithTable(s, n, i))
  {
  }

  lemma AddedLinked(s: Space, s': Space, n: Node, i: nat, f: nat)
    requires Sized(s) && Linked(s) && TableAdded(s, s', n, i, f)
    requires n in s.at && Inner(n) && i < ENTRIES && Sub(n, i) !in s.at
    ensures Linked(s')
  {
    assert forall m, j: nat | m in s.at && !(m == n && j == i) :: Slot(s', m, j) == Slot(s, m, j);
    assert Slot(s', n, i) == Entry(f, true, true);
    assert forall j: nat :: !Slot(s', Sub(n, i), j).present;
  }

  lemma AddedCounted(s: Space, s': Space, n: Node, i: nat, f: nat)
    requires Sized(s) && Counted(s) && TableAdded(s, s', n, i, f)
    requires n in s.at && i < ENTRIES && Sub(n, i) !in s.at && !Slot(s, n, i).present
    ensures Counted(s') && (TidyBut(s, n) ==> TidyBut(s', Sub(n, i)))
  {
    hide Present, Increment;
    if n != Root {
      CountAfterWrite(TableAt(s, n), i, Entry(f, true, true));
      IncrementPositive(TableAt(s, n));
    }
    ZeroedIsEmpty();
  }

  lemma ZeroedIsEmpty()
    ensures Present(Zeroed()) == {}
  {
  }

  lemma IncrementPositive(t: Table)
    requires |t.entries| == ENTRIES && t.refCount == |Present(t)|
    ensures Increment(t.refCount) != 0
  {
    PresentBound(t);
  }

  lemma AddedSameView(s: Space, s': Space, n: Node, i: nat, f: nat)
    requires Separate(s) && TableAdded(s, s', n, i, f)
    requires n in s.at && Inner(n) && Sub(n, i) !in s.at
    ensures SameView(s, s')
  {
    hide Tables, Separate, Index4, Index3, Index2, Index1;
    AddedTables(s, s', n, i, f);
    forall p
      ensures Leaf(s', p) == Leaf(s, p)
    {
      assert !Inner(PtOf(p));
    }
  }

  lemma AddedTables(s: Space, s': Space, n: Node, i: nat, f: nat)
    requires TableAdded(s, s', n, i, f) && Sub(n, i) !in s.at
    ensures Tables(s') == Tables(s) + {f} && s'.free + Tables(s') == s.free + Tables(s)
  {
    hide TableAt;
    assert s'.at[Sub(n, i)] == f;
    assert forall m | m in s.at :: m in s'.at && s'.at[m] == s.at[m];
  }

  // s' is s with tables at the places ks as well, each made in a frame that was free.
  ghost predicate Extended(s: Space, s': Space, ks: set<Node>) {
    && Shape(s') && Grows(s, s') && s'.root == s.root
    && s'.at.Keys == s.at.Keys + ks
    && s'.free + Tables(s') == s.free + Tables(s)
    && s'.free <= s.free && |s'.free| + |ks - s.at.Keys| == |s.free|
  }

  lemma CountSplit<T>(k: set<T>, ks: set<T>, c: set<T>)
    requires ks <= c
    ensures |c - k| == |ks - k| + |c - (k + ks)|
  {
    assert c - k == (ks - k) + (c - (k + ks));
  }

  lemma CountUnion<T>(k: set<T>, ks: set<T>, ls: set<T>)
    ensures |ks + ls - k| == |ks - k| + |ls - (k + ks)|
    ensures k + ks + ls == k + (ks + ls)
  {
    CountSplit(k, ks, ks + ls);
    assert ks + ls - (k + ks) == ls - (k + ks);
  }

  // Frames still needed for the places c fall exactly as frames are used for some of them.
  lemma NeedFalls(s: Space, s': Space, ks: set<Node>, c: set<Node>)
    requires Extended(s, s', ks) && ks <= c
    ensures |c - s.at.Keys| - |c - s'.at.Keys| == |s.free| - |s'.free|
  {
    hide Shape;
    CountSplit(s.at.Keys, ks, c);
  }

  lemma ExtendedTwice(s: Space, s1: Space, s2: Space, ks: set<Node>, ls: set<Node>)
    requires Extended(s, s1, ks) && Extended(s1, s2, ls)
    ensures Extended(s, s2, ks + ls)
  {
    hide Shape, Tables;
    CountUnion(s.at.Keys, ks, ls);
  }

  lemma AddedSeparate(s: Space, s': Space, n: Node, i: nat, f: nat)
    requires Separate(s) && TableAdded(s, s', n, i, f) && Sub(n, i) !in s.at
    ensures Separate(s') && Grows(s, s') && s'.root == s.root && s'.at.Keys == s.at.Keys + {Sub(n, i)}
    ensures s'.free <= s.free && |s'.free| == |s.free| - 1
  {
  }

  lemma WithTableKeeps(s: Space, n: Node, i: nat)
    requires Shape(s) && n in s.at && Inner(n) && i < ENTRIES
    requires Sub(n, i) in s.at || s.free != {}
    ensures var s' := WithTable(s, n, i);
            && Extended(s, s', {Sub(n, i)}) && SameView(s, s')
            && (TidyBut(s, n) ==> TidyBut(s', Sub(n, i)))
  {
    hide Sized, Linked, Separate, Counted, WithTable, TidyBut, Leaf, Slot;
    if Sub(n, i) !in s.at {
      MissingTableMade(s, n, i);
    } else {
      ChildOfEntry(s, n, i);
      assert {Sub(n, i)} - s.at.Keys == {};
      assert s.at.Keys + {Sub(n, i)} == s.at.Keys;
      NotEmpty(s, n, i);
    }
  }

  // A table with a present entry has a reference.
  lemma NotEmpty(s: Space, n: Node, i: nat)
    requires Counted(s) && n in s.at && Slot(s, n, i).present
    ensures TidyBut(s, n) ==> TidyBut(s, Sub(n, i))
  {
    assert i in Present(TableAt(s, n));
  }

  lemma SameTables(s: Space, s': Space)
    requires SameView(s, s')
    ensures s'.free + Tables(s') == s.free + Tables(s)
  {
  }

  lemma MissingTableMade(s: Space, n: Node, i: nat)
    requires Shape(s) && n in s.at && Inner(n) && i < ENTRIES && Sub(n, i) !in s.at && s.free != {}
    ensures var s' := WithTable(s, n, i);
            && Extended(s, s', {Sub(n, i)}) && SameView(s, s')
            && (TidyBut(s, n) ==> TidyBut(s', Sub(n, i)))
  {
    hide WithTable, TableAdded, Tables, Grows, Sized, Linked, Separate, Counted, TableAt, Slot, SameView, TidyBut;
    ChildOfEntry(s, n, i);
    WithTableAdds(s, n, i);
    var s', f := WithTable(s, n, i), Lowest(s.free);
    AddedSeparate(s, s', n, i, f);
    AddedLinked(s, s', n, i, f);
    AddedCounted(s, s', n, i, f);
    AddedSameView(s, s', n, i, f);
    SameTables(s, s');
    assert {Sub(n, i)} - s.at.Keys == {Sub(n, i)};
  }

  // ---- Writing and clearing a last-level entry ----

  // Entry i of the last-level table at n is now e, and the table's count is still right.
  ghost predicate LeafSet(s: Space, s': Space, n: Node, i: nat, e: Entry) {
    && i < |TableAt(s, n).entries|
    && Rewritten(s, s', n, Table(TableAt(s, n).entries[i := e], TableAt(s', n).refCount))
    && TableAt(s', n).refCount == |Present(TableAt(s', n))|
  }

  lemma LeafSetKeeps(s: Space, s': Space, n: Node, i: nat, e: Entry)
    requires Shape(s) && n in s.at && !Inner(n)
    requires Sized(s') && LeafSet(s, s', n, i, e)
    ensures Shape(s')
    ensures forall p ::
              Leaf(s', p) ==
                if PtOf(p) == n && Index1(p) == i then (if e.present then Some(e.frame) else None) else Leaf(s, p)
    ensures TidyBut(s, n) ==> TidyBut(s', n)
    ensures e.present && TidyBut(s, n) ==> Tidy(s')
  {
    hide Sized, Linked, Separate, Counted, TidyBut, LeafSet;
    LeafSetInvariant(s, s', n, i, e);
    LeafSetLeaf(s, s', n, i, e);
    LeafSetTidy(s, s', n, i, e);
  }

  lemma LeafSetInvariant(s: Space, s': Space, n: Node, i: nat, e: Entry)
    requires Linked(s) && Separate(s) && Counted(s) && n in s.at && !Inner(n) && LeafSet(s, s', n, i, e)
    ensures Linked(s') && Separate(s') && Counted(s')
  {
    hide Present;
    LeafSetSlots(s, s', n, i, e);
  }

  lemma LeafSetSlots(s: Space, s': Space, n: Node, i: nat, e: Entry)
    requires LeafSet(s, s', n, i, e)
    ensures forall m, j: nat | m in s.at && m != n :: Slot(s', m, j) == Slot(s, m, j)
    ensures forall j: nat :: Slot(s', n, j) == if j == i then e else Slot(s, n, j)
  {
    hide Present;
  }

  lemma LeafSetLeaf(s: Space, s': Space, n: Node, i: nat, e: Entry)
    requires n in s.at && LeafSet(s, s', n, i, e)
    ensures forall p ::
              Leaf(s', p) ==
                if PtOf(p) == n && Index1(p) == i then (if e.present then Some(e.frame) else None) else Leaf(s, p)
  {
    hide LeafSet, Index4, Index3, Index2, Index1;
    LeafSetSlots(s, s', n, i, e);
    SamePlaces(s, s', n, i, e);
    forall p
      ensures Leaf(s', p) ==
              if PtOf(p) == n && Index1(p) == i then (if e.present then Some(e.frame) else None) else Leaf(s, p)
    {
      if PtOf(p) !in s.at {
        assert TableAt(s, PtOf(p)) == TableAt(s', PtOf(p)) == Zeroed();
      }
    }
  }

  lemma SamePlaces(s: Space, s': Space, n: Node, i: nat, e: Entry)
    requires LeafSet(s, s', n, i, e)
    ensures s'.at == s.at && s'.root == s.root && s'.free == s.free && Tables(s') == Tables(s)
    ensures forall t :: Grows(t, s') <==> Grows(t, s)
    ensures forall t :: Grows(s', t) <==> Grows(s, t)
  {
  }

  lemma PresentStands(s: Space, n: Node, i: nat)
    requires Slot(s, n, i).present
    ensures n in s.at
  {
  }

  lemma GrowsAsItself(s: Space)
    ensures Grows(s, s)
  {
  }

  lemma LeafSetTidy(s: Space, s': Space, n: Node, i: nat, e: Entry)
    requires LeafSet(s, s', n, i, e) && n in s.at
    ensures TidyBut(s, n) ==> TidyBut(s', n)
    ensures e.present && TidyBut(s, n) ==> Tidy(s')
  {
    if e.present {
      assert i in Present(TableAt(s', n));
    }
  }

  // The 32-bit count after one entry of a table is written is the number of present entries.
  lemma CountAfterWrite(t: Table, i: nat, e: Entry)
    requires |t.entries| == ENTRIES && i < ENTRIES && t.refCount == |Present(t)|
    ensures var c := if e.present && !t.entries[i].present then Increment(t.refCount)
                     else if !e.present && t.entries[i].present then Decrement(t.refCount)
                     else t.refCount;
            c == |Present(Table(t.entries[i := e], c))|
  {
    hide Present;
    PresentBound(t);
    PresentAfterWrite(t, i, e, t.refCount);
    PresentIgnoresCount(t.entries[i := e]);
    PresentAt(t, i);
    WithOrWithout(Present(t), i);
  }

  lemma PresentAt(t: Table, i: nat)
    requires i < |t.entries|
    ensures i in Present(t) <==> t.entries[i].present
  {
  }

  lemma WithOrWithout<T>(a: set<T>, x: T)
    ensures |a + {x}| == |a| + if x in a then 0 else 1
    ensures |a - {x}| == |a| - if x in a then 1 else 0
  {
    assert x in a ==> a + {x} == a;
    assert x !in a ==> a - {x} == a;
  }

  lemma PresentIgnoresCount(entries: seq<Entry>)
    ensures forall c, d :: Present(Table(entries, c)) == Present(Table(entries, d))
  {
  }

  lemma WithLeafSets(s: Space, n: Node, i: nat, f: nat)
    requires Shape(s) && n in s.at && n != Root && i < ENTRIES
    ensures LeafSet(s, WithLeaf(s, n, i, f), n, i, Entry(f, true, true)) && Sized(WithLeaf(s, n, i, f))
  {
    hide Linked, Present, Increment;
    CountAfterWrite(TableAt(s, n), i, Entry(f, true, true));
    OneTableWritten(s, WithLeaf(s, n, i, f), n);
  }

  lemma WithoutLeafSets(s: Space, n: Node, i: nat)
    requires Shape(s) && n in s.at && n != Root && Slot(s, n, i).present
    ensures LeafSet(s, WithoutLeaf(s, n, i), n, i, Slot(s, n, i).(present := false)) && Sized(WithoutLeaf(s, n, i))
  {
    hide Linked, Present, Decrement;
    CountAfterWrite(TableAt(s, n), i, Slot(s, n, i).(present := false));
    OneTableWritten(s, WithoutLeaf(s, n, i), n);
  }

  // Writing the table at n leaves the tables at the other places alone.
  lemma OneTableWritten(s: Space, s': Space, n: Node)
    requires Sized(s) && Separate(s) && n in s.at && s.at[n] in s'.mem
    requires s' == s.(mem := s.mem[s.at[n] := s'.mem[s.at[n]]])
    ensures forall m | m in s.at && m != n :: TableAt(s', m) == TableAt(s, m)
    ensures TableAt(s', n) == s'.mem[s.at[n]]
    ensures |s'.mem[s.at[n]].entries| == ENTRIES ==> Sized(s')
  {
  }

  // ---- Freeing an empty table ----

  ghost predicate TableRemoved(s: Space, s': Space, n: Node) {
    && n in s.at && n != Root
    && s'.root == s.root && s'.at == s.at - {n} && s'.free == s.free + {s.at[n]}
    && n.ix < |TableAt(s, n.up).entries|
    && TableAt(s', n.up) == Table(TableAt(s, n.up).entries[n.ix := NO_ENTRY],
                                  if n.up.Root? then TableAt(s, n.up).refCount
                                      else Decrement(TableAt(s, n.up).refCount))
    && (forall m | m in s'.at && m != n.up :: TableAt(s', m) == TableAt(s, m))
  }

  lemma WithoutTableRemoves(s: Space, n: Node)
    requires Sized(s) && Separate(s) && n in s.at && n != Root && n.up in s.at && n.ix < ENTRIES && n.up != n
    ensures TableRemoved(s, WithoutTable(s, n), n)
    ensures Sized(WithoutTable(s, n))
  {
  }

  lemma RemovedSeparate(s: Space, s': Space, n: Node)
    requires Separate(s) && TableRemoved(s, s', n)
    ensures Separate(s') && Grows(s', s) && s'.at.Keys == s.at.Keys - {n}
  {
  }

  lemma RemovedLinked(s: Space, s': Space, n: Node)
    requires Sized(s) && Linked(s) && TableRemoved(s, s', n) && n.up in s.at
    requires Present(TableAt(s, n)) == {}
    ensures Linked(s')
  {
    assert forall j: nat :: !Slot(s, n, j).present by {
      forall j: nat
        ensures !Slot(s, n, j).present
      {
        assert j !in Present(TableAt(s, n));
      }
    }
    assert !Slot(s', n.up, n.ix).present;
    assert forall m, j: nat | m in s'.at && !(m == n.up && j == n.ix) :: Slot(s', m, j) == Slot(s, m, j);
  }

  lemma RemovedCounted(s: Space, s': Space, n: Node)
    requires Sized(s) && Counted(s) && TableRemoved(s, s', n) && n.up in s.at && Slot(s, n.up, n.ix).present
    ensures Counted(s') && (TidyBut(s, n) ==> TidyBut(s', n.up))
  {
    var t := TableAt(s, n.up);
    PresentAfterWrite(t, n.ix, NO_ENTRY, TableAt(s', n.up).refCount);
    PresentBound(t);
    assert n.ix in Present(t);
  }

  lemma RemovedTables(s: Space, s': Space, n: Node)
    requires TableRemoved(s, s', n)
    ensures Tables(s) == Tables(s') + {s.at[n]}
  {
    hide TableAt;
    forall m | m in s.at && m != n && m != Root
      ensures s.at[m] in Tables(s')
    {
      assert m in s'.at && s'.at[m] == s.at[m];
    }
    assert s.at[n] in Tables(s);
  }

  lemma RemovedSameView(s: Space, s': Space, n: Node)
    requires TableRemoved(s, s', n) && n.up in s.at && Inner(n.up)
    requires Present(TableAt(s, n)) == {}
    ensures SameView(s, s')
  {
    hide Tables, Index4, Index3, Index2, Index1;
    RemovedTables(s, s', n);
    forall p
      ensures Leaf(s', p) == Leaf(s, p)
    {
      assert !Inner(PtOf(p));
      if PtOf(p) == n {
        assert Index1(p) !in Present(TableAt(s, n));
        assert TableAt(s', n) == Zeroed();
      }
    }
  }

  lemma WithoutTableKeeps(s: Space, n: Node)
    requires Shape(s) && n in s.at && n != Root && TableAt(s, n).refCount == 0
    ensures var s' := WithoutTable(s, n);
            && Shape(s') && Grows(s', s) && SameView(s, s') && n.up in s'.at
            && s'.at.Keys == s.at.Keys - {n}
            && (TidyBut(s, n) ==> TidyBut(s', n.up))
  {
    assert n == Sub(n.up, n.ix);
    var s' := WithoutTable(s, n);
    WithoutTableRemoves(s, n);
    RemovedSeparate(s, s', n);
    RemovedLinked(s, s', n);
    RemovedCounted(s, s', n);
    RemovedSameView(s, s', n);
  }

  // ---- paging_map and paging_unmap on the tree ----

  lemma {:induction false} PrunedKeeps(s: Space, n: Node)
    requires Shape(s) && n in s.at
    ensures var s' := Pruned(s, n);
            && Shape(s') && Grows(s', s) && SameView(s, s')
            && (TidyBut(s, n) ==> Tidy(s'))
    decreases n
  {
    if n.Root? || TableAt(s, n).refCount != 0 {
    } else {
      WithoutTableKeeps(s, n);
      PrunedKeeps(WithoutTable(s, n), n.up);
    }
  }

  // The three tables on the way to a page.
  function TwoBelow(n: Node, i: nat, j: nat): set<Node> {
    {Sub(n, i), Sub(Sub(n, i), j)}
  }

  function Chain(i4: nat, i3: nat, i2: nat): set<Node> {
    {Sub(Root, i4)} + TwoBelow(Sub(Root, i4), i3, i2)
  }

  function PathTables(p: nat): set<Node> {
    Chain(Index4(p), Index3(p), Index2(p))
  }

  // The tables get made on the way down, from as many free frames as tables are missing.
  lemma WithPathKeeps(s: Space, i4: nat, i3: nat, i2: nat)
    requires Shape(s) && i4 < ENTRIES && i3 < ENTRIES && i2 < ENTRIES
    requires |Chain(i4, i3, i2) - s.at.Keys| <= |s.free|
    ensures var s' := WithPath(s, i4, i3, i2);
            && Extended(s, s', Chain(i4, i3, i2)) && SameView(s, s')
            && (Tidy(s) ==> TidyBut(s', Sub(Sub(Sub(Root, i4), i3), i2)))
  {
    assert Root in s.at;
    hide Shape, Tables, Grows, Leaf, WithTable, TwoBelow;
    var a := Sub(Root, i4);
    var all, rest := Chain(i4, i3, i2), TwoBelow(a, i3, i2);
    NeedsOne(a, all, s.at.Keys);
    WithTableKeeps(s, Root, i4);
    var s1 := WithTable(s, Root, i4);
    NeedFalls(s, s1, {a}, all);
    DropMember(a, rest, s1.at.Keys);
    WithTwoTablesKeeps(s1, a, i3, i2);
    ExtendedTwice(s, s1, WithPath(s, i4, i3, i2), {a}, rest);
  }

  lemma NeedsOne<T>(a: T, c: set<T>, k: set<T>)
    requires a in c
    ensures a in k || 0 < |c - k|
  {
    assert a in k || a in c - k;
  }

  lemma DropMember<T>(a: T, c: set<T>, k: set<T>)
    requires a in k
    ensures {a} + c - k == c - k
  {
  }

  lemma WithTwoTablesKeeps(s: Space, n: Node, i: nat, j: nat)
    requires Shape(s) && n in s.at && Inner(n) && Inner(Sub(n, i)) && i < ENTRIES && j < ENTRIES
    requires |TwoBelow(n, i, j) - s.at.Keys| <= |s.free|
    ensures var s' := WithTable(WithTable(s, n, i), Sub(n, i), j);
            && Extended(s, s', TwoBelow(n, i, j)) && SameView(s, s')
            && (TidyBut(s, n) ==> TidyBut(s', Sub(Sub(n, i), j)))
  {
    hide Shape, Extended, SameView, WithTable, TidyBut;
    var b := Sub(n, i);
    var c := Sub(b, j);
    NeedsOne(b, {b, c}, s.at.Keys);
    WithTableKeeps(s, n, i);
    var s1 := WithTable(s, n, i);
    ExtendedMeans(s, s1, {b});
    NeedFalls(s, s1, {b}, {b, c});
    NeedsOne(c, {b, c}, s1.at.Keys);
    WithTableKeeps(s1, b, j);
    ExtendedTwice(s, s1, WithTable(s1, b, j), {b}, {c});
    SameViewTwice(s, s1, WithTable(s1, b, j));
    assert {b} + {c} == {b, c};
  }

  lemma ExtendedMeans(s: Space, s': Space, ks: set<Node>)
    requires Extended(s, s', ks)
    ensures Shape(s') && s'.at.Keys == s.at.Keys + ks
  {
  }

  lemma SameViewTwice(s: Space, s1: Space, s2: Space)
    requires SameView(s, s1) && SameView(s1, s2)
    ensures SameView(s, s2)
  {
    hide Leaf, Tables;
  }

  lemma MapAtKeeps(s: Space, i4: nat, i3: nat, i2: nat, i1: nat, f: nat)
    requires Shape(s) && i4 < ENTRIES && i3 < ENTRIES && i2 < ENTRIES && i1 < ENTRIES
    requires |Chain(i4, i3, i2) - s.at.Keys| <= |s.free|
    ensures
            var n := Sub(Sub(Sub(Root, i4), i3), i2);
            var s' := WithLeaf(WithPath(s, i4, i3, i2), n, i1, f);
            && Extended(s, s', Chain(i4, i3, i2))
            && (Tidy(s) ==> Tidy(s'))
            && (forall p: nat :: Leaf(s', p) == if PtOf(p) == n && Index1(p) == i1 then Some(f) else Leaf(s, p))
  {
    hide Shape, Extended, SameView, Tidy, TidyBut, Leaf, WithLeaf, Index1, PtOf, WithPath;
    var n := Sub(Sub(Sub(Root, i4), i3), i2);
    WithPathKeeps(s, i4, i3, i2);
    InPath(i4, i3, i2);
    hide Chain;
    LeafAfterTables(s, WithPath(s, i4, i3, i2), Chain(i4, i3, i2), n, i1, f);
  }

  lemma LeafAfterTables(s: Space, s1: Space, ks: set<Node>, n: Node, i: nat, f: nat)
    requires Extended(s, s1, ks) && SameView(s, s1) && n in ks && n != Root && !Inner(n) && i < ENTRIES
    ensures var s' := WithLeaf(s1, n, i, f);
            && Extended(s, s', ks)
            && (TidyBut(s1, n) ==> Tidy(s'))
            && (forall p: nat :: Leaf(s', p) == if PtOf(p) == n && Index1(p) == i then Some(f) else Leaf(s, p))
  {
    hide Shape, Index4, Index3, Index2, Index1, PtOf, Leaf, Sized, TidyBut, WithLeaf, LeafSet, Tables, Grows;
    var s' := WithLeaf(s1, n, i, f);
    WithLeafSets(s1, n, i, f);
    SamePlaces(s1, s', n, i, Entry(f, true, true));
    LeafSetKeeps(s1, s', n, i, Entry(f, true, true));
  }

  lemma InPath(i4: nat, i3: nat, i2: nat)
    ensures Sub(Sub(Sub(Root, i4), i3), i2) in Chain(i4, i3, i2)
  {
  }

  lemma MapPageKeeps(s: Space, p: nat, f: nat)
    requires Shape(s) && p < PAGES && |PathTables(p) - s.at.Keys| <= |s.free|
    ensures var s' := MapPage(s, p, f);
            && Extended(s, s', PathTables(p))
            && (Tidy(s) ==> Tidy(s'))
            && (forall q: nat | q < PAGES :: Leaf(s', q) == if q == p then Some(f) else Leaf(s, q))
  {
    hide Shape, Extended, Leaf;
    OnlyThisPage(p);
    MapAtKeeps(s, Index4(p), Index3(p), Index2(p), Index1(p), f);
  }

  lemma OnlyThisPage(p: nat)
    requires p < PAGES
    ensures Index4(p) < ENTRIES && Index3(p) < ENTRIES && Index2(p) < ENTRIES && Index1(p) < ENTRIES
    ensures forall q: nat | q < PAGES && PtOf(q) == PtOf(p) && Index1(q) == Index1(p) :: q == p
  {
    forall q: nat | q < PAGES && PtOf(q) == PtOf(p) && Index1(q) == Index1(p)
      ensures q == p
    {
      PathIsInjective(p, q);
    }
  }

  lemma UnmapPageKeeps(s: Space, p: nat)
    requires Shape(s) && p < PAGES
    ensures var s' := UnmapPage(s, p);
            && Shape(s') && Grows(s', s) && s'.root == s.root
            && s'.free + Tables(s') == s.free + Tables(s)
            && (Tidy(s) ==> Tidy(s'))
            && (forall q: nat | q < PAGES :: Leaf(s', q) == if q == p then None else Leaf(s, q))
  {
    hide Sized, Linked, Separate, Counted, TidyBut, Tables, Grows, Slot, WithoutLeaf, Pruned, Index4, Index3, Index2,
        Index1;
    if Slot(s, PtOf(p), Index1(p)).present {
      LeafCleared(s, p);
      PrunedKeeps(WithoutLeaf(s, PtOf(p), Index1(p)), PtOf(p));
    } else {
      LeafAbsent(s, p);
    }
  }

  lemma LeafCleared(s: Space, p: nat)
    requires Shape(s) && p < PAGES && Slot(s, PtOf(p), Index1(p)).present
    ensures var s1 := WithoutLeaf(s, PtOf(p), Index1(p));
            && Shape(s1) && s1.at == s.at && PtOf(p) in s1.at && s1.root == s.root && s1.free == s.free
            && Tables(s1) == Tables(s) && Grows(s1, s) && (Tidy(s) ==> TidyBut(s1, PtOf(p)))
            && (forall s' | Grows(s', s1) :: Grows(s', s))
            && (forall q: nat | q < PAGES :: Leaf(s1, q) == if q == p then None else Leaf(s, q))
  {
    hide Shape, Index4, Index3, Index2, Index1, Leaf, Slot, WithoutLeaf, LeafSet, Tables, Grows, TidyBut;
    var n, i := PtOf(p), Index1(p);
    var e := Slot(s, n, i).(present := false);
    PresentStands(s, n, i);
    WithoutLeafSets(s, n, i);
    SamePlaces(s, WithoutLeaf(s, n, i), n, i, e);
    LeafSetKeeps(s, WithoutLeaf(s, n, i), n, i, e);
    GrowsAsItself(s);
    TidyAnyway(s, n);
    OnlyThisPage(p);
  }

  lemma TidyAnyway(s: Space, n: Node)
    ensures Tidy(s) ==> TidyBut(s, n)
  {
  }

  lemma LeafAbsent(s: Space, p: nat)
    requires !Slot(s, PtOf(p), Index1(p)).present
    ensures Leaf(s, p) == None && Grows(s, s)
  {
  }

  // ---- The tree refines a finite map from pages to frames ----

  function Lookup(m: map<nat, nat>, p: nat): Option<nat> {
    if p in m then Some(m[p]) else None
  }

  lemma PagesAreLeaves(s: Space)
    requires Shape(s)
    ensures forall p: nat | p < PAGES :: Lookup(Pages(s), p) == Leaf(s, p)
    ensures forall p | p in Pages(s) :: p < PAGES
  {
    hide Shape, Leaf, Walk;
    forall p: nat | p < PAGES
      ensures Lookup(Pages(s), p) == Leaf(s, p)
    {
      WalkIsLeaf(s, p);
    }
  }

  // paging_map is map update: no other page's translation changes, whether tables get made or a page is remapped.
  lemma MapPageIsUpdate(s: Space, p: nat, f: nat)
    requires Shape(s) && p < PAGES && |PathTables(p) - s.at.Keys| <= |s.free|
    ensures Pages(MapPage(s, p, f)) == Pages(s)[p := f]
  {
    hide Shape, Leaf, MapPage, PathTables, Pages;
    MapPageKeeps(s, p, f);
    PagesAreLeaves(s);
    PagesAreLeaves(MapPage(s, p, f)) by { assert Extended(s, MapPage(s, p, f), PathTables(p)); }
    SameLookup(Pages(MapPage(s, p, f)), Pages(s)[p := f]);
  }

  lemma SameLookup(m: map<nat, nat>, m': map<nat, nat>)
    requires forall p | p in m || p in m' :: p < PAGES
    requires forall p: nat | p < PAGES :: Lookup(m, p) == Lookup(m', p)
    ensures m == m'
  {
    forall p: nat
      ensures Lookup(m, p) == Lookup(m', p)
    {
    }
    assert forall p :: p in m <==> Lookup(m, p).Some?;
    assert forall p :: p in m' <==> Lookup(m', p).Some?;
  }

  // paging_unmap is map removal, whichever tables get freed.
  lemma UnmapPageIsRemoval(s: Space, p: nat)
    requires Shape(s) && p < PAGES
    ensures Pages(UnmapPage(s, p)) == Pages(s) - {p}
  {
    hide Shape, Leaf, UnmapPage, Pages;
    UnmapPageKeeps(s, p);
    PagesAreLeaves(s);
    PagesAreLeaves(UnmapPage(s, p));
    SameLookup(Pages(UnmapPage(s, p)), Pages(s) - {p});
  }

  // When the last-level table cannot be made, nothing gets mapped and no frame is left; and the call leaves an empty
  // table behind exactly when one of the upper two tables had to be made on the way.
  lemma MapPageWithoutFrames(s: Space, p: nat, f: nat)
    requires Shape(s) && p < PAGES
    requires |UpperTables(p) - s.at.Keys| == |s.free| && PtOf(p) !in s.at
    ensures var s' := MapPage(s, p, f);
            && Shape(s') && Pages(s') == Pages(s) && PtOf(p) !in s'.at
            && s'.free == {} && Tables(s') == s.free + Tables(s) && s'.root == s.root
            && (Tidy(s) ==> (Tidy(s') <==> UpperTables(p) <= s.at.Keys))
  {
    hide Sized, Linked, Separate, Counted, Leaf, Pages, Tidy, WithTable, Tables, Grows;
    OnlyThisPage(p);
    var i4, i3 := Index4(p), Index3(p);
    hide Index4, Index3, Index2, Index1;
    RootStands(s);
    WithTwoTablesKeeps(s, Root, i4, i3);
    var s2 := WithTable(WithTable(s, Root, i4), PdptOf(p), i3);
    AllMade(s, s2, TwoBelow(Root, i4, i3));
    assert PtOf(p) !in s2.at;
    OutOfFrames(s2, PdOf(p), Index2(p), Index1(p), f);
    PagesAreLeaves(s);
    PagesAreLeaves(s2);
    SameLookup(Pages(s2), Pages(s));
    if UpperTables(p) <= s.at.Keys {
      NothingToMake(s, i4, i3);
    } else {
      PdNotBefore(s, i4, i3);
      NewTableIsEmpty(s, s2, PdOf(p), TwoBelow(Root, i4, i3));
    }
  }

  // If the frames suffice for the upper tables but not for the whole path, it is the last table that is missing.
  lemma LastTableMissing(s: Space, p: nat)
    requires |UpperTables(p) - s.at.Keys| <= |s.free| < |PathTables(p) - s.at.Keys|
    ensures |UpperTables(p) - s.at.Keys| == |s.free| && PtOf(p) !in s.at
  {
    hide PathTables, UpperTables;
    PathIsUpperAndLast(p);
    CountUnion(s.at.Keys, UpperTables(p), {PtOf(p)});
    AtMostOne({PtOf(p)} - (s.at.Keys + UpperTables(p)), PtOf(p));
  }

  lemma PathIsUpperAndLast(p: nat)
    ensures PathTables(p) == UpperTables(p) + {PtOf(p)}
  {
    hide Index4, Index3, Index2;
  }

  lemma AtMostOne<T>(a: set<T>, x: T)
    requires a <= {x}
    ensures |a| <= 1 && (|a| == 1 ==> x in a)
  {
    assert a == {} || a == {x};
  }

  // Whenever paging_map can get its upper tables it is map update or changes nothing, and it is map update exactly when
  // the frames suffice for the missing tables.
  lemma MapPageUpdatesIff(s: Space, p: nat, f: nat)
    requires Shape(s) && p < PAGES && |UpperTables(p) - s.at.Keys| <= |s.free|
    ensures Shape(MapPage(s, p, f))
    ensures Pages(MapPage(s, p, f)) == if |PathTables(p) - s.at.Keys| <= |s.free| then Pages(s)[p := f] else Pages(s)
    ensures Pages(MapPage(s, p, f)) == Pages(s)[p := f] <==> |PathTables(p) - s.at.Keys| <= |s.free|
  {
    hide Shape, Pages, PathTables, UpperTables, MapPage, Tables, Tidy;
    if |PathTables(p) - s.at.Keys| <= |s.free| {
      MapPageIsUpdate(s, p, f);
      MapPageHasShape(s, p, f);
    } else {
      LastTableMissing(s, p);
      MapPageWithoutFrames(s, p, f);
      NoTableNoPage(s, p);
    }
  }

  lemma MapPageHasShape(s: Space, p: nat, f: nat)
    requires Shape(s) && p < PAGES && |PathTables(p) - s.at.Keys| <= |s.free|
    ensures Shape(MapPage(s, p, f))
  {
    hide MapPage, PathTables, Leaf, Tidy;
    MapPageKeeps(s, p, f);
  }

  lemma NoTableNoPage(s: Space, p: nat)
    requires Shape(s) && PtOf(p) !in s.at
    ensures p !in Pages(s)
  {
    if p < PAGES {
      hide Shape, Pages;
      PagesAreLeaves(s);
      assert Leaf(s, p) == None;
    }
  }

  lemma RootStands(s: Space)
    requires Shape(s)
    ensures Root in s.at && s.at[Root] == s.root
  {
  }

  lemma AllMade(s: Space, s': Space, ks: set<Node>)
    requires Extended(s, s', ks) && |ks - s.at.Keys| == |s.free|
    ensures s'.free == {}
  {
  }

  lemma OutOfFrames(s: Space, n: Node, i: nat, j: nat, f: nat)
    requires s.free == {} && Sub(n, i) !in s.at
    ensures WithLeaf(WithTable(s, n, i), Sub(n, i), j, f) == s
  {
  }

  lemma NothingToMake(s: Space, i: nat, j: nat)
    requires TwoBelow(Root, i, j) <= s.at.Keys
    ensures WithTable(WithTable(s, Root, i), Sub(Root, i), j) == s
  {
  }

  lemma PdNotBefore(s: Space, i: nat, j: nat)
    requires Linked(s) && !(TwoBelow(Root, i, j) <= s.at.Keys)
    ensures Sub(Sub(Root, i), j) !in s.at
  {
  }

  // A table that was made while nothing was made below it is empty.
  lemma NewTableIsEmpty(s: Space, s': Space, n: Node, ks: set<Node>)
    requires Linked(s) && Linked(s') && Counted(s') && s'.at.Keys == s.at.Keys + ks
    requires n in ks && n !in s.at && n != Root && Inner(n)
    requires forall i: nat :: Sub(n, i) !in ks
    ensures !Tidy(s')
  {
    forall i: nat
      ensures !Slot(s', n, i).present
    {
      assert Sub(n, i) !in s.at;
      assert Sub(n, i) !in s'.at;
    }
    assert forall i :: i in Present(TableAt(s', n)) ==> Slot(s', n, i).present;
    assert Present(TableAt(s', n)) == {};
  }

  // paging_map finds or makes both upper tables, and so goes on through no null pointer, exactly when as many frames
  // are free as tables are missing.
  lemma UpperMadeIff(s: Space, p: nat)
    requires Shape(s)
    ensures var s1 := WithTable(s, Root, Index4(p));
            PdptOf(p) in s1.at && PdOf(p) in WithTable(s1, PdptOf(p), Index3(p)).at
            <==> |UpperTables(p) - s.at.Keys| <= |s.free|
  {
    hide Shape, WithTable, UpperTables, TwoBelow, Index4, Index3;
    if |UpperTables(p) - s.at.Keys| <= |s.free| {
      UpperCanBeMade(s, p);
    } else {
      UpperCannotBeMade(s, Index4(p), Index3(p)) by { SmallIndex(p); SameUpper(p); }
    }
  }

  lemma SameUpper(p: nat)
    ensures UpperTables(p) == TwoBelow(Root, Index4(p), Index3(p))
  {
  }

  lemma UpperCannotBeMade(s: Space, i: nat, j: nat)
    requires Shape(s) && i < ENTRIES && j < ENTRIES && |TwoBelow(Root, i, j) - s.at.Keys| > |s.free|
    ensures var s1 := WithTable(s, Root, i);
            !(Sub(Root, i) in s1.at && Sub(Sub(Root, i), j) in WithTable(s1, Sub(Root, i), j).at)
  {
    hide Sized, Separate, Counted, TableAt;
    var a := Sub(Root, i);
    var b := Sub(a, j);
    assert b in s.at ==> a in s.at;
    if a in s.at {
      assert {a, b} - s.at.Keys <= {b};
      AtMostOne({a, b} - s.at.Keys, b);
      assert s.free == {};
    } else {
      assert {a, b} - s.at.Keys == {a, b};
      assert |s.free| <= 1;
      if s.free != {} {
        OnlyOneFree(s, i);
      }
    }
  }

  // The one frame left becomes the table at i.
  lemma OnlyOneFree(s: Space, i: nat)
    requires |s.free| == 1
    ensures WithTable(s, Root, i) == s || WithTable(s, Root, i).free == {}
    ensures WithTable(s, Root, i).at.Keys <= s.at.Keys + {Sub(Root, i)}
  {
    hide TableAt;
    WithOrWithout(s.free, Lowest(s.free));
    assert s.free - {Lowest(s.free)} == {};
  }

  lemma UpperCanBeMade(s: Space, p: nat)
    requires Shape(s) && |UpperTables(p) - s.at.Keys| <= |s.free|
    ensures var s1 := WithTable(s, Root, Index4(p));
            PdptOf(p) in s1.at && PdOf(p) in WithTable(s1, PdptOf(p), Index3(p)).at
  {
    var i, j := Index4(p), Index3(p);
    hide Sized, Linked, Separate, Counted, Leaf, WithTable, Tables, Grows, Index4, Index3;
    RootStands(s);
    WithTwoTablesKeeps(s, Root, i, j) by { assert i < ENTRIES && j < ENTRIES by { SmallIndex(p); } }
    NeedsOne(Sub(Root, i), TwoBelow(Root, i, j), s.at.Keys);
    WithTableKeeps(s, Root, i) by { SmallIndex(p); }
  }

  lemma SmallIndex(p: nat)
    ensures Index4(p) < ENTRIES && Index3(p) < ENTRIES && Index2(p) < ENTRIES && Index1(p) < ENTRIES
  {
  }

  lemma TableStands(s: Space, n: Node, i: nat)
    requires Sized(s) && n in s.at && i < ENTRIES
    ensures s.at[n] in s.mem && i < |s.mem[s.at[n]].entries| && s.mem[s.at[n]].entries[i] == Slot(s, n, i)
    ensures TableAt(s, n) == s.mem[s.at[n]]
  {
  }

  // An entry is present exactly if a table stands below it, and then leads there.
  lemma ChildOfEntry(s: Space, n: Node, i: nat)
    requires Shape(s) && n in s.at && Inner(n)
    ensures Slot(s, n, i).present <==> Sub(n, i) in s.at
    ensures Sub(n, i) in s.at ==>
              Slot(s, n, i).frame == s.at[Sub(n, i)] && s.at[Sub(n, i)] != 0 && WithTable(s, n, i) == s
    ensures forall f | f in s.free :: 0 < f < FRAMES
  {
  }

  lemma NoTableMade(s: Space, n: Node, i: nat)
    requires s.free == {}
    ensures WithTable(s, n, i) == s
  {
  }

  // A table below the root stands below its own entry, in a frame the allocator manages.
  lemma TablesInRange(s: Space, n: Node)
    requires Shape(s) && n in s.at && n != Root
    ensures 0 < s.at[n] < FRAMES && n.ix < ENTRIES
  {
    assert n == Sub(n.up, n.ix);
  }

  lemma FreedTable(s: Space, n: Node)
    requires Shape(s) && n in s.at && n != Root && TableAt(s, n).refCount == 0 && n.up in s.at
    ensures Shape(WithoutTable(s, n)) && s.at[n] < FRAMES
    ensures s.at[n.up] in s.mem && n.ix < |s.mem[s.at[n.up]].entries|
    ensures var t := s.mem[s.at[n.up]];
            WithoutTable(s, n) ==
                Space(s.mem[s.at[n.up] :=
                    Table(t.entries[n.ix := NO_ENTRY], if n.up == Root then t.refCount else Decrement(t.refCount))],
                                        s.root, s.at - {n}, s.free + {s.at[n]})
  {
    hide Linked, Counted, SameView, TidyBut, Grows;
    WithoutTableKeeps(s, n);
    TablesInRange(s, n);
  }

  // WithLeaf and WithoutLeaf as writes of one table.
  lemma WrittenLeaf(s: Space, n: Node, i: nat, f: nat)
    requires Shape(s) && n in s.at && n != Root && !Inner(n) && i < ENTRIES
    ensures Shape(WithLeaf(s, n, i, f)) && s.at[n] in s.mem && i < |s.mem[s.at[n]].entries|
    ensures var t := s.mem[s.at[n]];
            WithLeaf(s, n, i, f) == s.(mem := s.mem[s.at[n] := Table(t.entries[i := Entry(f, true, true)],
                                                                     if t.entries[i].present then t.refCount
                                                                         else Increment(t.refCount))])
  {
    hide Linked, Separate, Counted;
    WithLeafSets(s, n, i, f);
    LeafSetKeeps(s, WithLeaf(s, n, i, f), n, i, Entry(f, true, true));
  }

  lemma ClearedLeaf(s: Space, n: Node, i: nat)
    requires Shape(s) && n in s.at && n != Root && !Inner(n) && Slot(s, n, i).present
    ensures Shape(WithoutLeaf(s, n, i)) && s.at[n] in s.mem && i < |s.mem[s.at[n]].entries|
    ensures var t := s.mem[s.at[n]];
            WithoutLeaf(s, n, i) ==
                s.(mem := s.mem[s.at[n] :=
                    Table(t.entries[i := t.entries[i].(present := false)], Decrement(t.refCount))])
  {
    hide Linked, Separate, Counted;
    WithoutLeafSets(s, n, i);
    LeafSetKeeps(s, WithoutLeaf(s, n, i), n, i, Slot(s, n, i).(present := false));
  }

  // WithTable as the writes of get_next_table: the new frame is no table yet.
  lemma AddedTable(s: Space, n: Node, i: nat)
    requires Shape(s) && n in s.at && Inner(n) && i < ENTRIES && Sub(n, i) !in s.at && s.free != {}
    ensures Shape(WithTable(s, n, i)) && Lowest(s.free) != s.at[n] && Lowest(s.free) != 0
    ensures s.at[n] in s.mem && i < |s.mem[s.at[n]].entries|
    ensures WithTable(s, n, i) ==
            Space(WithNewTable(s.mem, Lowest(s.free), s.at[n], i), s.root, s.at[Sub(n, i) := Lowest(s.free)],
                s.free - {Lowest(s.free)})
  {
    WithTableKeeps(s, n, i);
    hide Zeroed, Extended, SameView, TidyBut, Linked, Counted;
  }

  // Frame f zeroed, and entry i of table t leading to it.
  function WithNewTable(mem: map<nat, Table>, f: nat, t: nat, i: nat): map<nat, Table>
    requires t in mem && i < |mem[t].entries|
  {
    mem[f := Zeroed()][t := Table(mem[t].entries[i := Entry(f, true, true)], Increment(mem[t].refCount))]
  }

  lemma PruneStep(s: Space, n: Node)
    requires n != Root
    ensures Pruned(s, n) == if TableAt(s, n).refCount != 0 then s else Pruned(WithoutTable(s, n), n.up)
    ensures Pruned(WithoutTable(s, n), Root) == WithoutTable(s, n)
  {
  }

  lemma NoLeafToWrite(s: Space, n: Node, i: nat, f: nat)
    requires n !in s.at
    ensures WithLeaf(s, n, i, f) == s
  {
  }

  // A last-level table stands only where the two above it stand.
  lemma PathStands(s: Space, p: nat)
    requires Linked(s)
    ensures PtOf(p) in s.at ==> PdOf(p) in s.at
    ensures PdOf(p) in s.at ==> PdptOf(p) in s.at
  {
    hide Index4, Index3, Index2;
  }

  function UpperTables(p: nat): set<Node> {
    TwoBelow(Root, Index4(p), Index3(p))
  }

  // A root without present entries is a tree that maps nothing.
  lemma EmptyTree(root: nat, table: Table, free: set<nat>)
    requires |table.entries| == ENTRIES && Present(table) == {}
    requires root !in free && forall f | f in free :: 0 < f < FRAMES
    ensures var s := Space(map[root := table], root, map[Root := root], free);
            Shape(s) && Tidy(s) && Pages(s) == map[] && Tables(s) == {}
  {
    var s := Space(map[root := table], root, map[Root := root], free);
    forall i: nat
      ensures !Slot(s, Root, i).present
    {
      assert i !in Present(table);
    }
    assert Shape(s) by {
      assert forall n, i :: Sub(n, i) !in s.at;
    }
    PagesAreLeaves(s);
    hide Shape;
    SameLookup(Pages(s), map[]);
  }
}
