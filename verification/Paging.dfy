/** paging.c: the page-table code itself, working on tables in memory through frame pointers. */
module Paging {
  import opened Pmm
  import opened PageTree

  class Mmu {
    const pmm: FrameAllocator
    // The tables in physical memory, by frame number; a frame keeps its contents when it is freed.
    var mem: map<nat, Table>
    // The frame of the root table.
    var pml4: nat
    // Which table stands where.
    ghost var at: map<Node, nat>

    ghost function Snap(): Space
      reads this, pmm.bitmap
      requires pmm.Sized()
    {
      Space(mem, pml4, at, pmm.Free())
    }

    ghost predicate Valid()
      reads this, pmm, pmm.bitmap
    {
      pmm.Valid() && Shape(Snap())
    }

    // paging_init: the root is the table CR3 points to. It has no present entry yet.
    constructor (pmm: FrameAllocator, cr3: nat, table: Table)
      requires pmm.Valid() && cr3 / PAGE_SIZE !in pmm.Free() && 0 !in pmm.Free()
      requires |table.entries| == ENTRIES && Present(table) == {}
      ensures Valid() && Tidy(Snap()) && Pages(Snap()) == map[] && Tables(Snap()) == {}
      ensures this.pmm == pmm && pml4 == cr3 / PAGE_SIZE
    {
      this.pmm := pmm;
      pml4 := cr3 / PAGE_SIZE;
      mem := map[cr3 / PAGE_SIZE := table];
      at := map[Root := cr3 / PAGE_SIZE];
      new;
      EmptyTree(pml4, table, pmm.Free());
    }

    // The table the entry leads to, as a frame; 0 if there is none.
    method GetNextTable(t: nat, index: nat, create: bool, ghost n: Node) returns (next: nat)
      requires Valid() && n in at && at[n] == t && Inner(n) && index < ENTRIES
      modifies this`mem, this`at, pmm.bitmap
      ensures Snap() == if create then WithTable(old(Snap()), n, index) else old(Snap())
      ensures next == if Sub(n, index) in at then at[Sub(n, index)] else 0
      ensures next == 0 <==> Sub(n, index) !in at
      ensures Valid()
    {
      hide Linked, Counted, Separate, FreeSet, WithTable;
      TableStands(Snap(), n, index);
      ChildOfEntry(Snap(), n, index);
      if !mem[t].entries[index].present {
        if !create {
          return 0;
        }
        ghost var s := Snap();
        var newFrame := pmm.AllocFrame();
        if newFrame == 0 {
          NoTableMade(s, n, index);
          return 0;
        }
        var f := newFrame / PAGE_SIZE;
        AddTable(t, index, f, n, s);
        return f;
      }
      return mem[t].entries[index].frame;
    }

    // The writes of get_next_table for the new frame f.
    method AddTable(t: nat, index: nat, f: nat, ghost n: Node, ghost s: Space)
      requires pmm.Valid() && Shape(s) && n in s.at && s.at[n] == t && Inner(n) && index < ENTRIES
               && Sub(n, index) !in s.at
      requires s.free != {} && f == Lowest(s.free) && Snap() == s.(free := s.free - {f})
      modifies this`mem, this`at
      ensures Valid() && Snap() == WithTable(s, n, index) && at == s.at[Sub(n, index) := f] && f != 0
    {
      hide Shape, FreeSet, WithTable, Zeroed;
      AddedTable(s, n, index);
      mem := mem[f := Zeroed()];
      mem := mem[t := Table(mem[t].entries[index := Entry(f, true, true)], Increment(mem[t].refCount))];
      at := at[Sub(n, index) := f];
      assert mem == WithNewTable(s.mem, f, t, index);
    }

    // paging_map. The upper two tables must be there or obtainable, since the code goes on through them unchecked.
    method Map(vaddr: nat, paddr: nat)
      requires Valid() && |UpperTables(PageOf(vaddr)) - at.Keys| <= |pmm.Free()|
      modifies this`mem, this`at, pmm.bitmap
      ensures Valid() && Snap() == MapPage(old(Snap()), PageOf(vaddr), paddr / PAGE_SIZE)
    {
      hide Sized, Linked, Separate, Counted, WithTable, WithLeaf, PageOf, Index4, Index3, Index2, Index1, FreeSet;
      AddressIndices(vaddr);
      ghost var p := PageOf(vaddr);
      SmallIndex(p);
      RootStands(Snap());
      var pml4Idx := vaddr / 0x80_0000_0000 % 512;
      var pdptIdx := vaddr / 0x4000_0000 % 512;
      var pdIdx := vaddr / 0x20_0000 % 512;
      var ptIdx := vaddr / 0x1000 % 512;
      UpperCanBeMade(Snap(), p);
      var pdpt := GetNextTable(pml4, pml4Idx, true, Root);
      var pd := GetNextTable(pdpt, pdptIdx, true, PdptOf(p));
      var pt := GetNextTable(pd, pdIdx, true, PdOf(p));
      if pt == 0 {
        NoLeafToWrite(Snap(), PtOf(p), ptIdx, paddr / PAGE_SIZE);
        return;
      }
      WriteLeaf(pt, ptIdx, paddr / PAGE_SIZE, PtOf(p));
    }

    // The last lines of paging_map.
    method WriteLeaf(pt: nat, ptIdx: nat, f: nat, ghost n: Node)
      requires Valid() && n in at && at[n] == pt && n != Root && !Inner(n) && ptIdx < ENTRIES
      modifies this`mem
      ensures Valid() && Snap() == WithLeaf(old(Snap()), n, ptIdx, f)
    {
      hide Shape, FreeSet, WithLeaf;
      WrittenLeaf(Snap(), n, ptIdx, f);
      if !mem[pt].entries[ptIdx].present {
        mem := mem[pt := mem[pt].(refCount := Increment(mem[pt].refCount))];
      }
      mem := mem[pt := mem[pt].(entries := mem[pt].entries[ptIdx := Entry(f, true, true)])];
      assert mem == old(mem)[pt := Table(old(mem[pt]).entries[ptIdx := Entry(f, true, true)], mem[pt].refCount)];
    }

    // paging_unmap, with its cascade of freed tables.
    method Unmap(vaddr: nat)
      requires Valid()
      modifies this`mem, this`at, pmm.bitmap
      ensures Valid() && Snap() == UnmapPage(old(Snap()), PageOf(vaddr))
    {
      hide Sized, Linked, Separate, Counted, WithTable, WithoutLeaf, WithoutTable, PageOf, Index4, Index3, Index2,
          Index1, FreeSet;
      AddressIndices(vaddr);
      ghost var p := PageOf(vaddr);
      SmallIndex(p);
      RootStands(Snap());
      var pml4Idx := vaddr / 0x80_0000_0000 % 512;
      var pdptIdx := vaddr / 0x4000_0000 % 512;
      var pdIdx := vaddr / 0x20_0000 % 512;
      var ptIdx := vaddr / 0x1000 % 512;
      ghost var s := Snap();
      PathStands(s, p);
      var pdpt := GetNextTable(pml4, pml4Idx, false, Root);
      if pdpt == 0 {
        return;
      }
      var pd := GetNextTable(pdpt, pdptIdx, false, PdptOf(p));
      if pd == 0 {
        return;
      }
      var pt := GetNextTable(pd, pdIdx, false, PdOf(p));
      if pt == 0 {
        return;
      }
      TableStands(Snap(), PtOf(p), ptIdx);
      if mem[pt].entries[ptIdx].present {
        ClearLeaf(pt, ptIdx, PtOf(p));
        TableStands(Snap(), PtOf(p), ptIdx);
        PruneStep(Snap(), PtOf(p));
        if mem[pt].refCount == 0 {
          FreeTable(pt, pd, pdIdx, true, PtOf(p));
          TableStands(Snap(), PdOf(p), pdIdx);
          PruneStep(Snap(), PdOf(p));
          if mem[pd].refCount == 0 {
            FreeTable(pd, pdpt, pdptIdx, true, PdOf(p));
            TableStands(Snap(), PdptOf(p), pdptIdx);
            PruneStep(Snap(), PdptOf(p));
            if mem[pdpt].refCount == 0 {
              FreeTable(pdpt, pml4, pml4Idx, false, PdptOf(p));
            }
          }
        }
      }
    }

    method ClearLeaf(pt: nat, ptIdx: nat, ghost n: Node)
      requires Valid() && n in at && at[n] == pt && n != Root && !Inner(n) && Slot(Snap(), n, ptIdx).present
      modifies this`mem
      ensures Valid() && Snap() == WithoutLeaf(old(Snap()), n, ptIdx)
    {
      hide Shape, FreeSet, WithoutLeaf;
      ClearedLeaf(Snap(), n, ptIdx);
      mem := mem[pt := mem[pt].(entries := mem[pt].entries[ptIdx := mem[pt].entries[ptIdx].(present := false)])];
      mem := mem[pt := mem[pt].(refCount := Decrement(mem[pt].refCount))];
      assert mem == old(mem)[pt :=
             Table(old(mem[pt]).entries[ptIdx := old(mem[pt]).entries[ptIdx].(present := false)], mem[pt].refCount)];
    }

    // Free an empty table and clear the entry of its parent; the root's count is not kept.
    method FreeTable(t: nat, parent: nat, index: nat, counted: bool, ghost n: Node)
      requires Valid() && n in at && n != Root && at[n] == t && TableAt(Snap(), n).refCount == 0
      requires n.up in at && at[n.up] == parent && n.ix == index
      requires counted <==> n.up != Root
      modifies this`mem, this`at, pmm.bitmap
      ensures Valid() && Snap() == WithoutTable(old(Snap()), n) && at == old(at) - {n}
    {
      hide Shape, FreeSet, TableAt, WithoutTable;
      ghost var s := Snap();
      FreedTable(s, n);
      pmm.FreeFrame(t * PAGE_SIZE);
      assert pmm.Free() == s.free + {t} by {
        assert t * PAGE_SIZE / PAGE_SIZE == t;
      }
      var count := if counted then Decrement(mem[parent].refCount) else mem[parent].refCount;
      mem := mem[parent := Table(mem[parent].entries[index := NO_ENTRY], count)];
      at := at - {n};
    }

    // paging_get_physical: the page walk; 0 if the page is not mapped.
    method GetPhysical(vaddr: nat) returns (paddr: nat)
      requires Valid()
      modifies this`mem, this`at, pmm.bitmap
      ensures Valid() && Snap() == old(Snap())
      ensures paddr == match Walk(mem, pml4, PageOf(vaddr))
                       case None => 0
                       case Some(f) => f * PAGE_SIZE + vaddr % PAGE_SIZE
    {
      hide Sized, Linked, Separate, Counted, WithTable, WithoutLeaf, WithoutTable, PageOf, Index4, Index3, Index2,
          Index1, FreeSet;
      AddressIndices(vaddr);
      ghost var p := PageOf(vaddr);
      SmallIndex(p);
      RootStands(Snap());
      var pml4Idx := vaddr / 0x80_0000_0000 % 512;
      var pdptIdx := vaddr / 0x4000_0000 % 512;
      var pdIdx := vaddr / 0x20_0000 % 512;
      var ptIdx := vaddr / 0x1000 % 512;
      WalkIsLeaf(Snap(), p);
      PathStands(Snap(), p);
      var pdpt := GetNextTable(pml4, pml4Idx, false, Root);
      if pdpt == 0 {
        return 0;
      }
      var pd := GetNextTable(pdpt, pdptIdx, false, PdptOf(p));
      if pd == 0 {
        return 0;
      }
      var pt := GetNextTable(pd, pdIdx, false, PdOf(p));
      if pt == 0 {
        return 0;
      }
      TableStands(Snap(), PtOf(p), ptIdx);
      if !mem[pt].entries[ptIdx].present {
        return 0;
      }
      return mem[pt].entries[ptIdx].frame * PAGE_SIZE + vaddr % PAGE_SIZE;
    }
  }
}
