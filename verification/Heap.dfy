/** The kernel heap over physical frames (mem/mem.c) and the memory figures of sysinfo.c. */
module Heap {
  import opened Wrappers
  import opened Pmm
  import opened Ownership

  const HEADER: nat := 8
  // The number of frames a 64-bit address can name.
  const FRAME_NUMBERS: nat := 0x10_0000_0000_0000

  // The page count of mem_alloc, in 64-bit arithmetic.
  function BlockPages(size: nat): nat {
    ((size + HEADER) % U64 + PAGE_SIZE - 1) % U64 / PAGE_SIZE
  }

  // ---- Successive allocations ----

  // The frames that k successive calls of pmm_alloc_frame return.
  ghost function Taken(free: set<nat>, k: nat): seq<nat>
    decreases k
  {
    if k == 0 || free == {} then [] else [Lowest(free)] + Taken(free - {Lowest(free)}, k - 1)
  }

  function Elements(s: seq<nat>): set<nat> {
    set f | f in s
  }

  // t holds frames of free in increasing order, and none that is left lies below one of them.
  ghost predicate AreLowest(free: set<nat>, t: seq<nat>) {
    && (forall i, j | 0 <= i < j < |t| :: t[i] < t[j])
    && (forall x | x in t :: x in free)
    && (forall x, y | x in t && y in free && y !in t :: x < y)
  }

  // Successive calls return the lowest free frames, in increasing order, until none is left.
  lemma {:induction false} TakenAreLowest(free: set<nat>, k: nat)
    ensures |Taken(free, k)| == (if k <= |free| then k else |free|) && AreLowest(free, Taken(free, k))
    decreases k
  {
    hide AreLowest;
    if k > 0 && free != {} {
      var m := Lowest(free);
      TakenAreLowest(free - {m}, k - 1);
      LowestFirst(free, m, Taken(free - {m}, k - 1));
    } else {
      NoneTaken(free);
    }
  }

  lemma NoneTaken(free: set<nat>)
    ensures AreLowest(free, [])
  {
  }

  lemma LowestFirst(free: set<nat>, m: nat, t: seq<nat>)
    requires m in free && (forall x | x in free :: m <= x) && AreLowest(free - {m}, t)
    ensures AreLowest(free, [m] + t)
  {
    var s := [m] + t;
    assert forall x | x in t :: x in free && m < x;
    assert forall i | 0 < i < |s| :: s[i] == t[i - 1] && s[i] in t;
  }

  lemma {:induction false} TakenSize(s: seq<nat>)
    requires forall i, j | 0 <= i < j < |s| :: s[i] < s[j]
    ensures |Elements(s)| == |s|
  {
    if s != [] {
      var front, last := s[..|s| - 1], s[|s| - 1];
      TakenSize(front);
      assert Elements(s) == Elements(front) + {last};
      assert last !in Elements(front);
    }
  }

  // ---- Blocks ----

  // The managed frames that mem_free gives back for a block of that many pages at first; addresses wrap.
  ghost function Block(first: nat, pages: nat): set<nat> {
    set f: nat | f < FRAMES && InBlock(f, first, pages)
  }

  predicate InBlock(f: nat, first: nat, pages: nat) {
    first <= f < first + pages || f + FRAME_NUMBERS < first + pages
  }

  // The frame of page i of a block, whose address is computed in 64 bits.
  function FrameOfPage(first: nat, i: nat): nat {
    (first * 4096 + i * 4096) % 0x1_0000_0000_0000_0000 / 4096
  }

  // A block is the managed frames of its pages.
  lemma BlockIs(first: nat, pages: nat, f: nat)
    requires first < FRAMES && pages <= FRAME_NUMBERS
    ensures f in Block(first, pages) <==> f < FRAMES && exists i: nat :: i < pages && FrameOfPage(first, i) == f
  {
    if f in Block(first, pages) {
      var i := if first <= f then f - first else f + FRAME_NUMBERS - first;
      WrappedFrame(first, i);
      assert i < pages && FrameOfPage(first, i) == f;
    }
    if i: nat :| i < pages && FrameOfPage(first, i) == f {
      WrappedFrame(first, i);
    }
  }

  // The block is contiguous and whole exactly when the lowest free frame is followed by enough free ones.
  lemma BlockIsContiguousIff(free: set<nat>, k: nat)
    requires free != {} && 1 <= k && forall f | f in free :: f < FRAMES
    ensures var first := Lowest(free);
            Elements(Taken(free, k)) == Range(first, k) <==> Range(first, k) <= free
  {
    var first := Lowest(free);
    TakenAreLowest(free, k);
    TakenSize(Taken(free, k));
    InRange(first, k);
    if Range(first, k) <= free {
      SubsetSize(Range(first, k), free);
      LowestAreTheRun(free, Taken(free, k), Range(first, k), first + k);
    }
  }

  // If all the numbers of a run are free and there are as many as frames were taken, then those were taken.
  lemma LowestAreTheRun(free: set<nat>, t: seq<nat>, run: set<nat>, end: nat)
    requires run <= free && |Elements(t)| == |run|
    requires forall x | x in t :: x in free
    requires forall x, y | x in t && y in free && y !in t :: x < y
    requires forall x | x in free :: x < end <==> x in run
    ensures Elements(t) == run
  {
    if x :| x in t && x !in run {
      assert run <= Elements(t) by {
        forall y | y in run
          ensures y in t
        {
        }
      }
      SubsetSize(run + {x}, Elements(t));
    } else {
      assert Elements(t) <= run;
      SameSize(Elements(t), run);
    }
  }

  lemma SameSize(a: set<nat>, b: set<nat>)
    requires a <= b && |a| == |b|
    ensures a == b
  {
    assert b == a + (b - a);
  }

  // mem_free after mem_alloc restores the bitmap exactly when at least one page was computed and the frames from the
  // lowest free one on, as many as there are pages, are free as far as the allocator manages them.
  lemma FreeRestoresIff(free: set<nat>, pages: nat)
    requires free != {} && pages < FRAME_NUMBERS && forall f | f in free :: f < FRAMES
    ensures var first := Lowest(free);
            var t := Elements(Taken(free, if pages == 0 then 1 else pages));
            free - t + Block(first, pages) == free <==> pages >= 1 && Block(first, pages) <= free
  {
    var first, k := Lowest(free), if pages == 0 then 1 else pages;
    var taken := Taken(free, k);
    var t := Elements(taken);
    TakenAreLowest(free, k);
    assert first in t;
    if pages >= 1 && Block(first, pages) <= free {
      TakenInBlock(free, pages);
      assert free - t + Block(first, pages) == free;
    }
    if free - t + Block(first, pages) == free {
      assert first in free - t + Block(first, pages);
    }
  }

  lemma TakenInBlock(free: set<nat>, pages: nat)
    requires free != {} && 1 <= pages && forall f | f in free :: f < FRAMES
    requires Block(Lowest(free), pages) <= free
    ensures Elements(Taken(free, pages)) <= Block(Lowest(free), pages)
  {
    var first := Lowest(free);
    var taken := Taken(free, pages);
    TakenAreLowest(free, pages);
    TakenSize(taken);
    InRange(first, pages);
    forall x | x in taken
      ensures x in Block(first, pages)
    {
      if first + pages <= x {
        assert forall y | y in Range(first, pages) :: y in Block(first, pages);
        RunFirst(free, taken, Range(first, pages), x);
      }
    }
  }

  // A frame beyond a run of free frames is taken only after all of them.
  lemma RunFirst(free: set<nat>, t: seq<nat>, run: set<nat>, x: nat)
    requires forall f, g | f in t && g in free && g !in t :: f < g
    requires run <= free && x in t && forall y | y in run :: y < x
    ensures |run| < |Elements(t)|
  {
    assert run + {x} <= Elements(t);
    SubsetSize(run + {x}, Elements(t));
  }

  // A block that was handed out: the page count in its header, and the frames that were taken for it.
  datatype Chunk = Chunk(pages: nat, frames: set<nat>)

  // How many times mem_alloc asks for a frame.
  function FramesFor(size: nat): nat {
    if BlockPages(size) == 0 then 1 else BlockPages(size)
  }

  ghost function NewChunk(free: set<nat>, size: nat): Chunk {
    Chunk(BlockPages(size), Elements(Taken(free, FramesFor(size))))
  }

  // ---- Sizes in bytes ----

  // The header and all of the size bytes behind it lie in frames that were taken for the block.
  ghost predicate HoldsBytes(free: set<nat>, size: nat)
    requires free != {}
  {
    forall a: nat {:trigger InPage(a)} | 0 <= a - Lowest(free) * PAGE_SIZE < HEADER + size ::
      InPage(a) in NewChunk(free, size).frames
  }

  function InPage(a: nat): nat {
    a / PAGE_SIZE
  }

  // mem_alloc yields a block that holds the bytes asked for exactly when the rounding of the size does not wrap and
  // the lowest free frame is followed by enough free ones.
  lemma BlockHoldsBytesIff(free: set<nat>, size: nat)
    requires free != {} && size < U64 && forall f | f in free :: f < FRAMES
    ensures HoldsBytes(free, size) <==>
              size + HEADER + 4095 < U64 && Range(Lowest(free), BlockPages(size)) <= free
  {
    hide HoldsBytes, Elements, Taken, BlockPages, Range;
    var b, n := Lowest(free), BlockPages(size);
    BytesArePages(free, size);
    if size + HEADER + 4095 < U64 {
      PagesHoldSize(size);
      ChunkFrames(free, size);
      BlockIsContiguousIff(free, n);
      TakenAreLowest(free, n);
      OnlyFrom(free, Taken(free, n));
    } else {
      OneFrame(free, size);
    }
  }

  lemma PagesHoldSize(size: nat)
    requires size + HEADER + 4095 < U64
    ensures 1 <= BlockPages(size) && size + HEADER <= BlockPages(size) * PAGE_SIZE < size + HEADER + PAGE_SIZE
  {
  }

  lemma ChunkFrames(free: set<nat>, size: nat)
    requires 1 <= BlockPages(size)
    ensures NewChunk(free, size).frames == Elements(Taken(free, BlockPages(size)))
  {
  }

  lemma OnlyFrom(free: set<nat>, t: seq<nat>)
    requires AreLowest(free, t)
    ensures Elements(t) <= free
  {
  }

  lemma BytesArePages(free: set<nat>, size: nat)
    requires free != {} && size < U64
    ensures size + HEADER + 4095 < U64 ==>
              (HoldsBytes(free, size) <==> Range(Lowest(free), BlockPages(size)) <= NewChunk(free, size).frames)
    ensures size + HEADER + 4095 >= U64 && Lowest(free) + 1 !in NewChunk(free, size).frames ==> !HoldsBytes(free, size)
  {
    hide Range, NewChunk, BlockPages, InPage;
    var b, n := Lowest(free), BlockPages(size);
    InRange(b, n);
    if size + HEADER + 4095 < U64 {
      PagesHoldSize(size);
      if HoldsBytes(free, size) {
        forall f | f in Range(b, n)
          ensures f in NewChunk(free, size).frames
        {
          FirstByte(b, f, n, size);
        }
      }
      if Range(b, n) <= NewChunk(free, size).frames {
        forall a: nat | 0 <= a - b * PAGE_SIZE < HEADER + size
          ensures InPage(a) in NewChunk(free, size).frames
        {
          PageOfBlockByte(b, a, n);
        }
      }
    } else {
      SecondPage(b, size);
    }
  }

  lemma FirstByte(b: nat, f: nat, n: nat, size: nat)
    requires b <= f < b + n && n * PAGE_SIZE < size + HEADER + PAGE_SIZE
    ensures 0 <= f * PAGE_SIZE - b * PAGE_SIZE < HEADER + size && InPage(f * PAGE_SIZE) == f
  {
  }

  lemma PageOfBlockByte(b: nat, a: nat, n: nat)
    requires 0 <= a - b * PAGE_SIZE < n * PAGE_SIZE
    ensures b <= InPage(a) < b + n
  {
  }

  lemma SecondPage(b: nat, size: nat)
    requires size + HEADER + 4095 >= U64
    ensures 0 <= (b + 1) * PAGE_SIZE - b * PAGE_SIZE < HEADER + size && InPage((b + 1) * PAGE_SIZE) == b + 1
  {
  }

  // A size whose rounding wraps gets a single frame.
  lemma OneFrame(free: set<nat>, size: nat)
    requires free != {} && size < U64 && size + HEADER + 4095 >= U64
    ensures NewChunk(free, size).frames == {Lowest(free)}
  {
    assert BlockPages(size) <= 1;
    assert Taken(free, 1) == [Lowest(free)] by {
      assert Taken(free - {Lowest(free)}, 0) == [];
    }
  }

  lemma NoPagesIff(size: nat)
    requires size < U64
    ensures BlockPages(size) == 0 <==> U64 - 4103 <= size <= U64 - 8
  {
  }

  // mem_free right after mem_alloc restores the bitmap exactly when the size is not one of those whose page count wraps
  // to zero and the managed frames of the block are free.
  lemma FreeRestoresSizeIff(free: set<nat>, size: nat)
    requires free != {} && size < U64 && forall f | f in free :: f < FRAMES
    ensures var b, chunk := Lowest(free), NewChunk(free, size);
            free - chunk.frames + Block(b, chunk.pages) == free <==>
              !(U64 - 4103 <= size <= U64 - 8) && Block(b, BlockPages(size)) <= free
  {
    hide Block, Taken, Elements, BlockPages;
    NoPagesIff(size);
    PagesBound(size);
    FreeRestoresIff(free, BlockPages(size));
  }

  lemma PagesBound(size: nat)
    ensures BlockPages(size) < FRAME_NUMBERS
  {
  }

  // ---- mem.c ----

  class KernelHeap {
    const pmm: FrameAllocator
    // The blocks not freed yet, by their first frame.
    ghost var blocks: map<nat, Chunk>
    // The header word at the start of each frame that has held one.
    var headers: map<nat, nat>
    var totalRamBytes: nat

    constructor (pmm: FrameAllocator)
      requires pmm.Sized()
      ensures this.pmm == pmm && totalRamBytes == 0 && blocks == map[]
    {
      this.pmm := pmm;
      headers, blocks, totalRamBytes := map[], map[], 0;
    }

    // What mem_init does to the bitmap and the total, which is summed in 64-bit arithmetic.
    method Init(mmap: seq<Descriptor>)
      requires pmm.Sized() && (forall d | d in mmap :: FramesDoNotWrap(d))
      modifies this`totalRamBytes, pmm, pmm.bitmap
      ensures pmm.Valid() && pmm.Free() == Usable(mmap)
      ensures totalRamBytes == ConventionalPages(mmap) * PAGE_SIZE % U64
      ensures OfferedOnce(mmap) ==> totalRamBytes == |OfferedFrames(mmap)| * PAGE_SIZE % U64
    {
      OfferedIsSumIff(mmap);
      hide OfferedOnce, OfferedFrames;
      pmm.Init(mmap);
      totalRamBytes := 0;
      for i := 0 to |mmap|
        modifies this`totalRamBytes
        invariant totalRamBytes == ConventionalPages(mmap[..i]) * PAGE_SIZE % U64
      {
        assert mmap[..i + 1][..i] == mmap[..i];
        if mmap[i].kind == CONVENTIONAL {
          WrappedSum(ConventionalPages(mmap[..i]) * PAGE_SIZE, mmap[i].numberOfPages * PAGE_SIZE);
          totalRamBytes := (totalRamBytes + mmap[i].numberOfPages * PAGE_SIZE % U64) % U64;
        }
      }
      assert mmap[..|mmap|] == mmap;
    }

    // mem_alloc: NULL when no frame is free; otherwise the block starts behind the header in the lowest free
    // frame, and as many frames as are left up to the page count are taken, the lowest ones.
    method Alloc(size: nat) returns (ptr: nat)
      requires pmm.Valid() && 0 !in pmm.Free() && size < U64
      modifies this`headers, this`blocks, pmm.bitmap
      ensures old(pmm.Free()) == {} ==> ptr == 0 && pmm.Free() == {} && headers == old(headers) && blocks == old(blocks)
      ensures old(pmm.Free()) != {} ==>
                var first, chunk := Lowest(old(pmm.Free())), NewChunk(old(pmm.Free()), size);
                && ptr == first * PAGE_SIZE + HEADER && headers == old(headers)[first := chunk.pages]
                && pmm.Free() == old(pmm.Free()) - chunk.frames && blocks == old(blocks)[first := chunk]
    {
      hide FreeSet, LeftAfter, NewChunk;
      ghost var free, n := pmm.Free(), FramesFor(size);
      LeftAfterOne(free, n);
      ChunkIsTaken(free, size);
      var totalSize := (size + HEADER) % U64;
      var pages := (totalSize + PAGE_SIZE - 1) % U64 / PAGE_SIZE;
      var pframe := pmm.AllocFrame();
      if pframe == 0 {
        return 0;
      }
      headers := headers[pframe / PAGE_SIZE := pages];
      blocks := blocks[pframe / PAGE_SIZE := NewChunk(free, size)];
      var i := 1;
      while i < pages
        modifies pmm.bitmap
        invariant 1 <= i <= n
        invariant LeftAfter(pmm.Free(), n - i) == LeftAfter(free, n)
      {
        LeftAfterOne(pmm.Free(), n - i);
        LeftAfterOne(pmm.Free(), n - i - 1);
        var _ := pmm.AllocFrame();
        i := i + 1;
      }
      LeftAfterOne(pmm.Free(), 0);
      return pframe + HEADER;
    }

    // mem_free of a pointer that mem_alloc returned, whose header is still there.
    method Free(ptr: nat)
      requires pmm.Sized()
      requires ptr != 0 ==>
                 var b := (ptr - HEADER) / PAGE_SIZE;
                 && ptr >= HEADER && (ptr - HEADER) % PAGE_SIZE == 0
                 && b in headers && b < FRAMES && headers[b] < FRAME_NUMBERS
      modifies this`blocks, pmm.bitmap
      ensures blocks == if ptr == 0 then old(blocks) else old(blocks) - {(ptr - HEADER) / PAGE_SIZE}
      ensures ptr == 0 ==> pmm.Free() == old(pmm.Free())
      ensures ptr != 0 ==>
                var b := (ptr - HEADER) / PAGE_SIZE;
                pmm.Free() == old(pmm.Free()) + Block(b, headers[b])
    {
      hide FreeSet, Block;
      if ptr == 0 {
        return;
      }
      var header := ptr - HEADER;
      var pages := headers[header / PAGE_SIZE];
      var pframe := header;
      blocks := blocks - {header / PAGE_SIZE};
      ghost var b := header / PAGE_SIZE;
      NoBlock(b);
      for i := 0 to pages
        modifies pmm.bitmap
        invariant pmm.Free() == old(pmm.Free()) + Block(b, i)
      {
        BlockGrows(b, i);
        WrappedFrame(b, i);
        pmm.FreeFrame((pframe + i * PAGE_SIZE) % U64);
      }
    }
  }

  // The frames still free after k allocations.
  ghost function LeftAfter(free: set<nat>, k: nat): set<nat> {
    free - Elements(Taken(free, k))
  }

  lemma LeftAfterOne(free: set<nat>, k: nat)
    ensures free == {} || k == 0 ==> LeftAfter(free, k) == free
    ensures k > 0 && free != {} ==> LeftAfter(free, k) == LeftAfter(free - {Lowest(free)}, k - 1)
  {
    if k > 0 && free != {} {
      TakenFirst(free, k);
      hide Taken, Elements;
      TakenApart(free, Lowest(free), Elements(Taken(free - {Lowest(free)}, k - 1)));
    }
  }

  lemma TakenApart(free: set<nat>, m: nat, t: set<nat>)
    ensures free - ({m} + t) == free - {m} - t
  {
  }

  lemma ChunkIsTaken(free: set<nat>, size: nat)
    ensures NewChunk(free, size).pages == BlockPages(size)
            && free - NewChunk(free, size).frames == LeftAfter(free, FramesFor(size))
  {
  }

  lemma TakenFirst(free: set<nat>, k: nat)
    requires k > 0 && free != {}
    ensures Elements(Taken(free, k)) == {Lowest(free)} + Elements(Taken(free - {Lowest(free)}, k - 1))
  {
  }

  lemma NoBlock(first: nat)
    requires first < FRAMES
    ensures Block(first, 0) == {}
  {
  }

  lemma BlockGrows(first: nat, i: nat)
    requires first < FRAMES && i < FRAME_NUMBERS
    ensures Block(first, i + 1) ==
            Block(first, i) + (if (first + i) % FRAME_NUMBERS < FRAMES then {(first + i) % FRAME_NUMBERS} else {})
  {
    var g := (first + i) % FRAME_NUMBERS;
    assert g == if first + i < FRAME_NUMBERS then first + i else first + i - FRAME_NUMBERS;
    forall f: nat | f < FRAMES
      ensures InBlock(f, first, i + 1) <==> InBlock(f, first, i) || f == g
    {
    }
  }

  lemma WrappedFrame(first: nat, i: nat)
    ensures (first * PAGE_SIZE + i * PAGE_SIZE) % U64 / PAGE_SIZE == (first + i) % FRAME_NUMBERS
  {
    var q, r := (first + i) / FRAME_NUMBERS, (first + i) % FRAME_NUMBERS;
    assert (first + i) * PAGE_SIZE == q * U64 + r * PAGE_SIZE;
  }

  // ---- sysinfo.c ----

  // The used figure of sysinfo_get_mem_usage, in 64-bit arithmetic: it is the total less the free frames exactly when
  // no more frames are free than the total has pages.
  method GetMemUsage(heap: KernelHeap) returns (used: nat, total: nat)
    requires heap.pmm.Valid() && heap.totalRamBytes < U64
    ensures total == heap.totalRamBytes && used < U64
    ensures used == total / PAGE_SIZE * PAGE_SIZE - |heap.pmm.Free()| * PAGE_SIZE <==>
            |heap.pmm.Free()| <= total / PAGE_SIZE
    ensures (used + |heap.pmm.Free()| * PAGE_SIZE) % U64 == total / PAGE_SIZE * PAGE_SIZE
  {
    hide FreeSet;
    total := heap.totalRamBytes;
    FewFrames(heap.pmm);
    var freeFrames := heap.pmm.GetFreeFrames();
    var usedFrames := (total / PAGE_SIZE + U64 - freeFrames) % U64;
    used := usedFrames * PAGE_SIZE % U64;
    UsedFigure(total / PAGE_SIZE, freeFrames);
  }

  lemma UsedFigure(pages: nat, free: nat)
    requires pages < U64 / PAGE_SIZE && free <= FRAMES
    ensures var used := (pages + U64 - free) % U64 * PAGE_SIZE % U64;
            0 <= used < U64 && (used == pages * PAGE_SIZE - free * PAGE_SIZE <==> free <= pages)
            && (used + free * PAGE_SIZE) % U64 == pages * PAGE_SIZE
  {
  }

  lemma FewFrames(pmm: FrameAllocator)
    requires pmm.Sized()
    ensures |pmm.Free()| <= FRAMES
  {
    IntervalSize(0, FRAMES, pmm.Free());
  }

  lemma WrappedSum(a: nat, b: nat)
    ensures (a % U64 + b % U64) % U64 == (a + b) % U64
  {
    var i, j := a / U64, b / U64;
    assert a + b == a % U64 + b % U64 + (i + j) * U64;
  }
}
