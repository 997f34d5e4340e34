/** The bitmap allocator of physical frames (mem/pmm.c). */
module Pmm {
  import opened Wrappers
  import opened Bits

  const PAGE_SIZE: nat := 4096
  const FRAMES: nat := 0x10_0000
  const BITMAP_BYTES: nat := 0x2_0000
  const LOW_FRAMES: nat := 2048
  const CONVENTIONAL: nat := 7

  // One EFI_MEMORY_DESCRIPTOR, as far as the scan looks at it.
  datatype Descriptor = Descriptor(kind: nat, physicalStart: nat, numberOfPages: nat)

  // A descriptor whose frame numbers do not wrap in 64 bits.
  predicate FramesDoNotWrap(d: Descriptor) {
    d.physicalStart / PAGE_SIZE + d.numberOfPages <= U64
  }

  predicate Offers(d: Descriptor, f: nat) {
    d.kind == CONVENTIONAL && d.physicalStart / PAGE_SIZE <= f < d.physicalStart / PAGE_SIZE + d.numberOfPages
  }

  ghost predicate Offered(mmap: seq<Descriptor>, f: nat) {
    exists i :: 0 <= i < |mmap| && Offers(mmap[i], f)
  }

  // The frames that the allocator may ever hand out.
  ghost function Usable(mmap: seq<Descriptor>): set<nat> {
    set f: nat | LOW_FRAMES <= f < FRAMES && Offered(mmap, f)
  }

  // ---- The bitmap as a value ----

  predicate InUse(bm: seq<bv8>, f: nat)
    requires |bm| == BITMAP_BYTES
  {
    if f >= FRAMES then true else Bit(bm[f / 8], f % 8)
  }

  ghost function FreeSet(bm: seq<bv8>): set<nat>
    requires |bm| == BITMAP_BYTES
  {
    set f: nat | f < FRAMES && !InUse(bm, f)
  }

  function Marked(bm: seq<bv8>, f: nat): seq<bv8>
    requires |bm| == BITMAP_BYTES
  {
    if f < FRAMES then bm[f / 8 := WithBit(bm[f / 8], f % 8)] else bm
  }

  function Unmarked(bm: seq<bv8>, f: nat): seq<bv8>
    requires |bm| == BITMAP_BYTES
  {
    if f < FRAMES then bm[f / 8 := WithoutBit(bm[f / 8], f % 8)] else bm
  }

  lemma MarkingRemovesOneFrame(bm: seq<bv8>, f: nat)
    requires |bm| == BITMAP_BYTES
    ensures FreeSet(Marked(bm, f)) == FreeSet(bm) - {f}
  {
    if f < FRAMES {
      forall g: nat | g < FRAMES
        ensures InUse(Marked(bm, f), g) == (g == f || InUse(bm, g))
      {
        if g / 8 == f / 8 {
          OneBitChanges(bm[f / 8], f % 8, g % 8);
        }
      }
    }
  }

  lemma UnmarkingAddsOneFrame(bm: seq<bv8>, f: nat)
    requires |bm| == BITMAP_BYTES
    ensures FreeSet(Unmarked(bm, f)) == FreeSet(bm) + if f < FRAMES then {f} else {}
  {
    if f < FRAMES {
      forall g: nat | g < FRAMES
        ensures InUse(Unmarked(bm, f), g) == (g != f && InUse(bm, g))
      {
        if g / 8 == f / 8 {
          OneBitChanges(bm[f / 8], f % 8, g % 8);
        }
      }
    }
  }

  // The free set determines every bit of the bitmap, so equal free sets mean equal bitmaps.
  lemma FreeSetDeterminesBitmap(bm: seq<bv8>, cm: seq<bv8>)
    requires |bm| == BITMAP_BYTES && |cm| == BITMAP_BYTES
    requires FreeSet(bm) == FreeSet(cm)
    ensures bm == cm
  {
    forall i | 0 <= i < BITMAP_BYTES
      ensures bm[i] == cm[i]
    {
      forall k: nat | k < 8
        ensures Bit(bm[i], k) == Bit(cm[i], k)
      {
        var f := 8 * i + k;
        assert f / 8 == i && f % 8 == k;
        assert f in FreeSet(bm) <==> f in FreeSet(cm);
      }
      ByteIsItsBits(bm[i], cm[i]);
    }
  }

  // ---- First fit as a function of the free set ----

  ghost function Lowest(s: set<nat>): (m: nat)
    requires s != {}
    ensures m in s && forall x | x in s :: m <= x
  {
    var x :| x in s;
    if s == {x} then x
    else
      assert s == {x} + (s - {x});
      var y := Lowest(s - {x});
      if x <= y then x else y
  }

  // ---- The size of the memory map ----

  function ConventionalPages(mmap: seq<Descriptor>): nat {
    if mmap == [] then 0
    else
      var last := mmap[|mmap| - 1];
      ConventionalPages(mmap[..|mmap| - 1]) + if last.kind == CONVENTIONAL then last.numberOfPages else 0
  }

  lemma IntervalSize(lo: nat, n: nat, s: set<nat>)
    requires forall f | f in s :: lo <= f < lo + n
    ensures |s| <= n
    decreases n
  {
    if n == 0 {
      assert s == {};
    } else {
      var t := s - {lo + n - 1};
      IntervalSize(lo, n - 1, t);
      assert s <= t + {lo + n - 1};
      if lo + n - 1 in s {
        assert s == t + {lo + n - 1};
      } else {
        assert s == t;
      }
    }
  }

  // The frames offered are at most as many as the pages the descriptors add up to,
  // however the descriptors overlap.
  lemma {:induction false} OfferedAtMostSum(mmap: seq<Descriptor>, s: set<nat>)
    requires forall f | f in s :: Offered(mmap, f)
    ensures |s| <= ConventionalPages(mmap)
    decreases |mmap|
  {
    if mmap == [] {
      assert s == {};
    } else {
      var rest, last := mmap[..|mmap| - 1], mmap[|mmap| - 1];
      var byLast := set f | f in s && Offers(last, f);
      var others := s - byLast;
      forall f | f in others
        ensures Offered(rest, f)
      {
        var i :| 0 <= i < |mmap| && Offers(mmap[i], f);
        assert i < |rest| && rest[i] == mmap[i];
      }
      OfferedAtMostSum(rest, others);
      if last.kind == CONVENTIONAL {
        IntervalSize(last.physicalStart / PAGE_SIZE, last.numberOfPages, byLast);
      } else {
        assert byLast == {};
      }
      assert s == others + byLast;
    }
  }

  ghost function FramesOf(d: Descriptor): (s: set<nat>)
    ensures forall f: nat :: f in s <==> Offers(d, f)
  {
    set f: nat | d.physicalStart / PAGE_SIZE <= f < d.physicalStart / PAGE_SIZE + d.numberOfPages && Offers(d, f)
  }

  // Every frame that some descriptor offers, once, also below 8 MB and above 4 GB.
  ghost function OfferedFrames(mmap: seq<Descriptor>): (s: set<nat>)
    ensures forall f: nat :: f in s <==> Offered(mmap, f)
  {
    if mmap == [] then {}
    else
      var rest, last := mmap[..|mmap| - 1], mmap[|mmap| - 1];
      assert mmap == rest + [last];
      assert forall f: nat :: Offered(mmap, f) <==> Offered(rest, f) || Offers(last, f) by {
        forall f: nat
          ensures Offered(mmap, f) <==> Offered(rest, f) || Offers(last, f)
        {
          OfferedSnoc(rest, last, f);
        }
      }
      OfferedFrames(rest) + FramesOf(last)
  }

  // No frame is offered by two descriptors.
  ghost predicate OfferedOnce(mmap: seq<Descriptor>) {
    forall i, j, f: nat | 0 <= i < j < |mmap| && Offers(mmap[i], f) :: !Offers(mmap[j], f)
  }

  lemma FullInterval(lo: nat, n: nat, s: set<nat>)
    requires forall f: nat :: f in s <==> lo <= f < lo + n
    ensures |s| == n
    decreases n
  {
    if n == 0 {
      assert s == {};
    } else {
      FullInterval(lo, n - 1, s - {lo + n - 1});
    }
  }

  lemma FramesCount(d: Descriptor)
    ensures |FramesOf(d)| == if d.kind == CONVENTIONAL then d.numberOfPages else 0
  {
    if d.kind == CONVENTIONAL {
      FullInterval(d.physicalStart / PAGE_SIZE, d.numberOfPages, FramesOf(d));
    } else {
      assert FramesOf(d) == {};
    }
  }

  lemma NothingTwice(mmap: seq<Descriptor>)
    ensures |mmap| <= 1 ==> OfferedOnce(mmap)
  {
  }

  // The pages add up to the frames offered exactly when no two conventional descriptors share a frame.
  lemma {:induction false} OfferedIsSumIff(mmap: seq<Descriptor>)
    ensures |OfferedFrames(mmap)| == ConventionalPages(mmap) <==> OfferedOnce(mmap)
    decreases |mmap|
  {
    hide Offered, Offers, FramesOf, OfferedOnce;
    if mmap == [] {
      NothingTwice(mmap);
    } else {
      var rest, last := mmap[..|mmap| - 1], mmap[|mmap| - 1];
      OfferedIsSumIff(rest);
      OfferedAtMostSum(rest, OfferedFrames(rest));
      FramesCount(last);
      UnionSize(OfferedFrames(rest), FramesOf(last));
      OnceSnoc(rest, last);
      assert mmap == rest + [last];
    }
  }

  lemma UnionSize(a: set<nat>, b: set<nat>)
    ensures |a + b| <= |a| + |b| && (|a + b| == |a| + |b| <==> a !! b)
  {
    assert |a + b| == |a| + |b| - |a * b|;
    if a * b == {} {
      assert forall x | x in a :: x !in b || x in a * b;
    } else {
      assert a * b != {};
    }
  }

  lemma OnceSnoc(mmap: seq<Descriptor>, d: Descriptor)
    ensures OfferedOnce(mmap + [d]) <==> OfferedOnce(mmap) && OfferedFrames(mmap) !! FramesOf(d)
  {
    hide Offers, OfferedFrames, FramesOf;
    var all := mmap + [d];
    assert forall i | 0 <= i < |mmap| :: all[i] == mmap[i];
    if OfferedOnce(all) {
      forall f | f in OfferedFrames(mmap)
        ensures f !in FramesOf(d)
      {
        var i :| 0 <= i < |mmap| && Offers(mmap[i], f);
        assert Offers(all[i], f) && all[|mmap|] == d;
      }
    }
    if OfferedOnce(mmap) && OfferedFrames(mmap) !! FramesOf(d) {
      forall i, j, f: nat | 0 <= i < j < |all| && Offers(all[i], f)
        ensures !Offers(all[j], f)
      {
        assert Offers(mmap[i], f) && f in OfferedFrames(mmap);
      }
    }
  }

  // In addresses: for a page-aligned descriptor of type 7 (EfiConventionalMemory), a frame is offered exactly when all
  // its bytes lie in the descriptor's range.
  lemma OffersMeans(d: Descriptor, f: nat)
    requires d.physicalStart % 4096 == 0
    ensures Offers(d, f) <==>
              && d.kind == 7 && d.physicalStart <= f * 4096
              && f * 4096 + 4096 <= d.physicalStart + d.numberOfPages * 4096
  {
  }

  // The frames handed out lie from 8 MB up to 4 GB.
  lemma UsableMeans(mmap: seq<Descriptor>, f: nat)
    ensures f in Usable(mmap) <==> Offered(mmap, f) && 8 * 1024 * 1024 <= f * 4096 < 4 * 1024 * 1024 * 1024
  {
  }

  // The static storage of the allocator.
  class FrameAllocator {
    const bitmap: array<bv8>
    var totalFrames: nat

    ghost predicate Sized() {
      bitmap.Length == BITMAP_BYTES
    }

    ghost predicate Valid()
      reads this
    {
      Sized() && totalFrames == FRAMES
    }

    ghost function Free(): set<nat>
      reads bitmap
      requires Sized()
    {
      FreeSet(bitmap[..])
    }

    constructor ()
      ensures Sized() && fresh(bitmap) && totalFrames == 0
    {
      bitmap := new bv8[BITMAP_BYTES](_ => 0);
      totalFrames := 0;
    }

    method SetBit(f: nat)
      requires Sized()
      modifies bitmap
      ensures bitmap[..] == Marked(old(bitmap[..]), f)
    {
      if f < FRAMES {
        bitmap[f / 8] := WithBit(bitmap[f / 8], f % 8);
      }
    }

    method ClearBit(f: nat)
      requires Sized()
      modifies bitmap
      ensures bitmap[..] == Unmarked(old(bitmap[..]), f)
    {
      if f < FRAMES {
        bitmap[f / 8] := WithoutBit(bitmap[f / 8], f % 8);
      }
    }

    method TestBit(f: nat) returns (used: bool)
      requires Sized()
      ensures used <==> f !in Free()
    {
      if f >= FRAMES {
        return true;
      }
      used := Bit(bitmap[f / 8], f % 8);
    }

    // After the scan a frame is free iff it is at or above 8 MB, below 4 GB and
    // inside some conventional descriptor.
    method Init(mmap: seq<Descriptor>)
      requires Sized()
      requires forall d | d in mmap :: FramesDoNotWrap(d)
      modifies this, bitmap
      ensures Valid() && Free() == Usable(mmap)
    {
      totalFrames := FRAMES;
      for i := 0 to BITMAP_BYTES
        modifies bitmap
        invariant forall j | 0 <= j < i :: bitmap[j] == 0xFF
      {
        bitmap[i] := 0xFF;
      }
      assert Free() == {} by {
        forall f: nat | f < FRAMES
          ensures InUse(bitmap[..], f)
        {
          AllOnes(f % 8);
        }
      }
      for i := 0 to |mmap|
        modifies bitmap
        invariant forall f: nat :: f in Free() <==> f < FRAMES && Offered(mmap[..i], f)
      {
        var d := mmap[i];
        assert mmap[..i + 1] == mmap[..i] + [d];
        assert forall f: nat :: Offered(mmap[..i + 1], f) <==> Offered(mmap[..i], f) || Offers(d, f) by {
          forall f: nat
            ensures Offered(mmap[..i + 1], f) <==> Offered(mmap[..i], f) || Offers(d, f)
          {
            OfferedSnoc(mmap[..i], d, f);
          }
        }
        if d.kind == CONVENTIONAL {
          ScanDescriptor(d);
        }
      }
      assert mmap[..|mmap|] == mmap;
      ghost var all := Free();
      for f := 0 to LOW_FRAMES
        modifies bitmap
        invariant forall g: nat :: g in Free() <==> g in all && g >= f
      {
        MarkingRemovesOneFrame(bitmap[..], f);
        SetBit(f);
      }
    }

    method ScanDescriptor(d: Descriptor)
      requires Sized() && d.kind == CONVENTIONAL && FramesDoNotWrap(d)
      modifies bitmap
      ensures forall f: nat :: f in Free() <==> f in old(Free()) || (f < FRAMES && Offers(d, f))
    {
      hide FreeSet, FramesIn, Offers;
      var startFrame := d.physicalStart / PAGE_SIZE;
      ghost var free := Free();
      NoFrameIn(startFrame);
      for f := 0 to d.numberOfPages
        invariant Free() == free + FramesIn(startFrame, f)
      {
        UnmarkingAddsOneFrame(bitmap[..], startFrame + f);
        OneMoreFrame(startFrame, f);
        var frame := (startFrame + f) % U64;
        assert frame == startFrame + f;
        ClearBit(frame);
      }
      FramesOffered(d);
      MembersOfUnion(free, FramesIn(startFrame, d.numberOfPages));
    }

    // First fit: the lowest free frame, as an address; 0 when nothing is free.
    method AllocFrame() returns (p: nat)
      requires Valid()
      modifies bitmap
      ensures old(Free()) == {} ==> p == 0 && Free() == old(Free())
      ensures old(Free()) != {} ==>
                p == Lowest(old(Free())) * PAGE_SIZE && Free() == old(Free()) - {Lowest(old(Free()))}
    {
      hide FreeSet, Marked;
      FreeIsManaged(bitmap[..]);
      for i := 0 to totalFrames
        invariant Free() == old(Free())
        invariant forall j: nat | j < i :: j !in Free()
      {
        var used := TestBit(i);
        if !used {
          MarkingRemovesOneFrame(bitmap[..], i);
          SetBit(i);
          return i * PAGE_SIZE;
        }
      }
      return 0;
    }

    method FreeFrame(p: nat)
      requires Sized()
      modifies bitmap
      ensures Free() == old(Free()) + if p / PAGE_SIZE < FRAMES then {p / PAGE_SIZE} else {}
    {
      UnmarkingAddsOneFrame(bitmap[..], p / PAGE_SIZE);
      ClearBit(p / PAGE_SIZE);
    }

    method GetFreeFrames() returns (n: nat)
      requires Valid()
      ensures n == |Free()|
    {
      hide FreeSet;
      FreeIsManaged(bitmap[..]);
      n := 0;
      ghost var seen: set<nat> := {};
      for i := 0 to totalFrames
        invariant seen == (set f | f in Free() && f < i)
        invariant n == |seen|
      {
        var used := TestBit(i);
        if !used {
          seen := seen + {i};
          n := n + 1;
        }
      }
      assert seen == Free();
    }
  }

  // The managed ones of n frames from start on.
  ghost function FramesIn(start: nat, n: nat): set<nat> {
    set f: nat | f < FRAMES && InRun(f, start, n)
  }

  predicate InRun(f: nat, start: nat, n: nat) {
    start <= f < start + n
  }

  lemma NoFrameIn(start: nat)
    ensures FramesIn(start, 0) == {}
  {
  }

  lemma MembersOfUnion(a: set<nat>, b: set<nat>)
    ensures forall f :: f in a + b <==> f in a || f in b
  {
  }

  lemma FramesOffered(d: Descriptor)
    requires d.kind == CONVENTIONAL
    ensures forall f: nat :: f in FramesIn(d.physicalStart / PAGE_SIZE, d.numberOfPages) <==> f < FRAMES && Offers(d, f)
  {
  }

  lemma OneMoreFrame(start: nat, n: nat)
    ensures FramesIn(start, n + 1) == FramesIn(start, n) + if start + n < FRAMES then {start + n} else {}
  {
  }

  lemma FreeIsManaged(bm: seq<bv8>)
    requires |bm| == BITMAP_BYTES
    ensures forall f | f in FreeSet(bm) :: f < FRAMES
  {
  }

  lemma OfferedSnoc(mmap: seq<Descriptor>, d: Descriptor, f: nat)
    ensures Offered(mmap + [d], f) <==> Offered(mmap, f) || Offers(d, f)
  {
    var all := mmap + [d];
    if Offered(mmap, f) {
      var i :| 0 <= i < |mmap| && Offers(mmap[i], f);
      assert all[i] == mmap[i];
    }
    if Offers(d, f) {
      assert all[|mmap|] == d;
    }
  }
}
