/** The boot loader's load_kernel (bootloader.c): the segments of an ELF64 file laid out in one block of pages. */
module Loader {
  import opened Wrappers

  type byte = bv8

  const PT_LOAD: nat := 1
  const MAX_PHDRS: nat := 16

  datatype Header = Header(ident: seq<byte>, entry: nat)
  datatype Segment = Segment(kind: nat, offset: nat, vaddr: nat, filesz: nat, memsz: nat)

  // A loadable segment as the gABI allows it: its file part exists and fits, and its end, rounded up to a page, is an
  // address.
  predicate WellFormed(p: Segment, file: seq<byte>) {
    p.filesz <= p.memsz && p.offset + p.filesz <= |file| && InAddresses(p)
  }

  predicate InAddresses(p: Segment) {
    p.vaddr + p.memsz + 0xFFF < U64
  }

  predicate Loadable(phdrs: seq<Segment>, file: seq<byte>) {
    forall i | 0 <= i < |phdrs| && phdrs[i].kind == PT_LOAD :: WellFormed(phdrs[i], file)
  }

  predicate Covers(p: Segment, v: nat) {
    p.kind == PT_LOAD && p.vaddr <= v < p.vaddr + p.memsz
  }

  // The byte a segment gives an address: from the file, or zero past the file part.
  function SegmentByte(p: Segment, file: seq<byte>, v: nat): byte
    requires WellFormed(p, file) && Covers(p, v)
  {
    if v - p.vaddr < p.filesz then file[p.offset + (v - p.vaddr)] else 0
  }

  // The byte at v once the first n headers have been loaded; of overlapping segments the later one wins.
  function ImageByte(phdrs: seq<Segment>, n: nat, file: seq<byte>, v: nat): Option<byte>
    requires n <= |phdrs| && Loadable(phdrs, file)
  {
    if n == 0 then None
    else if Covers(phdrs[n - 1], v) then Some(SegmentByte(phdrs[n - 1], file, v))
    else ImageByte(phdrs, n - 1, file, v)
  }

  predicate Disjoint(phdrs: seq<Segment>) {
    forall i, j | 0 <= i < j < |phdrs| && phdrs[i].kind == PT_LOAD && phdrs[j].kind == PT_LOAD ::
      phdrs[i].vaddr + phdrs[i].memsz <= phdrs[j].vaddr || phdrs[j].vaddr + phdrs[j].memsz <= phdrs[i].vaddr
  }

  // An address outside every segment keeps whatever the block held.
  lemma {:induction false} UncoveredImage(phdrs: seq<Segment>, n: nat, file: seq<byte>, v: nat)
    requires n <= |phdrs| && Loadable(phdrs, file)
    ensures ImageByte(phdrs, n, file, v).None? <==> forall i | 0 <= i < n :: !Covers(phdrs[i], v)
    decreases n
  {
    if n > 0 {
      UncoveredImage(phdrs, n - 1, file, v);
    }
  }

  // Where no later header's segment lies, the image holds what header i says: the bytes of the file from the segment's
  // offset on, then zeros.
  lemma {:induction false} SegmentStands(phdrs: seq<Segment>, n: nat, file: seq<byte>, i: nat, k: nat)
    requires n <= |phdrs| && Loadable(phdrs, file)
    requires i < n && phdrs[i].kind == PT_LOAD && k < phdrs[i].memsz
    requires forall j | i < j < n :: !Covers(phdrs[j], phdrs[i].vaddr + k)
    ensures ImageByte(phdrs, n, file, phdrs[i].vaddr + k) ==
            Some(if k < phdrs[i].filesz then file[phdrs[i].offset + k] else 0)
    decreases n
  {
    if i < n - 1 {
      SegmentStands(phdrs, n - 1, file, i, k);
    }
  }

  // With disjoint segments the loaded image is the one the program headers describe.
  lemma DisjointImage(phdrs: seq<Segment>, file: seq<byte>, i: nat, v: nat)
    requires Loadable(phdrs, file) && Disjoint(phdrs) && i < |phdrs| && Covers(phdrs[i], v)
    ensures ImageByte(phdrs, |phdrs|, file, v) ==
            Some(if v - phdrs[i].vaddr < phdrs[i].filesz then file[phdrs[i].offset + (v - phdrs[i].vaddr)] else 0)
  {
    SegmentStands(phdrs, |phdrs|, file, i, v - phdrs[i].vaddr);
  }

  // What the program headers ask of the block: each loadable segment's file bytes, then zeros up to its size in
  // memory, and nothing written in between the segments.
  lemma ImageIsAsked(phdrs: seq<Segment>, file: seq<byte>, low: nat, image: seq<byte>, was: seq<byte>)
    requires Loadable(phdrs, file)
    requires forall i | 0 <= i < |phdrs| && phdrs[i].kind == PT_LOAD ::
               low <= phdrs[i].vaddr && phdrs[i].vaddr + phdrs[i].memsz <= low + |image|
    requires |was| == |image|
    requires forall o | 0 <= o < |image| ::
               image[o] == match ImageByte(phdrs, |phdrs|, file, low + o) case Some(b) => b case None => was[o]
    ensures Disjoint(phdrs) ==>
              && (forall i, o | 0 <= i < |phdrs| && phdrs[i].kind == 1 && 0 <= o < |image|
                  && phdrs[i].vaddr <= low + o < phdrs[i].vaddr + phdrs[i].filesz ::
                    image[o] == file[phdrs[i].offset + (low + o - phdrs[i].vaddr)])
              && (forall i, o | 0 <= i < |phdrs| && phdrs[i].kind == 1 && 0 <= o < |image|
                  && phdrs[i].vaddr + phdrs[i].filesz <= low + o < phdrs[i].vaddr + phdrs[i].memsz :: image[o] == 0)
    ensures forall o | 0 <= o < |image| && (forall p | p in phdrs && p.kind == 1 ::
                low + o < p.vaddr || p.vaddr + p.memsz <= low + o) :: image[o] == was[o]
  {
    hide ImageByte;
    if Disjoint(phdrs) {
      forall i, o | 0 <= i < |phdrs| && phdrs[i].kind == 1 && 0 <= o < |image|
        && phdrs[i].vaddr <= low + o < phdrs[i].vaddr + phdrs[i].memsz
        ensures image[o] == if low + o - phdrs[i].vaddr < phdrs[i].filesz
                then file[phdrs[i].offset + (low + o - phdrs[i].vaddr)] else 0
      {
        DisjointImage(phdrs, file, i, low + o);
      }
    }
    forall o | 0 <= o < |image| && (forall p | p in phdrs && p.kind == 1 ::
        low + o < p.vaddr || p.vaddr + p.memsz <= low + o)
      ensures image[o] == was[o]
    {
      UncoveredImage(phdrs, |phdrs|, file, low + o);
    }
  }

  // lo and hi are the lowest start and the highest end of the first n headers' loadable segments, both reached.
  ghost predicate IsSpan(phdrs: seq<Segment>, n: nat, lo: nat, hi: nat)
    requires n <= |phdrs|
  {
    && (forall i | 0 <= i < n && phdrs[i].kind == PT_LOAD :: lo <= phdrs[i].vaddr
         && phdrs[i].vaddr + phdrs[i].memsz <= hi)
    && (exists i :: 0 <= i < n && phdrs[i].kind == PT_LOAD && phdrs[i].vaddr == lo)
    && (exists i :: 0 <= i < n && phdrs[i].kind == PT_LOAD && phdrs[i].vaddr + phdrs[i].memsz == hi)
  }

  // Two segments reach the span's ends, so every covered address, and with it every write, falls inside the block.
  lemma CoveredInBlock(phdrs: seq<Segment>, lo: nat, hi: nat, i: nat, v: nat)
    requires (forall p | p in phdrs && p.kind == PT_LOAD :: InAddresses(p))
    requires IsSpan(phdrs, |phdrs|, lo, hi) && i < |phdrs| && Covers(phdrs[i], v)
    ensures lo <= v && v - lo < PagesFor(hi - lo) * 0x1000
  {
  }

  // The pages of load_kernel's block, in 64-bit arithmetic.
  function PagesFor(span: nat): nat {
    (span + 0xFFF) % U64 / 0x1000
  }

  datatype LoadResult = Loaded(entry: nat, base: nat, low: nat, high: nat) | LoadError | OutOfPages

  predicate HasMagic(ident: seq<byte>) {
    |ident| >= 4 && ident[0] == 0x7f && ident[1] == 'E' as byte && ident[2] == 'L' as byte && ident[3] == 'F' as byte
  }

  lemma MagicIs(ident: seq<byte>)
    requires |ident| >= 4
    ensures HasMagic(ident) <==> ident[..4] == [0x7f, 0x45, 0x4c, 0x46]
  {
    assert ident[..4] == [ident[0], ident[1], ident[2], ident[3]];
  }

  method ZeroFill(image: array<byte>, at: nat, len: nat)
    requires at + len <= image.Length
    modifies image
    ensures forall o | 0 <= o < image.Length :: image[o] == if at <= o < at + len then 0 else old(image[o])
  {
    var p, left := at, len;
    while left > 0
      invariant 0 <= left <= len && p == at + len - left
      invariant forall o | 0 <= o < image.Length :: image[o] == if at <= o < p then 0 else old(image[o])
    {
      image[p] := 0;
      p, left := p + 1, left - 1;
    }
  }

  // SetPosition and a full Read of the file.
  method ReadFile(file: seq<byte>, offset: nat, len: nat, image: array<byte>, at: nat)
    requires offset + len <= |file| && at + len <= image.Length
    modifies image
    ensures forall o | 0 <= o < image.Length ::
              image[o] == if at <= o < at + len then file[offset + (o - at)] else old(image[o])
  {
    for k := 0 to len
      invariant forall o | 0 <= o < image.Length ::
                  image[o] == if at <= o < at + k then file[offset + (o - at)] else old(image[o])
    {
      image[at + k] := file[offset + k];
    }
  }

  // The first loop: the span of the loadable segments, and how many there are.
  method FindSpan(phdrs: seq<Segment>) returns (minVaddr: nat, maxVaddr: nat, loadCount: nat)
    requires forall p | p in phdrs && p.kind == PT_LOAD :: InAddresses(p)
    ensures loadCount == 0 <==> forall p | p in phdrs :: p.kind != PT_LOAD
    ensures loadCount > 0 ==> IsSpan(phdrs, |phdrs|, minVaddr, maxVaddr) && minVaddr <= maxVaddr
  {
    minVaddr, maxVaddr, loadCount := U64 - 1, 0, 0;
    for i := 0 to |phdrs|
      invariant loadCount == 0 ==>
                  minVaddr == U64 - 1 && maxVaddr == 0 && forall j | 0 <= j < i :: phdrs[j].kind != PT_LOAD
      invariant loadCount > 0 ==> IsSpan(phdrs, i, minVaddr, maxVaddr) && minVaddr <= maxVaddr
    {
      if phdrs[i].kind == PT_LOAD {
        loadCount := loadCount + 1;
        if phdrs[i].vaddr < minVaddr {
          minVaddr := phdrs[i].vaddr;
        }
        var end := phdrs[i].vaddr + phdrs[i].memsz;
        if end > maxVaddr {
          maxVaddr := end;
        }
      }
    }
  }

  // The second loop: each loadable segment is zeroed and its file part read in.
  method PlaceSegments(phdrs: seq<Segment>, file: seq<byte>, low: nat, image: array<byte>)
    requires Loadable(phdrs, file)
    requires forall i | 0 <= i < |phdrs| && phdrs[i].kind == PT_LOAD ::
               low <= phdrs[i].vaddr && phdrs[i].vaddr + phdrs[i].memsz <= low + image.Length
    modifies image
    ensures forall o | 0 <= o < image.Length ::
              image[o] == match ImageByte(phdrs, |phdrs|, file, low + o) case Some(b) => b case None => old(image[o])
  {
    for i := 0 to |phdrs|
      invariant forall o | 0 <= o < image.Length ::
        image[o] == match ImageByte(phdrs, i, file, low + o) case Some(b) => b case None => old(image[o])
    {
      if phdrs[i].kind == PT_LOAD {
        var dest := phdrs[i].vaddr - low;
        ZeroFill(image, dest, phdrs[i].memsz);
        ReadFile(file, phdrs[i].offset, phdrs[i].filesz, image, dest);
      }
    }
  }

  lemma SpanInBlock(phdrs: seq<Segment>, file: seq<byte>, lo: nat, hi: nat)
    requires Loadable(phdrs, file) && IsSpan(phdrs, |phdrs|, lo, hi)
             && lo <= hi
    ensures hi - lo <= PagesFor(hi - lo) * 0x1000 < hi - lo + 0x1000 && lo < U64
    ensures forall i | 0 <= i < |phdrs| && phdrs[i].kind == PT_LOAD ::
              lo <= phdrs[i].vaddr && phdrs[i].vaddr + phdrs[i].memsz <= lo + PagesFor(hi - lo) * 0x1000
  {
  }

  // An entry point inside the image lies in the block, where the bytes of the image that it names are.
  lemma RelocatedEntry(base: nat, entry: nat, lo: nat, hi: nat, size: nat)
    requires lo < U64 && hi - lo <= size && lo <= hi
    ensures lo <= entry < hi && base + size <= U64 ==> (base + entry + U64 - lo) % U64 == base + (entry - lo)
  {
  }

  // load_kernel. base is what AllocatePages hands out for the page count, or None if it fails; was is what the
  // new block held before.
  method LoadKernel(ehdr: Header, phdrs: seq<Segment>, file: seq<byte>, base: Option<nat>)
      returns (r: LoadResult, image: array<byte>, ghost was: seq<byte>)
    requires |ehdr.ident| >= 4 && ehdr.entry < U64 && |phdrs| <= MAX_PHDRS
    requires Loadable(phdrs, file)
    ensures fresh(image) && |was| == image.Length
    ensures r.LoadError? <==> ehdr.ident[..4] != [0x7f, 0x45, 0x4c, 0x46] || forall p | p in phdrs :: p.kind != 1
    ensures r.OutOfPages? ==> base.None?
    ensures r.Loaded? ==>
              && base == Some(r.base) && IsSpan(phdrs, |phdrs|, r.low, r.high)
              && image.Length % 4096 == 0 && image.Length - 4096 < r.high - r.low <= image.Length
              && r.entry == (r.base + ehdr.entry + U64 - r.low) % U64
              && (r.low <= ehdr.entry < r.high && r.base + image.Length <= U64 ==>
                   r.entry == r.base + (ehdr.entry - r.low))
              && (forall o | 0 <= o < image.Length ::
                    image[o] == match ImageByte(phdrs, |phdrs|, file, r.low + o) case Some(b) => b case None => was[o])
    ensures forall i | r.Loaded? && 0 <= i < |phdrs| && phdrs[i].kind == 1 ::
              r.low <= phdrs[i].vaddr && phdrs[i].vaddr + phdrs[i].memsz <= r.low + image.Length
    ensures r.Loaded? && Disjoint(phdrs) ==>
              && (forall i, o | 0 <= i < |phdrs| && phdrs[i].kind == 1 && 0 <= o < image.Length
                  && phdrs[i].vaddr <= r.low + o < phdrs[i].vaddr + phdrs[i].filesz ::
                    image[o] == file[phdrs[i].offset + (r.low + o - phdrs[i].vaddr)])
              && (forall i, o | 0 <= i < |phdrs| && phdrs[i].kind == 1 && 0 <= o < image.Length
                  && phdrs[i].vaddr + phdrs[i].filesz <= r.low + o < phdrs[i].vaddr + phdrs[i].memsz :: image[o] == 0)
    ensures r.Loaded? ==>
              forall o | 0 <= o < image.Length && (forall p | p in phdrs && p.kind == 1 ::
                  r.low + o < p.vaddr || p.vaddr + p.memsz <= r.low + o) :: image[o] == was[o]
  {
    hide IsSpan, ImageByte, PagesFor, HasMagic;
    MagicIs(ehdr.ident);
    image := new byte[0];
    was := [];
    if !HasMagic(ehdr.ident) {
      return LoadError, image, was;
    }
    var minVaddr, maxVaddr, loadCount := FindSpan(phdrs);
    if loadCount == 0 {
      return LoadError, image, was;
    }
    SpanInBlock(phdrs, file, minVaddr, maxVaddr);
    var totalPages := PagesFor(maxVaddr - minVaddr);
    if base.None? {
      return OutOfPages, image, was;
    }
    image := new byte[totalPages * 0x1000];
    was := image[..];
    PlaceSegments(phdrs, file, minVaddr, image);
    ImageIsAsked(phdrs, file, minVaddr, image[..], was);
    RelocatedEntry(base.value, ehdr.entry, minVaddr, maxVaddr, image.Length);
    r := Loaded((base.value + ehdr.entry + U64 - minVaddr) % U64, base.value, minVaddr, maxVaddr);
  }
}
