/** memcpy and memset (string.c) over one byte-addressed memory: the unrolled word loops against the byte loop. */
module StringOps {

  const WORD: nat := 8

  // mem is was with the first n bytes at d taken from s.
  ghost predicate Copied(was: seq<bv8>, mem: seq<bv8>, d: nat, s: nat, n: nat) {
    && |mem| == |was| && d + n <= |was| && s + n <= |was|
    && forall a {:trigger mem[a]} | 0 <= a < |was| :: mem[a] == if d <= a < d + n then was[s + (a - d)] else was[a]
  }

  // Copying upwards is right as long as the destination does not start inside the source.
  predicate NoForwardOverlap(d: nat, s: nat, n: nat) {
    d <= s || s + n <= d
  }

  // The byte loop of memcpy as a function.
  function ByteLoop(m: seq<bv8>, d: nat, s: nat, n: nat): (r: seq<bv8>)
    requires d + n <= |m| && s + n <= |m|
    ensures |r| == |m|
  {
    if n == 0 then m else
      var r := ByteLoop(m, d, s, n - 1);
      r[d + n - 1 := r[s + n - 1]]
  }

  // Ranges that start a word or more apart, as those of two different aligned addresses do.
  predicate WordApart(d: nat, s: nat) {
    d + WORD <= s || s + WORD <= d
  }

  // m with the first k bytes at x taken from y all at once.
  function BlockWrite(m: seq<bv8>, x: nat, y: nat, k: nat): seq<bv8>
    requires x + k <= |m| && y + k <= |m|
  {
    m[..x] + m[y..y + k] + m[x + k..]
  }

  // Up to a word written at once is what the byte loop does, whether or not the ranges overlap.
  lemma {:induction false} WordIsBytes(m: seq<bv8>, d: nat, s: nat, b: nat, k: nat)
    requires WordApart(d, s) && k <= WORD && d + b + k <= |m| && s + b + k <= |m|
    ensures ByteLoop(m, d, s, b + k) == BlockWrite(ByteLoop(m, d, s, b), d + b, s + b, k)
    decreases k
  {
    hide ByteLoop, BlockWrite;
    if k == 0 {
      NoByteWritten(ByteLoop(m, d, s, b), d + b, s + b);
    } else {
      WordIsBytes(m, d, s, b, k - 1);
      LoopStep(m, d, s, b + k - 1);
      OneMoreByte(ByteLoop(m, d, s, b), d + b, s + b, k - 1);
    }
  }

  lemma LoopStep(m: seq<bv8>, d: nat, s: nat, n: nat)
    requires d + n < |m| && s + n < |m|
    ensures ByteLoop(m, d, s, n + 1) == ByteLoop(m, d, s, n)[d + n := ByteLoop(m, d, s, n)[s + n]]
  {
  }

  lemma NoByteWritten(m: seq<bv8>, x: nat, y: nat)
    requires x <= |m| && y <= |m|
    ensures BlockWrite(m, x, y, 0) == m
  {
  }

  lemma OneMoreByte(m: seq<bv8>, x: nat, y: nat, k: nat)
    requires WordApart(x, y) && k < WORD && x + k < |m| && y + k < |m|
    ensures |BlockWrite(m, x, y, k)| == |m|
    ensures BlockWrite(m, x, y, k)[x + k := BlockWrite(m, x, y, k)[y + k]] == BlockWrite(m, x, y, k + 1)
  {
    var r := BlockWrite(m, x, y, k);
    assert r[y + k] == m[y + k];
    assert m[y..y + k + 1] == m[y..y + k] + [m[y + k]];
  }

  // d64[i] = s64[i], b being the bytes already copied.
  method CopyWord(mem: array<bv8>, d: nat, s: nat, b: nat, ghost was: seq<bv8>)
    requires WordApart(d, s) && d + b + WORD <= mem.Length == |was| && s + b + WORD <= mem.Length
    requires mem[..] == ByteLoop(was, d, s, b)
    modifies mem
    ensures mem[..] == ByteLoop(was, d, s, b + WORD)
  {
    hide ByteLoop;
    WordIsBytes(was, d, s, b, WORD);
    ghost var before := mem[..];
    var word := mem[s + b..s + b + WORD];
    forall k | 0 <= k < WORD {
      mem[d + b + k] := word[k];
    }
    assert mem[..] == BlockWrite(before, d + b, s + b, WORD) by {
      forall a | 0 <= a < |was|
        ensures mem[a] == BlockWrite(before, d + b, s + b, WORD)[a]
      {
        if d + b <= a < d + b + WORD {
          assert mem[d + b + (a - d - b)] == word[a - d - b];
        } else {
          assert mem[a] == before[a];
        }
      }
    }
  }

  method CopyByte(mem: array<bv8>, d: nat, s: nat, b: nat, ghost was: seq<bv8>)
    requires d + b < mem.Length == |was| && s + b < mem.Length
    requires mem[..] == ByteLoop(was, d, s, b)
    modifies mem
    ensures mem[..] == ByteLoop(was, d, s, b + 1)
  {
    hide ByteLoop;
    LoopStep(was, d, s, b);
    mem[d + b] := mem[s + b];
  }

  method CopyTwoWords(mem: array<bv8>, d: nat, s: nat, b: nat, ghost was: seq<bv8>)
    requires WordApart(d, s) && d + b + 2 * WORD <= mem.Length == |was| && s + b + 2 * WORD <= mem.Length
    requires mem[..] == ByteLoop(was, d, s, b)
    modifies mem
    ensures mem[..] == ByteLoop(was, d, s, b + 2 * WORD)
  {
    hide ByteLoop, WordApart;
    CopyWord(mem, d, s, b, was);
    CopyWord(mem, d, s, b + WORD, was);
  }

  method CopyFourWords(mem: array<bv8>, d: nat, s: nat, b: nat, ghost was: seq<bv8>)
    requires WordApart(d, s) && d + b + 4 * WORD <= mem.Length == |was| && s + b + 4 * WORD <= mem.Length
    requires mem[..] == ByteLoop(was, d, s, b)
    modifies mem
    ensures mem[..] == ByteLoop(was, d, s, b + 4 * WORD)
  {
    hide ByteLoop, WordApart;
    CopyTwoWords(mem, d, s, b, was);
    CopyTwoWords(mem, d, s, b + 2 * WORD, was);
  }

  // The word loops of memcpy, eight, four, two and one word at a time; returns the bytes copied.
  method CopyWords(mem: array<bv8>, d: nat, s: nat, n: nat, ghost was: seq<bv8>) returns (done: nat)
    requires WordApart(d, s) && d + n <= mem.Length == |was| && s + n <= mem.Length && mem[..] == was
    modifies mem
    ensures done <= n && mem[..] == ByteLoop(was, d, s, done)
  {
    hide ByteLoop, WordApart;
    var words, i := n / 8, 0;
    NoRounds(was, d, s);
    while i + 8 <= words
      invariant i <= words && mem[..] == ByteLoop(was, d, s, 8 * i)
    {
      CopyFourWords(mem, d, s, 8 * i, was);
      CopyFourWords(mem, d, s, 8 * i + 32, was);
      i := i + 8;
    }
    while i + 4 <= words
      invariant i <= words && mem[..] == ByteLoop(was, d, s, 8 * i)
    {
      CopyFourWords(mem, d, s, 8 * i, was);
      i := i + 4;
    }
    while i + 2 <= words
      invariant i <= words && mem[..] == ByteLoop(was, d, s, 8 * i)
    {
      CopyTwoWords(mem, d, s, 8 * i, was);
      i := i + 2;
    }
    while i + 1 <= words
      invariant i <= words && mem[..] == ByteLoop(was, d, s, 8 * i)
    {
      CopyWord(mem, d, s, 8 * i, was);
      i := i + 1;
    }
    done := i * 8;
  }

  lemma NoRounds(m: seq<bv8>, d: nat, s: nat)
    requires d <= |m| && s <= |m|
    ensures ByteLoop(m, d, s, 0) == m
  {
  }

  lemma {:induction false} SelfCopy(m: seq<bv8>, d: nat, n: nat)
    requires d + n <= |m|
    ensures ByteLoop(m, d, d, n) == m
  {
    if n > 0 {
      SelfCopy(m, d, n - 1);
    }
  }

  // memcpy does what the plain byte loop does, for every length, every alignment and every overlap; so it copies the n
  // bytes and touches nothing else when the destination does not start inside the source.
  method MemCpy(mem: array<bv8>, d: nat, s: nat, n: nat)
    requires d + n <= mem.Length && s + n <= mem.Length
    modifies mem
    ensures mem[..] == ByteLoop(old(mem[..]), d, s, n)
    ensures n == 0 || NoForwardOverlap(d, s, n) ==> Copied(old(mem[..]), mem[..], d, s, n)
    ensures d + n <= s || s + n <= d ==>
              forall a {:trigger mem[a]} | 0 <= a < mem.Length ::
                mem[a] == if d <= a < d + n then old(mem[..])[s + (a - d)] else old(mem[..])[a]
  {
    hide Copied, NoForwardOverlap, ByteLoop;
    ghost var was := mem[..];
    if d + n <= s || s + n <= d {
      LoopBytes(was, d, s, n);
    }
    if n == 0 || NoForwardOverlap(d, s, n) {
      LoopCopies(was, d, s, n);
    }
    NoRounds(was, d, s);
    if n == 0 || s == d {
      SelfCopy(was, d, n);
      return;
    }
    if d % 16 == 0 && s % 16 == 0 && n >= 16 {
      AlignedApart(d, s);
      var k := CopyWords(mem, d, s, n, was);
      while k < n
        invariant k <= n && mem[..] == ByteLoop(was, d, s, k)
      {
        CopyByte(mem, d, s, k, was);
        k := k + 1;
      }
    } else {
      for i := 0 to n
        invariant mem[..] == ByteLoop(was, d, s, i)
      {
        CopyByte(mem, d, s, i, was);
      }
    }
  }

  lemma AlignedApart(d: nat, s: nat)
    requires d % 16 == 0 && s % 16 == 0 && d != s
    ensures WordApart(d, s)
  {
  }

  lemma {:induction false} LoopKeepsOutside(m: seq<bv8>, d: nat, s: nat, n: nat, a: nat)
    requires d + n <= |m| && s + n <= |m| && a < |m| && !(d <= a < d + n)
    ensures ByteLoop(m, d, s, n)[a] == m[a]
  {
    if n > 0 {
      LoopKeepsOutside(m, d, s, n - 1, a);
    }
  }

  // With the destination inside the source, a byte already overwritten is read again.
  lemma {:induction false} LoopRepeats(m: seq<bv8>, d: nat, s: nat, n: nat, j: nat)
    requires s < d && d + n <= |m| && j < n
    ensures ByteLoop(m, d, s, n)[d + j] == if s + j < d then m[s + j] else ByteLoop(m, d, s, n)[s + j]
  {
    if j < n - 1 {
      LoopRepeats(m, d, s, n - 1, j);
    } else if s + j < d {
      LoopKeepsOutside(m, d, s, n - 1, s + j);
    }
  }

  // The byte loop, and with it memcpy, copies correctly whatever the memory holds exactly when the destination does not
  // start inside the source.
  lemma ByteLoopCopiesIff(size: nat, d: nat, s: nat, n: nat)
    requires d + n <= size && s + n <= size
    ensures (forall m: seq<bv8> | |m| == size :: Copied(m, ByteLoop(m, d, s, n), d, s, n)) <==>
            (n == 0 || NoForwardOverlap(d, s, n))
  {
    hide ByteLoop, Copied;
    if n == 0 || NoForwardOverlap(d, s, n) {
      forall m: seq<bv8> | |m| == size
        ensures Copied(m, ByteLoop(m, d, s, n), d, s, n)
      {
        LoopCopies(m, d, s, n);
      }
    } else {
      var m := OverlapBreaks(size, d, s, n);
      assert |m| == size && !Copied(m, ByteLoop(m, d, s, n), d, s, n);
    }
  }

  lemma OverlapBreaks(size: nat, d: nat, s: nat, n: nat) returns (m: seq<bv8>)
    requires d + n <= size && s < d < s + n
    ensures |m| == size && !Copied(m, ByteLoop(m, d, s, n), d, s, n)
  {
    hide ByteLoop;
    m := seq(size, a => if a == s then 1 as bv8 else 0);
    LoopRepeats(m, d, s, n, d - s);
    LoopRepeats(m, d, s, n, 0);
    var a := d + (d - s);
    assert ByteLoop(m, d, s, n)[a] == 1 && m[s + (a - d)] == 0;
  }

  lemma {:induction false} LoopCopies(m: seq<bv8>, d: nat, s: nat, n: nat)
    requires d + n <= |m| && s + n <= |m| && (n == 0 || NoForwardOverlap(d, s, n))
    ensures Copied(m, ByteLoop(m, d, s, n), d, s, n)
  {
    if n > 0 {
      LoopCopies(m, d, s, n - 1);
      assert ByteLoop(m, d, s, n - 1)[s + n - 1] == m[s + n - 1];
    }
  }

  // The bytes of disjoint ranges after the loop, one by one.
  lemma LoopBytes(m: seq<bv8>, d: nat, s: nat, n: nat)
    requires d + n <= |m| && s + n <= |m| && (d + n <= s || s + n <= d)
    ensures forall a {:trigger ByteLoop(m, d, s, n)[a]} | 0 <= a < |m| ::
              ByteLoop(m, d, s, n)[a] == if d <= a < d + n then m[s + (a - d)] else m[a]
  {
    hide ByteLoop;
    LoopCopies(m, d, s, n);
  }

  // ---- memset ----

  function Pattern(b: bv8): bv64 {
    var w := b as bv64;
    w | (w << 8) | (w << 16) | (w << 24) | (w << 32) | (w << 40) | (w << 48) | (w << 56)
  }

  // The k-th byte of a word in memory.
  function ByteOf(w: bv64, k: nat): bv8
    requires k < 8
  {
    match k
    case 0 => (w & 0xFF) as bv8
    case 1 => ((w >> 8) & 0xFF) as bv8
    case 2 => ((w >> 16) & 0xFF) as bv8
    case 3 => ((w >> 24) & 0xFF) as bv8
    case 4 => ((w >> 32) & 0xFF) as bv8
    case 5 => ((w >> 40) & 0xFF) as bv8
    case 6 => ((w >> 48) & 0xFF) as bv8
    case _ => ((w >> 56) & 0xFF) as bv8
  }

  lemma PatternBytes(b: bv8, k: nat)
    requires k < 8
    ensures ByteOf(Pattern(b), k) == b
  {
  }

  // mem is was with the n bytes at p set to b.
  ghost predicate Filled(was: seq<bv8>, mem: seq<bv8>, p: nat, b: bv8, n: nat) {
    && |mem| == |was| && p + n <= |was|
    && forall a | 0 <= a < |was| :: mem[a] == if p <= a < p + n then b else was[a]
  }

  lemma NothingFilled(m: seq<bv8>, p: nat, b: bv8)
    requires p <= |m|
    ensures Filled(m, m, p, b, 0)
  {
  }

  // p64[i] = pattern, at being the bytes already set.
  method StoreWord(mem: array<bv8>, p: nat, at: nat, pattern: bv64, ghost b: bv8, ghost was: seq<bv8>)
    requires p + at + WORD <= mem.Length && Filled(was, mem[..], p, b, at) && pattern == Pattern(b)
    modifies mem
    ensures Filled(was, mem[..], p, b, at + WORD)
  {
    hide Pattern, ByteOf;
    ghost var before := mem[..];
    forall k | 0 <= k < WORD {
      mem[p + at + k] := ByteOf(pattern, k);
    }
    forall a | 0 <= a < |was|
      ensures mem[..][a] == if p <= a < p + at + WORD then b else was[a]
    {
      if p + at <= a < p + at + WORD {
        PatternBytes(b, a - p - at);
        assert mem[p + at + (a - p - at)] == ByteOf(pattern, a - p - at);
      } else {
        assert mem[a] == before[a];
      }
    }
  }

  method StoreByte(mem: array<bv8>, p: nat, at: nat, b: bv8, ghost was: seq<bv8>)
    requires p + at < mem.Length && Filled(was, mem[..], p, b, at)
    modifies mem
    ensures Filled(was, mem[..], p, b, at + 1)
  {
    ghost var before := mem[..];
    mem[p + at] := b;
    assert mem[..] == before[p + at := b];
  }

  // The word loops of memset; returns the bytes set.
  method StoreWords(mem: array<bv8>, p: nat, pattern: bv64, n: nat, ghost b: bv8,
      ghost was: seq<bv8>) returns (done: nat)
    requires p + n <= mem.Length && Filled(was, mem[..], p, b, 0) && pattern == Pattern(b)
    modifies mem
    ensures done <= n && Filled(was, mem[..], p, b, done)
  {
    hide Filled, Pattern, ByteOf;
    var words, i := n / 8, 0;
    while i + 8 <= words
      invariant i <= words && Filled(was, mem[..], p, b, 8 * i)
    {
      StoreWord(mem, p, 8 * i, pattern, b, was);
      StoreWord(mem, p, 8 * i + 8, pattern, b, was);
      StoreWord(mem, p, 8 * i + 16, pattern, b, was);
      StoreWord(mem, p, 8 * i + 24, pattern, b, was);
      StoreWord(mem, p, 8 * i + 32, pattern, b, was);
      StoreWord(mem, p, 8 * i + 40, pattern, b, was);
      StoreWord(mem, p, 8 * i + 48, pattern, b, was);
      StoreWord(mem, p, 8 * i + 56, pattern, b, was);
      i := i + 8;
    }
    while i + 4 <= words
      invariant i <= words && Filled(was, mem[..], p, b, 8 * i)
    {
      StoreWord(mem, p, 8 * i, pattern, b, was);
      StoreWord(mem, p, 8 * i + 8, pattern, b, was);
      StoreWord(mem, p, 8 * i + 16, pattern, b, was);
      StoreWord(mem, p, 8 * i + 24, pattern, b, was);
      i := i + 4;
    }
    while i + 2 <= words
      invariant i <= words && Filled(was, mem[..], p, b, 8 * i)
    {
      StoreWord(mem, p, 8 * i, pattern, b, was);
      StoreWord(mem, p, 8 * i + 8, pattern, b, was);
      i := i + 2;
    }
    while i + 1 <= words
      invariant i <= words && Filled(was, mem[..], p, b, 8 * i)
    {
      StoreWord(mem, p, 8 * i, pattern, b, was);
      i := i + 1;
    }
    done := i * 8;
  }

  // memset sets exactly the n bytes at p to the low byte of c, for every length and alignment.
  method MemSet(mem: array<bv8>, p: nat, c: bv32, n: nat)
    requires p + n <= mem.Length
    modifies mem
    ensures Filled(old(mem[..]), mem[..], p, (c & 0xFF) as bv8, n)
    ensures forall a | 0 <= a < mem.Length :: mem[a] == if p <= a < p + n then (c & 0xFF) as bv8 else old(mem[a])
  {
    hide Filled, Pattern, ByteOf;
    ghost var was := mem[..];
    var b := (c & 0xFF) as bv8;
    NothingFilled(was, p, b);
    if n == 0 {
      return;
    }
    if p % 16 == 0 && n >= 16 {
      var k := StoreWords(mem, p, Pattern(b), n, b, was);
      while k < n
        invariant k <= n && Filled(was, mem[..], p, b, k)
      {
        StoreByte(mem, p, k, b, was);
        k := k + 1;
      }
    } else {
      for i := 0 to n
        invariant Filled(was, mem[..], p, b, i)
      {
        StoreByte(mem, p, i, b, was);
      }
    }
    BytesFilled(was, mem[..], p, b, n);
  }

  lemma BytesFilled(was: seq<bv8>, mem: seq<bv8>, p: nat, b: bv8, n: nat)
    requires Filled(was, mem, p, b, n)
    ensures |mem| == |was| && forall a | 0 <= a < |mem| :: mem[a] == if p <= a < p + n then b else was[a]
  {
  }
}
