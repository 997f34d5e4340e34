/** Drawing (framebuffer.c) into a byte-addressed memory that holds the visible buffer and the back buffer. */
module Framebuffer {
  import opened Wrappers
  import opened StringOps

  // ---- Colours ----

  // The four bytes of a pixel in memory order.
  function Le(c: bv32): (s: seq<bv8>)
    ensures |s| == 4
  {
    [(c & 0xFF) as bv8, ((c >> 8) & 0xFF) as bv8, ((c >> 16) & 0xFF) as bv8, ((c >> 24) & 0xFF) as bv8]
  }

  // A number up to 255 as a byte.
  function Byte(n: nat): bv8
    requires n <= 255
  {
    n as bv8
  }

  // fb_rgb
  function Rgb(bgr: bool, r: bv8, g: bv8, b: bv8): bv32 {
    if bgr then (r as bv32) | ((g as bv32) << 8) | ((b as bv32) << 16)
    else (b as bv32) | ((g as bv32) << 8) | ((r as bv32) << 16)
  }

  // The weight that the hue formulas take off the full channel.
  function Falling(remainder: nat, h: nat): (f: nat)
    requires remainder <= 255
    ensures f <= 255
  {
    FallingBound(255 - remainder, 43 - h % 43);
    (255 - remainder) * (43 - h % 43) / 43
  }

  lemma FallingBound(a: nat, b: nat)
    requires a <= 255 && b <= 43
    ensures a * b / 43 <= 255
  {
    assert a * b <= a * 43;
  }

  // hsv_to_rgb: no subtraction goes below zero and every channel fits a byte.
  function HueToRgb(h: nat): (c: (nat, nat, nat))
    ensures c.0 <= 255 && c.1 <= 255 && c.2 <= 255
  {
    var region := h / 43;
    var remainder: nat := (h - region * 43) * 6;
    var p: nat := 255 * (255 - remainder) / 256;
    var q: nat := 255 * (255 - Falling(remainder, h)) / 256;
    var t: nat := 255 - p;
    if region == 0 then (255, p, t)
    else if region == 1 then (q, 255, t)
    else if region == 2 then (t, 255, p)
    else if region == 3 then (t, q, 255)
    else if region == 4 then (p, t, 255)
    else (255, t, q)
  }

  function HueColor(bgr: bool, h: nat): bv32 {
    var (r, g, b) := HueToRgb(h);
    Rgb(bgr, Byte(r), Byte(g), Byte(b))
  }

  // ---- What a call draws ----

  datatype Screen = Screen(width: nat, height: nat, pitch: nat, bgr: bool, font: seq<seq<bv8>>)

  // A screen of 32-bit dimensions whose rows hold their pixels.
  predicate GoodScreen(c: Screen) {
    && 4 * c.width <= c.pitch && c.width < 0x1_0000_0000 && c.height < 0x1_0000_0000
    && |c.font| == 95 && (forall g | g in c.font :: |g| == 8)
  }

  datatype Draw =
    | Dot(x: nat, y: nat, color: bv32)
    | Clear(color: bv32)
    | Glyph(code: int, x: nat, y: nat, fg: bv32, bg: bv32)
    | Text(codes: seq<int>, x: nat, y: nat, fg: bv32, bg: bv32)
    | Bar(y: nat, height: nat)
    | Disc(x0: nat, y0: nat, radius: nat)

  const RED: bv32 := 0x00FF_0000
  const BLACK: bv32 := 0
  const WARNING: string := "WARN: double buffer alloc failed"

  // The codes of a text's characters.
  function Codes(text: string): seq<int> {
    seq(|text|, i requires 0 <= i < |text| => text[i] as int)
  }

  // How far v lies above base in 64-bit arithmetic.
  function Above(v: nat, base: nat): nat
    requires base < U64
  {
    if base <= v then v - base else v + U64 - base
  }

  function GlyphRow(c: Screen, code: int, row: nat): bv8
    requires GoodScreen(c) && row < 8
  {
    var shown := if code < 32 || code > 126 then 63 else code;
    c.font[shown - 32][row]
  }

  function GlyphColor(c: Screen, code: int, col: nat, row: nat, fg: bv32, bg: bv32): bv32
    requires GoodScreen(c) && col < 8 && row < 8
  {
    if GlyphRow(c, code, row) & (1 << col) != 0 then fg else bg
  }

  function Ramp(c: Screen, x: nat): (v: nat)
    requires x < c.width
    ensures v <= 255
  {
    ScaleBound(x, c.width);
    x * 255 / c.width
  }

  function Third(height: nat): nat {
    if height / 3 == 0 then 1 else height / 3
  }

  function BarColor(c: Screen, y: nat, height: nat, px: nat, py: nat): bv32
    requires px < c.width
  {
    var v := Ramp(c, px);
    if py < y + Third(height) then Rgb(c.bgr, Byte(v), Byte(255 - v), 0)
    else if py < y + Third(height) + Third(height) then Rgb(c.bgr, 0, Byte(v), Byte(255 - v))
    else HueColor(c.bgr, v)
  }

  predicate InDisc(dx: int, dy: int, radius: nat) {
    0 <= dx + radius && dx <= radius && 0 <= dy + radius && dy <= radius && dx * dx + dy * dy <= radius * radius
  }

  function DiscHue(dx: int, radius: nat): (h: nat)
    requires radius > 0 && 0 <= dx + radius && dx <= radius
    ensures h <= 255
  {
    ScaleBound(dx + radius, 2 * radius);
    (dx + radius) * 255 / (2 * radius)
  }

  lemma ScaleBound(a: nat, d: nat)
    requires a <= d && 0 < d
    ensures 0 <= a * 255 / d <= 255
  {
    QuotientBound(a * 255, d, 255);
  }

  lemma QuotientBound(n: nat, d: nat, q: nat)
    requires 0 < d && n <= d * q
    ensures 0 <= n / d <= q
  {
    var k := n / d;
    assert n == d * k + n % d;
    assert k > q ==> d * k >= d * (q + 1);
  }

  function DiscColor(c: Screen, dx: int, radius: nat): bv32
    requires radius > 0 && 0 <= dx + radius && dx <= radius
  {
    HueColor(c.bgr, DiscHue(dx, radius))
  }

  // The parameters for which the C arithmetic is defined and does not overflow.
  predicate Drawable(d: Draw) {
    match d
    case Dot(x, y, _) => x < U64 && y < U64
    case Clear(_) => true
    case Glyph(_, x, y, _, _) => x < U64 && y < U64
    case Text(codes, x, y, _, _) => x < U64 && y < U64 && 8 * |codes| <= U64
    case Bar(y, height) => y + height + 2 < U64
    case Disc(x0, y0, radius) => 0 < radius < 0x8000_0000 && x0 < 0x8000_0000_0000_0000 && y0 < 0x8000_0000_0000_0000
  }

  // The colour a call gives the on-screen pixel (px, py), if it touches it.
  function Ink(c: Screen, d: Draw, px: nat, py: nat): Option<bv32>
    requires GoodScreen(c) && px < c.width && py < c.height && Drawable(d)
  {
    match d
    case Dot(x, y, color) => if px == x && py == y then Some(color) else None
    case Clear(color) => Some(color)
    case Glyph(code, x, y, fg, bg) =>
      if Above(px, x) < 8 && Above(py, y) < 8 then Some(GlyphColor(c, code, Above(px, x), Above(py, y), fg, bg))
          else None
    case Text(codes, x, y, fg, bg) =>
      if Above(px, x) < 8 * |codes| && Above(py, y) < 8
      then Some(GlyphColor(c, codes[Above(px, x) / 8], Above(px, x) % 8, Above(py, y), fg, bg)) else None
    case Bar(y, height) =>
      if y <= py < y + height then Some(BarColor(c, y, height, px, py)) else None
    case Disc(x0, y0, radius) =>
      if InDisc(px - x0, py - y0, radius) then Some(DiscColor(c, px - x0, radius)) else None
  }

  // ---- Buffers ----

  function Offset(c: Screen, px: nat, py: nat): nat {
    py * c.pitch + px * 4
  }

  // The bytes of pixel (px, py) of the buffer at base.
  function Pixel(c: Screen, m: seq<bv8>, base: nat, px: nat, py: nat): seq<bv8> {
    var a := base + Offset(c, px, py);
    if a + 4 <= |m| then m[a..a + 4] else []
  }

  function Size(c: Screen): nat {
    c.height * c.pitch
  }

  // Nothing outside the buffer at base has changed.
  ghost predicate OnlyIn(c: Screen, was: seq<bv8>, now: seq<bv8>, base: nat) {
    && |now| == |was|
    && forall a {:trigger now[a]} | 0 <= a < |was| && !(base <= a < base + Size(c)) :: now[a] == was[a]
  }

  // Two different pixels share no byte, and every pixel lies inside its buffer.
  lemma PixelsApart(c: Screen, px: nat, py: nat, qx: nat, qy: nat)
    requires GoodScreen(c) && px < c.width && qx < c.width && py < c.height && qy < c.height
    requires px != qx || py != qy
    ensures Offset(c, px, py) + 4 <= Offset(c, qx, qy) || Offset(c, qx, qy) + 4 <= Offset(c, px, py)
  {
    if py < qy {
      RowsApart(py, qy, c.pitch);
    } else if qy < py {
      RowsApart(qy, py, c.pitch);
    }
  }

  lemma RowsApart(i: nat, j: nat, pitch: nat)
    requires i < j
    ensures i * pitch + pitch <= j * pitch
  {
    assert j * pitch == i * pitch + pitch + (j - i - 1) * pitch;
  }

  lemma PixelInside(c: Screen, px: nat, py: nat)
    requires GoodScreen(c) && px < c.width && py < c.height
    ensures Offset(c, px, py) + 4 <= Size(c)
  {
    RowsApart(py, c.height, c.pitch);
  }

  // ---- Drawing ----

  // The buffer at base shows what the call draws over what it showed, and nothing outside it has changed.
  ghost predicate Draws(c: Screen, d: Draw, was: seq<bv8>, now: seq<bv8>, base: nat)
    requires GoodScreen(c) && Drawable(d)
  {
    && OnlyIn(c, was, now, base)
    && forall px: nat, py: nat {:trigger Pixel(c, now, base, px, py)} | px < c.width && py < c.height ::
         Pixel(c, now, base, px, py) ==
             match Ink(c, d, px, py) case Some(color) => Le(color) case None => Pixel(c, was, base, px, py)
  }

  class FrameBuffer {
    const c: Screen
    // The memory both buffers live in, and where they start.
    const mem: array<bv8>
    const fb: nat
    var back: nat
    var doubled: bool

    ghost predicate Valid()
      reads this
    {
      && GoodScreen(c) && fb + Size(c) <= mem.Length
      && (doubled ==> back + Size(c) <= mem.Length && (back + Size(c) <= fb || fb + Size(c) <= back))
    }

    function Target(): nat
      reads this
    {
      if doubled then back else fb
    }

    // fb_init
    constructor (c: Screen, mem: array<bv8>, fb: nat)
      requires GoodScreen(c) && fb + Size(c) <= mem.Length
      ensures Valid() && !doubled && this.c == c && this.mem == mem && this.fb == fb
    {
      this.c, this.mem, this.fb, back, doubled := c, mem, fb, 0, false;
    }

    // fb_enable_double_buffering, given the block mem_alloc returned, or None: then a warning is drawn.
    method EnableDoubleBuffering(block: Option<nat>)
      requires Valid() && !doubled
      requires block.Some? ==>
                 block.value + Size(c) <= mem.Length && (block.value + Size(c) <= fb || fb + Size(c) <= block.value)
      modifies this, mem
      ensures Valid() && doubled == block.Some? && (doubled ==> back == block.value && mem[..] == old(mem[..]))
      ensures !doubled ==> Draws(c, Text(Codes(WARNING), 32, 32, RED, BLACK), old(mem[..]), mem[..], fb)
    {
      hide Draws;
      if block.Some? {
        back := block.value;
        doubled := true;
      } else {
        DrawString(Codes(WARNING), 32, 32, RED, BLACK);
      }
    }

    // fb_put_pixel
    method PutPixel(x: nat, y: nat, color: bv32)
      requires Valid()
      modifies mem
      ensures OnlyIn(c, old(mem[..]), mem[..], Target())
      ensures forall px: nat, py: nat {:trigger Pixel(c, mem[..], Target(), px, py)} | px < c.width && py < c.height ::
                Pixel(c, mem[..], Target(), px, py) ==
                    if px == x && py == y then Le(color) else Pixel(c, old(mem[..]), Target(), px, py)
      ensures x < U64 && y < U64 ==> Draws(c, Dot(x, y, color), old(mem[..]), mem[..], Target())
    {
      hide Le, Offset, Pixel, OnlyIn;
      OnlyInItself(c, mem[..], Target());
      if x >= c.width || y >= c.height {
        return;
      }
      ghost var was, base := mem[..], Target();
      PixelInside(c, x, y);
      var a, bytes := Target() + Offset(c, x, y), Le(color);
      mem[a], mem[a + 1], mem[a + 2], mem[a + 3] := bytes[0], bytes[1], bytes[2], bytes[3];
      assert mem[..] == was[a := bytes[0]][a + 1 := bytes[1]][a + 2 := bytes[2]][a + 3 := bytes[3]];
      FourBytes(was, a, bytes);
      PixelWritten(c, was, mem[..], base, x, y, bytes);
    }

    // fb_clear: pixel by pixel into the visible buffer, but by memset, one byte repeated, into the back buffer.
    method ClearAll(color: bv32)
      requires Valid()
      modifies mem
      ensures Draws(c, Clear(if doubled then Smear(color) else color), old(mem[..]), mem[..], Target())
    {
      hide Le, Offset, Pixel, OnlyIn, Smear, HueColor, GlyphColor, BarColor, DiscColor;
      ghost var was := mem[..];
      if doubled {
        MemSet(mem, back, color, c.height * c.pitch);
        FilledShows(c, was, mem[..], back, color);
      } else {
        OnlyInItself(c, was, fb);
        for y := 0 to c.height
          invariant OnlyIn(c, was, mem[..], fb)
          invariant forall px: nat, py: nat {:trigger Pixel(c, mem[..], fb, px, py)} | px < c.width && py < c.height ::
            Pixel(c, mem[..], fb, px, py) == if py < y then Le(color) else Pixel(c, was, fb, px, py)
        {
          for x := 0 to c.width
            invariant OnlyIn(c, was, mem[..], fb)
            invariant forall px: nat, py: nat {:trigger Pixel(c, mem[..], fb, px, py)}
                      | px < c.width && py < c.height ::
              Pixel(c, mem[..], fb, px, py) ==
                  if py < y || (py == y && px < x) then Le(color) else Pixel(c, was, fb, px, py)
          {
            ghost var before := mem[..];
            PutPixel(x, y, color);
            OnlyInTwice(c, was, before, mem[..], fb);
          }
        }
      }
    }

    // fb_draw_char
    method DrawChar(code: int, x: nat, y: nat, fg: bv32, bg: bv32)
      requires Valid() && x < U64 && y < U64
      modifies mem
      ensures Draws(c, Glyph(code, x, y, fg, bg), old(mem[..]), mem[..], Target())
    {
      hide Le, Offset, Pixel, OnlyIn, GlyphColor, GlyphRow, HueColor, BarColor, DiscColor;
      ghost var was, base, d := mem[..], Target(), Glyph(code, x, y, fg, bg);
      OnlyInItself(c, was, base);
      for row := 0 to 8
        invariant OnlyIn(c, was, mem[..], base)
        invariant forall px: nat, py: nat {:trigger Pixel(c, mem[..], base, px, py)} | px < c.width && py < c.height ::
          Pixel(c, mem[..], base, px, py) == if Above(px, x) < 8 && Above(py, y) < row
                                             then Le(Ink(c, d, px, py).value) else Pixel(c, was, base, px, py)
      {
        for col := 0 to 8
          invariant OnlyIn(c, was, mem[..], base)
          invariant forall px: nat, py: nat {:trigger Pixel(c, mem[..], base, px, py)}
                    | px < c.width && py < c.height ::
            Pixel(c, mem[..], base, px, py) ==
                if Above(px, x) < 8 && (Above(py, y) < row || (Above(py, y) == row && Above(px, x) < col))
                                               then Le(Ink(c, d, px, py).value) else Pixel(c, was, base, px, py)
        {
          ghost var before := mem[..];
          var color := GlyphColor(c, code, col, row, fg, bg);
          PutPixel((x + col) % U64, (y + row) % U64, color);
          OnlyInTwice(c, was, before, mem[..], base);
          forall px: nat, py: nat | px < c.width && py < c.height
            ensures px == (x + col) % U64 && py == (y + row) % U64 <==> Above(px, x) == col && Above(py, y) == row
          {
            WrapIsAbove(px, x, col);
            WrapIsAbove(py, y, row);
          }
        }
      }
    }

    // fb_draw_string, the string without its terminator.
    method DrawString(codes: seq<int>, x0: nat, y: nat, fg: bv32, bg: bv32)
      requires Valid() && Drawable(Text(codes, x0, y, fg, bg))
      modifies mem
      ensures Draws(c, Text(codes, x0, y, fg, bg), old(mem[..]), mem[..], Target())
    {
      hide Le, Offset, Pixel, OnlyIn, Ink, Above;
      ghost var was, base, d := mem[..], Target(), Text(codes, x0, y, fg, bg);
      OnlyInItself(c, was, base);
      AboveBase(x0);
      forall px: nat, py: nat | px < c.width && py < c.height
        ensures Ink(c, d, px, py).Some? <==> Above(px, x0) < 8 * |codes| && Above(py, y) < 8
      {
        TextInk(c, codes, x0, y, fg, bg, px, py);
      }
      var x, i := x0, 0;
      while i < |codes|
        invariant i <= |codes| && x == (x0 + 8 * i) % U64
        invariant OnlyIn(c, was, mem[..], base)
        invariant forall px: nat, py: nat {:trigger Pixel(c, mem[..], base, px, py)} | px < c.width && py < c.height ::
          Pixel(c, mem[..], base, px, py) == if Above(px, x0) < 8 * i && Above(py, y) < 8
                                             then Le(Ink(c, d, px, py).value) else Pixel(c, was, base, px, py)
      {
        ghost var before := mem[..];
        DrawChar(codes[i], x, y, fg, bg);
        OnlyInTwice(c, was, before, mem[..], base);
        forall px: nat, py: nat | px < c.width && py < c.height
          ensures Pixel(c, mem[..], base, px, py) == if Above(px, x0) < 8 * (i + 1) && Above(py, y) < 8
                                                     then Le(Ink(c, d, px, py).value) else Pixel(c, was, base, px, py)
        {
          GlyphOfText(c, codes, x0, y, fg, bg, i, px, py);
        }
        NextX(x0, x, i);
        x := (x + 8) % U64;
        i := i + 1;
      }
    }

    // One row of a band of fb_draw_color_bar.
    method DrawBarRow(band: nat, row: nat, y: nat, height: nat, ghost was: seq<bv8>)
      requires Valid() && Drawable(Bar(y, height)) && y <= row < y + height && row < c.height
               && BandOf(y, height, row) == band
      requires OnlyIn(c, was, mem[..], Target()) && BarShown(c, was, mem[..], Target(), y, height, row, 0)
      modifies mem
      ensures OnlyIn(c, was, mem[..], Target()) && BarShown(c, was, mem[..], Target(), y, height, row + 1, 0)
    {
      hide Le, Offset, Pixel, OnlyIn, HueColor, Ramp, Rgb, BandOf, BarShown, Draws, GoodScreen;
      for x := 0 to c.width
        invariant OnlyIn(c, was, mem[..], Target()) && BarShown(c, was, mem[..], Target(), y, height, row, x)
      {
        ghost var before := mem[..];
        var v := Ramp(c, x);
        var color := if band == 0 then Rgb(c.bgr, Byte(v), Byte(255 - v), 0)
                     else if band == 1 then Rgb(c.bgr, 0, Byte(v), Byte(255 - v))
                     else HueColor(c.bgr, v);
        PutPixel(x, row, color);
        OnlyInTwice(c, was, before, mem[..], Target());
        BarGrows(c, was, before, mem[..], Target(), y, height, row, x, color);
      }
      BarRowDone(c, was, mem[..], Target(), y, height, row);
    }

    // fb_draw_color_bar
    method DrawColorBar(y: nat, height: nat)
      requires Valid() && Drawable(Bar(y, height))
      modifies mem
      ensures Draws(c, Bar(y, height), old(mem[..]), mem[..], Target())
    {
      hide Le, Offset, Pixel, OnlyIn, BarColor, GlyphColor, DiscColor;
      ghost var was, base := mem[..], Target();
      OnlyInItself(c, was, base);
      if height == 0 {
        return;
      }
      var barBottom := if y + height > c.height then c.height else y + height;
      var third := Third(height);
      var row := y;
      while row < y + third && row < barBottom
        invariant y <= row <= y + third && OnlyIn(c, was, mem[..], base)
        invariant BarShown(c, was, mem[..], base, y, height, row, 0)
      {
        DrawBarRow(0, row, y, height, was);
        row := row + 1;
      }
      var midStart := y + third;
      row := midStart;
      while row < midStart + third && row < barBottom
        invariant midStart <= row <= midStart + third && OnlyIn(c, was, mem[..], base)
        invariant BarShown(c, was, mem[..], base, y, height, row, 0)
      {
        DrawBarRow(1, row, y, height, was);
        row := row + 1;
      }
      var hueStart := midStart + third;
      row := hueStart;
      while row < barBottom
        invariant hueStart <= row && OnlyIn(c, was, mem[..], base)
        invariant BarShown(c, was, mem[..], base, y, height, row, 0)
      {
        DrawBarRow(2, row, y, height, was);
        row := row + 1;
      }
    }

    // fb_draw_filled_circle
    method DrawFilledCircle(x0: nat, y0: nat, radius: nat)
      requires Valid() && Drawable(Disc(x0, y0, radius))
      modifies mem
      ensures Draws(c, Disc(x0, y0, radius), old(mem[..]), mem[..], Target())
    {
      hide Le, Offset, Pixel, OnlyIn, HueColor, GlyphColor, BarColor, InDisc;
      ghost var was, base, d := mem[..], Target(), Disc(x0, y0, radius);
      OnlyInItself(c, was, base);
      BoxHoldsDisc(x0, y0, radius);
      var r: int := radius;
      for y: int := -r to r + 1
        invariant OnlyIn(c, was, mem[..], base)
        invariant forall px: nat, py: nat {:trigger Pixel(c, mem[..], base, px, py)} | px < c.width && py < c.height ::
          Pixel(c, mem[..], base, px, py) == DiscSoFar(c, was, base, d, -r, y, px, py)
      {
        for x: int := -r to r + 1
          invariant OnlyIn(c, was, mem[..], base)
          invariant forall px: nat, py: nat {:trigger Pixel(c, mem[..], base, px, py)}
                    | px < c.width && py < c.height ::
            Pixel(c, mem[..], base, px, py) == DiscSoFar(c, was, base, d, x, y, px, py)
        {
          if InDisc(x, y, radius) {
            ghost var before := mem[..];
            PutPixel((x0 + x + U64) % U64, (y0 + y + U64) % U64, DiscColor(c, x, radius));
            OnlyInTwice(c, was, before, mem[..], base);
            WrappedIsOffScreen(x0, x);
            WrappedIsOffScreen(y0, y);
          }
        }
      }
    }

    // fb_swap_buffers: row by row, the visible part of the back buffer is copied to the visible buffer.
    method SwapBuffers()
      requires Valid()
      modifies mem
      ensures !doubled ==> mem[..] == old(mem[..])
      ensures doubled ==> OnlyIn(c, old(mem[..]), mem[..], fb)
      ensures doubled ==> forall px: nat, py: nat {:trigger Pixel(c, mem[..], fb, px, py)}
              | px < c.width && py < c.height ::
                Pixel(c, mem[..], fb, px, py) == Pixel(c, old(mem[..]), back, px, py)
    {
      hide Pixel, OnlyIn;
      if doubled {
        ghost var was := mem[..];
        OnlyInItself(c, was, fb);
        for y := 0 to c.height
          invariant Swapped(c, was, mem[..], fb, back, y)
        {
          SwapRow(y, was);
        }
      }
    }

    method SwapRow(y: nat, ghost was: seq<bv8>)
      requires Valid() && y < c.height && |was| == mem.Length && doubled
      requires Swapped(c, was, mem[..], fb, back, y)
      modifies mem
      ensures Swapped(c, was, mem[..], fb, back, y + 1)
    {
      hide Swapped, Copied, ByteLoop, Size, NoForwardOverlap, GoodScreen;
      RowInside(c, y);
      RowsOfBuffersApart(c, y, fb, back);
      ghost var before := mem[..];
      MemCpy(mem, fb + y * c.pitch, back + y * c.pitch, c.width * 4);
      RowCopied(c, was, before, mem[..], fb, back, y);
    }
  }

  // The rows above y of one buffer show what the other showed, and nothing else changed.
  ghost predicate Swapped(c: Screen, was: seq<bv8>, now: seq<bv8>, fb: nat, back: nat, y: nat) {
    && OnlyIn(c, was, now, fb)
    && (forall px: nat, py: nat {:trigger Pixel(c, now, fb, px, py)} | px < c.width && py < y ::
          Pixel(c, now, fb, px, py) == Pixel(c, was, back, px, py))
  }

  // Which of the three bands of a bar a row belongs to.
  function BandOf(y: nat, height: nat, row: nat): nat {
    if row < y + Third(height) then 0 else if row < y + Third(height) + Third(height) then 1 else 2
  }

  // What a pixel shows once the bar is drawn up to column x of the row.
  ghost function BarSoFar(c: Screen, was: seq<bv8>, base: nat, y: nat, height: nat, row: nat, x: nat, px: nat,
      py: nat): seq<bv8>
    requires px < c.width
  {
    if y <= py < y + height && (py < row || (py == row && px < x)) then Le(BarColor(c, y, height, px, py))
        else Pixel(c, was, base, px, py)
  }

  ghost predicate BarShown(c: Screen, was: seq<bv8>, now: seq<bv8>, base: nat, y: nat, height: nat, row: nat, x: nat) {
    forall px: nat, py: nat {:trigger Pixel(c, now, base, px, py)} | px < c.width && py < c.height ::
      Pixel(c, now, base, px, py) == BarSoFar(c, was, base, y, height, row, x, px, py)
  }

  lemma BarGrows(c: Screen, was: seq<bv8>, before: seq<bv8>, now: seq<bv8>, base: nat, y: nat, height: nat, row: nat,
      x: nat, color: bv32)
    requires x < c.width && y <= row < y + height && BarShown(c, was, before, base, y, height, row, x)
    requires var v, band := Ramp(c, x), BandOf(y, height, row);
             color == if band == 0 then Rgb(c.bgr, Byte(v), Byte(255 - v), 0)
                      else if band == 1 then Rgb(c.bgr, 0, Byte(v), Byte(255 - v))
                      else HueColor(c.bgr, v)
    requires forall px: nat, py: nat {:trigger Pixel(c, now, base, px, py)} | px < c.width && py < c.height ::
               Pixel(c, now, base, px, py) == if px == x && py == row then Le(color) else Pixel(c, before, base, px, py)
    ensures BarShown(c, was, now, base, y, height, row, x + 1)
  {
    hide Le, Pixel, HueColor, Ramp, Rgb, Third;
  }

  // A full row is the start of the next.
  lemma BarRowDone(c: Screen, was: seq<bv8>, now: seq<bv8>, base: nat, y: nat, height: nat, row: nat)
    requires y <= row < y + height && BarShown(c, was, now, base, y, height, row, c.width)
    ensures BarShown(c, was, now, base, y, height, row + 1, 0)
  {
    hide Le, Pixel, BarColor;
  }

  // What a pixel shows once the disc is drawn up to the offset (x, y).
  ghost function DiscSoFar(c: Screen, was: seq<bv8>, base: nat, d: Draw, x: int, y: int, px: nat, py: nat): seq<bv8>
    requires GoodScreen(c) && px < c.width && py < c.height && d.Disc? && Drawable(d)
  {
    var dx, dy := px - d.x0, py - d.y0;
    if InDisc(dx, dy, d.radius) && (dy < y || (dy == y && dx < x)) then Le(DiscColor(c, dx, d.radius))
        else Pixel(c, was, base, px, py)
  }

  lemma BoxHoldsDisc(x0: nat, y0: nat, radius: nat)
    ensures forall dx, dy {:trigger InDisc(dx, dy, radius)} | InDisc(dx, dy, radius) ::
              0 <= dx + radius && dx <= radius && 0 <= dy + radius && dy <= radius
  {
  }

  // A coordinate that goes below zero wraps to one that no screen reaches.
  lemma WrappedIsOffScreen(base: nat, d: int)
    requires base < 0x8000_0000_0000_0000 && 0 <= d + 0x8000_0000 && d < 0x8000_0000
    ensures base + d >= 0 ==> (base + d + U64) % U64 == base + d
    ensures base + d < 0 ==> (base + d + U64) % U64 >= 0x8000_0000_0000_0000
  {
  }

  // A pixel outside the changed buffer keeps its bytes.
  lemma OtherBufferStays(c: Screen, was: seq<bv8>, now: seq<bv8>, base: nat, other: nat, px: nat, py: nat)
    requires GoodScreen(c) && OnlyIn(c, was, now, base) && px < c.width && py < c.height
    requires other + Size(c) <= |was| && (other + Size(c) <= base || base + Size(c) <= other)
    ensures Pixel(c, now, other, px, py) == Pixel(c, was, other, px, py)
  {
    PixelInside(c, px, py);
    hide Offset, Size;
  }

  // Copying row y of one buffer to the other copies its pixels and leaves the rows above as they were.
  lemma PixelOfCopiedRow(c: Screen, before: seq<bv8>, now: seq<bv8>, fb: nat, back: nat, y: nat, px: nat, py: nat)
    requires GoodScreen(c) && px < c.width && py <= y < c.height
    requires fb + Size(c) <= |before| && back + Size(c) <= |before|
    requires Copied(before, now, fb + y * c.pitch, back + y * c.pitch, c.width * 4)
    ensures Pixel(c, now, fb, px, py) ==
            if py == y then Pixel(c, before, back, px, py) else Pixel(c, before, fb, px, py)
  {
    PixelInside(c, px, py);
    if py < y {
      RowsApart(py, y, c.pitch);
    }
    hide Size;
  }

  lemma CopiedOnlyIn(c: Screen, was: seq<bv8>, before: seq<bv8>, now: seq<bv8>, fb: nat, back: nat, y: nat)
    requires GoodScreen(c) && y < c.height && fb + Size(c) <= |was|
    requires OnlyIn(c, was, before, fb) && Copied(before, now, fb + y * c.pitch, back + y * c.pitch, c.width * 4)
    ensures OnlyIn(c, was, now, fb) && |before| == |was|
  {
    hide Size, Copied, OnlyIn;
    RowInside(c, y);
    CopiedInside(c, before, now, fb + y * c.pitch, back + y * c.pitch, c.width * 4, fb);
    OnlyInTwice(c, was, before, now, fb);
    SameLength(c, was, before, fb);
  }

  lemma SameLength(c: Screen, was: seq<bv8>, now: seq<bv8>, base: nat)
    requires OnlyIn(c, was, now, base)
    ensures |now| == |was|
  {
  }

  lemma CopiedInside(c: Screen, before: seq<bv8>, now: seq<bv8>, d: nat, s: nat, n: nat, base: nat)
    requires Copied(before, now, d, s, n) && base <= d && d + n <= base + Size(c)
    ensures OnlyIn(c, before, now, base)
  {
    hide Size;
  }

  lemma RowCopied(c: Screen, was: seq<bv8>, before: seq<bv8>, now: seq<bv8>, fb: nat, back: nat, y: nat)
    requires GoodScreen(c) && y < c.height && fb + Size(c) <= |was| && back + Size(c) <= |was|
    requires back + Size(c) <= fb || fb + Size(c) <= back
    requires Swapped(c, was, before, fb, back, y)
             && Copied(before, now, fb + y * c.pitch, back + y * c.pitch, c.width * 4)
    ensures Swapped(c, was, now, fb, back, y + 1)
  {
    hide Pixel, Copied, OnlyIn, Size;
    CopiedOnlyIn(c, was, before, now, fb, back, y);
    forall px: nat, py: nat | px < c.width && py < y + 1
      ensures Pixel(c, now, fb, px, py) == Pixel(c, was, back, px, py)
    {
      PixelOfCopiedRow(c, before, now, fb, back, y, px, py);
      OtherBufferStays(c, was, before, fb, back, px, py);
    }
  }

  lemma RowsOfBuffersApart(c: Screen, y: nat, fb: nat, back: nat)
    requires GoodScreen(c) && y < c.height && (back + Size(c) <= fb || fb + Size(c) <= back)
    ensures NoForwardOverlap(fb + y * c.pitch, back + y * c.pitch, c.width * 4)
  {
    hide Size;
    RowInside(c, y);
  }

  lemma RowInside(c: Screen, y: nat)
    requires GoodScreen(c) && y < c.height
    ensures y * c.pitch + c.width * 4 <= Size(c)
  {
    RowsApart(y, c.height, c.pitch);
  }

  lemma AboveBase(x: nat)
    requires x < U64
    ensures x == x % U64
  {
  }

  lemma NextX(x0: nat, x: nat, i: nat)
    requires x == (x0 + 8 * i) % U64
    ensures (x + 8) % U64 == (x0 + 8 * (i + 1)) % U64
  {
  }

  lemma TextInk(c: Screen, codes: seq<int>, x0: nat, y: nat, fg: bv32, bg: bv32, px: nat, py: nat)
    requires GoodScreen(c) && px < c.width && py < c.height && Drawable(Text(codes, x0, y, fg, bg))
    ensures Ink(c, Text(codes, x0, y, fg, bg), px, py).Some? <==> Above(px, x0) < 8 * |codes| && Above(py, y) < 8
  {
  }

  // The i-th glyph of a string is what the string shows from its 8*i-th column on.
  lemma GlyphOfText(c: Screen, codes: seq<int>, x0: nat, y: nat, fg: bv32, bg: bv32, i: nat, px: nat, py: nat)
    requires GoodScreen(c) && px < c.width && py < c.height && Drawable(Text(codes, x0, y, fg, bg)) && i < |codes|
    ensures var glyph := Ink(c, Glyph(codes[i], (x0 + 8 * i) % U64, y, fg, bg), px, py);
            var text := Ink(c, Text(codes, x0, y, fg, bg), px, py);
            && (glyph.Some? <==> 8 * i <= Above(px, x0) < 8 * (i + 1) && Above(py, y) < 8)
            && (glyph.Some? ==> glyph == text)
            && text.Some? == (Above(px, x0) < 8 * |codes| && Above(py, y) < 8)
  {
    hide GlyphColor, GlyphRow, Above;
    AboveShifted(px, x0, 8 * i);
    if 8 * i <= Above(px, x0) < 8 * (i + 1) {
      assert Above(px, x0) / 8 == i && Above(px, x0) % 8 == Above(px, x0) - 8 * i;
    }
  }

  lemma AboveShifted(v: nat, base: nat, k: nat)
    requires v < U64 && base < U64 && k < U64
    ensures Above(v, (base + k) % U64) == if Above(v, base) >= k then Above(v, base) - k else Above(v, base) + U64 - k
    ensures Above(v, base) < U64
  {
    assert (base + k) % U64 == if base + k < U64 then base + k else base + k - U64;
  }

  lemma WrapIsAbove(v: nat, base: nat, k: nat)
    requires v < U64 && base < U64 && k < U64
    ensures v == (base + k) % U64 <==> Above(v, base) == k
  {
    assert (base + k) % U64 == if base + k < U64 then base + k else base + k - U64;
  }

  // The low byte of a colour in all four places: what memset makes of it.
  function Smear(color: bv32): bv32 {
    (color & 0xFF) | ((color & 0xFF) << 8) | ((color & 0xFF) << 16) | ((color & 0xFF) << 24)
  }

  lemma SmearBytes(color: bv32)
    ensures Le(Smear(color)) ==
            [(color & 0xFF) as bv8, (color & 0xFF) as bv8, (color & 0xFF) as bv8, (color & 0xFF) as bv8]
  {
  }

  lemma FilledShows(c: Screen, was: seq<bv8>, now: seq<bv8>, base: nat, color: bv32)
    requires GoodScreen(c) && Filled(was, now, base, (color & 0xFF) as bv8, Size(c))
    ensures Draws(c, Clear(Smear(color)), was, now, base)
  {
    hide Le, Smear, Offset;
    SmearBytes(color);
    forall px: nat, py: nat | px < c.width && py < c.height
      ensures Pixel(c, now, base, px, py) == Le(Smear(color))
    {
      PixelInside(c, px, py);
    }
  }

  lemma OnlyInItself(c: Screen, m: seq<bv8>, base: nat)
    ensures OnlyIn(c, m, m, base)
  {
  }

  lemma OnlyInTwice(c: Screen, m: seq<bv8>, m1: seq<bv8>, m2: seq<bv8>, base: nat)
    requires OnlyIn(c, m, m1, base) && OnlyIn(c, m1, m2, base)
    ensures OnlyIn(c, m, m2, base)
  {
    forall a | 0 <= a < |m| && !(base <= a < base + Size(c))
      ensures m2[a] == m[a]
    {
      assert m2[a] == m1[a];
    }
  }

  lemma PixelAfterWrite(c: Screen, was: seq<bv8>, base: nat, x: nat, y: nat, bytes: seq<bv8>, px: nat, py: nat)
    requires GoodScreen(c) && base + Size(c) <= |was| && x < c.width && y < c.height && px < c.width && py < c.height
    requires |bytes| == 4
    ensures base + Offset(c, x, y) + 4 <= |was|
    ensures var a := base + Offset(c, x, y);
            Pixel(c, was[..a] + bytes + was[a + 4..], base, px, py) ==
                if px == x && py == y then bytes else Pixel(c, was, base, px, py)
  {
    PixelInside(c, x, y);
    PixelInside(c, px, py);
    if px != x || py != y {
      PixelsApart(c, px, py, x, y);
    }
  }

  lemma FourBytes(m: seq<bv8>, a: nat, bytes: seq<bv8>)
    requires a + 4 <= |m| && |bytes| == 4
    ensures m[a := bytes[0]][a + 1 := bytes[1]][a + 2 := bytes[2]][a + 3 := bytes[3]] == m[..a] + bytes + m[a + 4..]
  {
  }

  // The four byte writes of fb_put_pixel change that pixel and nothing else.
  lemma PixelWritten(c: Screen, was: seq<bv8>, now: seq<bv8>, base: nat, x: nat, y: nat, bytes: seq<bv8>)
    requires GoodScreen(c) && base + Size(c) <= |was| && x < c.width && y < c.height && |bytes| == 4
    requires base + Offset(c, x, y) + 4 <= |was|
             && now == was[..base + Offset(c, x, y)] + bytes + was[base + Offset(c, x, y) + 4..]
    ensures OnlyIn(c, was, now, base)
    ensures forall px: nat, py: nat {:trigger Pixel(c, now, base, px, py)} | px < c.width && py < c.height ::
              Pixel(c, now, base, px, py) == if px == x && py == y then bytes else Pixel(c, was, base, px, py)
  {
    hide Pixel, Offset;
    PixelInside(c, x, y);
    forall px: nat, py: nat | px < c.width && py < c.height
      ensures Pixel(c, now, base, px, py) == if px == x && py == y then bytes else Pixel(c, was, base, px, py)
    {
      PixelAfterWrite(c, was, base, x, y, bytes, px, py);
    }
  }

  // ---- Double buffering refines direct drawing ----

  // The two buffers show the same picture.
  ghost predicate SamePicture(c: Screen, m: seq<bv8>, base: nat, m': seq<bv8>, base': nat) {
    forall px: nat, py: nat {:trigger Pixel(c, m', base', px, py)} | px < c.width && py < c.height ::
      Pixel(c, m', base', px, py) == Pixel(c, m, base, px, py)
  }

  // What a call draws into the back buffer: clears go through memset.
  function Buffered(d: Draw): Draw {
    if d.Clear? then Clear(Smear(d.color)) else d
  }

  predicate Uniform(color: bv32) {
    Le(color)[0] == Le(color)[1] == Le(color)[2] == Le(color)[3]
  }

  lemma UniformIsSmeared(color: bv32)
    ensures Le(Smear(color)) == Le(color) <==> Uniform(color)
  {
    SmearBytes(color);
    hide Smear;
    assert Le(color)[0] == (color & 0xFF) as bv8;
  }

  lemma DrawsAgree(c: Screen, d: Draw, m: seq<bv8>, m1: seq<bv8>, fb: nat, k: seq<bv8>, k1: seq<bv8>, back: nat)
    requires GoodScreen(c) && Drawable(d) && (d.Clear? ==> Uniform(d.color))
    requires Draws(c, d, m, m1, fb) && Draws(c, Buffered(d), k, k1, back) && SamePicture(c, m, fb, k, back)
    ensures SamePicture(c, m1, fb, k1, back)
  {
    hide Pixel, Le, OnlyIn, GlyphColor, BarColor, DiscColor, InDisc, Smear, Uniform;
    if d.Clear? {
      UniformIsSmeared(d.color);
    }
    forall px: nat, py: nat | px < c.width && py < c.height
      ensures Pixel(c, k1, back, px, py) == Pixel(c, m1, fb, px, py)
    {
      assert Pixel(c, k, back, px, py) == Pixel(c, m, fb, px, py);
    }
  }

  // The contents that a sequence of calls goes through, drawing straight into the buffer at base.
  ghost predicate Pictures(c: Screen, ds: seq<Draw>, ms: seq<seq<bv8>>, base: nat)
    requires GoodScreen(c) && forall d | d in ds :: Drawable(d)
  {
    |ms| == |ds| + 1 && forall i | 0 <= i < |ds| :: Draws(c, ds[i], ms[i], ms[i + 1], base)
  }

  lemma {:induction false} RunsAgree(c: Screen, ds: seq<Draw>, ms: seq<seq<bv8>>, fb: nat, ks: seq<seq<bv8>>, back: nat)
    requires GoodScreen(c) && (forall d | d in ds :: Drawable(d) && (d.Clear? ==> Uniform(d.color)))
    requires Pictures(c, ds, ms, fb)
    requires |ks| == |ds| + 1 && forall i | 0 <= i < |ds| :: Draws(c, Buffered(ds[i]), ks[i], ks[i + 1], back)
    requires SamePicture(c, ms[0], fb, ks[0], back)
    ensures SamePicture(c, ms[|ds|], fb, ks[|ds|], back)
    decreases |ds|
  {
    hide Draws, SamePicture, Drawable, Buffered, Uniform;
    if |ds| > 0 {
      var n := |ds| - 1;
      assert ds[..n] <= ds;
      RunsAgree(c, ds[..n], ms[..n + 1], fb, ks[..n + 1], back);
      DrawsAgree(c, ds[n], ms[n], ms[n + 1], fb, ks[n], ks[n + 1], back);
    }
  }

  // Any sequence of calls whose clears use a colour of four equal bytes, drawn into the back buffer and then
  // swapped, leaves the visible buffer showing what drawing it directly would have shown.
  lemma DoubleBufferingRefines(c: Screen, ds: seq<Draw>, ms: seq<seq<bv8>>, fb: nat, ks: seq<seq<bv8>>, back: nat,
      swapped: seq<bv8>)
    requires GoodScreen(c) && (forall d | d in ds :: Drawable(d) && (d.Clear? ==> Uniform(d.color)))
    requires Pictures(c, ds, ms, fb)
    requires |ks| == |ds| + 1 && forall i | 0 <= i < |ds| :: Draws(c, Buffered(ds[i]), ks[i], ks[i + 1], back)
    requires SamePicture(c, ms[0], fb, ks[0], back)
    requires SamePicture(c, ks[|ds|], back, swapped, fb)
    ensures SamePicture(c, ms[|ds|], fb, swapped, fb)
  {
    hide Draws, Pixel;
    RunsAgree(c, ds, ms, fb, ks, back);
    var n := |ds|;
    forall px: nat, py: nat | px < c.width && py < c.height
      ensures Pixel(c, swapped, fb, px, py) == Pixel(c, ms[n], fb, px, py)
    {
      assert Pixel(c, ks[n], back, px, py) == Pixel(c, ms[n], fb, px, py);
    }
  }

  // ---- Swaps anywhere ----

  datatype Act = Paint(d: Draw) | Swap

  predicate Paintable(a: Act) {
    a.Paint? ==> Drawable(a.d) && (a.d.Clear? ==> Uniform(a.d.color))
  }

  // Unbuffered, fb_swap_buffers does nothing.
  ghost predicate DirectStep(c: Screen, a: Act, m: seq<bv8>, m': seq<bv8>, fb: nat)
    requires GoodScreen(c) && Paintable(a)
  {
    if a.Paint? then Draws(c, a.d, m, m', fb) else m' == m
  }

  ghost predicate BufferedStep(c: Screen, a: Act, k: seq<bv8>, k': seq<bv8>, fb: nat, back: nat)
    requires GoodScreen(c) && Paintable(a)
  {
    if a.Paint? then Draws(c, Buffered(a.d), k, k', back) else Swapped(c, k, k', fb, back, c.height)
  }

  // Two separate buffers in a memory of that size.
  predicate Buffers(c: Screen, size: nat, fb: nat, back: nat) {
    fb + Size(c) <= size && back + Size(c) <= size && (back + Size(c) <= fb || fb + Size(c) <= back)
  }

  // The contents that memory goes through on both ways.
  ghost predicate BothRuns(c: Screen, acts: seq<Act>, ms: seq<seq<bv8>>, ks: seq<seq<bv8>>, fb: nat, back: nat) {
    && GoodScreen(c) && |ms| == |ks| == |acts| + 1 && (forall i | 0 <= i < |acts| :: Paintable(acts[i]))
    && Buffers(c, |ks[0]|, fb, back) && SamePicture(c, ms[0], fb, ks[0], back)
    && (forall i | 0 <= i < |acts| :: DirectStep(c, acts[i], ms[i], ms[i + 1], fb))
    && (forall i | 0 <= i < |acts| :: BufferedStep(c, acts[i], ks[i], ks[i + 1], fb, back))
  }

  // Whatever is drawn and swapped, the back buffer always shows what direct drawing would show.
  lemma {:induction false} BackShowsDirect(c: Screen, acts: seq<Act>, ms: seq<seq<bv8>>, ks: seq<seq<bv8>>, fb: nat,
      back: nat, n: nat)
    requires BothRuns(c, acts, ms, ks, fb, back) && n <= |acts|
    ensures SamePicture(c, ms[n], fb, ks[n], back) && |ks[n]| == |ks[0]|
    decreases n
  {
    hide DirectStep, BufferedStep, SamePicture, Paintable, GoodScreen, Buffers;
    if n > 0 {
      BackShowsDirect(c, acts, ms, ks, fb, back, n - 1);
      assert DirectStep(c, acts[n - 1], ms[n - 1], ms[n - 1 + 1], fb);
      assert BufferedStep(c, acts[n - 1], ks[n - 1], ks[n - 1 + 1], fb, back);
      StepAgrees(c, acts[n - 1], ms[n - 1], ms[n], ks[n - 1], ks[n], fb, back);
    }
  }

  lemma StepAgrees(c: Screen, a: Act, m: seq<bv8>, m': seq<bv8>, k: seq<bv8>, k': seq<bv8>, fb: nat, back: nat)
    requires GoodScreen(c) && Paintable(a) && Buffers(c, |k|, fb, back) && SamePicture(c, m, fb, k, back)
    requires DirectStep(c, a, m, m', fb) && BufferedStep(c, a, k, k', fb, back)
    ensures SamePicture(c, m', fb, k', back) && |k'| == |k|
  {
    hide Pixel, GoodScreen, Drawable, Uniform, Ink, Size, OnlyIn, Le;
    if a.Paint? {
      DrawsAgree(c, a.d, m, m', fb, k, k', back);
      PaintedOnlyIn(c, a, k, k', fb, back);
    } else {
      SameLength(c, k, k', fb);
      BackStays(c, k, k', fb, back);
    }
  }

  lemma PaintedOnlyIn(c: Screen, a: Act, k: seq<bv8>, k': seq<bv8>, fb: nat, back: nat)
    requires GoodScreen(c) && Paintable(a) && a.Paint? && BufferedStep(c, a, k, k', fb, back)
    ensures OnlyIn(c, k, k', back) && |k'| == |k|
  {
    hide Pixel, GoodScreen, Ink, Size, Uniform;
  }

  lemma BackStays(c: Screen, k: seq<bv8>, k': seq<bv8>, fb: nat, back: nat)
    requires GoodScreen(c) && Buffers(c, |k|, fb, back) && OnlyIn(c, k, k', fb)
    ensures forall px: nat, py: nat {:trigger Pixel(c, k', back, px, py)} | px < c.width && py < c.height ::
              Pixel(c, k', back, px, py) == Pixel(c, k, back, px, py)
  {
    hide Pixel, OnlyIn, GoodScreen, Size;
    forall px: nat, py: nat | px < c.width && py < c.height
      ensures Pixel(c, k', back, px, py) == Pixel(c, k, back, px, py)
    {
      OtherBufferStays(c, k, k', fb, back, px, py);
    }
  }

  // From any swap on until the next, the screen shows what direct drawing would have shown at that swap.
  lemma {:induction false} SwapsShowDirect(c: Screen, acts: seq<Act>, ms: seq<seq<bv8>>, ks: seq<seq<bv8>>, fb: nat,
      back: nat, j: nat, n: nat)
    requires BothRuns(c, acts, ms, ks, fb, back) && 0 < j <= n <= |acts|
    requires acts[j - 1].Swap? && forall i | j <= i < n :: acts[i].Paint?
    ensures SamePicture(c, ms[j], fb, ks[n], fb)
    decreases n
  {
    hide SamePicture, Paintable, GoodScreen, Buffers, Draws, Swapped;
    BackShowsDirect(c, acts, ms, ks, fb, back, n - 1);
    assert BufferedStep(c, acts[n - 1], ks[n - 1], ks[n - 1 + 1], fb, back);
    assert DirectStep(c, acts[n - 1], ms[n - 1], ms[n - 1 + 1], fb);
    if n == j {
      JustSwapped(c, ms[n], ks[n - 1], ks[n], fb, back);
    } else {
      SwapsShowDirect(c, acts, ms, ks, fb, back, j, n - 1);
      PaintedOnlyIn(c, acts[n - 1], ks[n - 1], ks[n], fb, back);
      ScreenStays(c, ms[j], ks[n - 1], ks[n], fb, back);
    }
  }

  lemma JustSwapped(c: Screen, m: seq<bv8>, k: seq<bv8>, k': seq<bv8>, fb: nat, back: nat)
    requires SamePicture(c, m, fb, k, back) && Swapped(c, k, k', fb, back, c.height)
    ensures SamePicture(c, m, fb, k', fb)
  {
    hide Pixel, OnlyIn;
    forall px: nat, py: nat | px < c.width && py < c.height
      ensures Pixel(c, k', fb, px, py) == Pixel(c, m, fb, px, py)
    {
      assert Pixel(c, k, back, px, py) == Pixel(c, m, fb, px, py);
    }
  }

  lemma ScreenStays(c: Screen, m: seq<bv8>, k: seq<bv8>, k': seq<bv8>, fb: nat, back: nat)
    requires GoodScreen(c) && Buffers(c, |k|, fb, back) && OnlyIn(c, k, k', back) && SamePicture(c, m, fb, k, fb)
    ensures SamePicture(c, m, fb, k', fb)
  {
    hide Pixel, OnlyIn, GoodScreen, Size;
    forall px: nat, py: nat | px < c.width && py < c.height
      ensures Pixel(c, k', fb, px, py) == Pixel(c, m, fb, px, py)
    {
      OtherBufferStays(c, k, k', back, fb, px, py);
      assert Pixel(c, k, fb, px, py) == Pixel(c, m, fb, px, py);
    }
  }

  // On any screen with a pixel, one clear shows the same in both modes exactly for a colour of four equal bytes.
  lemma ClearAgreesIff(c: Screen, color: bv32, m: seq<bv8>, m1: seq<bv8>, fb: nat, k: seq<bv8>, k1: seq<bv8>, back: nat)
    requires GoodScreen(c) && 0 < c.width && 0 < c.height
    requires Draws(c, Clear(color), m, m1, fb) && Draws(c, Buffered(Clear(color)), k, k1, back)
    ensures SamePicture(c, m1, fb, k1, back) <==> Uniform(color)
  {
    hide Pixel, Le, OnlyIn, Smear, Uniform;
    UniformIsSmeared(color);
    assert Pixel(c, m1, fb, 0, 0) == Le(color);
    assert Pixel(c, k1, back, 0, 0) == Le(Smear(color));
  }
}
