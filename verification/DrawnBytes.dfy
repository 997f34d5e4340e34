/** What the drawing calls of framebuffer.c put into memory, byte by byte: which address a pixel has, in which order the
    bytes of a colour stand there, and which colour each kind of call gives it. */
module DrawnBytes {
  import opened Wrappers
  import opened Framebuffer

  // ---- Addresses and bytes ----

  // The four bytes from a on are those of a colour, lowest first.
  predicate ColorAt(m: seq<bv8>, a: int, color: bv32) {
    && 0 <= a && a + 4 <= |m|
    && m[a] == (color & 0xFF) as bv8
    && m[a + 1] == ((color >> 8) & 0xFF) as bv8
    && m[a + 2] == ((color >> 16) & 0xFF) as bv8
    && m[a + 3] == ((color >> 24) & 0xFF) as bv8
  }

  predicate BytesAt(m: seq<bv8>, a: int, bytes: seq<bv8>) {
    0 <= a && a + |bytes| <= |m| && m[a..a + |bytes|] == bytes
  }

  // A drawing call leaves the bytes of a pixel it does not touch alone, and gives one that it touches the bytes of its
  // colour, lowest first, at four times the column behind the start of the row.
  lemma InkBytes(c: Screen, d: Draw, was: seq<bv8>, now: seq<bv8>, base: nat, px: nat, py: nat)
    requires GoodScreen(c) && Drawable(d) && Draws(c, d, was, now, base) && base + c.height * c.pitch <= |was|
    requires px < c.width && py < c.height
    ensures var a := base + py * c.pitch + px * 4;
            match Ink(c, d, px, py)
            case None => 0 <= a && a + 4 <= |now| == |was| && now[a..a + 4] == was[a..a + 4]
            case Some(color) => ColorAt(now, a, color)
  {
    hide Ink, GoodScreen, Drawable, Le, Draws, Pixel;
    PixelIs(c, d, was, now, base, px, py);
    if Ink(c, d, px, py).Some? {
      var color := Ink(c, d, px, py).value;
      LeIs(color);
      FourAt(now, base + py * c.pitch + px * 4, Le(color));
    }
  }

  lemma BytesOf(c: Screen, d: Draw, was: seq<bv8>, now: seq<bv8>, base: nat, px: nat, py: nat, color: bv32)
    requires GoodScreen(c) && Drawable(d) && Draws(c, d, was, now, base) && base + c.height * c.pitch <= |was|
    requires px < c.width && py < c.height && Ink(c, d, px, py) == Some(color)
    ensures var a := base + py * c.pitch + px * 4;
            ColorAt(now, a, color)
  {
    hide Ink, GoodScreen, Drawable, Le, Draws;
    InkBytes(c, d, was, now, base, px, py);
  }

  lemma LeIs(color: bv32)
    ensures Le(color)[0] == (color & 0xFF) as bv8 && Le(color)[1] == ((color >> 8) & 0xFF) as bv8
    ensures Le(color)[2] == ((color >> 16) & 0xFF) as bv8 && Le(color)[3] == ((color >> 24) & 0xFF) as bv8
  {
  }

  lemma PixelIs(c: Screen, d: Draw, was: seq<bv8>, now: seq<bv8>, base: nat, px: nat, py: nat)
    requires GoodScreen(c) && Drawable(d) && Draws(c, d, was, now, base) && base + c.height * c.pitch <= |was|
    requires px < c.width && py < c.height
    ensures var a := base + py * c.pitch + px * 4;
            && |now| == |was| && a + 4 <= |now|
            && now[a..a + 4] == match Ink(c, d, px, py) case None => was[a..a + 4] case Some(color) => Le(color)
  {
    hide Ink, GoodScreen, Drawable, Le;
    PixelInside(c, px, py);
    var a := base + py * c.pitch + px * 4;
    assert Pixel(c, now, base, px, py) == now[a..a + 4];
    assert Pixel(c, was, base, px, py) == was[a..a + 4];
  }

  lemma FourAt(m: seq<bv8>, a: nat, bytes: seq<bv8>)
    requires a + 4 <= |m| && m[a..a + 4] == bytes
    ensures m[a] == bytes[0] && m[a + 1] == bytes[1] && m[a + 2] == bytes[2] && m[a + 3] == bytes[3]
  {
    assert m[a] == m[a..a + 4][0] && m[a + 1] == m[a..a + 4][1];
    assert m[a + 2] == m[a..a + 4][2] && m[a + 3] == m[a..a + 4][3];
  }

  // In the BGR format red stands first in memory, in the other blue.
  lemma RgbBytes(bgr: bool, r: bv8, g: bv8, b: bv8)
    ensures Le(Rgb(bgr, r, g, b)) == if bgr then [r, g, b, 0] else [b, g, r, 0]
  {
    hide Le;
    Packed(r, g, b);
    Packed(b, g, r);
    LeIs(Rgb(bgr, r, g, b));
  }

  lemma Packed(x: bv8, y: bv8, z: bv8)
    ensures var w := (x as bv32) | ((y as bv32) << 8) | ((z as bv32) << 16);
            && (w & 0xFF) as bv8 == x && ((w >> 8) & 0xFF) as bv8 == y
            && ((w >> 16) & 0xFF) as bv8 == z && ((w >> 24) & 0xFF) as bv8 == 0
  {
  }

  // ---- Characters ----

  // An on-screen pixel in column col and row row of a character shows the foreground colour if bit col of that row of
  // its glyph is set, and the background colour if not; a code that is not printable has the glyph of a question mark.
  lemma GlyphBytes(c: Screen, code: int, x: nat, y: nat, fg: bv32, bg: bv32, was: seq<bv8>, now: seq<bv8>, base: nat,
      col: nat, row: nat)
    requires GoodScreen(c) && x < U64 && y < U64 && Draws(c, Glyph(code, x, y, fg, bg), was, now, base)
    requires base + c.height * c.pitch <= |was| && col < 8 && row < 8
    requires (x + col) % U64 < c.width && (y + row) % U64 < c.height
    ensures var a := base + (y + row) % U64 * c.pitch + (x + col) % U64 * 4;
            var bits := c.font[if 32 <= code <= 126 then code - 32 else 31][row];
            var mask: bv8 := [1, 2, 4, 8, 16, 32, 64, 128][col];
            var color := if bits & mask != 0 then fg else bg;
            ColorAt(now, a, color)
  {
    hide Draws, Le, Above, GlyphColor, GlyphRow, GoodScreen, Ink;
    var px, py := (x + col) % U64, (y + row) % U64;
    InkBytes(c, Glyph(code, x, y, fg, bg), was, now, base, px, py);
    GlyphInk(c, code, x, y, fg, bg, col, row);
    GlyphBit(c, code, col, row, fg, bg);
  }

  lemma GlyphInk(c: Screen, code: int, x: nat, y: nat, fg: bv32, bg: bv32, col: nat, row: nat)
    requires GoodScreen(c) && x < U64 && y < U64 && col < 8 && row < 8
    requires (x + col) % U64 < c.width && (y + row) % U64 < c.height
    ensures Ink(c, Glyph(code, x, y, fg, bg), (x + col) % U64, (y + row) % U64) ==
            Some(GlyphColor(c, code, col, row, fg, bg))
  {
    hide GlyphColor, Above, GoodScreen;
    WrapIsAbove((x + col) % U64, x, col);
    WrapIsAbove((y + row) % U64, y, row);
  }

  lemma GlyphBit(c: Screen, code: int, col: nat, row: nat, fg: bv32, bg: bv32)
    requires GoodScreen(c) && col < 8 && row < 8
    ensures var bits := c.font[if 32 <= code <= 126 then code - 32 else 31][row];
            var mask: bv8 := [1, 2, 4, 8, 16, 32, 64, 128][col];
            GlyphColor(c, code, col, row, fg, bg) == if bits & mask != 0 then fg else bg
  {
    var bits := c.font[if 32 <= code <= 126 then code - 32 else 31][row];
    assert GlyphRow(c, code, row) == bits;
    hide GlyphRow;
    MaskIs(col);
  }

  lemma MaskIs(k: nat)
    requires k < 8
    ensures (1 as bv8) << k == [1, 2, 4, 8, 16, 32, 64, 128][k]
  {
    assert k in {0, 1, 2, 3, 4, 5, 6, 7};
  }

  // No other pixel is touched.
  lemma GlyphTouches(c: Screen, code: int, x: nat, y: nat, fg: bv32, bg: bv32, px: nat, py: nat)
    requires GoodScreen(c) && x < U64 && y < U64 && px < c.width && py < c.height
    ensures Ink(c, Glyph(code, x, y, fg, bg), px, py).Some? <==> (px + U64 - x) % U64 < 8 && (py + U64 - y) % U64 < 8
  {
    hide GlyphColor;
    AboveIs(px, x);
    AboveIs(py, y);
  }

  lemma TextTouches(c: Screen, codes: seq<int>, x: nat, y: nat, fg: bv32, bg: bv32, px: nat, py: nat)
    requires GoodScreen(c) && Drawable(Text(codes, x, y, fg, bg)) && px < c.width && py < c.height
    ensures Ink(c, Text(codes, x, y, fg, bg), px, py).Some? <==>
              (px + U64 - x) % U64 < 8 * |codes| && (py + U64 - y) % U64 < 8
  {
    hide GlyphColor;
    AboveIs(px, x);
    AboveIs(py, y);
  }

  lemma AboveIs(v: nat, base: nat)
    requires v < U64 && base < U64
    ensures Above(v, base) == (v + U64 - base) % U64
  {
  }

  // The i-th character of a string stands eight columns to the right for each one before it.
  lemma TextBytes(c: Screen, codes: seq<int>, x: nat, y: nat, fg: bv32, bg: bv32, was: seq<bv8>, now: seq<bv8>,
      base: nat, i: nat, col: nat, row: nat, px: nat, py: nat, code: int)
    requires GoodScreen(c) && Drawable(Text(codes, x, y, fg, bg))
    requires Draws(c, Text(codes, x, y, fg, bg), was, now, base)
    requires base + c.height * c.pitch <= |was| && i < |codes| && code == codes[i] && col < 8 && row < 8
    requires px == (x + 8 * i + col) % U64 && px < c.width && py == (y + row) % U64 && py < c.height
    ensures var a := base + py * c.pitch + px * 4;
            var bits := c.font[if 32 <= code <= 126 then code - 32 else 31][row];
            var mask: bv8 := [1, 2, 4, 8, 16, 32, 64, 128][col];
            var color := if bits & mask != 0 then fg else bg;
            ColorAt(now, a, color)
  {
    hide Draws, Le, Above, GlyphColor, GlyphRow, GoodScreen, Ink, Drawable;
    TextInkIs(c, codes, x, y, fg, bg, i, col, row);
    GlyphBit(c, code, col, row, fg, bg);
    BytesOf(c, Text(codes, x, y, fg, bg), was, now, base, px, py, GlyphColor(c, code, col, row, fg, bg));
  }

  lemma TextInkIs(c: Screen, codes: seq<int>, x: nat, y: nat, fg: bv32, bg: bv32, i: nat, col: nat, row: nat)
    requires GoodScreen(c) && Drawable(Text(codes, x, y, fg, bg)) && i < |codes| && col < 8 && row < 8
    requires (x + 8 * i + col) % U64 < c.width && (y + row) % U64 < c.height
    ensures Ink(c, Text(codes, x, y, fg, bg), (x + 8 * i + col) % U64, (y + row) % U64) ==
            Some(GlyphColor(c, codes[i], col, row, fg, bg))
  {
    hide GlyphColor, Above, GoodScreen;
    WrapIsAbove((x + 8 * i + col) % U64, x, 8 * i + col);
    WrapIsAbove((y + row) % U64, y, row);
    assert (8 * i + col) / 8 == i && (8 * i + col) % 8 == col;
  }

  // ---- Clears and dots ----

  lemma ClearInk(c: Screen, color: bv32, px: nat, py: nat)
    requires GoodScreen(c) && px < c.width && py < c.height
    ensures Ink(c, Clear(color), px, py) == Some(color)
  {
  }

  lemma DotInk(c: Screen, x: nat, y: nat, color: bv32, px: nat, py: nat)
    requires GoodScreen(c) && px < c.width && py < c.height && x < U64 && y < U64
    ensures Ink(c, Dot(x, y, color), px, py) == if px == x && py == y then Some(color) else None
  {
  }

  // ---- Hues ----

  // The six arcs of the colour wheel, 43 hues each: one channel is full, one falls by p or rises by its complement, or
  // follows the steeper q. The quotients are given by what they are quotients of.
  lemma HueColors(h: nat) returns (p: nat, f: nat, q: nat)
    requires h < 256
    ensures 256 * p <= 255 * (255 - 6 * (h % 43)) < 256 * (p + 1) && p <= 255
    ensures 43 * f <= (255 - 6 * (h % 43)) * (43 - h % 43) < 43 * (f + 1) && f <= 255
    ensures 256 * q <= 255 * (255 - f) < 256 * (q + 1)
    ensures HueToRgb(h) == if h < 43 then (255, p, 255 - p)
                           else if h < 86 then (q, 255, 255 - p)
                           else if h < 129 then (255 - p, 255, p)
                           else if h < 172 then (255 - p, q, 255)
                           else if h < 215 then (p, 255 - p, 255)
                           else (255, 255 - p, q)
  {
    var k := h % 43;
    assert k == h - h / 43 * 43;
    p := 255 * (255 - 6 * k) / 256;
    f := Falling(6 * k, h);
    q := 255 * (255 - f) / 256;
    assert h / 43 == if h < 43 then 0 else if h < 86 then 1 else if h < 129 then 2 else if h < 172 then 3
                     else if h < 215 then 4 else 5;
  }

  // ---- Bars and discs ----

  // A bar runs from green to red in its first third, from blue to green in its second, and through the hues below; v is
  // how far to the right the pixel lies, of 255. Of less than three rows each is a third.
  lemma BarBytes(c: Screen, y: nat, height: nat, was: seq<bv8>, now: seq<bv8>, base: nat, px: nat, py: nat)
      returns (v: nat)
    requires GoodScreen(c) && Drawable(Bar(y, height)) && Draws(c, Bar(y, height), was, now, base)
    requires base + c.height * c.pitch <= |was| && px < c.width && py < c.height && y <= py < y + height
    ensures v * c.width <= px * 255 < (v + 1) * c.width && v <= 255
    ensures var a := base + py * c.pitch + px * 4;
            var third := if height < 3 then 1 else height / 3;
            var up, down := Byte(v), Byte(255 - v);
            && (py - y < third ==> BytesAt(now, a, if c.bgr then [up, down, 0, 0] else [0, down, up, 0]))
            && (third <= py - y < 2 * third ==> BytesAt(now, a, if c.bgr then [0, up, down, 0] else [down, up, 0, 0]))
            && (2 * third <= py - y ==> BytesAt(now, a, HueBytes(c.bgr, HueToRgb(v))))
  {
    hide HueToRgb, Ink, Le, Byte, Ramp, Draws, GoodScreen, Drawable, HueBytes;
    v := Ramp(c, px);
    RampIs(c, px);
    BarInk(c, y, height, px, py);
    PixelIs(c, Bar(y, height), was, now, base, px, py);
  }

  lemma BarInk(c: Screen, y: nat, height: nat, px: nat, py: nat)
    requires GoodScreen(c) && Drawable(Bar(y, height)) && px < c.width && py < c.height && y <= py < y + height
    ensures Ink(c, Bar(y, height), px, py).Some? && Ramp(c, px) <= 255
    ensures var third := if height < 3 then 1 else height / 3;
            var up, down := Byte(Ramp(c, px)), Byte(255 - Ramp(c, px));
            Le(Ink(c, Bar(y, height), px, py).value) ==
              if py - y < third then (if c.bgr then [up, down, 0, 0] else [0, down, up, 0])
              else if py - y < 2 * third then (if c.bgr then [0, up, down, 0] else [down, up, 0, 0])
              else HueBytes(c.bgr, HueToRgb(Ramp(c, px)))
  {
    hide HueToRgb, HueColor, Le, Rgb, Byte, Ramp, GoodScreen, HueBytes;
    var v := Ramp(c, px);
    RgbBytes(c.bgr, Byte(v), Byte(255 - v), 0);
    RgbBytes(c.bgr, 0, Byte(v), Byte(255 - v));
    HueBytesAre(c.bgr, v);
  }

  lemma RampIs(c: Screen, px: nat)
    requires px < c.width
    ensures Ramp(c, px) * c.width <= px * 255 < (Ramp(c, px) + 1) * c.width
  {
    QuotientIs(px * 255, c.width);
  }

  // A colour of three channels in memory.
  function HueBytes(bgr: bool, rgb: (nat, nat, nat)): seq<bv8>
    requires rgb.0 <= 255 && rgb.1 <= 255 && rgb.2 <= 255
  {
    if bgr then [Byte(rgb.0), Byte(rgb.1), Byte(rgb.2), 0] else [Byte(rgb.2), Byte(rgb.1), Byte(rgb.0), 0]
  }

  lemma HueBytesAre(bgr: bool, h: nat)
    ensures Le(HueColor(bgr, h)) == HueBytes(bgr, HueToRgb(h))
  {
    hide HueToRgb, Le, Rgb, Byte;
    var rgb := HueToRgb(h);
    RgbBytes(bgr, Byte(rgb.0), Byte(rgb.1), Byte(rgb.2));
  }

  // The truncation to a byte keeps what fits one.
  lemma ByteValue(b: bv8)
    ensures Byte(b as nat) == b
  {
  }

  lemma QuotientIs(n: nat, d: nat)
    requires d > 0
    ensures n / d * d <= n < (n / d + 1) * d
  {
  }

  lemma BarTouches(c: Screen, y: nat, height: nat, px: nat, py: nat)
    requires GoodScreen(c) && Drawable(Bar(y, height)) && px < c.width && py < c.height
    ensures Ink(c, Bar(y, height), px, py).Some? <==> y <= py < y + height
  {
  }

  // A disc covers the lattice points no further from its centre than its radius, with hues that run from its left edge
  // to its right.
  lemma DiscBytes(c: Screen, x0: nat, y0: nat, radius: nat, was: seq<bv8>, now: seq<bv8>, base: nat, px: nat, py: nat)
      returns (v: nat)
    requires GoodScreen(c) && Drawable(Disc(x0, y0, radius)) && Draws(c, Disc(x0, y0, radius), was, now, base)
    requires base + c.height * c.pitch <= |was| && px < c.width && py < c.height
    requires (px - x0) * (px - x0) + (py - y0) * (py - y0) <= radius * radius
    ensures v * (2 * radius) <= (px - x0 + radius) * 255 < (v + 1) * (2 * radius) && v <= 255
    ensures var a := base + py * c.pitch + px * 4;
            BytesAt(now, a, HueBytes(c.bgr, HueToRgb(v)))
  {
    hide HueToRgb, Le, Rgb, HueColor, DiscHue, Draws, GoodScreen, HueBytes, InDisc;
    DiscTouches(c, x0, y0, radius, px, py);
    v := DiscHue(px - x0, radius);
    DiscHueIs(px - x0, radius);
    PixelIs(c, Disc(x0, y0, radius), was, now, base, px, py);
    HueBytesAre(c.bgr, v);
  }

  lemma DiscHueIs(dx: int, radius: nat)
    requires radius > 0 && 0 <= dx + radius && dx <= radius
    ensures DiscHue(dx, radius) * (2 * radius) <= (dx + radius) * 255 < (DiscHue(dx, radius) + 1) * (2 * radius)
  {
    QuotientIs((dx + radius) * 255, 2 * radius);
  }

  lemma DiscTouches(c: Screen, x0: nat, y0: nat, radius: nat, px: nat, py: nat)
    requires GoodScreen(c) && Drawable(Disc(x0, y0, radius)) && px < c.width && py < c.height
    ensures Ink(c, Disc(x0, y0, radius), px, py).Some? <==>
              (px - x0) * (px - x0) + (py - y0) * (py - y0) <= radius * radius
    ensures Ink(c, Disc(x0, y0, radius), px, py).Some? ==> 0 <= px - x0 + radius && px - x0 <= radius
  {
    hide DiscColor;
    SquareBound(px - x0, py - y0, radius);
    SquareBound(py - y0, px - x0, radius);
  }

  lemma SquareBound(a: int, b: int, r: int)
    requires 0 <= r
    ensures a * a + b * b <= r * r ==> 0 <= a + r && a <= r
  {
    if a > r {
      assert a * a > r * r;
    } else if a + r < 0 {
      assert (-a) * (-a) > r * r;
    }
    assert 0 <= b * b;
  }
}
