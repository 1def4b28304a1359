/** Drawing a character: the glyph's levels, scaled up, blended between background and foreground, clipped at the
    frame's edges. */
module FontRender {
  import opened Arith
  import opened Pictures
  import opened Gdi2
  import opened FontPack

  datatype GlyphFont = GlyphFont(charW: nat, charH: nat, first: nat, last: nat, bpp: nat, bitmap: seq<bv8>) {
    predicate Valid() {
      && Depth(bpp) && first <= last
      && |bitmap| >= Times(last - first + 1, BytesPerChar(charW, charH, bpp))
    }

    /** The glyph drawn for a character: its own, or the space's. */
    function Drawn(chr: nat): nat {
      if chr < first || chr > last then ' ' as nat else chr
    }

    predicate Has(chr: nat) {
      first <= Drawn(chr) <= last
    }
  }

  // ----- Colours

  function Channel(c: Pixel, unit: nat): (v: nat)
    requires unit == 1 || unit == 0x100 || unit == 0x1_0000
    ensures v < 256
  {
    c / unit % 256
  }

  /** The weighted sum of two channels, 255 in all. */
  function Weighted(below: int, above: int, alpha: int): int {
    above * alpha + below * (255 - alpha)
  }

  function Mix(below: nat, above: nat, alpha: nat): (m: int) {
    Weighted(below, above, alpha) / 255
  }

  lemma WeightedShift(below: int, above: int, alpha: int)
    ensures Weighted(below, above, alpha) == 255 * below + (above - below) * alpha
  {
  }

  lemma WeightedSwap(below: int, above: int, alpha: int)
    ensures Weighted(below, above, alpha) == Weighted(above, below, 255 - alpha)
  {
  }

  lemma {:induction false} ProductBetween(d: nat, a: nat)
    requires a <= 255
    ensures 0 <= d * a <= 255 * d
  {
    if d > 0 {
      ProductBetween(d - 1, a);
      assert d * a == (d - 1) * a + a;
    }
  }

  lemma UpBetween(below: nat, above: nat, alpha: nat)
    requires alpha <= 255 && below <= above
    ensures 255 * below <= Weighted(below, above, alpha) <= 255 * above
  {
    hide Weighted;
    WeightedShift(below, above, alpha);
    ProductBetween(above - below, alpha);
  }

  /** A mixed channel lies between the two it is mixed from. */
  lemma MixBetween(below: nat, above: nat, alpha: nat)
    requires alpha <= 255
    ensures below <= above ==> below <= Mix(below, above, alpha) <= above
    ensures above <= below ==> above <= Mix(below, above, alpha) <= below
  {
    hide Weighted;
    if below <= above {
      UpBetween(below, above, alpha);
    } else {
      WeightedSwap(below, above, alpha);
      UpBetween(above, below, 255 - alpha);
    }
  }

  function Alpha(level: nat, bpp: nat): nat {
    if bpp == 2 then level * 85 else level * 17
  }

  /** RenderBlend: the lowest level is the background, the highest the foreground, and others lie between them in
      each channel. */
  function RenderBlend(bg: Pixel, fg: Pixel, level: nat, bpp: nat): (c: Pixel)
    requires Depth(bpp) && level <= Top(bpp)
    ensures level == 0 ==> c == bg
    ensures level == Top(bpp) ==> c == fg
  {
    if bpp == 1 then (if level != 0 then fg else bg)
    else if Alpha(level, bpp) == 0 then bg
    else if Alpha(level, bpp) == 255 then fg
    else
      var a := Alpha(level, bpp);
      MixBetween(Channel(bg, 0x1_0000), Channel(fg, 0x1_0000), a);
      MixBetween(Channel(bg, 0x100), Channel(fg, 0x100), a);
      MixBetween(Channel(bg, 1), Channel(fg, 1), a);
      Mix(Channel(bg, 0x1_0000), Channel(fg, 0x1_0000), a) * 0x1_0000
      + Mix(Channel(bg, 0x100), Channel(fg, 0x100), a) * 0x100
      + Mix(Channel(bg, 1), Channel(fg, 1), a)
  }

  /** The highest level of a depth. */
  function Top(bpp: nat): nat {
    if bpp == 1 then 1 else if bpp == 2 then 3 else 15
  }

  lemma BlendBetween(bg: Pixel, fg: Pixel, level: nat, bpp: nat, unit: nat)
    requires Depth(bpp) && level <= Top(bpp) && (unit == 1 || unit == 0x100 || unit == 0x1_0000)
    ensures var b, f, v := Channel(bg, unit), Channel(fg, unit), Channel(RenderBlend(bg, fg, level, bpp), unit);
            b <= v <= f || f <= v <= b
  {
    hide Mix;
    var a := Alpha(level, bpp);
    if bpp != 1 && a != 0 && a != 255 {
      var r, g, b := Mix(Channel(bg, 0x1_0000), Channel(fg, 0x1_0000), a),
          Mix(Channel(bg, 0x100), Channel(fg, 0x100), a), Mix(Channel(bg, 1), Channel(fg, 1), a);
      MixBetween(Channel(bg, 0x1_0000), Channel(fg, 0x1_0000), a);
      MixBetween(Channel(bg, 0x100), Channel(fg, 0x100), a);
      MixBetween(Channel(bg, 1), Channel(fg, 1), a);
      Bytes3(r, g, b);
    }
  }

  /** Exactly: each channel is divided between the two in the proportion of the level. */
  lemma BlendExact(bg: Pixel, fg: Pixel, level: nat, bpp: nat, unit: nat)
    requires Depth(bpp) && level <= Top(bpp) && (unit == 1 || unit == 0x100 || unit == 0x1_0000)
    ensures var b, f, top := Channel(bg, unit), Channel(fg, unit), Top(bpp);
            Channel(RenderBlend(bg, fg, level, bpp), unit) == (f * level + b * (top - level)) / top
  {
    hide Channel;
    var b, f, top := Channel(bg, unit), Channel(fg, unit), Top(bpp);
    if level == 0 {
      Whole(b, top);
    } else if level == top {
      Whole(f, top);
    } else {
      MixedChannel(bg, fg, level, bpp, unit);
      Proportion(b, f, level, bpp);
    }
  }

  lemma Whole(v: nat, top: nat)
    requires top == 1 || top == 3 || top == 15
    ensures v * top / top == v && v * 0 == 0
  {
  }

  lemma Proportion(b: nat, f: nat, level: nat, bpp: nat)
    requires (bpp == 2 || bpp == 4) && level <= Top(bpp)
    ensures Mix(b, f, Alpha(level, bpp)) == (f * level + b * (Top(bpp) - level)) / Top(bpp)
  {
    var k, z := if bpp == 2 then 85 else 17, f * level + b * (Top(bpp) - level);
    assert Weighted(b, f, Alpha(level, bpp)) == k * z by {
      assert f * (level * k) == k * (f * level);
      assert 255 - level * k == k * (Top(bpp) - level);
      assert b * (k * (Top(bpp) - level)) == k * (b * (Top(bpp) - level));
    }
    Cancelled(z);
  }

  lemma Cancelled(z: nat)
    ensures 85 * z / 255 == z / 3 && 17 * z / 255 == z / 15
  {
  }

  lemma MixedChannel(bg: Pixel, fg: Pixel, level: nat, bpp: nat, unit: nat)
    requires (bpp == 2 || bpp == 4) && 0 < level < Top(bpp) && (unit == 1 || unit == 0x100 || unit == 0x1_0000)
    ensures Channel(RenderBlend(bg, fg, level, bpp), unit)
            == Mix(Channel(bg, unit), Channel(fg, unit), Alpha(level, bpp))
  {
    hide Mix;
    var a := Alpha(level, bpp);
    var r, g, b := Mix(Channel(bg, 0x1_0000), Channel(fg, 0x1_0000), a),
        Mix(Channel(bg, 0x100), Channel(fg, 0x100), a), Mix(Channel(bg, 1), Channel(fg, 1), a);
    MixBetween(Channel(bg, 0x1_0000), Channel(fg, 0x1_0000), a);
    MixBetween(Channel(bg, 0x100), Channel(fg, 0x100), a);
    MixBetween(Channel(bg, 1), Channel(fg, 1), a);
    Bytes3(r, g, b);
  }

  lemma Bytes3(r: nat, g: nat, b: nat)
    requires r < 256 && g < 256 && b < 256
    ensures var c := r * 0x1_0000 + g * 0x100 + b; c / 0x1_0000 % 256 == r && c / 0x100 % 256 == g && c % 256 == b
  {
    var c, high := r * 0x1_0000 + g * 0x100 + b, r * 0x100 + g;
    LowByte(high, b);
    LowByte(r, g);
    HighBytes(c);
    assert c == high * 0x100 + b;
  }

  lemma LowByte(high: nat, low: nat)
    requires low < 256
    ensures (high * 0x100 + low) / 0x100 == high && (high * 0x100 + low) % 0x100 == low
  {
  }

  lemma HighBytes(c: nat)
    ensures c / 0x1_0000 == c / 0x100 / 0x100
  {
  }

  /** A colour without its top byte is not drawn. */
  predicate Skipped(c: Pixel) {
    c < 0x100_0000
  }

  /** How a level shows over a pixel of the frame. */
  function Shade(bg: Pixel, fg: Pixel, bpp: nat, level: Pixel, below: Pixel): Pixel
    requires Depth(bpp)
  {
    if level == 0 then (if Skipped(bg) then below else bg)
    else if bpp == 1 then (if Skipped(fg) then below else fg)
    else if level <= Top(bpp) then RenderBlend(bg, fg, level, bpp)
    else below
  }

  function Shading(bg: Pixel, fg: Pixel, bpp: nat): Blend
    requires Depth(bpp)
  {
    (level: Pixel, below: Pixel) => Shade(bg, fg, bpp, level, below)
  }

  // ----- The scaled glyph

  /** The level of the scaled glyph at (x, y). */
  function LevelAt(font: GlyphFont, chr: nat, scale: nat, x: nat, y: nat): (l: Pixel)
    requires font.Valid() && font.Has(chr) && scale > 0 && x < Times(font.charW, scale) && y < Times(font.charH, scale)
    ensures l <= Top(font.bpp)
  {
    Arith.Split(x, font.charW, scale);
    Arith.Split(y, font.charH, scale);
    var c := font.Drawn(chr) - font.first;
    PixelFits(font.bitmap, font.charW, font.charH, font.bpp, font.last - font.first + 1, c, Quot(x, scale),
        Quot(y, scale));
    UnpackedFits(font.bitmap, font.charW, font.charH, font.bpp, c, Quot(x, scale), Quot(y, scale));
    GlyphPixel(font.bitmap, font.charW, font.charH, font.bpp, c, Quot(x, scale), Quot(y, scale)) as int
  }

  /** A character outside the font shows as the space. */
  lemma SpaceShows(font: GlyphFont, chr: nat, scale: nat, x: nat, y: nat)
    requires font.Valid() && font.Has(chr) && !(font.first <= chr <= font.last)
    requires scale > 0 && x < Times(font.charW, scale) && y < Times(font.charH, scale)
    ensures font.Has(32) && LevelAt(font, chr, scale, x, y) == LevelAt(font, 32, scale, x, y)
  {
  }

  lemma UnpackedFits(bitmap: seq<bv8>, charW: nat, charH: nat, bpp: nat, c: nat, x: nat, y: nat)
    requires Depth(bpp) && PixelInside(bitmap, charW, charH, bpp, c, x, y)
    ensures GlyphPixel(bitmap, charW, charH, bpp, c, x, y) as int <= Top(bpp)
  {
  }

  /** The scaled glyph, pixel by pixel in row order: a surface whose pixels are levels. */
  function Levelled(font: GlyphFont, chr: nat, scale: nat): (p: seq<Pixel>)
    requires font.Valid() && font.Has(chr) && scale > 0
    ensures |p| == Times(Times(font.charH, scale), Times(font.charW, scale))
  {
    var w, h := Times(font.charW, scale), Times(font.charH, scale);
    seq<Pixel>(Times(h, w), k requires 0 <= k < Times(h, w) =>
      (if w > 0 then (Arith.Split(k, h, w); LevelAt(font, chr, scale, Rem(k, w), Quot(k, w))) else 0))
  }

  lemma LevelledAt(font: GlyphFont, chr: nat, scale: nat, x: nat, y: nat)
    requires font.Valid() && font.Has(chr) && scale > 0 && x < Times(font.charW, scale) && y < Times(font.charH, scale)
    ensures var w := Times(font.charW, scale);
            Times(y, w) + x < |Levelled(font, chr, scale)|
            && Levelled(font, chr, scale)[Times(y, w) + x] == LevelAt(font, chr, scale, x, y)
  {
    hide LevelAt, Times, Quot, Rem;
    var w := Times(font.charW, scale);
    CellBelow(y, x, Times(font.charH, scale), w);
    CellOf(y, x, w);
  }

  /** RenderChar's inner loop: one row of the scaled glyph, cut off at the frame's right edge. */
  method DrawRow(frame: array<Pixel>, wide: nat, high: nat, scale: nat, font: GlyphFont, chr: nat, px: nat, cy: nat,
          y: nat, bg: Pixel, fg: Pixel,
                 ghost copyW: nat)
    requires font.Valid() && font.Has(chr) && scale > 0 && y < Times(font.charH, scale)
    requires wide > 0 && frame.Length == Times(high, wide) && px < wide && cy < high
    requires copyW == if px + Times(font.charW, scale) > wide then wide - px else Times(font.charW, scale)
    modifies frame
    ensures var w, di := Times(font.charW, scale), Times(cy, wide) + px;
            && Times(y, w) + copyW <= |Levelled(font, chr, scale)|
            && forall i :: 0 <= i < frame.Length ==>
                 frame[i] == if di <= i < di + copyW
                             then Shade(bg, fg, font.bpp, Levelled(font, chr, scale)[Times(y, w) + (i - di)],
                                 old(frame[i]))
                             else old(frame[i])
  {
    hide LevelAt, Levelled, Shade, RenderBlend, Times;
    var w := Times(font.charW, scale);
    ghost var levels, di, si := Levelled(font, chr, scale), Times(cy, wide) + px, Times(y, w);
    RowInside(wide, high, cy, px, copyW);
    RowInside(w, Times(font.charH, scale), y, 0, w);
    for x := 0 to w
      invariant forall i :: 0 <= i < frame.Length ==>
                  frame[i] == if di <= i < di + copyW && i < di + x
                      then Shade(bg, fg, font.bpp, levels[si + (i - di)], old(frame[i]))
                              else old(frame[i])
    {
      var cx := px + x;
      if cx < wide {
        LevelledAt(font, chr, scale, x, y);
        DrawPixel(frame, Times(cy, wide) + cx, bg, fg, font.bpp, LevelAt(font, chr, scale, x, y));
      }
    }
  }

  /** One pixel of the frame. */
  method DrawPixel(frame: array<Pixel>, at: nat, bg: Pixel, fg: Pixel, bpp: nat, level: Pixel)
    requires at < frame.Length && Depth(bpp) && level <= Top(bpp)
    modifies frame
    ensures forall i :: 0 <= i < frame.Length ==> frame[i] == if i == at then Shade(bg, fg, bpp, level, old(frame[i]))
            else old(frame[i])
  {
    if bpp == 1 {
      if !((level != 0 && Skipped(fg)) || (level == 0 && Skipped(bg))) {
        frame[at] := if level != 0 then fg else bg;
      }
    } else if !(level == 0 && Skipped(bg)) {
      frame[at] := RenderBlend(bg, fg, level, bpp);
    }
  }

  /** RenderChar: the frame shows the scaled glyph at (px, py), clipped, and nothing else changes. */
  method RenderChar(frame: array<Pixel>, wide: nat, high: nat, scale: nat, font: GlyphFont, chr: nat, px: nat, py: nat,
          bg: Pixel, fg: Pixel)
    requires font.Valid() && font.Has(chr) && scale > 0 && frame.Length == Times(high, wide)
    modifies frame
    ensures px >= wide || py >= high ==> frame[..] == old(frame[..])
    ensures px < wide && py < high ==>
              frame[..] == Blitted(old(frame[..]), wide, Rect(px, py, Times(font.charW, scale),
                  Times(font.charH, scale)),
                                   Levelled(font, chr, scale), Shading(bg, fg, font.bpp))
  {
    hide LevelAt, Levelled, Shade, RenderBlend, Times, Blitted, Covers, Local;
    if px >= wide || py >= high {
      return;
    }
    var w, h := Times(font.charW, scale), Times(font.charH, scale);
    ghost var p, r, levels, blend := frame[..], Rect(px, py, w, h), Levelled(font, chr, scale),
        Shading(bg, fg, font.bpp);
    ghost var c := Part(px, py, 0, 0, if px + w > wide then wide - px else w, if py + h > high then high - py else h);
    BlitStart(p, wide, high, r, c, levels, blend);
    ghost var rows := 0;
    for y := 0 to h
      invariant rows == if y < c.copyH then y else c.copyH
      invariant w > 0 ==> HeightFits(r, rows) && frame[..] == Blitted(p, wide, r.(h := rows), levels, blend)
      invariant w == 0 ==> frame[..] == p
    {
      var cy := py + y;
      if cy < high {
        ghost var q := frame[..];
        DrawRow(frame, wide, high, scale, font, chr, px, cy, y, bg, fg, c.copyW);
        if w > 0 {
          HeightStep(r, rows);
          BlitRow(p, q, frame[..], wide, high, r, c, levels, blend, rows);
        }
        rows := rows + 1;
      }
    }
  }

  /** One pixel of the frame that RenderChar leaves, at column x and row y: inside the scaled glyph, the background for
      level 0 and the foreground for the highest, unless that colour has no top byte; outside, what was there. */
  lemma CharPixel(p: seq<Pixel>, wide: nat, scale: nat, font: GlyphFont, chr: nat, px: nat, py: nat, bg: Pixel,
          fg: Pixel, x: nat, y: nat)
    requires font.Valid() && font.Has(chr) && scale > 0 && wide > 0 && x < wide && Times(y, wide) + x < |p|
    ensures var w, h, i := Times(font.charW, scale), Times(font.charH, scale), Times(y, wide) + x;
            var q := Blitted(p, wide, Rect(px, py, w, h), Levelled(font, chr, scale), Shading(bg, fg, font.bpp))[i];
            if px <= x < px + w && py <= y < py + h then
              var l := LevelAt(font, chr, scale, x - px, y - py);
              && (l == 0 ==> q == if bg < 0x100_0000 then p[i] else bg)
              && (l == Top(font.bpp) ==> q == if font.bpp == 1 && fg < 0x100_0000 then p[i] else fg)
              && (0 < l < Top(font.bpp) ==> q == RenderBlend(bg, fg, l, font.bpp))
            else q == p[i]
  {
    hide LevelAt, Levelled, RenderBlend, Times, Blitted;
    var w, h := Times(font.charW, scale), Times(font.charH, scale);
    DrawnAt(p, p, wide, Rect(px, py, w, h), Levelled(font, chr, scale), Shading(bg, fg, font.bpp), x, y);
    if px <= x < px + w && py <= y < py + h {
      LevelledAt(font, chr, scale, x - px, y - py);
      BlendEnds(bg, fg, font.bpp);
    }
  }

  lemma BlendEnds(bg: Pixel, fg: Pixel, bpp: nat)
    requires Depth(bpp)
    ensures RenderBlend(bg, fg, 0, bpp) == bg && RenderBlend(bg, fg, Top(bpp), bpp) == fg
  {
  }
}
