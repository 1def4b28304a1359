/** The display and its surfaces: clipped copies between pixel arrays, row by row. */
module Gdi2 {
  import opened Arith
  import opened Pictures

  class Surface {
    var x: int
    var y: int
    var z: real
    const w: nat
    const h: nat
    const buffer: array<Pixel>

    constructor (x: int, y: int, z: real, w: nat, h: nat, buffer: array<Pixel>)
      ensures this.x == x && this.y == y && this.z == z && this.w == w && this.h == h && this.buffer == buffer
    {
      this.x, this.y, this.z, this.w, this.h, this.buffer := x, y, z, w, h, buffer;
    }

    function Area(): Rect
      reads this`x, this`y
    {
      Rect(x, y, w, h)
    }
  }

  class Display {
    const wide: nat
    const high: nat
    const framebuffer: array<Pixel>
    const front: array<Pixel>
    const blend: Blend

    constructor (wide: nat, high: nat, framebuffer: array<Pixel>, front: array<Pixel>, blend: Blend)
      ensures this.wide == wide && this.high == high && this.framebuffer == framebuffer && this.front == front &&
              this.blend == blend
    {
      this.wide, this.high, this.framebuffer, this.front, this.blend := wide, high, framebuffer, front, blend;
    }

    predicate Valid() {
      wide > 0 && framebuffer.Length == front.Length == Times(high, wide) && framebuffer != front
    }
  }

  /** Two names for one rectangle's part on the screen: where it starts there and in the surface, and its size. */
  datatype Part = Part(dstX: int, dstY: int, srcX: int, srcY: int, copyW: int, copyH: int)

  /** The clipping that saving, restoring and blitting begin with. */
  method Clip(r: Rect, wide: nat, high: nat) returns (c: Part)
    ensures Clipped(r, wide, high, c)
  {
    var dstX, dstY, srcX, srcY, copyW, copyH := r.x, r.y, 0, 0, r.w, r.h;
    if dstX < 0 {
      srcX, copyW, dstX := srcX - dstX, copyW + dstX, 0;
    }
    if dstY < 0 {
      srcY, copyH, dstY := srcY - dstY, copyH + dstY, 0;
    }
    if dstX + copyW > wide {
      copyW := wide - dstX;
    }
    if dstY + copyH > high {
      copyH := high - dstY;
    }
    c := Part(dstX, dstY, srcX, srcY, copyW, copyH);
  }

  /** The part is what of the rectangle lies on the screen. */
  predicate Clipped(r: Rect, wide: nat, high: nat, c: Part) {
    && c.dstX - c.srcX == r.x && c.dstY - c.srcY == r.y
    && c.dstX >= 0 && c.dstY >= 0 && c.srcX >= 0 && c.srcY >= 0
    && c.dstX == (if r.x < 0 then 0 else r.x) && c.dstY == (if r.y < 0 then 0 else r.y)
    && c.dstX + c.copyW == (if r.x + r.w > wide then wide else r.x + r.w)
    && c.dstY + c.copyH == (if r.y + r.h > high then high else r.y + r.h)
  }

  /** Pixel i of the screen lies in row y, from column x on for n columns. */
  predicate InRow(wide: nat, i: nat, y: nat, x: nat, n: nat)
    requires wide > 0
  {
    Quot(i, wide) == y && x <= Rem(i, wide) < x + n
  }

  lemma RowCells(wide: nat, i: nat, y: nat, x: nat, n: nat)
    requires wide > 0 && x + n <= wide
    ensures InRow(wide, i, y, x, n) <==> Times(y, wide) + x <= i < Times(y, wide) + x + n
    ensures InRow(wide, i, y, x, n) ==> i == Times(y, wide) + Rem(i, wide)
  {
    QuotRem(i, wide);
    if Times(y, wide) + x <= i < Times(y, wide) + x + n {
      CellOf(y, i - Times(y, wide), wide);
    }
  }

  lemma RowInside(wide: nat, high: nat, y: nat, x: nat, n: nat)
    requires y < high && x + n <= wide
    ensures Times(y, wide) + x + n <= Times(high, wide)
  {
    TimesMono(y + 1, high, wide);
  }

  /** memcpy of n pixels. */
  method CopyPixels(dst: array<Pixel>, di: nat, src: array<Pixel>, si: nat, n: nat)
    requires di + n <= dst.Length && si + n <= src.Length && dst != src
    modifies dst
    ensures forall i :: 0 <= i < dst.Length ==> dst[i] == if di <= i < di + n then src[si + (i - di)] else old(dst[i])
  {
    for k := 0 to n
      invariant forall i :: 0 <= i < dst.Length ==> dst[i] == if di <= i < di + k then src[si + (i - di)]
                else old(dst[i])
    {
      dst[di + k] := src[si + k];
    }
  }

  // ----- Rows of the four operations

  lemma CoversRow(r: Rect, c: Part, wide: nat, high: nat, i: nat, n: nat)
    requires wide > 0 && Clipped(r, wide, high, c) && c.copyW > 0 && 0 <= n < c.copyH && i < Times(high, wide)
    ensures Covers(r.(h := c.srcY + n + 1), wide, i) <==>
            Covers(r.(h := c.srcY + n), wide, i) || InRow(wide, i, c.dstY + n, c.dstX, c.copyW)
  {
    Split(i, high, wide);
  }

  /** No row of the part: nothing is covered.  All its rows: everything the rectangle covers. */
  lemma CoversEnds(r: Rect, c: Part, wide: nat, high: nat, i: nat)
    requires wide > 0 && Clipped(r, wide, high, c) && i < Times(high, wide)
    ensures !Covers(r.(h := c.srcY), wide, i)
    ensures c.copyW > 0 && c.copyH > 0 ==> (Covers(r.(h := c.srcY + c.copyH), wide, i) <==> Covers(r, wide, i))
    ensures c.copyW > 0 && c.copyH > 0 && Covers(r, wide, i) ==>
            Local(r.(h := c.srcY + c.copyH), wide, i) == Local(r, wide, i)
    ensures c.copyW <= 0 || c.copyH <= 0 ==> !Covers(r, wide, i)
  {
    Split(i, high, wide);
  }

  lemma SourceOfCell(r: Rect, c: Part, wide: nat, high: nat, i: nat, n: nat)
    requires wide > 0 && Clipped(r, wide, high, c) && 0 <= n < c.copyH && 0 < c.copyW &&
             InRow(wide, i, c.dstY + n, c.dstX, c.copyW)
    ensures Covers(r, wide, i)
    ensures Local(r, wide, i) == Times(c.srcY + n, r.w) + c.srcX + (i - (Times(c.dstY + n, wide) + c.dstX))
  {
    RowCells(wide, i, c.dstY + n, c.dstX, c.copyW);
  }

  /** GDI2BlitSurface's inner loop: one row of pixels blended in. */
  method BlendPixels(dst: array<Pixel>, di: nat, src: array<Pixel>, si: nat, n: nat, blend: Blend)
    requires di + n <= dst.Length && si + n <= src.Length && dst != src
    modifies dst
    ensures forall i :: 0 <= i < dst.Length ==> dst[i] == if di <= i < di + n
            then blend(src[si + (i - di)], old(dst[i])) else old(dst[i])
  {
    for k := 0 to n
      invariant forall i :: 0 <= i < dst.Length ==>
                  dst[i] == if di <= i < di + k then blend(src[si + (i - di)], old(dst[i])) else old(dst[i])
    {
      dst[di + k] := blend(src[si + k], dst[di + k]);
    }
  }

  method GDI2BlitSurface(display: Display, surface: Surface)
    requires display.Valid() && surface.buffer.Length == Times(surface.h, surface.w) &&
             surface.buffer != display.framebuffer
    modifies display.framebuffer
    ensures display.framebuffer[..]
            == Blitted(old(display.framebuffer[..]), display.wide, surface.Area(), surface.buffer[..], display.blend)
  {
    hide Covers, Local, InRow, Times, Blitted;
    ghost var p, r, wide, high := display.framebuffer[..], surface.Area(), display.wide, display.high;
    var c := Clip(surface.Area(), display.wide, display.high);
    BlitStart(p, wide, high, r, c, surface.buffer[..], display.blend);
    if c.copyW <= 0 || c.copyH <= 0 {
      return;
    }
    for row := 0 to c.copyH
      invariant HeightFits(r, c.srcY + row)
      invariant display.framebuffer[..] == Blitted(p, wide, r.(h := c.srcY + row), surface.buffer[..], display.blend)
    {
      var si, di := Times(c.srcY + row, surface.w) + c.srcX, Times(c.dstY + row, display.wide) + c.dstX;
      RowInside(wide, high, c.dstY + row, c.dstX, c.copyW);
      RowInside(r.w, r.h, c.srcY + row, c.srcX, c.copyW);
      ghost var q := display.framebuffer[..];
      BlendPixels(display.framebuffer, di, surface.buffer, si, c.copyW, display.blend);
      HeightStep(r, c.srcY + row);
      BlitRow(p, q, display.framebuffer[..], wide, high, r, c, surface.buffer[..], display.blend, row);
    }
  }

  /** The rows done so far have their pixels in the surface. */
  predicate HeightFits(r: Rect, n: nat) {
    Times(n, r.w) <= Times(r.h, r.w)
  }

  lemma HeightStep(r: Rect, n: nat)
    requires n < r.h
    ensures HeightFits(r, n + 1)
  {
    TimesMono(n + 1, r.h, r.w);
  }

  lemma BlitStart(p: seq<Pixel>, wide: nat, high: nat, r: Rect, c: Part, pixels: seq<Pixel>, blend: Blend)
    requires wide > 0 && |p| == Times(high, wide) && |pixels| == Times(r.h, r.w) && Clipped(r, wide, high, c)
    ensures c.copyW > 0 && c.copyH > 0 ==>
              && HeightFits(r, c.srcY) && Blitted(p, wide, r.(h := c.srcY), pixels, blend) == p
              && HeightFits(r, c.srcY + c.copyH)
              && Blitted(p, wide, r.(h := c.srcY + c.copyH), pixels, blend) == Blitted(p, wide, r, pixels, blend)
    ensures c.copyW <= 0 || c.copyH <= 0 ==> Blitted(p, wide, r, pixels, blend) == p
  {
    hide Covers, Local;
    if c.copyW > 0 && c.copyH > 0 {
      TimesMono(c.srcY, r.h, r.w);
      TimesMono(c.srcY + c.copyH, r.h, r.w);
      forall i: nat | i < |p|
        ensures Blitted(p, wide, r.(h := c.srcY), pixels, blend)[i] == p[i]
        ensures Blitted(p, wide, r.(h := c.srcY + c.copyH), pixels, blend)[i] == Blitted(p, wide, r, pixels, blend)[i]
      {
        CoversEnds(r, c, wide, high, i);
      }
    } else {
      forall i: nat | i < |p| ensures Blitted(p, wide, r, pixels, blend)[i] == p[i] {
        CoversEnds(r, c, wide, high, i);
      }
    }
  }

  /** What one more row changes. */
  lemma RowAt(r: Rect, c: Part, wide: nat, high: nat, i: nat, n: nat)
    requires wide > 0 && Clipped(r, wide, high, c) && c.copyW > 0 && 0 <= n < c.copyH && i < Times(high, wide)
    ensures var si, di := Times(c.srcY + n, r.w) + c.srcX, Times(c.dstY + n, wide) + c.dstX;
            var before, after := r.(h := c.srcY + n), r.(h := c.srcY + n + 1);
            if di <= i < di + c.copyW then !Covers(before, wide, i) && Covers(after, wide, i) &&
                Local(after, wide, i) == si + (i - di)
            else Covers(after, wide, i) == Covers(before, wide, i)
                 && (Covers(after, wide, i) ==> Local(after, wide, i) == Local(before, wide, i))
  {
    RowCells(wide, i, c.dstY + n, c.dstX, c.copyW);
    CoversRow(r, c, wide, high, i, n);
    if InRow(wide, i, c.dstY + n, c.dstX, c.copyW) {
      SourceOfCell(r, c, wide, high, i, n);
    }
  }

  lemma BlitRow(p: seq<Pixel>, q: seq<Pixel>, q': seq<Pixel>, wide: nat, high: nat, r: Rect, c: Part,
          pixels: seq<Pixel>, blend: Blend, n: nat)
    requires wide > 0 && |p| == |q'| == Times(high, wide) && |pixels| == Times(r.h, r.w)
    requires Clipped(r, wide, high, c) && c.copyW > 0 && n < c.copyH
    requires HeightFits(r, c.srcY + n) && HeightFits(r, c.srcY + n + 1)
    requires q == Blitted(p, wide, r.(h := c.srcY + n), pixels, blend)
    requires var si, di := Times(c.srcY + n, r.w) + c.srcX, Times(c.dstY + n, wide) + c.dstX;
             && si + c.copyW <= |pixels|
             && forall i :: 0 <= i < |q'| ==> q'[i] == if di <= i < di + c.copyW then blend(pixels[si + (i - di)], q[i])
                else q[i]
    ensures q' == Blitted(p, wide, r.(h := c.srcY + n + 1), pixels, blend)
  {
    hide Covers, Local, Times;
    forall i: nat | i < |p| ensures q'[i] == Blitted(p, wide, r.(h := c.srcY + n + 1), pixels, blend)[i] {
      RowAt(r, c, wide, high, i, n);
    }
  }
}
