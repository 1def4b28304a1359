/** Rectangles of pixels on a screen: what saving, restoring, blending and committing one does, pixel by pixel.
    A picture is a screen's pixels in row order; a surface's pixels are in row order too.  The rectangle may
    lie partly or wholly off the screen. */
module Pictures {
  import opened Arith

  type Pixel = p: int | 0 <= p < 0x1_0000_0000

  datatype Rect = Rect(x: int, y: int, w: nat, h: nat)

  /** How one pixel of a surface shows over one of the picture. */
  type Blend = (Pixel, Pixel) -> Pixel

  /** Pixel i of a picture `wide` across lies in the rectangle. */
  predicate Covers(r: Rect, wide: nat, i: nat)
    requires wide > 0
  {
    r.x <= Rem(i, wide) < r.x + r.w && r.y <= Quot(i, wide) < r.y + r.h
  }

  /** The pixel of the rectangle that falls on pixel i of the picture. */
  function Local(r: Rect, wide: nat, i: nat): (k: nat)
    requires wide > 0 && Covers(r, wide, i)
    ensures k < Times(r.h, r.w)
  {
    CellBelow(Quot(i, wide) - r.y, Rem(i, wide) - r.x, r.h, r.w);
    Times(Quot(i, wide) - r.y, r.w) + (Rem(i, wide) - r.x)
  }

  lemma CellBelow(row: nat, col: nat, h: nat, w: nat)
    requires row < h && col < w
    ensures Times(row, w) + col < Times(h, w)
  {
    TimesMono(row + 1, h, w);
  }

  /** Row and column of an index built from them. */
  lemma CellOf(row: nat, col: nat, w: nat)
    requires col < w
    ensures Quot(Times(row, w) + col, w) == row && Rem(Times(row, w) + col, w) == col
  {
    var i := Times(row, w) + col;
    QuotRem(i, w);
    PairInjective(Quot(i, w), Rem(i, w), row, col, w);
  }

  /** Pixel k of the rectangle falls on the screen. */
  predicate OnScreen(r: Rect, wide: nat, high: nat, k: nat) {
    r.w > 0 && 0 <= r.x + Rem(k, r.w) < wide && 0 <= r.y + Quot(k, r.w) < high
  }

  /** The pixel of the picture that pixel k of the rectangle falls on. */
  function Global(r: Rect, wide: nat, high: nat, k: nat): (i: nat)
    requires wide > 0 && OnScreen(r, wide, high, k)
    ensures i < Times(high, wide)
  {
    CellBelow(r.y + Quot(k, r.w), r.x + Rem(k, r.w), high, wide);
    Times(r.y + Quot(k, r.w), wide) + (r.x + Rem(k, r.w))
  }

  /** Local and Global are inverse. */
  lemma LocalGlobal(r: Rect, wide: nat, high: nat, i: nat)
    requires wide > 0 && i < Times(high, wide) && Covers(r, wide, i)
    ensures OnScreen(r, wide, high, Local(r, wide, i)) && Global(r, wide, high, Local(r, wide, i)) == i
  {
    CellOf(Quot(i, wide) - r.y, Rem(i, wide) - r.x, r.w);
    Split(i, high, wide);
  }

  lemma GlobalLocal(r: Rect, wide: nat, high: nat, k: nat)
    requires wide > 0 && k < Times(r.h, r.w) && OnScreen(r, wide, high, k)
    ensures Covers(r, wide, Global(r, wide, high, k)) && Local(r, wide, Global(r, wide, high, k)) == k
  {
    Split(k, r.h, r.w);
    CellOf(r.y + Quot(k, r.w), r.x + Rem(k, r.w), wide);
  }

  // ----- The four operations

  /** A save buffer after SaveBackground: the pixels under the rectangle; what lies off the screen stays as it was. */
  function Saved(p: seq<Pixel>, wide: nat, high: nat, r: Rect, behind: seq<Pixel>): (s: seq<Pixel>)
    requires wide > 0 && |p| == Times(high, wide)
    ensures |s| == |behind|
  {
    seq<Pixel>(|behind|, k requires 0 <= k < |behind| => if OnScreen(r, wide, high,
        k) then p[Global(r, wide, high, k)] else behind[k])
  }

  /** The picture after RestoreBackground. */
  function Restored(p: seq<Pixel>, wide: nat, r: Rect, behind: seq<Pixel>): (s: seq<Pixel>)
    requires wide > 0 && |behind| >= Times(r.h, r.w)
    ensures |s| == |p|
  {
    seq<Pixel>(|p|, i requires 0 <= i < |p| => if Covers(r, wide, i) then behind[Local(r, wide, i)] else p[i])
  }

  /** The picture after GDI2BlitSurface. */
  function Blitted(p: seq<Pixel>, wide: nat, r: Rect, pixels: seq<Pixel>, blend: Blend): (s: seq<Pixel>)
    requires wide > 0 && |pixels| >= Times(r.h, r.w)
    ensures |s| == |p|
  {
    seq<Pixel>(|p|, i requires 0 <= i < |p| =>
      var mixed: Pixel := if Covers(r, wide, i) then blend(pixels[Local(r, wide, i)], p[i]) else p[i];
      mixed)
  }

  /** The front buffer after GDI2PartialCommit. */
  function Committed(front: seq<Pixel>, p: seq<Pixel>, wide: nat, r: Rect): (s: seq<Pixel>)
    requires wide > 0 && |front| == |p|
    ensures |s| == |front|
  {
    seq<Pixel>(|front|, i requires 0 <= i < |front| => if Covers(r, wide, i) then p[i] else front[i])
  }

  lemma BlittedIs(p: seq<Pixel>, wide: nat, r: Rect, pixels: seq<Pixel>, blend: Blend, i: nat)
    requires wide > 0 && |pixels| >= Times(r.h, r.w) && i < |p|
    ensures Blitted(p, wide, r, pixels, blend)[i] ==
            if Covers(r, wide, i) then blend(pixels[Local(r, wide, i)], p[i]) else p[i]
  {
  }

  /** In rows and columns: the pixel at column x and row y of the screen takes the rectangle's pixel at the same
      distance from its corner, and only inside it. */
  lemma DrawnAt(p: seq<Pixel>, front: seq<Pixel>, wide: nat, r: Rect, pixels: seq<Pixel>, blend: Blend, x: nat, y: nat)
    requires wide > 0 && |pixels| >= Times(r.h, r.w) && |front| == |p|
    requires x < wide && Times(y, wide) + x < |p|
    ensures var i := Times(y, wide) + x;
            if r.x <= x < r.x + r.w && r.y <= y < r.y + r.h then
              && Times(y - r.y, r.w) + (x - r.x) < Times(r.h, r.w)
              && var top := pixels[Times(y - r.y, r.w) + (x - r.x)];
              && Blitted(p, wide, r, pixels, blend)[i] == blend(top, p[i])
              && Restored(p, wide, r, pixels)[i] == top
              && Committed(front, p, wide, r)[i] == p[i]
            else
              && Blitted(p, wide, r, pixels, blend)[i] == p[i] && Restored(p, wide, r, pixels)[i] == p[i]
              && Committed(front, p, wide, r)[i] == front[i]
  {
    hide Times, Quot, Rem;
    CellOf(y, x, wide);
    BlittedIs(p, wide, r, pixels, blend, Times(y, wide) + x);
    if r.x <= x < r.x + r.w && r.y <= y < r.y + r.h {
      CellBelow(y - r.y, x - r.x, r.h, r.w);
    }
  }

  /** A save buffer's pixel at column x and row y holds the screen's pixel at that distance from the corner, if there is
      one, and otherwise what it held. */
  lemma SavedAt(p: seq<Pixel>, wide: nat, high: nat, r: Rect, behind: seq<Pixel>, x: nat, y: nat)
    requires wide > 0 && |p| == Times(high, wide) && |behind| == Times(r.h, r.w) && x < r.w && y < r.h
    ensures var k := Times(y, r.w) + x;
            && k < |behind|
            && if 0 <= r.x + x < wide && 0 <= r.y + y < high then
                 && Times(r.y + y, wide) + (r.x + x) < |p|
                 && Saved(p, wide, high, r, behind)[k] == p[Times(r.y + y, wide) + (r.x + x)]
               else Saved(p, wide, high, r, behind)[k] == behind[k]
  {
    hide Times, Quot, Rem;
    CellOf(y, x, r.w);
    CellBelow(y, x, r.h, r.w);
    if 0 <= r.x + x < wide && 0 <= r.y + y < high {
      CellBelow(r.y + y, r.x + x, high, wide);
    }
  }

  /** A blend that hides what is below; restoring is blitting the save buffer with it. */
  function Opaque(): Blend {
    (top: Pixel, below: Pixel) => top
  }

  lemma RestoredIsBlitted(p: seq<Pixel>, wide: nat, r: Rect, behind: seq<Pixel>)
    requires wide > 0 && |behind| >= Times(r.h, r.w)
    ensures Restored(p, wide, r, behind) == Blitted(p, wide, r, behind, Opaque())
  {
    hide Covers, Local;
  }

  // ----- Saving and restoring

  /** The buffer holds the pixels of p that lie under the rectangle. */
  ghost predicate Remembers(r: Rect, behind: seq<Pixel>, p: seq<Pixel>, wide: nat)
    requires wide > 0 && |behind| == Times(r.h, r.w)
  {
    forall i: nat :: i < |p| && Covers(r, wide, i) ==> behind[Local(r, wide, i)] == p[i]
  }

  /** What SaveBackground wrote is what the picture showed, wherever the rectangle lies. */
  lemma SavedRemembers(p: seq<Pixel>, wide: nat, high: nat, r: Rect, behind: seq<Pixel>)
    requires wide > 0 && |p| == Times(high, wide) && |behind| == Times(r.h, r.w)
    ensures Remembers(r, Saved(p, wide, high, r, behind), p, wide)
  {
    hide Local, Global, Covers, OnScreen;
    forall i: nat | i < |p| && Covers(r, wide, i)
      ensures Saved(p, wide, high, r, behind)[Local(r, wide, i)] == p[i]
    {
      LocalGlobal(r, wide, high, i);
    }
  }

  /** Restoring takes a blit off again. */
  lemma RestoreUndoesBlit(p: seq<Pixel>, wide: nat, r: Rect, pixels: seq<Pixel>, blend: Blend, behind: seq<Pixel>)
    requires wide > 0 && |behind| == |pixels| == Times(r.h, r.w) && Remembers(r, behind, p, wide)
    ensures Restored(Blitted(p, wide, r, pixels, blend), wide, r, behind) == p
  {
    hide Local, Covers;
  }

  /** Save, blit and restore at one position leave the picture as it was, even partly or wholly off screen. */
  lemma SaveBlitRestore(p: seq<Pixel>, wide: nat, high: nat, r: Rect, pixels: seq<Pixel>, blend: Blend,
          behind: seq<Pixel>)
    requires wide > 0 && |p| == Times(high, wide) && |behind| == |pixels| == Times(r.h, r.w)
    ensures Restored(Blitted(p, wide, r, pixels, blend), wide, r, Saved(p, wide, high, r, behind)) == p
  {
    hide Local, Covers, OnScreen;
    SavedRemembers(p, wide, high, r, behind);
    RestoreUndoesBlit(p, wide, r, pixels, blend, Saved(p, wide, high, r, behind));
  }
}
