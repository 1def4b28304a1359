/** Saving and restoring what a surface hides, and committing part of the picture to the front buffer. */
module Background {
  import opened Arith
  import opened Pictures
  import opened Gdi2

  // ----- Restoring

  method RestoreBackground(display: Display, surface: Surface, saveBuf: array<Pixel>)
    requires display.Valid() && saveBuf.Length == Times(surface.h, surface.w) && saveBuf != display.framebuffer
    modifies display.framebuffer
    ensures display.framebuffer[..] == Restored(old(display.framebuffer[..]), display.wide, surface.Area(), saveBuf[..])
  {
    hide Covers, Local, InRow, Times, Blitted, Restored;
    ghost var p, r, wide, high := display.framebuffer[..], surface.Area(), display.wide, display.high;
    var c := Clip(surface.Area(), display.wide, display.high);
    BlitStart(p, wide, high, r, c, saveBuf[..], Opaque());
    RestoredIsBlitted(p, wide, r, saveBuf[..]);
    if c.copyW <= 0 || c.copyH <= 0 {
      return;
    }
    for row := 0 to c.copyH
      invariant HeightFits(r, c.srcY + row)
      invariant display.framebuffer[..] == Blitted(p, wide, r.(h := c.srcY + row), saveBuf[..], Opaque())
    {
      var si, di := Times(c.srcY + row, surface.w) + c.srcX, Times(c.dstY + row, display.wide) + c.dstX;
      RowInside(wide, high, c.dstY + row, c.dstX, c.copyW);
      RowInside(r.w, r.h, c.srcY + row, c.srcX, c.copyW);
      ghost var q := display.framebuffer[..];
      CopyPixels(display.framebuffer, di, saveBuf, si, c.copyW);
      HeightStep(r, c.srcY + row);
      BlitRow(p, q, display.framebuffer[..], wide, high, r, c, saveBuf[..], Opaque(), row);
    }
  }

  // ----- Saving

  /** The save buffer once its first n rows have been looked at. */
  function SavedTo(p: seq<Pixel>, wide: nat, high: nat, r: Rect, behind: seq<Pixel>, n: nat): (s: seq<Pixel>)
    requires wide > 0 && |p| == Times(high, wide)
    ensures |s| == |behind|
  {
    seq<Pixel>(|behind|, k requires 0 <= k < |behind| => if k < Times(n, r.w) then Saved(p, wide, high, r,
        behind)[k] else behind[k])
  }

  lemma SavedToAt(p: seq<Pixel>, wide: nat, high: nat, r: Rect, behind: seq<Pixel>, n: nat, k: nat)
    requires wide > 0 && |p| == Times(high, wide) && k < |behind|
    ensures SavedTo(p, wide, high, r, behind, n)[k] == if k < Times(n, r.w) then Saved(p, wide, high, r, behind)[k]
            else behind[k]
    ensures Saved(p, wide, high, r, behind)[k] == if OnScreen(r, wide, high, k) then p[Global(r, wide, high, k)]
            else behind[k]
  {
    hide Global, OnScreen, Times;
  }

  lemma RowOfCell(r: Rect, k: nat, n: nat)
    requires r.w > 0 && Times(n, r.w) <= k
    ensures Quot(k, r.w) >= n && (k < Times(n + 1, r.w) ==> Quot(k, r.w) == n && k == Times(n, r.w) + Rem(k, r.w))
  {
    QuotRem(k, r.w);
    if Quot(k, r.w) < n {
      TimesMono(Quot(k, r.w) + 1, n, r.w);
    } else if Quot(k, r.w) > n {
      TimesMono(n + 1, Quot(k, r.w), r.w);
    }
  }

  /** What one more row of the save buffer holds. */
  lemma SaveAt(p: seq<Pixel>, wide: nat, high: nat, r: Rect, c: Part, behind: seq<Pixel>, n: nat, k: nat)
    requires wide > 0 && |p| == Times(high, wide) && |behind| == Times(r.h, r.w)
    requires Clipped(r, wide, high, c) && c.copyW > 0 && n < c.copyH && k < |behind|
    ensures var si, di := Times(c.srcY + n, r.w) + c.srcX, Times(c.dstY + n, wide) + c.dstX;
            && di + c.copyW <= |p|
            && SavedTo(p, wide, high, r, behind, c.srcY + n + 1)[k]
               == if si <= k < si + c.copyW then p[di + (k - si)] else SavedTo(p, wide, high, r, behind, c.srcY + n)[k]
  {
    var row := c.srcY + n;
    RowInside(wide, high, c.dstY + n, c.dstX, c.copyW);
    TimesStep(row, r.w);
    hide Saved, SavedTo;
    SavedToAt(p, wide, high, r, behind, c.srcY + n, k);
    SavedToAt(p, wide, high, r, behind, c.srcY + n + 1, k);
    assert c.srcX + c.copyW <= r.w;
    if Times(row, r.w) <= k {
      RowOfCell(r, k, row);
      if k < Times(row + 1, r.w) {
        assert OnScreen(r, wide, high, k) <==> c.srcX <= Rem(k, r.w) < c.srcX + c.copyW;
        assert r.y + row == c.dstY + n;
      }
    }
  }

  /** Rows above the screen, and those below it, leave the buffer as it was. */
  lemma SaveEnds(p: seq<Pixel>, wide: nat, high: nat, r: Rect, c: Part, behind: seq<Pixel>)
    requires wide > 0 && |p| == Times(high, wide) && |behind| == Times(r.h, r.w) && Clipped(r, wide, high, c)
    ensures c.copyW <= 0 || c.copyH <= 0 ==> Saved(p, wide, high, r, behind) == behind
    ensures c.copyW > 0 && c.copyH > 0 ==>
              && SavedTo(p, wide, high, r, behind, c.srcY) == behind
              && SavedTo(p, wide, high, r, behind, c.srcY + c.copyH) == Saved(p, wide, high, r, behind)
  {
    hide Times;
    forall k: nat | k < |behind|
      ensures c.copyW <= 0 || c.copyH <= 0 ==> Saved(p, wide, high, r, behind)[k] == behind[k]
      ensures c.copyW > 0 && c.copyH > 0 ==>
                && SavedTo(p, wide, high, r, behind, c.srcY)[k] == behind[k]
                && SavedTo(p, wide, high, r, behind, c.srcY + c.copyH)[k] == Saved(p, wide, high, r, behind)[k]
    {
      SaveEndAt(p, wide, high, r, c, behind, k);
    }
  }

  lemma SaveEndAt(p: seq<Pixel>, wide: nat, high: nat, r: Rect, c: Part, behind: seq<Pixel>, k: nat)
    requires wide > 0 && |p| == Times(high, wide) && |behind| == Times(r.h, r.w) && Clipped(r, wide, high, c) &&
             k < |behind|
    ensures c.copyW <= 0 || c.copyH <= 0 ==> Saved(p, wide, high, r, behind)[k] == behind[k]
    ensures c.copyW > 0 && c.copyH > 0 ==>
              && SavedTo(p, wide, high, r, behind, c.srcY)[k] == behind[k]
              && SavedTo(p, wide, high, r, behind, c.srcY + c.copyH)[k] == Saved(p, wide, high, r, behind)[k]
  {
    hide Saved, SavedTo;
    SavedToAt(p, wide, high, r, behind, c.srcY, k);
    if c.copyH > 0 {
      SavedToAt(p, wide, high, r, behind, c.srcY + c.copyH, k);
    }
    if r.w > 0 {
      Split(k, r.h, r.w);
      if k < Times(c.srcY, r.w) {
        Split(k, c.srcY, r.w);
        assert r.y + Quot(k, r.w) < 0;
      }
      if c.copyH > 0 && k >= Times(c.srcY + c.copyH, r.w) {
        RowOfCell(r, k, c.srcY + c.copyH);
      }
    }
  }

  method SaveBackground(display: Display, surface: Surface, saveBuf: array<Pixel>)
    requires display.Valid() && saveBuf.Length == Times(surface.h, surface.w) && saveBuf != display.framebuffer
    modifies saveBuf
    ensures saveBuf[..] == Saved(display.framebuffer[..], display.wide, display.high, surface.Area(), old(saveBuf[..]))
  {
    hide Times, Saved, SavedTo;
    ghost var p, r, wide, high, behind := display.framebuffer[..], surface.Area(), display.wide, display.high,
        saveBuf[..];
    var c := Clip(surface.Area(), display.wide, display.high);
    SaveEnds(p, wide, high, r, c, behind);
    if c.copyW <= 0 || c.copyH <= 0 {
      return;
    }
    for row := 0 to c.copyH
      invariant saveBuf[..] == SavedTo(p, wide, high, r, behind, c.srcY + row)
    {
      var di, si := Times(c.srcY + row, surface.w) + c.srcX, Times(c.dstY + row, display.wide) + c.dstX;
      RowInside(wide, high, c.dstY + row, c.dstX, c.copyW);
      RowInside(r.w, r.h, c.srcY + row, c.srcX, c.copyW);
      ghost var before := saveBuf[..];
      CopyPixels(saveBuf, di, display.framebuffer, si, c.copyW);
      forall k: nat | k < |behind| ensures saveBuf[k] == SavedTo(p, wide, high, r, behind, c.srcY + row + 1)[k] {
        SaveAt(p, wide, high, r, c, behind, row, k);
      }
    }
  }

  // ----- Committing

  /** The rows of the rectangle that PartialCommit copies. */
  lemma CommitEnds(front: seq<Pixel>, p: seq<Pixel>, wide: nat, high: nat, r: Rect, startY: nat, endY: int, startX: nat,
          endX: int)
    requires wide > 0 && |front| == |p| == Times(high, wide)
    requires startY == (if r.y < 0 then 0 else r.y) && endY == if r.y + r.h > high then high else r.y + r.h
    requires startX == (if r.x < 0 then 0 else r.x) && endX == if r.x + r.w > wide then wide else r.x + r.w
    ensures endX <= startX || endY <= startY ==> Committed(front, p, wide, r) == front
    ensures Committed(front, p, wide, r.(h := startY - r.y)) == front
    ensures endY > startY ==> Committed(front, p, wide, r.(h := endY - r.y)) == Committed(front, p, wide, r)
  {
    forall i: nat | i < |p|
      ensures endX <= startX || endY <= startY ==> Committed(front, p, wide, r)[i] == front[i]
      ensures Committed(front, p, wide, r.(h := startY - r.y))[i] == front[i]
      ensures endY > startY ==> Committed(front, p, wide, r.(h := endY - r.y))[i] == Committed(front, p, wide, r)[i]
    {
      Split(i, high, wide);
    }
  }

  lemma CommitRow(front: seq<Pixel>, p: seq<Pixel>, wide: nat, high: nat, r: Rect, startX: nat, n: nat, y: nat, i: nat)
    requires wide > 0 && |front| == |p| == Times(high, wide) && i < |p| && r.y <= y < r.y + r.h && startX + n <= wide
    requires startX == (if r.x < 0 then 0 else r.x) && startX + n == if r.x + r.w > wide then wide else r.x + r.w
    ensures Committed(front, p, wide, r.(h := y + 1 - r.y))[i]
            == if Times(y, wide) + startX <= i < Times(y, wide) + startX + n then p[i]
                else Committed(front, p, wide, r.(h := y - r.y))[i]
  {
    RowCells(wide, i, y, startX, n);
  }

  method GDI2PartialCommit(display: Display, r: Rect)
    requires display.Valid()
    modifies display.front
    ensures display.front[..] == Committed(old(display.front[..]), display.framebuffer[..], display.wide, r)
  {
    hide Times, Committed, Covers;
    ghost var front, p, wide, high := display.front[..], display.framebuffer[..], display.wide, display.high;
    var startY, endY, startX, endX := r.y, r.y + r.h, r.x, r.x + r.w;
    if startY < 0 { startY := 0; }
    if endY > display.high { endY := display.high; }
    if startX < 0 { startX := 0; }
    if endX > display.wide { endX := display.wide; }
    CommitEnds(front, p, wide, high, r, startY, endY, startX, endX);
    var copyW := endX - startX;
    if copyW <= 0 {
      return;
    }
    var y := startY;
    while y < endY
      invariant startY <= y && (startY < endY ==> y <= endY) && (startY >= endY ==> y == startY)
      invariant display.front[..] == Committed(front, p, wide, r.(h := y - r.y))
    {
      var idx := Times(y, display.wide) + startX;
      RowInside(wide, high, y, startX, copyW);
      ghost var before := display.front[..];
      CopyPixels(display.front, idx, display.framebuffer, idx, copyW);
      forall i: nat | i < |front| ensures display.front[i] == Committed(front, p, wide, r.(h := y + 1 - r.y))[i] {
        CommitRow(front, p, wide, high, r, startX, copyW, y, i);
      }
      y := y + 1;
    }
  }

  method GDI2Commit(display: Display)
    requires display.Valid()
    modifies display.front
    ensures display.front[..] == display.framebuffer[..]
  {
    CopyPixels(display.front, 0, display.framebuffer, 0, display.framebuffer.Length);
  }

  // ----- How far the front buffer lags behind

  /** Outside the rectangles rs, the front buffer shows the picture. */
  ghost predicate Lagging(front: seq<Pixel>, p: seq<Pixel>, wide: nat, rs: set<Rect>)
    requires wide > 0
  {
    |front| == |p| && forall i: nat :: i < |p| && front[i] != p[i] ==> exists r :: r in rs && Covers(r, wide, i)
  }

  lemma InStep(front: seq<Pixel>, p: seq<Pixel>, wide: nat)
    requires wide > 0
    ensures Lagging(front, p, wide, {}) <==> front == p
  {
  }

  /** Changing the picture inside r. */
  lemma LagChange(front: seq<Pixel>, p: seq<Pixel>, p': seq<Pixel>, wide: nat, rs: set<Rect>, r: Rect)
    requires wide > 0 && Lagging(front, p, wide, rs) && |p'| == |p|
    requires forall i: nat :: i < |p| && !Covers(r, wide, i) ==> p'[i] == p[i]
    ensures Lagging(front, p', wide, rs + {r})
  {
    hide Covers;
    forall i: nat | i < |p| && front[i] != p'[i] ensures exists r' :: r' in rs + {r} && Covers(r', wide, i) {
      if !Covers(r, wide, i) {
        var r' :| r' in rs && Covers(r', wide, i);
        assert r' in rs + {r};
      } else {
        assert r in rs + {r};
      }
    }
  }

  /** Committing r. */
  lemma LagCommit(front: seq<Pixel>, p: seq<Pixel>, wide: nat, rs: set<Rect>, r: Rect)
    requires wide > 0 && Lagging(front, p, wide, rs)
    ensures Lagging(Committed(front, p, wide, r), p, wide, rs - {r})
  {
    hide Covers;
    var front' := Committed(front, p, wide, r);
    forall i: nat | i < |p| && front'[i] != p[i] ensures exists r' :: r' in rs - {r} && Covers(r', wide, i) {
      var r' :| r' in rs && Covers(r', wide, i);
      assert r' in rs - {r};
    }
  }

  lemma LagMore(front: seq<Pixel>, p: seq<Pixel>, wide: nat, rs: set<Rect>, rs': set<Rect>)
    requires wide > 0 && Lagging(front, p, wide, rs) && rs <= rs'
    ensures Lagging(front, p, wide, rs')
  {
    hide Covers;
  }
}
