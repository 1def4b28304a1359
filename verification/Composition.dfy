/** The picture the compositor keeps: a bare background, the windows over it in list order, the mouse on top.
    Each window, and the mouse, remembers the pixels it hides; to change anything, the compositor restores them
    all and paints again. */
module Composition {
  import opened Arith
  import opened Pictures

  /** A window or the mouse: where it is, its own pixels, and its save buffer. */
  datatype View = View(r: Rect, pixels: seq<Pixel>, behind: seq<Pixel>) {
    predicate Sized() {
      |pixels| == |behind| == Times(r.h, r.w)
    }

    function At(x: int, y: int): View {
      View(Rect(x, y, r.w, r.h), pixels, behind)
    }
  }

  datatype Screen = Screen(wide: nat, high: nat, shown: seq<Pixel>, views: seq<View>, mouse: View) {
    predicate Valid() {
      && wide > 0 && |shown| == Times(high, wide) && mouse.Sized()
      && forall k :: 0 <= k < |views| ==> views[k].Sized()
    }
  }

  predicate AllSized(views: seq<View>) {
    forall k :: 0 <= k < |views| ==> views[k].Sized()
  }

  /** The picture p with the first n views over it. */
  function Stage(p: seq<Pixel>, wide: nat, views: seq<View>, blend: Blend, n: nat): (s: seq<Pixel>)
    requires wide > 0 && n <= |views| && AllSized(views)
    ensures |s| == |p|
  {
    if n == 0 then p else Blitted(Stage(p, wide, views, blend, n - 1), wide, views[n - 1].r, views[n - 1].pixels, blend)
  }

  /** The picture p after the first n views have been restored, in list order. */
  function Cleared(p: seq<Pixel>, wide: nat, views: seq<View>, n: nat): (s: seq<Pixel>)
    requires wide > 0 && n <= |views| && AllSized(views)
    ensures |s| == |p|
  {
    if n == 0 then p else Restored(Cleared(p, wide, views, n - 1), wide, views[n - 1].r, views[n - 1].behind)
  }

  /** View k after it has saved what lies under it. */
  function Saving(p: seq<Pixel>, wide: nat, high: nat, views: seq<View>, blend: Blend, k: nat): (v: View)
    requires wide > 0 && k < |views| && AllSized(views) && |p| == Times(high, wide)
    ensures v.Sized() && v.r == views[k].r && v.pixels == views[k].pixels
  {
    views[k].(behind := Saved(Stage(p, wide, views, blend, k), wide, high, views[k].r, views[k].behind))
  }

  /** The views after the first n have saved what lies under them. */
  function SavedViews(p: seq<Pixel>, wide: nat, high: nat, views: seq<View>, blend: Blend, n: nat): (vs: seq<View>)
    requires wide > 0 && n <= |views| && AllSized(views) && |p| == Times(high, wide)
    ensures |vs| == |views| && AllSized(vs)
    ensures forall k :: 0 <= k < |vs| ==> vs[k].r == views[k].r && vs[k].pixels == views[k].pixels
  {
    seq<View>(|views|, k requires 0 <= k < |views| => if k < n then Saving(p, wide, high, views, blend,
        k) else views[k])
  }

  // ----- The compositor's operations

  /** The picture once the mouse and all windows have been restored. */
  function Bare(s: Screen): (p: seq<Pixel>)
    requires s.Valid()
    ensures |p| == |s.shown|
  {
    Cleared(Restored(s.shown, s.wide, s.mouse.r, s.mouse.behind), s.wide, s.views, |s.views|)
  }

  /** Everything saved and painted over the picture p. */
  function Painted(p: seq<Pixel>, wide: nat, high: nat, views: seq<View>, mouse: View, blend: Blend): (s: Screen)
    requires wide > 0 && |p| == Times(high, wide) && AllSized(views) && mouse.Sized()
    ensures s.Valid()
  {
    var all := Stage(p, wide, views, blend, |views|);
    Screen(wide, high, Blitted(all, wide, mouse.r, mouse.pixels, blend),
        SavedViews(p, wide, high, views, blend, |views|),
           mouse.(behind := Saved(all, wide, high, mouse.r, mouse.behind)))
  }

  /** A redraw, after the windows have drawn new contents. */
  function Redrawn(s: Screen, blend: Blend): (t: Screen)
    requires s.Valid()
    ensures t.Valid() && |t.views| == |s.views|
  {
    Painted(Bare(s), s.wide, s.high, s.views, s.mouse, blend)
  }

  /** Moving window k. */
  function Moved(s: Screen, k: nat, x: int, y: int, blend: Blend): (t: Screen)
    requires s.Valid() && k < |s.views|
    ensures t.Valid()
  {
    Painted(Bare(s), s.wide, s.high, s.views[k := s.views[k].At(x, y)], s.mouse, blend)
  }

  /** Moving the mouse. */
  function MouseMoved(s: Screen, x: int, y: int, blend: Blend): (t: Screen)
    requires s.Valid()
    ensures t.Valid()
  {
    var p := Restored(s.shown, s.wide, s.mouse.r, s.mouse.behind);
    var m := s.mouse.At(x, y);
    Screen(s.wide, s.high, Blitted(p, s.wide, m.r, m.pixels, blend), s.views,
        m.(behind := Saved(p, s.wide, s.high, m.r, m.behind)))
  }

  // ----- The composed picture

  /** The screen shows the windows over `bare` in list order, then the mouse, and every save buffer holds what
      it hides. */
  ghost predicate Composed(s: Screen, bare: seq<Pixel>, blend: Blend): (b: bool)
    ensures b ==> s.Valid() && |bare| == |s.shown|
  {
    && s.Valid() && |bare| == |s.shown|
    && var all := Stage(bare, s.wide, s.views, blend, |s.views|);
    && s.shown == Blitted(all, s.wide, s.mouse.r, s.mouse.pixels, blend)
    && Remembers(s.mouse.r, s.mouse.behind, all, s.wide)
    && forall k: nat :: k < |s.views| ==>
       Remembers(s.views[k].r, s.views[k].behind, Stage(bare, s.wide, s.views, blend, k), s.wide)
  }

  lemma {:induction false} StageIgnoresBehind(p: seq<Pixel>, wide: nat, a: seq<View>, b: seq<View>, blend: Blend,
          n: nat)
    requires wide > 0 && n <= |a| == |b| && AllSized(a) && AllSized(b)
    requires forall k :: 0 <= k < n ==> a[k].r == b[k].r && a[k].pixels == b[k].pixels
    ensures Stage(p, wide, a, blend, n) == Stage(p, wide, b, blend, n)
  {
    if n > 0 {
      StageIgnoresBehind(p, wide, a, b, blend, n - 1);
    }
  }

  /** Painting composes: whatever was there before, the result shows the windows and the mouse over p. */
  lemma PaintedComposes(p: seq<Pixel>, wide: nat, high: nat, views: seq<View>, mouse: View, blend: Blend)
    requires wide > 0 && |p| == Times(high, wide) && AllSized(views) && mouse.Sized()
    ensures Composed(Painted(p, wide, high, views, mouse, blend), p, blend)
  {
    hide Remembers, Saved, Blitted, Stage;
    var s := Painted(p, wide, high, views, mouse, blend);
    StageIgnoresBehind(p, wide, views, s.views, blend, |views|);
    SavedRemembers(Stage(p, wide, views, blend, |views|), wide, high, mouse.r, mouse.behind);
    forall k: nat | k < |views|
      ensures Remembers(s.views[k].r, s.views[k].behind, Stage(p, wide, s.views, blend, k), wide)
    {
      StageIgnoresBehind(p, wide, views, s.views, blend, k);
      SavedRemembers(Stage(p, wide, views, blend, k), wide, high, views[k].r, views[k].behind);
    }
  }

  /** The last of the first n views over pixel i; -1 when there is none. */
  function LastOver(views: seq<View>, wide: nat, i: nat, n: nat): (k: int)
    requires wide > 0 && n <= |views|
    ensures -1 <= k < n
    ensures k >= 0 ==> Covers(views[k].r, wide, i)
    ensures forall j :: k < j < n ==> !Covers(views[j].r, wide, i)
  {
    if n == 0 then -1 else if Covers(views[n - 1].r, wide, i) then n - 1 else LastOver(views, wide, i, n - 1)
  }

  /** Restoring in list order leaves, at each pixel, what the last window over it had saved. */
  lemma {:induction false} ClearedAt(p: seq<Pixel>, wide: nat, views: seq<View>, n: nat, i: nat)
    requires wide > 0 && n <= |views| && AllSized(views) && i < |p|
    ensures var k := LastOver(views, wide, i, n);
            Cleared(p, wide, views, n)[i] == if k < 0 then p[i] else views[k].behind[Local(views[k].r, wide, i)]
  {
    hide Local, Covers;
    if n > 0 {
      ClearedAt(p, wide, views, n - 1, i);
    }
  }

  /** A pixel no view lies over is not painted. */
  lemma {:induction false} StageAt(p: seq<Pixel>, wide: nat, views: seq<View>, blend: Blend, n: nat, i: nat)
    requires wide > 0 && n <= |views| && AllSized(views) && i < |p| && LastOver(views, wide, i, n) < 0
    ensures Stage(p, wide, views, blend, n)[i] == p[i]
  {
    hide Local, Covers;
    if n > 0 {
      StageAt(p, wide, views, blend, n - 1, i);
    }
  }

  /** What restoring everything uncovers, for any windows: at each pixel, the picture below the last window over it. */
  lemma BareAt(s: Screen, bare: seq<Pixel>, blend: Blend, i: nat)
    requires Composed(s, bare, blend) && i < |bare|
    ensures var k := LastOver(s.views, s.wide, i, |s.views|);
            Bare(s)[i] == if k < 0 then bare[i] else Stage(bare, s.wide, s.views, blend, k)[i]
  {
    hide Local, Covers, Restored, Blitted, Stage, Cleared;
    var all, k := Stage(bare, s.wide, s.views, blend, |s.views|), LastOver(s.views, s.wide, i, |s.views|);
    RestoreUndoesBlit(all, s.wide, s.mouse.r, s.mouse.pixels, blend, s.mouse.behind);
    ClearedAt(all, s.wide, s.views, |s.views|, i);
    if k < 0 {
      StageAt(bare, s.wide, s.views, blend, |s.views|, i);
    } else {
      assert Remembers(s.views[k].r, s.views[k].behind, Stage(bare, s.wide, s.views, blend, k), s.wide);
    }
  }

  /** No two windows lie over the same pixel of the screen. */
  ghost predicate Disjoint(views: seq<View>, wide: nat, size: nat)
    requires wide > 0
  {
    forall i: nat, j: nat, k: nat :: i < size && j < k < |views| && Covers(views[j].r, wide, i) ==>
        !Covers(views[k].r, wide, i)
  }

  /** With windows apart, restoring everything uncovers the bare background. */
  lemma DisjointUncovers(s: Screen, bare: seq<Pixel>, blend: Blend)
    requires Composed(s, bare, blend) && Disjoint(s.views, s.wide, |s.shown|)
    ensures Bare(s) == bare
  {
    hide Local, Covers, Composed, Stage;
    forall i: nat | i < |bare| ensures Bare(s)[i] == bare[i] {
      BareAt(s, bare, blend, i);
      var k := LastOver(s.views, s.wide, i, |s.views|);
      if k >= 0 {
        NoneBelow(s.views, s.wide, |s.shown|, i, k);
        StageAt(bare, s.wide, s.views, blend, k, i);
      }
    }
  }

  lemma NoneBelow(views: seq<View>, wide: nat, size: nat, i: nat, k: nat)
    requires wide > 0 && Disjoint(views, wide, size) && i < size && k < |views| && Covers(views[k].r, wide, i)
    ensures LastOver(views, wide, i, k) < 0
  {
  }

  /** At the start nothing but the background is shown and the mouse has only saved: its first move already
      gives the composed picture, and restoring gives the background. */
  lemma StartComposes(p: seq<Pixel>, wide: nat, high: nat, mouse: View, blend: Blend, x: int, y: int)
    requires wide > 0 && |p| == Times(high, wide) && mouse.Sized()
    ensures var s := Screen(wide, high, p, [], mouse.(behind := Saved(p, wide, high, mouse.r, mouse.behind)));
            s.Valid() && Bare(s) == p && Composed(MouseMoved(s, x, y, blend), p, blend)
  {
    hide Local, Covers, Saved;
    var saved := Saved(p, wide, high, mouse.r, mouse.behind);
    SavedRemembers(p, wide, high, mouse.r, mouse.behind);
    assert Restored(p, wide, mouse.r, saved) == p;
    SavedRemembers(p, wide, high, mouse.At(x, y).r, saved);
  }

  // ----- Overlapping windows leave a trace

  function Plain(c: Pixel, n: nat): (p: seq<Pixel>)
    ensures |p| == n && forall k :: 0 <= k < n ==> p[k] == c
  {
    seq<Pixel>(n, _ => c)
  }

  function Coloured(v: View, c: Pixel): (u: View)
    ensures u.Sized() && u.r == v.r
  {
    View(v.r, Plain(c, Times(v.r.h, v.r.w)), Plain(c, Times(v.r.h, v.r.w)))
  }

  lemma {:induction false} OpaqueStage(p: seq<Pixel>, wide: nat, views: seq<View>, c: Pixel, n: nat, i: nat)
    requires wide > 0 && n <= |views| && AllSized(views) && i < |p| && LastOver(views, wide, i, n) >= 0
    requires forall k, l :: 0 <= k < |views| && 0 <= l < |views[k].pixels| ==> views[k].pixels[l] == c
    ensures Stage(p, wide, views, Opaque(), n)[i] == c
  {
    hide Local, Covers;
    var below := Stage(p, wide, views, Opaque(), n - 1);
    if Covers(views[n - 1].r, wide, i) {
      var l := Local(views[n - 1].r, wide, i);
      assert views[n - 1].Sized() && views[n - 1].pixels[l] == c;
      assert Blitted(below, wide, views[n - 1].r, views[n - 1].pixels, Opaque())[i]
          == Opaque()(views[n - 1].pixels[l], below[i]);
    } else {
      OpaqueStage(p, wide, views, c, n - 1, i);
    }
  }

  /** The windows at their places, all white. */
  function White(views: seq<View>): (w: seq<View>)
    ensures |w| == |views| && AllSized(w)
    ensures forall k :: 0 <= k < |w| ==> w[k].r == views[k].r
    ensures forall k, l :: 0 <= k < |w| && 0 <= l < |w[k].pixels| ==> w[k].pixels[l] == 1
  {
    seq<View>(|views|, n requires 0 <= n < |views| => Coloured(views[n], 1))
  }

  /** White windows on a black screen: where two overlap, restoring everything leaves white. */
  lemma WhiteTrace(wide: nat, high: nat, views: seq<View>, mouse: View, i: nat, j: nat, k: nat)
    requires wide > 0 && i < Times(high, wide) && j < k < |views|
    requires Covers(views[j].r, wide, i) && Covers(views[k].r, wide, i)
    ensures var s := Painted(Plain(0, Times(high, wide)), wide, high, White(views), Coloured(mouse, 1),
            Opaque()); Bare(s)[i] == 1
  {
    hide Local, Covers, Stage, Blitted, Saved, White, Composed, Bare;
    var bare, white := Plain(0, Times(high, wide)), White(views);
    var s := Painted(bare, wide, high, white, Coloured(mouse, 1), Opaque());
    PaintedComposes(bare, wide, high, white, Coloured(mouse, 1), Opaque());
    BareAt(s, bare, Opaque(), i);
    var last := LastOver(s.views, wide, i, |s.views|);
    assert s.views[j].r == views[j].r && s.views[k].r == views[k].r;
    assert LastOver(s.views, wide, i, last) >= 0;
    OpaqueStage(bare, wide, s.views, 1, last, i);
  }

  /** The condition is exact: wherever two windows overlap on the screen, some contents are not uncovered. */
  lemma OverlapLeavesTrace(wide: nat, high: nat, views: seq<View>, mouse: View)
    requires wide > 0 && !Disjoint(views, wide, Times(high, wide))
    ensures exists s: Screen, bare: seq<Pixel> ::
              && Composed(s, bare, Opaque()) && |s.views| == |views|
              && (forall k :: 0 <= k < |views| ==> s.views[k].r == views[k].r)
              && Bare(s) != bare
  {
    hide Covers, Stage, Blitted, Saved, White, Composed, Bare;
    var i: nat, j: nat, k: nat :|
      i < Times(high, wide) && j < k < |views| && Covers(views[j].r, wide, i) && Covers(views[k].r, wide, i);
    var bare := Plain(0, Times(high, wide));
    var s := Painted(bare, wide, high, White(views), Coloured(mouse, 1), Opaque());
    PaintedComposes(bare, wide, high, White(views), Coloured(mouse, 1), Opaque());
    WhiteTrace(wide, high, views, mouse, i, j, k);
    assert Composed(s, bare, Opaque()) && Bare(s) != bare;
  }

  // ----- Windows that come and go

  /** With windows apart, a pixel shows the one window over it, on the background. */
  lemma {:induction false} StageApart(p: seq<Pixel>, wide: nat, views: seq<View>, blend: Blend, n: nat, i: nat)
    requires wide > 0 && n <= |views| && AllSized(views) && i < |p| && Disjoint(views, wide, |p|)
    ensures var k := LastOver(views, wide, i, n);
            Stage(p, wide, views, blend, n)[i] == if k < 0 then p[i]
                else blend(views[k].pixels[Local(views[k].r, wide, i)], p[i])
  {
    hide Local, Covers, Disjoint;
    if n > 0 {
      if Covers(views[n - 1].r, wide, i) {
        NoneBelow(views, wide, |p|, i, n - 1);
        StageAt(p, wide, views, blend, n - 1, i);
      } else {
        StageApart(p, wide, views, blend, n - 1, i);
      }
    }
  }

  /** A new window's save buffer holds whatever its memory held, and the next repaint puts that into the background. */
  lemma RegisterShowsBuffer(s: Screen, bare: seq<Pixel>, blend: Blend, v: View)
    requires Composed(s, bare, blend) && v.Sized() && Disjoint([v] + s.views, s.wide, |s.shown|)
    ensures Bare(s.(views := [v] + s.views)) == Restored(bare, s.wide, v.r, v.behind)
  {
    hide Composed, Disjoint, Restored, Bare;
    ClearWithout(v, s.views, s.wide, |s.shown|);
    DisjointUncovers(s, bare, blend);
    RegisterOver(s, v);
  }

  lemma {:induction false} LastOverCons(v: View, views: seq<View>, wide: nat, i: nat, n: nat)
    requires wide > 0 && n <= |views|
    ensures var k := LastOver(views, wide, i, n);
            LastOver([v] + views, wide, i, n + 1) == if k >= 0 then k + 1 else if Covers(v.r, wide, i) then 0 else -1
  {
    hide Covers;
    var all := [v] + views;
    if n == 0 {
      assert LastOver(all, wide, i, 1) == if Covers(all[0].r, wide, i) then 0 else LastOver(all, wide, i, 0);
    } else {
      assert all[n] == views[n - 1];
      LastOverCons(v, views, wide, i, n - 1);
    }
  }

  function Without(views: seq<View>, k: nat): (vs: seq<View>)
    requires k < |views|
    ensures |vs| == |views| - 1
  {
    views[..k] + views[k + 1..]
  }

  lemma WithoutStaysApart(views: seq<View>, k: nat, wide: nat, size: nat)
    requires wide > 0 && k < |views| && Disjoint(views, wide, size)
    ensures Disjoint(Without(views, k), wide, size)
  {
    hide Covers;
    var vs := Without(views, k);
    forall i: nat, j: nat, l: nat | i < size && j < l < |vs| && Covers(vs[j].r, wide, i)
        ensures !Covers(vs[l].r, wide, i) {
      var j', l' := if j < k then j else j + 1, if l < k then l else l + 1;
      assert vs[j] == views[j'] && vs[l] == views[l'];
    }
  }

  /** One pixel of the picture without window k, over a background that has its pixels. */
  lemma WithoutAt(p: seq<Pixel>, wide: nat, views: seq<View>, blend: Blend, k: nat, i: nat)
    requires wide > 0 && k < |views| && AllSized(views) && AllSized(Without(views, k)) && i < |p| &&
             Disjoint(views, wide, |p|)
    ensures Stage(Blitted(p, wide, views[k].r, views[k].pixels, blend), wide, Without(views, k), blend, |views| - 1)[i]
            == Stage(p, wide, views, blend, |views|)[i]
  {
    hide Local, Covers, Stage, Disjoint, Without, LastOver, Blitted;
    var q, vs := Blitted(p, wide, views[k].r, views[k].pixels, blend), Without(views, k);
    BlittedAt(p, wide, views[k].r, views[k].pixels, blend, i);
    WithoutStaysApart(views, k, wide, |p|);
    StageApart(p, wide, views, blend, |views|, i);
    StageApart(q, wide, vs, blend, |vs|, i);
    OnlyOver(views, wide, |p|, k, i);
  }

  lemma BlittedAt(p: seq<Pixel>, wide: nat, r: Rect, pixels: seq<Pixel>, blend: Blend, i: nat)
    requires wide > 0 && |pixels| == Times(r.h, r.w) && i < |p|
    ensures Blitted(p, wide, r, pixels, blend)[i] == if Covers(r, wide, i) then blend(pixels[Local(r, wide, i)], p[i])
            else p[i]
  {
  }

  /** At most one window lies over a pixel: which one, with and without window k. */
  lemma OnlyOver(views: seq<View>, wide: nat, size: nat, k: nat, i: nat)
    requires wide > 0 && k < |views| && i < size && Disjoint(views, wide, size)
    ensures var l, m := LastOver(views, wide, i, |views|), LastOver(Without(views, k), wide, i, |views| - 1);
            && (Covers(views[k].r, wide, i) ==> l == k && m < 0)
            && (!Covers(views[k].r, wide, i) ==> (l < 0 <==> m < 0) && (l >= 0 ==> views[l] == Without(views, k)[m]))
  {
    hide Covers, Disjoint;
    var vs := Without(views, k);
    var l, m := LastOver(views, wide, i, |views|), LastOver(vs, wide, i, |vs|);
    forall j | 0 <= j < |vs| ensures vs[j] == views[if j < k then j else j + 1] {
    }
    if l >= 0 {
      assert l < k ==> views[l] == vs[l];
      assert l > k ==> views[l] == vs[l - 1];
      forall j | 0 <= j < |views| && Covers(views[j].r, wide, i) ensures j == l {
        SameOver(views, wide, size, i, j, l);
      }
    }
  }

  lemma SameOver(views: seq<View>, wide: nat, size: nat, i: nat, j: nat, l: nat)
    requires wide > 0 && Disjoint(views, wide, size) && i < size && j < |views| && l < |views|
    requires Covers(views[j].r, wide, i) && Covers(views[l].r, wide, i)
    ensures j == l
  {
    hide Covers;
  }

  /** Deregistering a shown window does not take it off the screen: its pixels join the background. */
  lemma DeregisterLeavesPixels(s: Screen, bare: seq<Pixel>, blend: Blend, k: nat)
    requires Composed(s, bare, blend) && k < |s.views| && Disjoint(s.views, s.wide, |s.shown|)
    ensures Composed(s.(views := Without(s.views, k)), Blitted(bare, s.wide, s.views[k].r, s.views[k].pixels, blend),
            blend)
  {
    hide Local, Covers, Stage, Disjoint, Blitted;
    var vs, q := Without(s.views, k), Blitted(bare, s.wide, s.views[k].r, s.views[k].pixels, blend);
    forall i: nat | i < |bare|
      ensures Stage(q, s.wide, vs, blend, |vs|)[i] == Stage(bare, s.wide, s.views, blend, |s.views|)[i]
    {
      WithoutAt(bare, s.wide, s.views, blend, k, i);
    }
    assert Stage(q, s.wide, vs, blend, |vs|) == Stage(bare, s.wide, s.views, blend, |s.views|);
    forall j: nat | j < |vs| ensures Remembers(vs[j].r, vs[j].behind, Stage(q, s.wide, vs, blend, j), s.wide) {
      StillRemembers(s, bare, blend, k, j);
    }
  }

  lemma StillRemembers(s: Screen, bare: seq<Pixel>, blend: Blend, k: nat, j: nat)
    requires Composed(s, bare, blend) && k < |s.views| && Disjoint(s.views, s.wide, |s.shown|) && j < |s.views| - 1
    ensures AllSized(Without(s.views, k))
    ensures var vs, q := Without(s.views, k), Blitted(bare, s.wide, s.views[k].r, s.views[k].pixels, blend);
            Remembers(vs[j].r, vs[j].behind, Stage(q, s.wide, vs, blend, j), s.wide)
  {
    hide Local, Covers, Stage, Disjoint;
    var vs, q := Without(s.views, k), Blitted(bare, s.wide, s.views[k].r, s.views[k].pixels, blend);
    var l := if j < k then j else j + 1;
    assert vs[j] == s.views[l];
    assert Remembers(s.views[l].r, s.views[l].behind, Stage(bare, s.wide, s.views, blend, l), s.wide);
    WithoutStaysApart(s.views, k, s.wide, |bare|);
    forall i: nat | i < |bare| && Covers(vs[j].r, s.wide, i)
        ensures vs[j].behind[Local(vs[j].r, s.wide, i)] == Stage(q, s.wide, vs, blend, j)[i] {
      NoneBelow(s.views, s.wide, |bare|, i, l);
      NoneBelow(vs, s.wide, |bare|, i, j);
      StageAt(bare, s.wide, s.views, blend, l, i);
      StageAt(q, s.wide, vs, blend, j, i);
      NotOver(s.views, s.wide, |bare|, i, k, l);
    }
  }

  lemma NotOver(views: seq<View>, wide: nat, size: nat, i: nat, k: nat, l: nat)
    requires wide > 0 && Disjoint(views, wide, size) && i < size && k < |views| && l < |views| && k != l &&
             Covers(views[l].r, wide, i)
    ensures !Covers(views[k].r, wide, i)
  {
  }

  // ----- Places and pixels

  /** A moved window is at its new place, and nothing else has moved or changed its pixels. */
  lemma MovedPlaces(s: Screen, k: nat, x: int, y: int, blend: Blend, j: nat)
    requires s.Valid() && k < |s.views| && j < |s.views|
    ensures var t := Moved(s, k, x, y, blend);
            && |t.views| == |s.views| && t.mouse.r == s.mouse.r && t.mouse.pixels == s.mouse.pixels
            && t.views[j].r == (if j == k then Rect(x, y, s.views[k].r.w, s.views[k].r.h) else s.views[j].r)
            && t.views[j].pixels == s.views[j].pixels
  {
  }

  lemma RedrawnPlaces(s: Screen, blend: Blend, j: nat)
    requires s.Valid() && j < |s.views|
    ensures var t := Redrawn(s, blend);
            && |t.views| == |s.views| && t.mouse.r == s.mouse.r && t.mouse.pixels == s.mouse.pixels
            && t.views[j].r == s.views[j].r && t.views[j].pixels == s.views[j].pixels
  {
  }

  /** The picture with the first n views over it, at a pixel that only view k covers, or none does. */
  lemma {:induction false} StageAlone(p: seq<Pixel>, wide: nat, views: seq<View>, blend: Blend, n: nat, i: nat, k: int)
    requires wide > 0 && n <= |views| && AllSized(views) && i < |p| && k < |views|
    requires forall j :: 0 <= j < |views| ==> (Covers(views[j].r, wide, i) <==> j == k)
    ensures Stage(p, wide, views, blend, n)[i]
            == if 0 <= k < n then blend(views[k].pixels[Local(views[k].r, wide, i)], p[i]) else p[i]
    decreases n
  {
    hide Covers, Local;
    if n > 0 {
      StageAlone(p, wide, views, blend, n - 1, i, k);
      BlittedIs(Stage(p, wide, views, blend, n - 1), wide, views[n - 1].r, views[n - 1].pixels, blend, i);
    }
  }

  predicate Inside(r: Rect, x: int, y: int) {
    r.x <= x < r.x + r.w && r.y <= y < r.y + r.h
  }

  /** A surface's pixel at a place of the screen. */
  function PixelThere(v: View, x: int, y: int): Pixel
    requires v.Sized() && Inside(v.r, x, y)
  {
    CellBelow(y - v.r.y, x - v.r.x, v.r.h, v.r.w);
    v.pixels[Times(y - v.r.y, v.r.w) + (x - v.r.x)]
  }

  /** What a composed screen shows at column x and row y, with the windows apart: the background, with the pixel of the
      window that lies there over it, with the mouse's pixel over both. */
  lemma ComposedAt(s: Screen, bare: seq<Pixel>, blend: Blend, x: nat, y: nat, k: int)
    requires Composed(s, bare, blend) && x < s.wide && y < s.high
    requires k < |s.views| && forall j :: 0 <= j < |s.views| ==> (Inside(s.views[j].r, x, y) <==> j == k)
    ensures var i := Times(y, s.wide) + x;
            && i < |bare|
            && var below := if k >= 0 then blend(PixelThere(s.views[k], x, y), bare[i]) else bare[i];
            s.shown[i] == if Inside(s.mouse.r, x, y) then blend(PixelThere(s.mouse, x, y), below) else below
  {
    hide Stage, Remembers;
    CellBelow(y, x, s.high, s.wide);
    CellOf(y, x, s.wide);
    var i := Times(y, s.wide) + x;
    StageAlone(bare, s.wide, s.views, blend, |s.views|, i, k);
    var all := Stage(bare, s.wide, s.views, blend, |s.views|);
    BlittedIs(all, s.wide, s.mouse.r, s.mouse.pixels, blend, i);
  }

  // ----- Whole runs

  /** Redraw carries the contents the windows drew, and Register the new window with whatever its save buffer holds. */
  datatype Event =
    | Redraw(contents: seq<seq<Pixel>>) | MoveWindow(k: nat, x: int, y: int) | MoveMouse(x: int, y: int)
    | Register(v: View) | Deregister(k: nat)

  predicate Fits(s: Screen, e: Event) {
    match e
    case Redraw(contents) => |contents| == |s.views| && forall k :: 0 <= k < |contents| ==>
        |contents[k]| == |s.views[k].pixels|
    case MoveWindow(k, _, _) => k < |s.views|
    case MoveMouse(_, _) => true
    case Register(v) => v.Sized()
    case Deregister(k) => k < |s.views|
  }

  function WithContents(s: Screen, contents: seq<seq<Pixel>>): (t: Screen)
    requires s.Valid() && Fits(s, Redraw(contents))
    ensures t.Valid()
  {
    s.(views := seq<View>(|s.views|, k requires 0 <= k < |s.views| => s.views[k].(pixels := contents[k])))
  }

  function Step(s: Screen, e: Event, blend: Blend): (t: Screen)
    requires s.Valid() && Fits(s, e)
    ensures t.Valid()
  {
    match e
    case Redraw(contents) => Redrawn(WithContents(s, contents), blend)
    case MoveWindow(k, x, y) => Moved(s, k, x, y, blend)
    case MoveMouse(x, y) => MouseMoved(s, x, y, blend)
    case Register(v) => s.(views := [v] + s.views)
    case Deregister(k) => s.(views := Without(s.views, k))
  }

  lemma {:induction false} ClearedIgnoresPixels(p: seq<Pixel>, wide: nat, a: seq<View>, b: seq<View>, n: nat)
    requires wide > 0 && n <= |a| == |b| && AllSized(a) && AllSized(b)
    requires forall k :: 0 <= k < n ==> a[k].r == b[k].r && a[k].behind == b[k].behind
    ensures Cleared(p, wide, a, n) == Cleared(p, wide, b, n)
  {
    if n > 0 {
      ClearedIgnoresPixels(p, wide, a, b, n - 1);
    }
  }

  /** A mouse move keeps the composed picture, wherever the windows lie. */
  lemma MouseMoveComposes(s: Screen, bare: seq<Pixel>, blend: Blend, x: int, y: int)
    requires Composed(s, bare, blend)
    ensures Composed(MouseMoved(s, x, y, blend), bare, blend)
  {
    hide Local, Covers, Remembers, Restored, Blitted, Saved, Stage;
    var all := Stage(bare, s.wide, s.views, blend, |s.views|);
    RestoreUndoesBlit(all, s.wide, s.mouse.r, s.mouse.pixels, blend, s.mouse.behind);
    SavedRemembers(all, s.wide, s.high, s.mouse.At(x, y).r, s.mouse.behind);
  }

  /** The picture with the mouse lifted. */
  function Under(s: Screen): (p: seq<Pixel>)
    requires s.Valid()
    ensures |p| == |s.shown|
  {
    Restored(s.shown, s.wide, s.mouse.r, s.mouse.behind)
  }

  /** The background after a step: a new window's save buffer is laid into it, and what the screen shows where a
      window was when it went stays in it. */
  function Ground(s: Screen, e: Event, bare: seq<Pixel>): (g: seq<Pixel>)
    requires s.Valid() && Fits(s, e) && |bare| == |s.shown|
    ensures |g| == |bare|
  {
    match e
    case Register(v) => Restored(bare, s.wide, v.r, v.behind)
    case Deregister(k) => Committed(bare, Under(s), s.wide, s.views[k].r)
    case _ => bare
  }

  /** Whether the picture is whole after a step: a new window is shown from the next repaint on. */
  predicate Settles(s: Screen, e: Event, settled: bool) {
    match e
    case Redraw(_) => true
    case MoveWindow(_, _, _) => true
    case MoveMouse(_, _) => settled || s.views == []
    case Register(_) => false
    case Deregister(_) => settled
  }

  /** The screen over its background: composed, or at least such that lifting everything uncovers it. */
  ghost predicate Over(s: Screen, bare: seq<Pixel>, blend: Blend, settled: bool): (b: bool)
    ensures b ==> s.Valid() && |bare| == |s.shown|
  {
    if settled then Composed(s, bare, blend) else s.Valid() && Bare(s) == bare
  }

  lemma OverUncovers(s: Screen, bare: seq<Pixel>, blend: Blend, settled: bool)
    requires Over(s, bare, blend, settled) && Disjoint(s.views, s.wide, |s.shown|)
    ensures Bare(s) == bare
  {
    if settled {
      DisjointUncovers(s, bare, blend);
    }
  }

  /** Repainting from a screen over its background. */
  lemma RepaintSettles(s: Screen, bare: seq<Pixel>, blend: Blend, e: Event)
    requires s.Valid() && Fits(s, e) && Bare(s) == bare && (e.Redraw? || e.MoveWindow?)
    ensures Composed(Step(s, e, blend), bare, blend)
  {
    hide Local, Covers, Remembers, Restored, Blitted, Saved, Stage, Cleared, Composed;
    match e {
      case Redraw(contents) =>
        var t := WithContents(s, contents);
        ClearedIgnoresPixels(Under(s), s.wide, s.views, t.views, |s.views|);
        PaintedComposes(bare, s.wide, s.high, t.views, s.mouse, blend);
      case MoveWindow(k, x, y) =>
        PaintedComposes(bare, s.wide, s.high, s.views[k := s.views[k].At(x, y)], s.mouse, blend);
    }
  }

  /** A mouse move does not change what lies under the mouse. */
  lemma MouseUnder(s: Screen, blend: Blend, x: int, y: int)
    requires s.Valid()
    ensures Under(MouseMoved(s, x, y, blend)) == Under(s)
  {
    hide Restored, Blitted, Saved;
    SaveBlitRestore(Under(s), s.wide, s.high, s.mouse.At(x, y).r, s.mouse.pixels, blend, s.mouse.behind);
  }

  lemma MouseOver(s: Screen, bare: seq<Pixel>, blend: Blend, settled: bool, x: int, y: int)
    requires Over(s, bare, blend, settled)
    ensures Over(MouseMoved(s, x, y, blend), bare, blend, settled || s.views == [])
  {
    hide Composed, Restored, Blitted, Saved, MouseMoved;
    if settled {
      MouseMoveComposes(s, bare, blend, x, y);
    } else {
      MouseUnder(s, blend, x, y);
      MouseViews(s, blend, x, y);
      if s.views == [] {
        FirstMouse(s, blend, x, y);
      }
    }
  }

  lemma MouseViews(s: Screen, blend: Blend, x: int, y: int)
    requires s.Valid()
    ensures var t := MouseMoved(s, x, y, blend); t.views == s.views && t.wide == s.wide && |t.shown| == |s.shown|
  {
  }

  /** With no window there, the first mouse move completes the picture. */
  lemma FirstMouse(s: Screen, blend: Blend, x: int, y: int)
    requires s.Valid() && s.views == []
    ensures Composed(MouseMoved(s, x, y, blend), Bare(s), blend)
  {
    hide Local, Covers, Remembers, Restored, Blitted, Saved;
    SavedRemembers(Under(s), s.wide, s.high, s.mouse.At(x, y).r, s.mouse.behind);
  }

  /** A new window: its save buffer enters the background, whatever is still to be painted. */
  lemma RegisterOver(s: Screen, v: View)
    requires s.Valid() && v.Sized() && Disjoint([v] + s.views, s.wide, |s.shown|)
    ensures Bare(s.(views := [v] + s.views)) == Restored(Bare(s), s.wide, v.r, v.behind)
  {
    hide Local, Covers, Cleared, Disjoint;
    var views, p := [v] + s.views, Under(s);
    forall i: nat | i < |p| ensures Bare(s.(views := views))[i] == Restored(Bare(s), s.wide, v.r, v.behind)[i] {
      ClearedAt(p, s.wide, views, |views|, i);
      ClearedAt(p, s.wide, s.views, |s.views|, i);
      LastOverCons(v, s.views, s.wide, i, |s.views|);
      var k := LastOver(s.views, s.wide, i, |s.views|);
      if k >= 0 {
        assert views[0] == v && views[k + 1] == s.views[k];
        NotOver(views, s.wide, |s.shown|, i, 0, k + 1);
      }
    }
  }

  /** A window that goes: what the screen shows there enters the background. */
  lemma DeregisterOver(s: Screen, k: nat)
    requires s.Valid() && k < |s.views| && Disjoint(s.views, s.wide, |s.shown|)
    ensures s.(views := Without(s.views, k)).Valid()
    ensures Bare(s.(views := Without(s.views, k))) == Committed(Bare(s), Under(s), s.wide, s.views[k].r)
  {
    hide Local, Covers, Cleared, Disjoint, LastOver;
    var views, p := Without(s.views, k), Under(s);
    forall i: nat | i < |p|
      ensures Bare(s.(views := views))[i] == Committed(Bare(s), p, s.wide, s.views[k].r)[i]
    {
      ClearedAt(p, s.wide, views, |views|, i);
      ClearedAt(p, s.wide, s.views, |s.views|, i);
      OnlyOver(s.views, s.wide, |p|, k, i);
    }
  }

  /** In a composed picture that is the window over its background. */
  lemma DeregisterGround(s: Screen, bare: seq<Pixel>, blend: Blend, k: nat)
    requires Composed(s, bare, blend) && k < |s.views| && Disjoint(s.views, s.wide, |s.shown|)
    ensures Ground(s, Deregister(k), bare) == Blitted(bare, s.wide, s.views[k].r, s.views[k].pixels, blend)
  {
    hide Local, Covers, Stage, Disjoint, Restored;
    var all, r := Stage(bare, s.wide, s.views, blend, |s.views|), s.views[k].r;
    RestoreUndoesBlit(all, s.wide, s.mouse.r, s.mouse.pixels, blend, s.mouse.behind);
    forall i: nat | i < |bare|
      ensures Committed(bare, all, s.wide, r)[i] == Blitted(bare, s.wide, r, s.views[k].pixels, blend)[i]
    {
      StageApart(bare, s.wide, s.views, blend, |s.views|, i);
      OnlyOver(s.views, s.wide, |bare|, k, i);
    }
  }

  /** No event but a mouse move meets overlapping windows, and a new window overlaps none. */
  ghost predicate Clear(s: Screen, e: Event)
    requires s.Valid()
  {
    match e
    case MoveMouse(_, _) => true
    case Register(v) => Disjoint([v] + s.views, s.wide, |s.shown|)
    case _ => Disjoint(s.views, s.wide, |s.shown|)
  }

  lemma ClearWithout(v: View, views: seq<View>, wide: nat, size: nat)
    requires wide > 0 && Disjoint([v] + views, wide, size)
    ensures Disjoint(views, wide, size)
  {
    assert Without([v] + views, 0) == views;
    WithoutStaysApart([v] + views, 0, wide, size);
  }

  /** One step: the screen stays over its background. */
  lemma StepComposes(s: Screen, bare: seq<Pixel>, blend: Blend, e: Event, settled: bool)
    requires Over(s, bare, blend, settled) && Fits(s, e) && Clear(s, e)
    ensures Over(Step(s, e, blend), Ground(s, e, bare), blend, Settles(s, e, settled))
  {
    hide Composed, Disjoint, Restored, Blitted, Committed, Bare, Without, Redrawn, Moved, MouseMoved, WithContents;
    match e {
      case Redraw(_) =>
        OverUncovers(s, bare, blend, settled);
        RepaintSettles(s, bare, blend, e);
      case MoveWindow(_, _, _) =>
        OverUncovers(s, bare, blend, settled);
        RepaintSettles(s, bare, blend, e);
      case MoveMouse(x, y) => MouseOver(s, bare, blend, settled, x, y);
      case Register(v) =>
        ClearWithout(v, s.views, s.wide, |s.shown|);
        OverUncovers(s, bare, blend, settled);
        RegisterOver(s, v);
      case Deregister(k) =>
        OverUncovers(s, bare, blend, settled);
        DeregisterOver(s, k);
        if settled {
          DeregisterGround(s, bare, blend, k);
          DeregisterLeavesPixels(s, bare, blend, k);
        }
    }
  }

  /** Every event fits the screen it meets. */
  ghost predicate FitsRun(s: Screen, es: seq<Event>, blend: Blend)
    requires s.Valid()
    decreases |es|
  {
    es == [] || (Fits(s, es[0]) && FitsRun(Step(s, es[0], blend), es[1..], blend))
  }

  ghost function Run(s: Screen, es: seq<Event>, blend: Blend): (t: Screen)
    requires s.Valid() && FitsRun(s, es, blend)
    ensures t.Valid()
    decreases |es|
  {
    if es == [] then s else Run(Step(s, es[0], blend), es[1..], blend)
  }

  lemma {:induction false} RunOn(s: Screen, es: seq<Event>, es': seq<Event>, blend: Blend)
    requires s.Valid() && FitsRun(s, es, blend) && FitsRun(Run(s, es, blend), es', blend)
    ensures FitsRun(s, es + es', blend) && Run(s, es + es', blend) == Run(Run(s, es, blend), es', blend)
    decreases |es|
  {
    hide Step, Fits;
    if es == [] {
      assert es + es' == es';
    } else {
      RunOn(Step(s, es[0], blend), es[1..], es', blend);
      assert (es + es')[1..] == es[1..] + es';
    }
  }

  /** Every event of a run is clear. */
  ghost predicate Apart(s: Screen, es: seq<Event>, blend: Blend)
    requires s.Valid() && FitsRun(s, es, blend)
    decreases |es|
  {
    es == [] || (Clear(s, es[0]) && Apart(Step(s, es[0], blend), es[1..], blend))
  }

  /** The background after a run. */
  ghost function GroundAfter(s: Screen, es: seq<Event>, bare: seq<Pixel>, blend: Blend): (g: seq<Pixel>)
    requires s.Valid() && FitsRun(s, es, blend) && |bare| == |s.shown|
    decreases |es|
  {
    if es == [] then bare
    else
      StepSize(s, es[0], blend);
      GroundAfter(Step(s, es[0], blend), es[1..], Ground(s, es[0], bare), blend)
  }

  lemma StepSize(s: Screen, e: Event, blend: Blend)
    requires s.Valid() && Fits(s, e)
    ensures |Step(s, e, blend).shown| == |s.shown|
  {
  }

  ghost predicate SettledAfter(s: Screen, es: seq<Event>, blend: Blend, settled: bool)
    requires s.Valid() && FitsRun(s, es, blend)
    decreases |es|
  {
    if es == [] then settled
    else SettledAfter(Step(s, es[0], blend), es[1..], blend, Settles(s, es[0], settled))
  }

  /** Over any run the screen stays over its background: once settled, it shows the windows and the mouse at their
      places over the original background, with the save buffers of windows that came and the pixels of windows that
      went laid into it. */
  lemma {:induction false} RunComposes(s: Screen, bare: seq<Pixel>, blend: Blend, es: seq<Event>, settled: bool)
    requires Over(s, bare, blend, settled) && FitsRun(s, es, blend) && Apart(s, es, blend)
    ensures Over(Run(s, es, blend), GroundAfter(s, es, bare, blend), blend, SettledAfter(s, es, blend, settled))
    decreases |es|
  {
    hide Over, Clear, Step, Ground, Settles, Fits;
    if es != [] {
      StepComposes(s, bare, blend, es[0], settled);
      RunComposes(Step(s, es[0], blend), Ground(s, es[0], bare), blend, es[1..], Settles(s, es[0], settled));
    }
  }

  /** No window comes or goes. */
  predicate SameWindows(es: seq<Event>) {
    forall j :: 0 <= j < |es| ==> !es[j].Register? && !es[j].Deregister?
  }

  lemma {:induction false} GroundStays(s: Screen, es: seq<Event>, bare: seq<Pixel>, blend: Blend)
    requires s.Valid() && FitsRun(s, es, blend) && |bare| == |s.shown| && SameWindows(es)
    ensures GroundAfter(s, es, bare, blend) == bare
    decreases |es|
  {
    hide Step, Fits, Bare;
    if es != [] {
      StepSize(s, es[0], blend);
      GroundStays(Step(s, es[0], blend), es[1..], bare, blend);
    }
  }

  /** A whole picture stays whole. */
  lemma {:induction false} SettledStays(s: Screen, es: seq<Event>, blend: Blend)
    requires s.Valid() && FitsRun(s, es, blend) && SameWindows(es)
    ensures SettledAfter(s, es, blend, true)
    decreases |es|
  {
    hide Step, Fits;
    if es != [] {
      SettledStays(Step(s, es[0], blend), es[1..], blend);
    }
  }

  lemma {:induction false} SettledOn(s: Screen, es: seq<Event>, es': seq<Event>, blend: Blend, settled: bool)
    requires s.Valid() && FitsRun(s, es, blend) && FitsRun(Run(s, es, blend), es', blend) && FitsRun(s, es + es', blend)
    ensures SettledAfter(s, es + es', blend, settled)
            == SettledAfter(Run(s, es, blend), es', blend, SettledAfter(s, es, blend, settled))
    decreases |es|
  {
    hide Step, Fits, Settles;
    if es == [] {
      assert es + es' == es';
    } else {
      assert (es + es')[1..] == es[1..] + es' && (es + es')[0] == es[0];
      SettledOn(Step(s, es[0], blend), es[1..], es', blend, Settles(s, es[0], settled));
    }
  }

  // ----- From a black screen

  /** The screen after the initial draw: black, and saved under the mouse. */
  function Started(s: Screen): (t: Screen)
    requires s.Valid()
    ensures t.Valid() && t.views == s.views && |t.shown| == |s.shown|
  {
    var p := Plain(0, |s.shown|);
    s.(shown := p, mouse := s.mouse.(behind := Saved(p, s.wide, s.high, s.mouse.r, s.mouse.behind)))
  }

  /** Black, with the save buffers the windows begin with laid onto it. */
  function FirstBare(s: Screen): (p: seq<Pixel>)
    requires s.Valid()
    ensures |p| == |s.shown|
  {
    Cleared(Plain(0, |s.shown|), s.wide, s.views, |s.views|)
  }

  /** Lifting everything from the first screen uncovers black and the windows' save buffers. */
  lemma StartBare(s: Screen)
    requires s.Valid()
    ensures Bare(Started(s)) == FirstBare(s)
  {
    hide Local, Covers, Saved, Cleared;
    var p := Plain(0, |s.shown|);
    SavedRemembers(p, s.wide, s.high, s.mouse.r, s.mouse.behind);
    assert Restored(p, s.wide, s.mouse.r, Saved(p, s.wide, s.high, s.mouse.r, s.mouse.behind)) == p;
  }

  /** From the initial draw on, over black with the windows' first save buffers. */
  lemma StartRunComposes(s: Screen, es: seq<Event>, blend: Blend)
    requires s.Valid() && FitsRun(Started(s), es, blend) && Apart(Started(s), es, blend)
    ensures Over(Run(Started(s), es, blend), GroundAfter(Started(s), es, FirstBare(s), blend), blend,
                 SettledAfter(Started(s), es, blend, false))
  {
    hide Composed, Run, GroundAfter, SettledAfter, FitsRun, Apart, Started, FirstBare, Bare;
    StartBare(s);
    RunComposes(Started(s), FirstBare(s), blend, es, false);
  }

  /** With windows apart, that background is black exactly when their save buffers hold black where they lie on the
      screen. */
  lemma BlackWhenSaved(s: Screen)
    requires s.Valid() && Disjoint(s.views, s.wide, |s.shown|)
    ensures FirstBare(s) == Plain(0, |s.shown|)
            <==> forall k :: 0 <= k < |s.views| ==>
                Remembers(s.views[k].r, s.views[k].behind, Plain(0, |s.shown|), s.wide)
  {
    hide Local, Covers, Cleared, Disjoint;
    var black := Plain(0, |s.shown|);
    if FirstBare(s) == black {
      forall k: nat, i: nat | k < |s.views| && i < |black| && Covers(s.views[k].r, s.wide, i)
        ensures s.views[k].behind[Local(s.views[k].r, s.wide, i)] == black[i]
      {
        ClearedAt(black, s.wide, s.views, |s.views|, i);
        SameOver(s.views, s.wide, |s.shown|, i, k, LastOver(s.views, s.wide, i, |s.views|));
      }
    } else {
      var i: nat :| i < |black| && FirstBare(s)[i] != black[i];
      ClearedAt(black, s.wide, s.views, |s.views|, i);
    }
  }
}
