/** The window manager's process: the initial draw, then turn after turn of drawing, following the mouse and
    dropping windows; and what the screen shows after any number of turns. */
module PrimaryProcess {
  import opened Pictures
  import opened Composition
  import opened Compositor

  /** What one turn of the loop meets: the contents each window would draw, and the mouse. */
  datatype Turn = Turn(contents: seq<seq<Pixel>>, mx: int, my: int, middle: bool)

  /** Drawing into one window's surface leaves the other arrays alone. */
  ghost predicate AllApart(wm: WindowManager, list: seq<DispObject>) {
    forall k :: 0 <= k < |list| ==>
      && list[k].surface.buffer != wm.mouse.buffer
      && forall j :: 0 <= j < |list| && j != k ==> list[j].surface.buffer != list[k].surface.buffer
  }

  ghost predicate SurfacesApart(wm: WindowManager)
    reads wm`list
  {
    AllApart(wm, wm.list)
  }

  /** Contents of the right size for every window. */
  ghost predicate ContentsFit(wm: WindowManager, contents: seq<seq<Pixel>>)
    reads wm`list
  {
    |contents| == |wm.list| && forall k :: 0 <= k < |contents| ==> |contents[k]| == wm.list[k].surface.buffer.Length
  }

  ghost function Dirts(list: seq<DispObject>): (ds: seq<bool>)
    reads list`isDirty
    ensures |ds| == |list| && forall k :: 0 <= k < |ds| ==> ds[k] == list[k].isDirty
  {
    if list == [] then [] else Dirts(list[..|list| - 1]) + [list[|list| - 1].isDirty]
  }

  /** The views once the first n windows have drawn, those marked dirty. */
  function Drawn(vs: seq<View>, dirty: seq<bool>, contents: seq<seq<Pixel>>, n: nat): (ws: seq<View>)
    requires |vs| == |dirty| == |contents| && n <= |vs|
    ensures |ws| == |vs|
    ensures forall k :: 0 <= k < |ws| ==> ws[k] == if k < n && dirty[k] then vs[k].(pixels := contents[k]) else vs[k]
  {
    seq<View>(|vs|, k requires 0 <= k < |vs| => if k < n && dirty[k] then vs[k].(pixels := contents[k]) else vs[k])
  }

  method Fill(buffer: array<Pixel>, contents: seq<Pixel>)
    requires |contents| == buffer.Length
    modifies buffer
    ensures buffer[..] == contents
  {
    for i := 0 to |contents|
      invariant forall j :: 0 <= j < i ==> buffer[j] == contents[j]
    {
      buffer[i] := contents[i];
    }
  }

  /** The views of a list, one by one. */
  lemma ViewsAre(list: seq<DispObject>, vs: seq<View>)
    requires |vs| == |list| && forall j :: 0 <= j < |list| ==> ViewOf(list[j].surface, list[j].behind) == vs[j]
    ensures Views(list) == vs
  {
  }

  /** No window's save buffer, and no other window's surface, shares memory with the surface of window k. */
  lemma SurfaceApart(wm: WindowManager, k: nat)
    requires wm.Valid() && SurfacesApart(wm) && k < |wm.list|
    ensures forall j :: 0 <= j < |wm.list| ==> wm.list[j].behind != wm.list[k].surface.buffer
    ensures forall j :: 0 <= j < |wm.list| && j != k ==> wm.list[j].surface.buffer != wm.list[k].surface.buffer
    ensures var b := wm.list[k].surface.buffer;
            b != wm.mouse.buffer && b != wm.mouseSave && b != wm.display.framebuffer && b != wm.display.front
  {
    assert wm.ApartFrom(wm.list[k]);
    forall j | 0 <= j < |wm.list| ensures wm.list[j].behind != wm.list[k].surface.buffer {
      if j != k {
        assert WindowManager.ObjectsApart(wm.list[k], wm.list[j]);
      }
    }
  }

  method Clean(wm: WindowManager, obj: DispObject, ghost k: nat)
    requires wm.Valid() && k < |wm.list| && wm.list[k] == obj
    modifies obj`isDirty
    ensures Dirts(wm.list) == old(Dirts(wm.list))[k := false]
  {
    hide WindowManager.LinksSpell;
    wm.DistinctObjects(wm.list);
    ghost var ds := Dirts(wm.list);
    obj.isDirty := false;
    assert Dirts(wm.list) == ds[k := false];
  }

  /** Draw one window. */
  method DrawWindow(wm: WindowManager, obj: DispObject, contents: seq<Pixel>, ghost k: nat)
    requires wm.Valid() && SurfacesApart(wm) && k < |wm.list| && wm.list[k] == obj
    requires |contents| == obj.surface.buffer.Length
    modifies obj`isDirty, obj.surface.buffer
    ensures wm.Valid() && Dirts(wm.list) == old(Dirts(wm.list))[k := false]
    ensures Views(wm.list) == old(Views(wm.list))[k := old(Views(wm.list))[k].(pixels := contents)]
    ensures ViewOf(wm.mouse, wm.mouseSave) == old(ViewOf(wm.mouse, wm.mouseSave))
    ensures wm.display.framebuffer[..] == old(wm.display.framebuffer[..])
    ensures wm.display.front[..] == old(wm.display.front[..])
  {
    hide Views, WindowManager.Valid, SurfacesApart, Dirts;
    ghost var vs := Views(wm.list);
    SurfaceApart(wm, k);
    Clean(wm, obj, k);
    Fill(obj.surface.buffer, contents);
    ViewsAre(wm.list, vs[k := vs[k].(pixels := contents)]);
  }

  lemma DrawnNext(vs: seq<View>, dirty: seq<bool>, contents: seq<seq<Pixel>>, k: nat)
    requires |vs| == |dirty| == |contents| && k < |vs|
    ensures var now := Drawn(vs, dirty, contents, k);
            && now[k] == vs[k]
            && Drawn(vs, dirty, contents, k + 1) == if dirty[k] then now[k := now[k].(pixels := contents[k])] else now
  {
  }

  /** The marks once the first n windows have been looked at. */
  function Cleaned(dirty: seq<bool>, n: nat): (ds: seq<bool>)
    requires n <= |dirty|
    ensures |ds| == |dirty| && forall k :: 0 <= k < |ds| ==> ds[k] == (k >= n && dirty[k])
  {
    seq<bool>(|dirty|, k requires 0 <= k < |dirty| => k >= n && dirty[k])
  }

  lemma CleanedNext(dirty: seq<bool>, k: nat)
    requires k < |dirty|
    ensures Cleaned(dirty, k)[k] == dirty[k] && Cleaned(dirty, k + 1) == Cleaned(dirty, k)[k := false]
  {
  }

  function Marked(dirty: seq<bool>, n: nat): (c: nat)
    requires n <= |dirty|
    ensures c > 0 <==> exists k :: 0 <= k < n && dirty[k]
  {
    if n == 0 then 0 else Marked(dirty, n - 1) + if dirty[n - 1] then 1 else 0
  }

  /** The state of the drawing loop: the first n windows are done, and only they. */
  ghost predicate DrawnTo(wm: WindowManager, s: Screen, dirty: seq<bool>, contents: seq<seq<Pixel>>, n: nat)
    reads wm`list, wm.display.framebuffer, wm.display.front, wm.mouse, wm.mouse.buffer, wm.mouseSave
    reads wm.list`isDirty, set o | o in wm.list :: o.surface
    reads set o | o in wm.list :: o.surface.buffer, set o | o in wm.list :: o.behind
  {
    && |s.views| == |dirty| == |contents| == |wm.list| && n <= |dirty|
    && Dirts(wm.list) == Cleaned(dirty, n)
    && wm.Shown() == s.(views := Drawn(s.views, dirty, contents, n))
    && wm.display.front[..] == s.shown
  }

  /** One round of the loop. */
  method DrawNext(wm: WindowManager, obj: DispObject, contents: seq<seq<Pixel>>, ghost s: Screen,
          ghost dirty: seq<bool>, k: nat)
    returns (drew: bool)
    requires wm.Valid() && SurfacesApart(wm) && ContentsFit(wm, contents) && k < |wm.list| && wm.list[k] == obj
    requires DrawnTo(wm, s, dirty, contents, k)
    modifies obj`isDirty, obj.surface.buffer
    ensures wm.Valid() && drew == dirty[k] && DrawnTo(wm, s, dirty, contents, k + 1)
  {
    hide Views, WindowManager.Valid, SurfacesApart, Drawn, Cleaned, Dirts, ViewOf;
    DrawnNext(s.views, dirty, contents, k);
    CleanedNext(dirty, k);
    drew := obj.isDirty;
    if drew {
      DrawWindow(wm, obj, contents[k], k);
    }
  }

  lemma StartDrawing(wm: WindowManager, contents: seq<seq<Pixel>>)
    requires wm.Valid() && ContentsFit(wm, contents) && wm.display.front[..] == wm.display.framebuffer[..]
    ensures DrawnTo(wm, wm.Shown(), Dirts(wm.list), contents, 0)
  {
    assert Drawn(wm.Shown().views, Dirts(wm.list), contents, 0) == wm.Shown().views;
    assert Cleaned(Dirts(wm.list), 0) == Dirts(wm.list);
  }

  lemma AllDrawn(wm: WindowManager, s: Screen, dirty: seq<bool>, contents: seq<seq<Pixel>>, n: nat)
    requires DrawnTo(wm, s, dirty, contents, n) && n >= |wm.list|
    ensures wm.Shown() == s.(views := Drawn(s.views, dirty, contents, |contents|))
    ensures wm.display.front[..] == wm.display.framebuffer[..]
    ensures true !in Dirts(wm.list)
  {
  }

  lemma Beginning(wm: WindowManager)
    requires wm.Valid()
    ensures wm.children == WindowManager.At(wm.list, 0)
  {
  }

  lemma Following(wm: WindowManager, k: nat)
    requires wm.Valid() && k < |wm.list|
    ensures wm.list[k].next == WindowManager.At(wm.list, k + 1)
  {
  }

  /** WM_2_Draw: every window marked dirty draws its contents and is marked no longer. */
  method WM_2_Draw(wm: WindowManager, contents: seq<seq<Pixel>>) returns (redrawn: bool)
    requires wm.Valid() && SurfacesApart(wm) && ContentsFit(wm, contents) &&
             wm.display.front[..] == wm.display.framebuffer[..]
    modifies wm.list`isDirty, set o | o in wm.list :: o.surface.buffer
    ensures wm.Valid() && wm.display.front[..] == wm.display.framebuffer[..]
    ensures |old(wm.Shown()).views| == |contents|
    ensures wm.Shown() == old(wm.Shown()).(views := Drawn(old(wm.Shown()).views, old(Dirts(wm.list)), contents,
            |contents|))
    ensures redrawn <==> true in old(Dirts(wm.list))
    ensures true !in Dirts(wm.list)
  {
    hide SurfacesApart, Drawn, DrawnTo, Dirts, Views, ViewOf, WindowManager.Valid, WindowManager.Shown;
    ghost var s, dirty := wm.Shown(), Dirts(wm.list);
    StartDrawing(wm, contents);
    var obj := wm.children;
    Beginning(wm);
    var drawn, count := 0, 0;
    while obj != null
      invariant 0 <= count <= |wm.list| && obj == WindowManager.At(wm.list, count)
      invariant wm.Valid() && DrawnTo(wm, s, dirty, contents, count)
      invariant drawn == Marked(dirty, count)
      decreases |wm.list| - count
    {
      Following(wm, count);
      var drew := DrawNext(wm, obj, contents, s, dirty, count);
      if drew {
        drawn := drawn + 1;
      }
      count := count + 1;
      obj := obj.next;
    }
    AllDrawn(wm, s, dirty, contents, count);
    redrawn := drawn > 0;
  }

  // ----- One turn as events

  function When(b: bool, e: Event): seq<Event> {
    if b then [e] else []
  }

  /** What a turn does to the screen: a redraw with the contents the windows have, a mouse move, a window's move. */
  function TurnEvents(s: Screen, redrawn: bool, contents: seq<seq<Pixel>>, mx: int, my: int,
          drop: Dropped): (es: seq<Event>)
    ensures redrawn ==> es != [] && es[0].Redraw?
    ensures es != [] && drop.NoDrop? ==> es[0].Redraw? || es[0].MoveMouse?
    ensures SameWindows(es)
  {
    When(redrawn, Event.Redraw(contents)) + (When(s.mouse.r.x != mx || s.mouse.r.y != my, Event.MoveMouse(mx, my))
    + if drop.Drop? then [Event.MoveWindow(drop.k, drop.x, drop.y)] else [])
  }

  lemma RunWhen(s: Screen, b: bool, e: Event, blend: Blend)
    requires s.Valid() && (b ==> Fits(s, e))
    ensures FitsRun(s, When(b, e), blend) && Run(s, When(b, e), blend) == if b then Step(s, e, blend) else s
  {
    hide Step, Fits;
    if b {
      var t := Step(s, e, blend);
      assert FitsRun(t, [], blend) && Run(t, [], blend) == t;
      assert [e][1..] == [];
    }
  }

  /** A turn of the loop is the run of its events. */
  lemma TurnRuns(s: Screen, redrawn: bool, contents: seq<seq<Pixel>>, mx: int, my: int, drop: Dropped, blend: Blend)
    requires s.Valid() && Fits(s, Event.Redraw(contents)) && (!redrawn ==> WithContents(s, contents) == s)
    requires drop.Drop? ==> drop.k < |s.views|
    ensures var es := TurnEvents(s, redrawn, contents, mx, my, drop);
            && FitsRun(s, es, blend)
            && Run(s, es, blend) == AfterIteration(WithContents(s, contents), redrawn, mx, my, drop, blend)
  {
    hide Redrawn, MouseMoved, Moved, FitsRun, Run, Screen.Valid, Step;
    var e0, e1 := Event.Redraw(contents), Event.MoveMouse(mx, my);
    var s1 := if redrawn then Step(s, e0, blend) else s;
    RunWhen(s, redrawn, e0, blend);
    StepKeeps(s, e0, blend);
    var moved := s.mouse.r.x != mx || s.mouse.r.y != my;
    RunWhen(s1, moved, e1, blend);
    StepKeeps(s1, e1, blend);
    var s2 := if moved then Step(s1, e1, blend) else s1;
    var es2 := if drop.Drop? then [Event.MoveWindow(drop.k, drop.x, drop.y)] else [];
    var e2 := if drop.Drop? then Event.MoveWindow(drop.k, drop.x, drop.y) else e1;
    assert es2 == When(drop.Drop?, e2);
    RunWhen(s2, drop.Drop?, e2, blend);
    RunOn(s1, When(moved, e1), es2, blend);
    RunOn(s, When(redrawn, e0), When(moved, e1) + es2, blend);
    StepsAre(s, contents, s1, e1, s2, e2, blend);
  }

  lemma StepKeeps(s: Screen, e: Event, blend: Blend)
    requires s.Valid() && Fits(s, e) && (e.Redraw? || e.MoveMouse?)
    ensures var t := Step(s, e, blend); |t.views| == |s.views| && (e.Redraw? ==> t.mouse.r == s.mouse.r)
  {
  }

  lemma StepsAre(s: Screen, contents: seq<seq<Pixel>>, s1: Screen, e1: Event, s2: Screen, e2: Event, blend: Blend)
    requires s.Valid() && s1.Valid() && s2.Valid() && Fits(s, Event.Redraw(contents)) && e1.MoveMouse?
    requires Fits(s2, e2) && (e2.MoveWindow? || e2 == e1)
    ensures Step(s, Event.Redraw(contents), blend) == Redrawn(WithContents(s, contents), blend)
    ensures Step(s1, e1, blend) == MouseMoved(s1, e1.x, e1.y, blend)
    ensures e2.MoveWindow? ==> Step(s2, e2, blend) == Moved(s2, e2.k, e2.x, e2.y, blend)
  {
  }

  /** The pixels of the windows' own surfaces. */
  function Pixels(vs: seq<View>): (cs: seq<seq<Pixel>>)
    ensures |cs| == |vs| && forall k :: 0 <= k < |cs| ==> cs[k] == vs[k].pixels
  {
    seq<seq<Pixel>>(|vs|, k requires 0 <= k < |vs| => vs[k].pixels)
  }

  /** What the windows drew, as contents for a redraw; nothing changes when none was marked. */
  lemma DrawnContents(s: Screen, dirty: seq<bool>, contents: seq<seq<Pixel>>)
    requires s.Valid() && |dirty| == |contents| == |s.views|
    requires forall k :: 0 <= k < |contents| ==> |contents[k]| == |s.views[k].pixels|
    ensures var cs := Pixels(Drawn(s.views, dirty, contents, |contents|));
            && Fits(s, Event.Redraw(cs))
            && WithContents(s, cs) == s.(views := Drawn(s.views, dirty, contents, |contents|))
            && (true !in dirty ==> WithContents(s, cs) == s)
  {
    var ws := Drawn(s.views, dirty, contents, |contents|);
    assert WithContents(s, Pixels(ws)).views == ws;
    if true !in dirty {
      assert ws == s.views;
    }
  }

  // ----- The process

  /** The state between turns. */
  ghost predicate Ready(wm: WindowManager)
    reads wm, wm.list, wm.display.framebuffer, wm.display.front
  {
    && wm.Valid() && SurfacesApart(wm) && wm.display.front[..] == wm.display.framebuffer[..]
    && (wm.hovered == null || wm.hovered in wm.list)
  }

  lemma ContentsSized(wm: WindowManager, contents: seq<seq<Pixel>>)
    requires wm.Valid() && ContentsFit(wm, contents)
    ensures var s := wm.Shown();
            && s.Valid() && |contents| == |s.views|
            && forall k :: 0 <= k < |contents| ==> |contents[k]| == |s.views[k].pixels|
  {
    wm.SizedViews();
  }

  ghost function Held(wm: WindowManager): (k: nat)
    reads wm`hovered, wm`list
    ensures wm.hovered != null && wm.hovered in wm.list ==> k < |wm.list| && wm.list[k] == wm.hovered
  {
    if k: nat :| k < |wm.list| && wm.list[k] == wm.hovered then k else 0
  }

  /** What the windows' surfaces hold once those marked have drawn. */
  ghost function DrawnBy(wm: WindowManager, contents: seq<seq<Pixel>>): (cs: seq<seq<Pixel>>)
    requires ContentsFit(wm, contents)
    reads wm`list, wm.display.framebuffer, wm.mouse, wm.mouse.buffer, wm.mouseSave, wm.list`isDirty
    reads set o | o in wm.list :: o.surface, set o | o in wm.list :: o.surface.buffer, set o | o in wm.list :: o.behind
  {
    Pixels(Drawn(wm.Shown().views, Dirts(wm.list), contents, |contents|))
  }

  /** The drawing of a turn, as contents for a redraw. */
  method DrawContents(wm: WindowManager, contents: seq<seq<Pixel>>) returns (redrawn: bool)
    requires Ready(wm) && ContentsFit(wm, contents)
    modifies wm.list`isDirty, set o | o in wm.list :: o.surface.buffer
    ensures Ready(wm) && redrawn == (true in old(Dirts(wm.list)))
    ensures var s, cs := old(wm.Shown()), old(DrawnBy(wm, contents));
            && s.Valid() && |s.views| == |wm.list| && Fits(s, Event.Redraw(cs))
            && wm.Shown() == WithContents(s, cs) && (!redrawn ==> WithContents(s, cs) == s)
  {
    hide WindowManager.Valid, WindowManager.Shown, SurfacesApart, ContentsFit, Drawn, Dirts, WithContents, Fits, Pixels;
    ContentsSized(wm, contents);
    DrawnContents(wm.Shown(), Dirts(wm.list), contents);
    redrawn := WM_2_Draw(wm, contents);
  }

  predicate RedrawsFirst(es: seq<Event>) {
    es != [] && es[0].Redraw?
  }

  predicate PaintsFirst(es: seq<Event>) {
    es != [] ==> es[0].Redraw? || es[0].MoveMouse?
  }

  /** The window a turn lets go, and where. */
  ghost function DropOf(wm: WindowManager, t: Turn): (drop: Dropped)
    requires wm.hovered == null || wm.hovered in wm.list
    reads wm`hovered, wm`list, wm.list`mxOffset, wm.list`myOffset
    ensures drop.Drop? ==> drop.k < |wm.list|
  {
    wm.Dropping(t.mx, t.my, t.middle, Held(wm))
  }

  /** The events a turn amounts to. */
  ghost function EventsOf(wm: WindowManager, t: Turn): seq<Event>
    requires ContentsFit(wm, t.contents) && (wm.hovered == null || wm.hovered in wm.list)
    reads wm`hovered, wm`list, wm.display.framebuffer, wm.mouse, wm.mouse.buffer, wm.mouseSave
    reads wm.list`isDirty, wm.list`mxOffset, wm.list`myOffset
    reads set o | o in wm.list :: o.surface, set o | o in wm.list :: o.surface.buffer, set o | o in wm.list :: o.behind
  {
    TurnEvents(wm.Shown(), true in Dirts(wm.list), DrawnBy(wm, t.contents), t.mx, t.my, DropOf(wm, t))
  }

  /** One turn: draw, redraw if anything was drawn, follow the mouse, drag or drop.  On the screen it is the run of
      its events. */
  method TakeTurn(wm: WindowManager, t: Turn) returns (ghost es: seq<Event>)
    requires Ready(wm) && ContentsFit(wm, t.contents)
    modifies wm.display.framebuffer, wm.display.front, wm.mouseSave, wm.mouse`x, wm.mouse`y, wm`hovered
    modifies set o | o in wm.list :: o.behind
    modifies (set o | o in wm.list :: o.surface)`x, (set o | o in wm.list :: o.surface)`y
    modifies wm.list`mxOffset, wm.list`myOffset, wm.list`isDirty, set o | o in wm.list :: o.surface.buffer
    ensures Ready(wm)
    ensures var s := old(wm.Shown());
            && s.Valid() && FitsRun(s, es, wm.display.blend) && wm.Shown() == Run(s, es, wm.display.blend)
    ensures SameWindows(es) && es == old(EventsOf(wm, t))
    ensures true in old(Dirts(wm.list)) ==> RedrawsFirst(es)
    ensures wm.list == [] ==> PaintsFirst(es)
    ensures wm.mouse.x == t.mx && wm.mouse.y == t.my
  {
    hide WindowManager.Valid, WindowManager.Shown, SurfacesApart, ContentsFit, DrawnBy, Dirts, WithContents, FitsRun,
         Run, Fits, TurnEvents, AfterIteration, SameWindows;
    ghost var s, cs, k := wm.Shown(), DrawnBy(wm, t.contents), Held(wm);
    ghost var drop := DropOf(wm, t);
    var redrawn := DrawContents(wm, t.contents);
    wm.Iterate(redrawn, t.mx, t.my, t.middle, k);
    es := TurnEvents(s, redrawn, cs, t.mx, t.my, drop);
    TurnRuns(s, redrawn, cs, t.mx, t.my, drop, wm.display.blend);
  }

  ghost predicate TurnsFit(wm: WindowManager, turns: seq<Turn>)
    reads wm`list
  {
    forall j :: 0 <= j < |turns| ==> ContentsFit(wm, turns[j].contents)
  }

  /** The state of the loop after some events. */
  ghost predicate RunTo(wm: WindowManager, s: Screen, es: seq<Event>)
    reads wm, wm.list, wm.display.framebuffer, wm.display.front, wm.mouse, wm.mouse.buffer, wm.mouseSave
    reads set o | o in wm.list :: o.surface, set o | o in wm.list :: o.surface.buffer, set o | o in wm.list :: o.behind
  {
    && Ready(wm) && s.Valid()
    && FitsRun(Started(s), es, wm.display.blend) && wm.Shown() == Run(Started(s), es, wm.display.blend)
  }

  /** The picture is whole after the events. */
  ghost predicate Whole(s: Screen, es: seq<Event>, blend: Blend)
    requires s.Valid() && FitsRun(Started(s), es, blend)
  {
    SettledAfter(Started(s), es, blend, false)
  }

  /** A turn keeps a whole picture whole, and makes it so when it redraws, or moves the mouse over no windows. */
  lemma Longer(s: Screen, es: seq<Event>, more: seq<Event>, blend: Blend)
    requires s.Valid() && FitsRun(Started(s), es, blend) && FitsRun(Run(Started(s), es, blend), more, blend)
    ensures FitsRun(Started(s), es + more, blend)
    ensures Run(Started(s), es + more, blend) == Run(Run(Started(s), es, blend), more, blend)
    ensures var t := Run(Started(s), es, blend);
            SameWindows(more)
            && (Whole(s, es, blend) || (more != [] && (more[0].Redraw? || (t.views == [] && more[0].MoveMouse?))))
            ==> Whole(s, es + more, blend)
    ensures SameWindows(es) && SameWindows(more) ==> SameWindows(es + more)
  {
    hide FitsRun, Run, Started, SettledAfter;
    RunOn(Started(s), es, more, blend);
    SettledOn(Started(s), es, more, blend, false);
    if SameWindows(more) {
      TurnWhole(Run(Started(s), es, blend), more, blend, Whole(s, es, blend));
    }
  }

  lemma TurnWhole(t: Screen, more: seq<Event>, blend: Blend, settled: bool)
    requires t.Valid() && FitsRun(t, more, blend) && SameWindows(more)
    ensures settled || (more != [] && (more[0].Redraw? || (t.views == [] && more[0].MoveMouse?)))
            ==> SettledAfter(t, more, blend, settled)
  {
    hide Step, Fits;
    if settled {
      SettledStays(t, more, blend);
    } else if more != [] {
      SettledStays(Step(t, more[0], blend), more[1..], blend);
    }
  }

  lemma NothingRun(s: Screen, blend: Blend)
    requires s.Valid()
    ensures FitsRun(Started(s), [], blend) && Run(Started(s), [], blend) == Started(s)
  {
  }

  /** Before the first turn. */
  method StartUp(wm: WindowManager)
    requires wm.Valid() && SurfacesApart(wm) && wm.hovered == null
    modifies wm.display.framebuffer, wm.display.front, wm.mouseSave
    ensures RunTo(wm, old(wm.Shown()), [])
  {
    hide WindowManager.Valid, WindowManager.Shown, SurfacesApart, Dirts, FitsRun, Run, Started;
    wm.SizedViews();
    NothingRun(wm.Shown(), wm.display.blend);
    wm.Start();
  }

  /** One more turn.  It completes the picture if anything was marked, or if there are no windows and the mouse
      moved. */
  method NextTurn(wm: WindowManager, t: Turn, ghost s: Screen, ghost es: seq<Event>)
    returns (ghost es': seq<Event>)
    requires RunTo(wm, s, es) && ContentsFit(wm, t.contents)
    modifies wm.display.framebuffer, wm.display.front, wm.mouseSave, wm.mouse`x, wm.mouse`y, wm`hovered
    modifies set o | o in wm.list :: o.behind
    modifies (set o | o in wm.list :: o.surface)`x, (set o | o in wm.list :: o.surface)`y
    modifies wm.list`mxOffset, wm.list`myOffset, wm.list`isDirty, set o | o in wm.list :: o.surface.buffer
    ensures RunTo(wm, s, es') && (SameWindows(es) ==> SameWindows(es'))
    ensures Whole(s, es, wm.display.blend) || true in old(Dirts(wm.list)) || (wm.list == [] && es' != es) ==>
              Whole(s, es', wm.display.blend)
    ensures wm.mouse.x == t.mx && wm.mouse.y == t.my
  {
    hide Ready, ContentsFit, Dirts, FitsRun, Run, Started, Whole, SameWindows;
    ghost var more := TakeTurn(wm, t);
    Longer(s, es, more, wm.display.blend);
    es' := es + more;
    assert more == [] ==> es' == es;
  }

  lemma OneMore(s: Screen, es: seq<Event>, e: Event, blend: Blend)
    requires s.Valid() && FitsRun(Started(s), es, blend) && Fits(Run(Started(s), es, blend), e)
    ensures FitsRun(Started(s), es + [e], blend)
    ensures Run(Started(s), es + [e], blend) == Step(Run(Started(s), es, blend), e, blend)
  {
    hide Step, Fits, Started;
    var t := Run(Started(s), es, blend);
    RunWhen(t, true, e, blend);
    RunOn(Started(s), es, [e], blend);
  }

  /** The list with a new window in front. */
  method AddWindow(wm: WindowManager, obj: DispObject)
    requires Ready(wm) && wm.ListApart([obj] + wm.list) && AllApart(wm, [obj] + wm.list)
    modifies wm`children, wm`list, obj`next, obj`isDirty, wm.list`prev
    ensures Ready(wm) && wm.list == [obj] + old(wm.list) && true in Dirts(wm.list)
    ensures wm.Shown() == old(wm.Shown()).(views := [ViewOf(obj.surface, obj.behind)] + old(wm.Shown()).views)
  {
    hide WindowManager.Valid, WindowManager.ListApart, AllApart, Dirts, Views;
    ghost var v, vs := ViewOf(obj.surface, obj.behind), Views(wm.list);
    wm.WM_2_RegisterDisplayObject(obj);
    ViewsAre(wm.list, [v] + vs);
    MarkedFirst(wm);
  }

  /** A window registered between turns. */
  method Arrive(wm: WindowManager, obj: DispObject, ghost s: Screen, ghost es: seq<Event>)
    returns (ghost es': seq<Event>)
    requires RunTo(wm, s, es) && wm.ListApart([obj] + wm.list) && AllApart(wm, [obj] + wm.list)
    modifies wm`children, wm`list, obj`next, obj`isDirty, wm.list`prev
    ensures wm.list == [obj] + old(wm.list) && true in Dirts(wm.list)
    ensures RunTo(wm, s, es') && es' == es + [Event.Register(ViewOf(obj.surface, obj.behind))]
  {
    hide WindowManager.Valid, WindowManager.ListApart, WindowManager.Shown, AllApart, FitsRun, Run, Started, Dirts,
         Ready;
    ghost var v := ViewOf(obj.surface, obj.behind);
    NewSized(wm, obj);
    OneMore(s, es, Event.Register(v), wm.display.blend);
    AddWindow(wm, obj);
    es' := es + [Event.Register(v)];
  }

  lemma NewSized(wm: WindowManager, obj: DispObject)
    requires wm.ListApart([obj] + wm.list)
    ensures ViewOf(obj.surface, obj.behind).Sized()
  {
    assert wm.ApartFrom(([obj] + wm.list)[0]);
  }

  lemma MarkedFirst(wm: WindowManager)
    requires wm.list != [] && wm.list[0].isDirty
    ensures true in Dirts(wm.list)
  {
    assert Dirts(wm.list)[0];
  }

  /** The list without one of its windows. */
  method DropWindow(wm: WindowManager, obj: DispObject, ghost k: nat)
    requires Ready(wm) && k < |wm.list| && wm.list[k] == obj && wm.hovered != obj
    modifies wm`children, wm`list, wm.list`next, wm.list`prev
    ensures Ready(wm) && wm.list == old(wm.list[..k] + wm.list[k + 1..]) && k < |old(wm.Shown()).views|
    ensures wm.Shown() == old(wm.Shown()).(views := Without(old(wm.Shown()).views, k))
  {
    hide WindowManager.Valid, Views;
    ghost var vs := Views(wm.list);
    FewerApart(wm, k);
    wm.WM_2_DeRegisterDisplayObject(obj, k);
    ViewsAre(wm.list, Without(vs, k));
  }

  /** A window deregistered between turns; it is not being dragged. */
  method Leave(wm: WindowManager, obj: DispObject, ghost k: nat, ghost s: Screen, ghost es: seq<Event>)
    returns (ghost es': seq<Event>)
    requires RunTo(wm, s, es) && k < |wm.list| && wm.list[k] == obj && wm.hovered != obj
    modifies wm`children, wm`list, wm.list`next, wm.list`prev
    ensures wm.list == old(wm.list[..k] + wm.list[k + 1..])
    ensures RunTo(wm, s, es') && es' == es + [Event.Deregister(k)]
  {
    hide WindowManager.Valid, WindowManager.Shown, FitsRun, Run, Started, Ready, Views;
    OneMore(s, es, Event.Deregister(k), wm.display.blend);
    DropWindow(wm, obj, k);
    es' := es + [Event.Deregister(k)];
  }

  lemma FewerApart(wm: WindowManager, k: nat)
    requires SurfacesApart(wm) && k < |wm.list|
    ensures AllApart(wm, wm.list[..k] + wm.list[k + 1..])
    ensures forall o :: o in wm.list && o != wm.list[k] ==> o in wm.list[..k] + wm.list[k + 1..]
  {
    var rest := wm.list[..k] + wm.list[k + 1..];
    forall j | 0 <= j < |rest| ensures rest[j] == wm.list[if j < k then j else j + 1] {
    }
    forall o | o in wm.list && o != wm.list[k] ensures o in rest {
      var j :| 0 <= j < |wm.list| && wm.list[j] == o;
      assert rest[if j < k then j else j - 1] == o;
    }
  }

  /** WM_2_PrimaryProc: the initial draw and any number of turns.  What is shown is the run of the events that the
      turns amount to, the front buffer shows it too, and while the windows are apart it is their picture, with the
      mouse on top, over black with the windows' first save buffers. */
  method WM_2_PrimaryProc(wm: WindowManager, turns: seq<Turn>) returns (ghost es: seq<Event>)
    requires wm.Valid() && SurfacesApart(wm) && wm.hovered == null && TurnsFit(wm, turns)
    requires false !in Dirts(wm.list)
    modifies wm.display.framebuffer, wm.display.front, wm.mouseSave, wm.mouse`x, wm.mouse`y, wm`hovered
    modifies set o | o in wm.list :: o.behind
    modifies (set o | o in wm.list :: o.surface)`x, (set o | o in wm.list :: o.surface)`y
    modifies wm.list`mxOffset, wm.list`myOffset, wm.list`isDirty, set o | o in wm.list :: o.surface.buffer
    ensures RunTo(wm, old(wm.Shown()), es) && wm.display.front[..] == wm.display.framebuffer[..]
    ensures turns != [] ==> wm.mouse.x == turns[|turns| - 1].mx && wm.mouse.y == turns[|turns| - 1].my
    ensures turns != [] && wm.list != [] ==> es != []
    ensures es != [] && Apart(Started(old(wm.Shown())), es, wm.display.blend) ==>
              Composed(wm.Shown(), FirstBare(old(wm.Shown())), wm.display.blend)
  {
    hide RunTo, WindowManager.Valid, WindowManager.Shown, SurfacesApart, ContentsFit, Dirts, Whole, Started;
    ghost var s := wm.Shown();
    StartUp(wm);
    es := [];
    RunIs(wm, s, es);
    for j := 0 to |turns|
      invariant RunTo(wm, s, es) && SameWindows(es)
      invariant j == 0 ==> es == [] && false !in Dirts(wm.list)
      invariant s.Valid() && FitsRun(Started(s), es, wm.display.blend)
      invariant es != [] || (j > 0 && wm.list != []) ==> Whole(s, es, wm.display.blend)
      invariant j > 0 ==> wm.mouse.x == turns[j - 1].mx && wm.mouse.y == turns[j - 1].my
    {
      if j == 0 && wm.list != [] {
        assert Dirts(wm.list)[0] in Dirts(wm.list);
      }
      es := NextTurn(wm, turns[j], s, es);
      RunIs(wm, s, es);
    }
    RunIs(wm, s, es);
    NotYet(s, wm.display.blend);
  }

  lemma NotYet(s: Screen, blend: Blend)
    requires s.Valid()
    ensures FitsRun(Started(s), [], blend) && !Whole(s, [], blend)
  {
  }

  /** What the state of the loop says of the screen: once whole, it is the picture of the windows and the mouse over
      the background that the events made. */
  lemma RunIs(wm: WindowManager, s: Screen, es: seq<Event>)
    requires RunTo(wm, s, es)
    ensures s.Valid() && FitsRun(Started(s), es, wm.display.blend)
    ensures wm.display.front[..] == wm.display.framebuffer[..]
    ensures Whole(s, es, wm.display.blend) && Apart(Started(s), es, wm.display.blend) ==>
              Composed(wm.Shown(), GroundAfter(Started(s), es, FirstBare(s), wm.display.blend), wm.display.blend)
    ensures SameWindows(es) ==> GroundAfter(Started(s), es, FirstBare(s), wm.display.blend) == FirstBare(s)
  {
    hide WindowManager.Shown, Apart, Composed, FirstBare, FitsRun, Run, Started, Dirts, GroundAfter;
    if Apart(Started(s), es, wm.display.blend) {
      StartRunComposes(s, es, wm.display.blend);
    }
    if SameWindows(es) {
      GroundStays(Started(s), es, FirstBare(s), wm.display.blend);
    }
  }
}
