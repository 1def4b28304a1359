/** The window manager: display objects in a linked list, painted over the background in list order, the mouse on
    top, every change committed to the front buffer. */
module Compositor {
  import opened Arith
  import opened Pictures
  import opened Composition
  import opened Gdi2
  import opened Background

  class DispObject {
    const surface: Surface
    const behind: array<Pixel>
    var next: DispObject?
    var prev: DispObject?
    var isDirty: bool
    var mxOffset: int
    var myOffset: int

    constructor (surface: Surface, behind: array<Pixel>)
      ensures this.surface == surface && this.behind == behind && next == null && prev == null && !isDirty
    {
      this.surface, this.behind, next, prev, isDirty, mxOffset, myOffset := surface, behind, null, null, false, 0, 0;
    }
  }

  ghost function ViewOf(surface: Surface, behind: array<Pixel>): View
    reads surface`x, surface`y, surface.buffer, behind
  {
    View(surface.Area(), surface.buffer[..], behind[..])
  }

  ghost function Views(list: seq<DispObject>): (vs: seq<View>)
    reads set o | o in list :: o.surface, set o | o in list :: o.surface.buffer, set o | o in list :: o.behind
    ensures |vs| == |list| && forall k :: 0 <= k < |list| ==> vs[k] == ViewOf(list[k].surface, list[k].behind)
  {
    if list == [] then [] else Views(list[..|list| - 1]) + [ViewOf(list[|list| - 1].surface, list[|list| - 1].behind)]
  }

  class WindowManager {
    const display: Display
    const mouse: Surface
    const mouseSave: array<Pixel>
    var children: DispObject?
    var hovered: DispObject?
    /** The objects in list order. */
    ghost var list: seq<DispObject>

    constructor (display: Display, mouse: Surface, mouseSave: array<Pixel>)
      ensures this.display == display && this.mouse == mouse && this.mouseSave == mouseSave
      ensures children == null && hovered == null && list == []
    {
      this.display, this.mouse, this.mouseSave, children, hovered, list := display, mouse, mouseSave, null, null, [];
    }

    // ----- Validity

    /** The arrays that painting writes are apart from each other and from those it reads. */
    ghost predicate Apart() {
      && mouseSave != display.framebuffer && mouseSave != display.front && mouseSave != mouse.buffer
      && mouse.buffer != display.framebuffer && mouse.buffer != display.front
    }

    ghost predicate ApartFrom(o: DispObject) {
      && o.behind != display.framebuffer && o.behind != display.front && o.behind != mouseSave &&
         o.behind != mouse.buffer
      && o.surface.buffer != display.framebuffer && o.surface.buffer != display.front && o.surface.buffer != mouseSave
      && o.behind != o.surface.buffer && o.surface != mouse
      && o.surface.buffer.Length == o.behind.Length == Times(o.surface.h, o.surface.w)
    }

    static ghost predicate ObjectsApart(o: DispObject, u: DispObject) {
      o != u && o.surface != u.surface && o.behind != u.behind && o.behind != u.surface.buffer &&
          u.behind != o.surface.buffer
    }

    ghost predicate ListApart(list: seq<DispObject>) {
      && (forall k :: 0 <= k < |list| ==> ApartFrom(list[k]))
      && (forall j, k :: 0 <= j < |list| && 0 <= k < |list| && j != k ==> ObjectsApart(list[j], list[k]))
    }

    static function At(list: seq<DispObject>, k: nat): DispObject? {
      if k < |list| then list[k] else null
    }

    /** The links spell the list.  Nothing is said of the first object's back link, which is never read. */
    ghost predicate LinksSpell(list: seq<DispObject>)
      reads this`children, list`next, list`prev
    {
      && children == At(list, 0)
      && (forall k :: 0 <= k < |list| ==> list[k].next == At(list, k + 1))
      && (forall k :: 1 <= k < |list| ==> list[k].prev == list[k - 1])
    }

    ghost predicate Valid()
      reads this`children, this`list, list`next, list`prev
    {
      && display.Valid() && Apart() && mouse.buffer.Length == mouseSave.Length == Times(mouse.h, mouse.w)
      && ListApart(list) && LinksSpell(list)
    }

    ghost function Shown(): (s: Screen)
      reads this`list, display.framebuffer, mouse, mouse.buffer, mouseSave
      reads set o | o in list :: o.surface, set o | o in list :: o.surface.buffer, set o | o in list :: o.behind
      ensures s.mouse.r == mouse.Area() && |s.views| == |list|
    {
      Screen(display.wide, display.high, display.framebuffer[..], Views(list), ViewOf(mouse, mouseSave))
    }

    // ----- The linked list

    /** A new object goes to the front of the list. */
    method WM_2_RegisterDisplayObject(obj: DispObject)
      requires Valid() && ListApart([obj] + list)
      modifies this`children, this`list, obj`next, obj`isDirty
      modifies list`prev
      ensures Valid() && list == [obj] + old(list) && obj.isDirty
    {
      hide ListApart;
      AddedApart(obj);
      obj.next := children;
      if children != null {
        children.prev := obj;
      }
      children := obj;
      obj.isDirty := true;
      list := [obj] + list;
    }

    lemma AddedApart(obj: DispObject)
      requires ListApart([obj] + list)
      ensures forall j :: 0 <= j < |list| ==> list[j] != obj
      ensures forall j, k :: 0 <= j < k < |list| ==> list[j] != list[k]
    {
      hide ListApart;
      DistinctObjects([obj] + list);
      var added := [obj] + list;
      forall j | 0 <= j < |list| ensures added[j + 1] == list[j] && list[j] != obj {
        assert added[0] != added[j + 1];
      }
    }

    lemma RemovedApart(list: seq<DispObject>, k: nat)
      requires ListApart(list) && k < |list|
      ensures ListApart(list[..k] + list[k + 1..])
      ensures forall j :: 0 <= j < |list| && j != k ==> list[j] != list[k]
    {
      hide ApartFrom;
      var rest := list[..k] + list[k + 1..];
      forall j | 0 <= j < |rest| ensures rest[j] == list[if j < k then j else j + 1] {
      }
    }

    lemma DistinctObjects(list: seq<DispObject>)
      requires ListApart(list)
      ensures forall j, k :: 0 <= j < k < |list| ==> list[j] != list[k]
    {
    }

    /** Links that skip object k spell the list without it. */
    lemma RemovedLinks(k: nat)
      requires k < |list| && children == At(list, if k == 0 then 1 else 0)
      requires forall j :: 0 <= j < |list| && j != k ==> list[j].next == At(list, if j + 1 == k then k + 1 else j + 1)
      requires forall j :: 1 <= j < |list| && j != k && (k == 0 ==> j > 1) ==>
               list[j].prev == list[if j - 1 == k then k - 1 else j - 1]
      ensures LinksSpell(list[..k] + list[k + 1..])
    {
      Remaining(k, 0);
      RemovedNexts(k);
      RemovedPrevs(k);
    }

    lemma RemovedNexts(k: nat)
      requires k < |list|
      requires forall j :: 0 <= j < |list| && j != k ==> list[j].next == At(list, if j + 1 == k then k + 1 else j + 1)
      ensures var rest := list[..k] + list[k + 1..]; forall j :: 0 <= j < |rest| ==> rest[j].next == At(rest, j + 1)
    {
      var rest := list[..k] + list[k + 1..];
      forall j | 0 <= j < |rest| ensures rest[j].next == At(rest, j + 1) {
        Remaining(k, j);
        Remaining(k, j + 1);
      }
    }

    lemma RemovedPrevs(k: nat)
      requires k < |list|
      requires forall j :: 1 <= j < |list| && j != k && (k == 0 ==> j > 1) ==>
               list[j].prev == list[if j - 1 == k then k - 1 else j - 1]
      ensures var rest := list[..k] + list[k + 1..]; forall j :: 1 <= j < |rest| ==> rest[j].prev == rest[j - 1]
    {
      var rest := list[..k] + list[k + 1..];
      forall j | 1 <= j < |rest| ensures rest[j].prev == rest[j - 1] {
        Remaining(k, j);
        Remaining(k, j - 1);
      }
    }

    lemma Remaining(k: nat, j: nat)
      requires k < |list|
      ensures At(list[..k] + list[k + 1..], j) == At(list, if j < k then j else j + 1)
    {
    }

    /** The pointer assignments. */
    method Unlink(obj: DispObject, ghost k: nat)
      requires Valid() && k < |list| && list[k] == obj
      requires forall j, l :: 0 <= j < l < |list| ==> list[j] != list[l]
      modifies this`children, list`next, list`prev
      ensures LinksSpell(list[..k] + list[k + 1..])
    {
      hide ObjectsApart, ApartFrom, ListApart, Apart;
      if children == obj {
        assert k == 0;
        children := obj.next;
        if children != null {
          children.prev := null;
        }
      } else {
        assert k > 0 && obj.prev == list[k - 1] && obj.next == At(list, k + 1);
        if obj.next != null {
          obj.next.prev := obj.prev;
        }
        assert obj.prev == list[k - 1];
        if obj.prev != null {
          obj.prev.next := obj.next;
        }
      }
      RemovedLinks(k);
    }

    /** An object leaves the list; the others keep their order. */
    method WM_2_DeRegisterDisplayObject(obj: DispObject, ghost k: nat)
      requires Valid() && k < |list| && list[k] == obj
      modifies this`children, this`list, list`next, list`prev
      ensures Valid() && list == old(list[..k] + list[k + 1..])
    {
      hide ObjectsApart, ApartFrom, ListApart, LinksSpell;
      RemovedApart(list, k);
      DistinctObjects(list);
      Unlink(obj, k);
      list := list[..k] + list[k + 1..];
    }

    // ----- One object

    /** Save, blit and commit one surface: the front buffer catches up there. */
    method Paint(surface: Surface, saveBuf: array<Pixel>, ghost rs: set<Rect>)
      requires display.Valid() && saveBuf.Length == surface.buffer.Length == Times(surface.h, surface.w)
      requires saveBuf != display.framebuffer && saveBuf != display.front && saveBuf != surface.buffer
      requires surface.buffer != display.framebuffer && surface.buffer != display.front
      requires Lagging(display.front[..], display.framebuffer[..], display.wide, rs + {surface.Area()})
      modifies display.framebuffer, display.front, saveBuf
      ensures saveBuf[..] == Saved(old(display.framebuffer[..]), display.wide, display.high, surface.Area(),
              old(saveBuf[..]))
      ensures display.framebuffer[..]
              == Blitted(old(display.framebuffer[..]), display.wide, surface.Area(), surface.buffer[..], display.blend)
      ensures Lagging(display.front[..], display.framebuffer[..], display.wide, rs)
    {
      hide Saved, Covers, Local, Times, Lagging, Committed;
      ghost var p, front, r := display.framebuffer[..], display.front[..], surface.Area();
      SaveBackground(display, surface, saveBuf);
      GDI2BlitSurface(display, surface);
      GDI2PartialCommit(display, surface.Area());
      LagChange(front, p, display.framebuffer[..], display.wide, rs + {r}, r);
      LagCommit(front, display.framebuffer[..], display.wide, rs + {r} + {r}, r);
      LagMore(display.front[..], display.framebuffer[..], display.wide, rs + {r} + {r} - {r}, rs);
    }

    /** Put back what a surface hides.  The front buffer may then lag behind there. */
    method Lift(surface: Surface, saveBuf: array<Pixel>, ghost rs: set<Rect>)
      requires display.Valid() && saveBuf.Length == Times(surface.h, surface.w)
      requires saveBuf != display.framebuffer
      requires Lagging(display.front[..], display.framebuffer[..], display.wide, rs)
      modifies display.framebuffer
      ensures display.framebuffer[..]
              == Restored(old(display.framebuffer[..]), display.wide, surface.Area(), saveBuf[..])
      ensures Lagging(display.front[..], display.framebuffer[..], display.wide, rs + {surface.Area()})
    {
      hide Covers, Local, Times, Lagging;
      ghost var p := display.framebuffer[..];
      RestoreBackground(display, surface, saveBuf);
      LagChange(display.front[..], p, display.framebuffer[..], display.wide, rs, surface.Area());
    }

    method Commit(r: Rect, ghost rs: set<Rect>)
      requires display.Valid()
      requires Lagging(display.front[..], display.framebuffer[..], display.wide, rs + {r})
      modifies display.front
      ensures Lagging(display.front[..], display.framebuffer[..], display.wide, rs)
    {
      hide Covers, Lagging, Committed;
      ghost var front := display.front[..];
      GDI2PartialCommit(display, r);
      LagCommit(front, display.framebuffer[..], display.wide, rs + {r}, r);
      LagMore(display.front[..], display.framebuffer[..], display.wide, rs + {r} - {r}, rs);
    }

    // ----- All objects

    /** Paint object k of the list. */
    method PaintObject(obj: DispObject, ghost k: nat, ghost rs: set<Rect>)
      requires Valid() && k < |list| && list[k] == obj
      requires Lagging(display.front[..], display.framebuffer[..], display.wide, rs + {obj.surface.Area()})
      modifies display.framebuffer, display.front, obj.behind
      ensures Views(list) == old(Views(list)[k := View(obj.surface.Area(), obj.surface.buffer[..],
                Saved(display.framebuffer[..], display.wide, display.high, obj.surface.Area(), obj.behind[..]))])
      ensures display.framebuffer[..]
              == Blitted(old(display.framebuffer[..]), display.wide, obj.surface.Area(), obj.surface.buffer[..],
                  display.blend)
      ensures Lagging(display.front[..], display.framebuffer[..], display.wide, rs)
    {
      hide Saved, Blitted, Lagging, Apart, LinksSpell;
      ghost var before := Views(list);
      assert forall j :: 0 <= j < |list| && j != k ==> ObjectsApart(list[j], list[k]) && ApartFrom(list[j]);
      assert ApartFrom(list[k]);
      Paint(obj.surface, obj.behind, rs);
      forall j | 0 <= j < |list| && j != k ensures Views(list)[j] == before[j] {
      }
    }

    /** The state of the painting loop: the first k of the views vs are painted over p, and the front buffer lags
        at most under the mouse and the views still to come. */
    ghost predicate PaintedTo(p: seq<Pixel>, vs: seq<View>, k: nat)
      reads this`list, display.framebuffer, display.front, mouse`x, mouse`y
      reads set o | o in list :: o.surface, set o | o in list :: o.surface.buffer, set o | o in list :: o.behind
    {
      && display.wide > 0 && AllSized(vs) && |vs| == |list| && k <= |vs| && |p| == Times(display.high, display.wide)
      && display.framebuffer[..] == Stage(p, display.wide, vs, display.blend, k)
      && Views(list) == SavedViews(p, display.wide, display.high, vs, display.blend, k)
      && Lagging(display.front[..], display.framebuffer[..], display.wide, {mouse.Area()} + Rects(vs, k))
    }

    method PaintNext(obj: DispObject, ghost p: seq<Pixel>, ghost vs: seq<View>, ghost k: nat)
      requires Valid() && k < |list| && list[k] == obj && PaintedTo(p, vs, k)
      modifies display.framebuffer, display.front, obj.behind
      ensures PaintedTo(p, vs, k + 1)
    {
      hide Saved, Blitted, Lagging, Apart, ApartFrom, ObjectsApart, ListApart, Rects, LinksSpell, SavedViews, Stage,
           Views;
      RectsNext(vs, k, mouse.Area());
      SavedNext(p, display.wide, display.high, vs, display.blend, k);
      StageNext(p, display.wide, vs, display.blend, k);
      PaintObject(obj, k, {mouse.Area()} + Rects(vs, k + 1));
    }

    /** The loop that paints the objects in list order. */
    method PaintObjects(ghost p: seq<Pixel>, ghost vs: seq<View>)
      requires Valid() && p == display.framebuffer[..] && vs == Views(list)
      requires Lagging(display.front[..], p, display.wide, {mouse.Area()} + Rects(vs, 0))
      modifies display.framebuffer, display.front, set o | o in list :: o.behind
      ensures PaintedTo(p, vs, |list|)
    {
      hide PaintedTo, Apart, ApartFrom, ObjectsApart, ListApart, Lagging, Views, Rects;
      StartPainting(p, vs);
      var obj := children;
      ghost var k := 0;
      while obj != null
        invariant 0 <= k <= |list| && obj == At(list, k)
        invariant PaintedTo(p, vs, k)
        decreases |list| - k
      {
        PaintNext(obj, p, vs, k);
        obj := obj.next;
        k := k + 1;
      }
    }

    lemma StartPainting(p: seq<Pixel>, vs: seq<View>)
      requires Valid() && p == display.framebuffer[..] && vs == Views(list)
      requires Lagging(display.front[..], p, display.wide, {mouse.Area()} + Rects(vs, 0))
      ensures PaintedTo(p, vs, 0)
    {
      hide Lagging, Rects;
      SizedViews();
      SavedNone(p, display.wide, display.high, vs, display.blend);
    }

    // ----- Lifting everything

    ghost predicate LiftedTo(p: seq<Pixel>, vs: seq<View>, rs: set<Rect>, k: nat)
      reads this`list, display.framebuffer, display.front
      reads set o | o in list :: o.surface, set o | o in list :: o.surface.buffer, set o | o in list :: o.behind
    {
      && display.wide > 0 && AllSized(vs) && |vs| == |list| && k <= |vs| && |p| == Times(display.high, display.wide)
      && display.framebuffer[..] == Cleared(p, display.wide, vs, k)
      && Views(list) == vs
      && Lagging(display.front[..], display.framebuffer[..], display.wide, rs)
    }

    lemma StartLifting(p: seq<Pixel>, vs: seq<View>, rs: set<Rect>, rs': set<Rect>)
      requires Valid() && p == display.framebuffer[..] && vs == Views(list)
      requires Lagging(display.front[..], p, display.wide, rs) && rs <= rs'
      ensures LiftedTo(p, vs, rs', 0)
    {
      hide Lagging;
      SizedViews();
      LagMore(display.front[..], p, display.wide, rs, rs');
    }

    /** The objects' pixels and save buffers do not share memory with the display. */
    lemma ObjectApart(k: nat)
      requires Valid() && k < |list|
      ensures ApartFrom(list[k])
    {
    }

    /** Restoring one object leaves the views as they are. */
    method LiftNext(obj: DispObject, ghost p: seq<Pixel>, ghost vs: seq<View>, ghost rs: set<Rect>, ghost k: nat)
      requires Valid() && k < |list| && list[k] == obj && LiftedTo(p, vs, rs, k)
      modifies display.framebuffer
      ensures LiftedTo(p, vs, rs + {vs[k].r}, k + 1)
    {
      hide Restored, Lagging, Apart, ObjectsApart, LinksSpell;
      ObjectApart(k);
      Lift(obj.surface, obj.behind, rs);
      ViewsKept(vs);
    }

    /** Objects do not share memory with the display, so what is painted there does not change them. */
    twostate lemma ViewsKept(vs: seq<View>)
      requires old(Valid()) && list == old(list) && old(Views(list)) == vs
      requires forall o :: o in list ==> unchanged(o.surface) && unchanged(o.surface.buffer) && unchanged(o.behind)
      ensures Views(list) == vs
    {
    }

    /** The redraw's loop: restore every object, committing nothing. */
    method LiftObjects(ghost p: seq<Pixel>, ghost vs: seq<View>, ghost rs: set<Rect>)
      requires Valid() && p == display.framebuffer[..] && vs == Views(list)
      requires Lagging(display.front[..], p, display.wide, rs)
      modifies display.framebuffer
      ensures LiftedTo(p, vs, rs + Rects(vs, 0), |list|)
    {
      hide LiftedTo, Apart, ApartFrom, ObjectsApart, ListApart, Lagging, Rects, Views;
      ghost var all := rs + Rects(vs, 0);
      StartLifting(p, vs, rs, all);
      var obj := children;
      ghost var k := 0;
      while obj != null
        invariant 0 <= k <= |list| && obj == At(list, k)
        invariant LiftedTo(p, vs, all, k)
        decreases |list| - k
      {
        LiftNext(obj, p, vs, all, k);
        RectIn(vs, k);
        assert all + {vs[k].r} == all;
        obj := obj.next;
        k := k + 1;
      }
    }

    /** The move's loop: restore every object and commit its place at once. */
    method LiftAndCommitObjects(ghost p: seq<Pixel>, ghost vs: seq<View>, ghost rs: set<Rect>)
      requires Valid() && p == display.framebuffer[..] && vs == Views(list)
      requires Lagging(display.front[..], p, display.wide, rs)
      modifies display.framebuffer, display.front
      ensures LiftedTo(p, vs, rs, |list|)
    {
      hide LiftedTo, Apart, ApartFrom, ObjectsApart, ListApart, Lagging, Rects, Views;
      StartLifting(p, vs, rs, rs);
      var obj := children;
      ghost var k := 0;
      while obj != null
        invariant 0 <= k <= |list| && obj == At(list, k)
        invariant LiftedTo(p, vs, rs, k)
        decreases |list| - k
      {
        LiftNext(obj, p, vs, rs, k);
        CommitNext(obj, p, vs, rs, k);
        obj := obj.next;
        k := k + 1;
      }
    }

    method CommitNext(obj: DispObject, ghost p: seq<Pixel>, ghost vs: seq<View>, ghost rs: set<Rect>, ghost k: nat)
      requires Valid() && k < |list| && list[k] == obj && k < |vs| && LiftedTo(p, vs, rs + {vs[k].r}, k + 1)
      modifies display.front
      ensures LiftedTo(p, vs, rs, k + 1)
    {
      hide Cleared, Lagging, Apart, ObjectsApart, LinksSpell;
      ObjectApart(k);
      Commit(obj.surface.Area(), rs);
      ViewsKept(vs);
    }

    // ----- The mouse, and whole repaints

    /** Paint the mouse over the painted objects: the picture is complete and the front buffer shows it. */
    method PaintMouse(ghost p: seq<Pixel>, ghost vs: seq<View>)
      requires Valid() && PaintedTo(p, vs, |list|)
      modifies display.framebuffer, display.front, mouseSave
      ensures |p| == Times(display.high, display.wide) && AllSized(vs) && ViewOf(mouse, mouseSave).Sized()
      ensures Shown() == Painted(p, display.wide, display.high, vs, old(ViewOf(mouse, mouseSave)), display.blend)
      ensures display.front[..] == display.framebuffer[..]
    {
      hide Saved, Blitted, Lagging, ApartFrom, ObjectsApart, ListApart, Rects, LinksSpell, SavedViews, Stage, Views;
      RectsNone(vs, mouse.Area());
      assert {mouse.Area()} == {} + {mouse.Area()};
      label before:
      ghost var shown := Views(list);
      Paint(mouse, mouseSave, {});
      InStep(display.front[..], display.framebuffer[..], display.wide);
      MouseApart();
      ViewsKept@before(shown);
    }

    lemma MouseApart()
      requires Valid()
      ensures forall o :: o in list ==>
                && o.surface != mouse && o.surface.buffer != display.framebuffer && o.surface.buffer != display.front
                && o.surface.buffer != mouseSave && o.behind != display.framebuffer && o.behind != display.front &&
                   o.behind != mouseSave
                && o.behind != mouse.buffer
    {
      forall o | o in list
        ensures ApartFrom(o)
      {
      }
    }

    /** Paint every object, commit the union's place if there is one, and paint the mouse. */
    method Repaint(moved: bool, union: Rect, ghost p: seq<Pixel>, ghost vs: seq<View>)
      requires Valid() && p == display.framebuffer[..] && vs == Views(list)
      requires Lagging(display.front[..], p, display.wide, {mouse.Area()} + Rects(vs, 0))
      modifies display.framebuffer, display.front, mouseSave, set o | o in list :: o.behind
      ensures |p| == Times(display.high, display.wide) && AllSized(vs) && old(ViewOf(mouse, mouseSave)).Sized()
      ensures Shown() == Painted(p, display.wide, display.high, vs, old(ViewOf(mouse, mouseSave)), display.blend)
      ensures display.front[..] == display.framebuffer[..]
    {
      hide Lagging, ApartFrom, ObjectsApart, ListApart, Rects, LinksSpell, Views, Painted, PaintedTo;
      SizedViews();
      MouseApart();
      ghost var m := ViewOf(mouse, mouseSave);
      PaintObjects(p, vs);
      assert ViewOf(mouse, mouseSave) == m;
      if moved {
        CommitUnion(union, p, vs);
        assert ViewOf(mouse, mouseSave) == m;
      }
      PaintMouse(p, vs);
    }

    /** The redraw of WM_2_PrimaryProc, after the objects have drawn their contents. */
    method Redraw()
      requires Valid() && display.front[..] == display.framebuffer[..]
      modifies display.framebuffer, display.front, mouseSave, set o | o in list :: o.behind
      ensures Valid() && old(Shown()).Valid() && Shown() == Redrawn(old(Shown()), display.blend)
      ensures display.front[..] == display.framebuffer[..]
    {
      hide Lagging, ApartFrom, ObjectsApart, ListApart, Rects, LinksSpell, Restored, Cleared, Views, Painted;
      hide LiftedTo, PaintedTo, Bare, Lagging, Rects, SavedViews, Stage;
      SizedViews();
      ghost var s := Shown();
      ghost var vs := Views(list);
      LiftForRedraw(vs);
      ghost var bare := display.framebuffer[..];
      Repaint(false, Rect(0, 0, 0, 0), bare, vs);
      assert Redrawn(s, display.blend) == Painted(bare, display.wide, display.high, vs, s.mouse, display.blend);
    }

    /** Restore the mouse, then every object. */
    method LiftForRedraw(ghost vs: seq<View>)
      requires Valid() && display.front[..] == display.framebuffer[..] && vs == Views(list)
      modifies display.framebuffer
      ensures old(Shown()).Valid() && display.framebuffer[..] == Bare(old(Shown())) && Views(list) == vs
      ensures Lagging(display.front[..], display.framebuffer[..], display.wide, {mouse.Area()} + Rects(vs, 0))
    {
      hide Lagging, ApartFrom, ObjectsApart, ListApart, Rects, LinksSpell, Restored, Cleared, Views;
      SizedViews();
      LiftMouse(vs);
      LiftObjects(display.framebuffer[..], vs, {mouse.Area()});
    }

    /** The same, each object's place committed at once. */
    method LiftForMove(ghost vs: seq<View>)
      requires Valid() && display.front[..] == display.framebuffer[..] && vs == Views(list)
      modifies display.framebuffer, display.front
      ensures old(Shown()).Valid() && display.framebuffer[..] == Bare(old(Shown())) && Views(list) == vs
      ensures Lagging(display.front[..], display.framebuffer[..], display.wide, {mouse.Area()})
      ensures ViewOf(mouse, mouseSave) == old(ViewOf(mouse, mouseSave))
    {
      hide Lagging, ApartFrom, ObjectsApart, ListApart, Rects, LinksSpell, Restored, Cleared, Views;
      SizedViews();
      LiftMouse(vs);
      LiftAndCommitObjects(display.framebuffer[..], vs, {mouse.Area()});
    }

    /** Restore the mouse from a state in which the front buffer shows the picture. */
    method LiftMouse(ghost vs: seq<View>)
      requires Valid() && display.front[..] == display.framebuffer[..] && vs == Views(list)
      modifies display.framebuffer
      ensures ViewOf(mouse, mouseSave).Sized()
      ensures display.framebuffer[..]
              == Restored(old(display.framebuffer[..]), display.wide, mouse.Area(), mouseSave[..])
      ensures Views(list) == vs
      ensures Lagging(display.front[..], display.framebuffer[..], display.wide, {mouse.Area()})
    {
      hide Lagging, ApartFrom, ObjectsApart, ListApart, LinksSpell, Restored, Views;
      InStep(display.front[..], display.framebuffer[..], display.wide);
      assert {} + {mouse.Area()} == {mouse.Area()};
      MouseApart();
      Lift(mouse, mouseSave, {});
      ViewsKept(vs);
    }

    /** WM_2_MoveDisplayObject. */
    method WM_2_MoveDisplayObject(obj: DispObject, x: int, y: int, ghost k: nat)
      requires Valid() && display.front[..] == display.framebuffer[..] && k < |list| && list[k] == obj
      modifies display.framebuffer, display.front, mouseSave, set o | o in list :: o.behind
      modifies obj.surface`x, obj.surface`y
      ensures Valid() && old(Shown()).Valid() && |old(Shown()).views| == |list| &&
              Shown() == Moved(old(Shown()), k, x, y, display.blend)
      ensures mouse.x == old(mouse.x) && mouse.y == old(mouse.y)
      ensures display.front[..] == display.framebuffer[..]
    {
      hide Valid, Lagging, Rects, Views, ViewOf, Painted, Moved, Bare;
      SizedViews();
      ghost var s := Shown();
      LiftForMove(s.views);
      ghost var bare := display.framebuffer[..];
      var oldX, oldY := obj.surface.x, obj.surface.y;
      MoveSurface(obj, x, y, k, s.views);
      ghost var moved := s.views[k := s.views[k].At(x, y)];
      LagMore(display.front[..], bare, display.wide, {mouse.Area()}, {mouse.Area()} + Rects(moved, 0));
      Repaint(true, Union(oldX, oldY, x, y, obj.surface.w, obj.surface.h), bare, moved);
      MovedIs(s, k, x, y, display.blend);
    }

    method MoveSurface(obj: DispObject, x: int, y: int, ghost k: nat, ghost vs: seq<View>)
      requires Valid() && k < |list| && list[k] == obj && vs == Views(list)
      modifies obj.surface`x, obj.surface`y
      ensures obj.surface.x == x && obj.surface.y == y
      ensures Views(list) == vs[k := vs[k].At(x, y)]
      ensures ViewOf(mouse, mouseSave) == old(ViewOf(mouse, mouseSave)) && mouse.Area() == old(mouse.Area())
      ensures mouse.x == old(mouse.x) && mouse.y == old(mouse.y)
    {
      hide LinksSpell, Apart;
      ObjectApart(k);
      assert forall j :: 0 <= j < |list| && j != k ==> ObjectsApart(list[j], list[k]);
      obj.surface.x := x;
      obj.surface.y := y;
      forall j | 0 <= j < |list| ensures Views(list)[j] == vs[k := vs[k].At(x, y)][j] {
      }
    }

    method CommitUnion(r: Rect, ghost p: seq<Pixel>, ghost vs: seq<View>)
      requires Valid() && PaintedTo(p, vs, |list|)
      modifies display.front
      ensures PaintedTo(p, vs, |list|)
    {
      hide Lagging, ApartFrom, ObjectsApart, ListApart, Rects, LinksSpell, SavedViews, Stage, Views;
      ghost var rs := {mouse.Area()} + Rects(vs, |list|);
      LagMore(display.front[..], display.framebuffer[..], display.wide, rs, rs + {r});
      MouseApart();
      label before:
      ghost var shown := Views(list);
      Commit(r, rs);
      ViewsKept@before(shown);
    }

    /** What painting the mouse needs. */
    lemma MouseReady()
      requires Valid()
      ensures display.Valid() && Apart() && mouse.buffer.Length == mouseSave.Length == Times(mouse.h, mouse.w)
    {
    }

    /** The mouse's part of the loop: lift it, move it, paint it. */
    method MoveMouse(x: int, y: int)
      requires Valid() && display.front[..] == display.framebuffer[..]
      modifies display.framebuffer, display.front, mouseSave, mouse`x, mouse`y
      ensures Valid() && old(Shown()).Valid() && Shown() == MouseMoved(old(Shown()), x, y, display.blend)
      ensures mouse.x == x && mouse.y == y
      ensures display.front[..] == display.framebuffer[..]
    {
      hide Lagging, ApartFrom, ObjectsApart, ListApart, LinksSpell, Restored, Blitted, Saved, Views, Valid;
      MouseReady();
      SizedViews();
      MouseApart();
      ghost var s, vs := Shown(), Views(list);
      LiftMouse(vs);
      assert {mouse.Area()} == {} + {mouse.Area()};
      Commit(mouse.Area(), {});
      mouse.x := x;
      mouse.y := y;
      LagMore(display.front[..], display.framebuffer[..], display.wide, {}, {} + {mouse.Area()});
      Paint(mouse, mouseSave, {});
      InStep(display.front[..], display.framebuffer[..], display.wide);
      ViewsKept(vs);
    }

    // ----- The compositor's process

    /** The initial full draw: a black screen, saved under the mouse and committed. */
    method Start()
      requires Valid()
      modifies display.framebuffer, display.front, mouseSave
      ensures Valid() && display.front[..] == display.framebuffer[..]
      ensures old(Shown()).Valid() && Shown() == Started(old(Shown()))
    {
      hide ListApart, LinksSpell, Saved, Views;
      SizedViews();
      MouseApart();
      ghost var vs := Views(list);
      for i := 0 to display.framebuffer.Length
        invariant forall j :: 0 <= j < i ==> display.framebuffer[j] == 0
        invariant mouseSave[..] == old(mouseSave[..])
      {
        display.framebuffer[i] := 0;
      }
      assert display.framebuffer[..] == Plain(0, display.framebuffer.Length);
      SaveBackground(display, mouse, mouseSave);
      GDI2Commit(display);
      ViewsKept(vs);
    }

    static predicate Hits(surface: Surface, x: int, y: int)
      reads surface
    {
      surface.x <= x < surface.x + surface.w && surface.y <= y < surface.y + surface.h && surface.z > -1.0
    }

    ghost predicate Topmost(k: nat, x: int, y: int)
      reads this`list, set o | o in list :: o.surface
    {
      && k < |list| && Hits(list[k].surface, x, y)
      && forall j :: 0 <= j < |list| && Hits(list[j].surface, x, y) ==>
           list[j].surface.z <= list[k].surface.z && (j < k ==> list[j].surface.z < list[k].surface.z)
    }

    /** Of the objects under the point, the highest, and the first of several as high. */
    method WM_2_HitTest(x: int, y: int) returns (hit: DispObject?)
      requires Valid()
      ensures hit == null ==> forall k :: 0 <= k < |list| ==> !Hits(list[k].surface, x, y)
      ensures hit != null ==> exists k: nat :: Topmost(k, x, y) && hit == list[k]
    {
      hide ListApart, ApartFrom, ObjectsApart, Apart;
      var obj := children;
      ghost var k := 0;
      var hitZ := -1.0;
      hit := null;
      ghost var h := 0;
      while obj != null
        invariant 0 <= k <= |list| && obj == At(list, k) && hitZ >= -1.0
        invariant hit == null ==> hitZ == -1.0
        invariant hit != null ==>
                    && 0 <= h < k && hit == list[h] && Hits(list[h].surface, x, y)
                    && hitZ == list[h].surface.z
        invariant forall j :: 0 <= j < k && Hits(list[j].surface, x, y) ==>
                    hit != null && list[j].surface.z <= hitZ && (j < h ==> list[j].surface.z < hitZ)
        decreases |list| - k
      {
        var s := obj.surface;
        if s.x <= x < s.x + s.w && s.y <= y < s.y + s.h {
          if s.z > hitZ {
            hitZ := s.z;
            hit := obj;
            h := k;
          }
        }
        obj := obj.next;
        k := k + 1;
      }
    }

    /** The middle button pressed: the window under the pointer is held, and where the pointer is in it noted. */
    method Grab(mx: int, my: int)
      requires Valid() && hovered == null
      modifies this`hovered, list`mxOffset, list`myOffset
      ensures Valid() && Shown() == old(Shown())
      ensures hovered == null ==> forall k :: 0 <= k < |list| ==> !Hits(list[k].surface, mx, my)
      ensures hovered != null ==> exists k: nat :: Topmost(k, mx, my) && hovered == list[k]
      ensures hovered != null ==>
                && hovered.mxOffset == mx - hovered.surface.x
                && hovered.myOffset == my - hovered.surface.y
    {
      hide ListApart, Apart, LinksSpell, Shown, ViewOf;
      var hit := WM_2_HitTest(mx, my);
      hovered := hit;
      if hit != null {
        hit.mxOffset := mx - hit.surface.x;
        hit.myOffset := my - hit.surface.y;
      }
    }

    /** The middle button released: the held window goes where the pointer is. */
    method LetGo(mx: int, my: int, ghost k: nat)
      requires Valid() && display.front[..] == display.framebuffer[..] && k < |list| && list[k] == hovered
      modifies display.framebuffer, display.front, mouseSave, this`hovered
      modifies set o | o in list :: o.behind, (set o | o in list :: o.surface)`x, (set o | o in list :: o.surface)`y
      ensures Valid() && display.front[..] == display.framebuffer[..] && hovered == null
      ensures old(Shown()).Valid() && |old(Shown()).views| == |list|
      ensures Shown() == Moved(old(Shown()), k, mx - old(list[k].mxOffset), my - old(list[k].myOffset), display.blend)
      ensures mouse.x == old(mouse.x) && mouse.y == old(mouse.y)
    {
      hide Valid, Moved, Shown;
      MouseApart();
      var obj := hovered;
      WM_2_MoveDisplayObject(obj, mx - obj.mxOffset, my - obj.myOffset, k);
      hovered := null;
    }

    /** The held window's offsets are the pointer's place in it. */
    ghost predicate HeldAt(x: int, y: int)
      reads this`hovered, if hovered == null then {} else {hovered, hovered.surface}
    {
      hovered != null && hovered.mxOffset == x - hovered.surface.x && hovered.myOffset == y - hovered.surface.y
    }

    /** What pressing the button over a point does: it takes the highest window there, where it is. */
    ghost predicate Taken(x: int, y: int)
      reads this`hovered, this`list, list, set o | o in list :: o.surface
      reads if hovered == null then {} else {hovered, hovered.surface}
    {
      if hovered == null then forall k :: 0 <= k < |list| ==> !Hits(list[k].surface, x, y)
      else (exists k: nat :: Topmost(k, x, y) && hovered == list[k]) && HeldAt(x, y)
    }

    /** What the middle button will do in an iteration. */
    ghost function Dropping(mx: int, my: int, middle: bool, k: nat): (drop: Dropped)
      requires hovered != null ==> k < |list|
      reads this`hovered, this`list, list`mxOffset, list`myOffset
      ensures drop.Drop? <==> !middle && hovered != null
      ensures drop.Drop? ==> drop.k == k < |list|
    {
      if !middle && hovered != null then Drop(k, mx - list[k].mxOffset, my - list[k].myOffset) else NoDrop
    }

    /** The middle button: it takes hold of the window under the pointer, and lets it go where the pointer is. */
    method DragOrDrop(mx: int, my: int, middle: bool, ghost k: nat)
      requires Valid() && display.front[..] == display.framebuffer[..]
      requires hovered != null ==> k < |list| && list[k] == hovered
      modifies display.framebuffer, display.front, mouseSave, this`hovered
      modifies set o | o in list :: o.behind, (set o | o in list :: o.surface)`x, (set o | o in list :: o.surface)`y
      modifies list`mxOffset, list`myOffset
      ensures Valid() && display.front[..] == display.framebuffer[..]
      ensures old(Shown()).Valid() && |old(Shown()).views| == |list|
      ensures Shown() == AfterDrop(old(Shown()), old(Dropping(mx, my, middle, k)), display.blend)
      ensures mouse.x == old(mouse.x) && mouse.y == old(mouse.y)
      ensures hovered == null || hovered in list
      ensures !middle ==> hovered == null
      ensures middle && old(hovered) == null ==> Taken(mx, my)
      ensures middle && old(hovered) != null ==>
                && hovered == old(hovered)
                && hovered.mxOffset == old(hovered.mxOffset) && hovered.myOffset == old(hovered.myOffset)
    {
      hide Valid, Moved, Shown;
      SizedViews();
      if middle && hovered == null {
        Grab(mx, my);
      } else if !middle && hovered != null {
        LetGo(mx, my, k);
      }
    }

    /** The mouse's part of an iteration. */
    method FollowMouse(mx: int, my: int)
      requires Valid() && display.front[..] == display.framebuffer[..]
      modifies display.framebuffer, display.front, mouseSave, mouse`x, mouse`y
      ensures Valid() && display.front[..] == display.framebuffer[..]
      ensures old(Shown()).Valid() && Shown() == AfterMouse(old(Shown()), mx, my, display.blend)
      ensures mouse.x == mx && mouse.y == my
    {
      hide Valid, MouseMoved, Shown;
      SizedViews();
      if mouse.x != mx || mouse.y != my {
        MoveMouse(mx, my);
      }
    }

    /** The redraw's part of an iteration. */
    method RedrawIf(redrawn: bool)
      requires Valid() && display.front[..] == display.framebuffer[..]
      modifies display.framebuffer, display.front, mouseSave, set o | o in list :: o.behind
      ensures Valid() && display.front[..] == display.framebuffer[..]
      ensures old(Shown()).Valid() && Shown() == if redrawn then Redrawn(old(Shown()), display.blend) else old(Shown())
    {
      hide Valid, Redrawn, Shown;
      SizedViews();
      if redrawn {
        Redraw();
      }
    }

    /** One iteration of the process's loop, after the windows have drawn: what it does to the screen is at most a
        redraw, a mouse move and the drop of a dragged window, and at its end the front buffer shows the picture. */
    method Iterate(redrawn: bool, mx: int, my: int, middle: bool, ghost k: nat)
      requires Valid() && display.front[..] == display.framebuffer[..]
      requires hovered != null ==> k < |list| && list[k] == hovered
      modifies display.framebuffer, display.front, mouseSave, mouse`x, mouse`y, this`hovered
      modifies set o | o in list :: o.behind, (set o | o in list :: o.surface)`x, (set o | o in list :: o.surface)`y
      modifies list`mxOffset, list`myOffset
      ensures Valid() && display.front[..] == display.framebuffer[..]
      ensures old(Shown()).Valid() && |old(Shown()).views| == |list|
      ensures Shown() == AfterIteration(old(Shown()), redrawn, mx, my, old(Dropping(mx, my, middle, k)), display.blend)
      ensures mouse.x == mx && mouse.y == my
      ensures hovered == null || hovered in list
      ensures !middle ==> hovered == null
      ensures middle && old(hovered) == null ==> Taken(mx, my)
      ensures middle && old(hovered) != null ==>
                && hovered == old(hovered)
                && hovered.mxOffset == old(hovered.mxOffset) && hovered.myOffset == old(hovered.myOffset)
    {
      hide Valid, Redrawn, AfterMouse, AfterDrop, Shown, Dropping, Taken;
      SizedViews();
      ghost var s, drop := Shown(), Dropping(mx, my, middle, k);
      RedrawIf(redrawn);
      ghost var s1 := Shown();
      FollowMouse(mx, my);
      ghost var s2 := Shown();
      assert s2 == AfterMouse(s1, mx, my, display.blend);
      assert Dropping(mx, my, middle, k) == drop;
      DragOrDrop(mx, my, middle, k);
    }

    /** Where the windows are, and how high. */
    ghost function Places(): (rs: seq<Rect>)
      reads this`list, (set o | o in list :: o.surface)`x, (set o | o in list :: o.surface)`y
      ensures |rs| == |list| && forall j :: 0 <= j < |list| ==> rs[j] == list[j].surface.Area()
    {
      PlacesOf(list)
    }

    ghost function Heights(): (zs: seq<real>)
      reads this`list, (set o | o in list :: o.surface)`z
      ensures |zs| == |list| && forall j :: 0 <= j < |list| ==> zs[j] == list[j].surface.z
    {
      HeightsOf(list)
    }

    lemma PlacesShown()
      ensures |Places()| == |Shown().views| == |list|
      ensures forall j :: 0 <= j < |list| ==> Shown().views[j].r == Places()[j]
    {
    }

    /** One iteration without a redraw: no window moves but a dropped one. */
    method MouseTurn(mx: int, my: int, middle: bool, ghost k: nat)
      requires Valid() && display.front[..] == display.framebuffer[..]
      requires hovered != null ==> k < |list| && list[k] == hovered
      modifies display.framebuffer, display.front, mouseSave, mouse`x, mouse`y, this`hovered
      modifies set o | o in list :: o.behind, (set o | o in list :: o.surface)`x, (set o | o in list :: o.surface)`y
      modifies list`mxOffset, list`myOffset
      ensures Valid() && display.front[..] == display.framebuffer[..]
      ensures middle && old(hovered) == null ==> Taken(mx, my)
      ensures !middle ==> hovered == null
      ensures middle || old(hovered) == null ==> Places() == old(Places())
      ensures !middle && old(hovered) != null ==>
                Places() == old(Places())[k := Rect(mx - old(list[k].mxOffset), my - old(list[k].myOffset),
                                                    old(Places())[k].w, old(Places())[k].h)]
    {
      hide Valid, Shown, AfterIteration, Taken, Places;
      SizedViews();
      PlacesShown();
      ghost var s, rs, drop := Shown(), Places(), Dropping(mx, my, middle, k);
      Iterate(false, mx, my, middle, k);
      PlacesShown();
      PlacesAfter(s, mx, my, drop, display.blend, rs, Places());
    }

    /** A window taken at one place and let go at another goes as far as the pointer went; it is the highest of those
        under the pointer when it was taken, and no other window moves. */
    method DragWindow(gx: int, gy: int, mx: int, my: int) returns (ghost k: nat)
      requires Valid() && display.front[..] == display.framebuffer[..] && hovered == null
      modifies display.framebuffer, display.front, mouseSave, mouse`x, mouse`y, this`hovered
      modifies set o | o in list :: o.behind, (set o | o in list :: o.surface)`x, (set o | o in list :: o.surface)`y
      modifies list`mxOffset, list`myOffset
      ensures Valid() && display.front[..] == display.framebuffer[..] && hovered == null
      ensures Highest(old(Places()), old(Heights()), k, gx, gy)
      ensures Places() == Dragged(old(Places()), k, mx - gx, my - gy)
    {
      hide Valid, Taken, Places, Heights, Highest, Topmost;
      MouseTurn(gx, gy, true, 0);
      k := Grabbed(gx, gy);
      MouseTurn(mx, my, false, k);
    }

    /** Which window was taken. */
    ghost method Grabbed(x: int, y: int) returns (k: nat)
      requires Taken(x, y)
      ensures Highest(Places(), Heights(), k, x, y)
      ensures hovered == null ==> k >= |Places()|
      ensures hovered != null ==>
                && k < |list| && list[k] == hovered
                && list[k].mxOffset == x - Places()[k].x && list[k].myOffset == y - Places()[k].y
    {
      k := |list|;
      if hovered != null {
        k :| k < |list| && Topmost(k, x, y) && hovered == list[k];
      }
    }

    lemma SizedViews()
      requires Valid()
      ensures AllSized(Views(list)) && ViewOf(mouse, mouseSave).Sized()
      ensures display.wide > 0 &&
              display.framebuffer.Length == display.front.Length == Times(display.high, display.wide)
      ensures Shown().Valid()
    {
      forall k | 0 <= k < |list| ensures Views(list)[k].Sized() {
        assert ApartFrom(list[k]);
      }
    }
  }

  /** A dragged window let go at a place, or not. */
  datatype Dropped = NoDrop | Drop(k: nat, x: int, y: int)

  function AfterIteration(s: Screen, redrawn: bool, mx: int, my: int, drop: Dropped, blend: Blend): (t: Screen)
    requires s.Valid() && (drop.Drop? ==> drop.k < |s.views|)
    ensures t.Valid()
  {
    AfterDrop(AfterMouse(if redrawn then Redrawn(s, blend) else s, mx, my, blend), drop, blend)
  }

  function AfterDrop(s: Screen, drop: Dropped, blend: Blend): (t: Screen)
    requires s.Valid() && (drop.Drop? ==> drop.k < |s.views|)
    ensures t.Valid()
  {
    if drop.Drop? then Moved(s, drop.k, drop.x, drop.y, blend) else s
  }

  function AfterMouse(s: Screen, mx: int, my: int, blend: Blend): (t: Screen)
    requires s.Valid()
    ensures t.Valid() && |t.views| == |s.views|
  {
    if s.mouse.r.x != mx || s.mouse.r.y != my then MouseMoved(s, mx, my, blend) else s
  }

  /** What an iteration does to the windows' places: only a dropped window has a new one. */
  lemma IterationPlaces(s: Screen, redrawn: bool, mx: int, my: int, drop: Dropped, blend: Blend, j: nat)
    requires s.Valid() && (drop.Drop? ==> drop.k < |s.views|) && j < |s.views|
    ensures var t := AfterIteration(s, redrawn, mx, my, drop, blend);
            && |t.views| == |s.views|
            && t.views[j].r == if drop.Drop? && drop.k == j then Rect(drop.x, drop.y, s.views[j].r.w, s.views[j].r.h)
                               else s.views[j].r
  {
    hide Redrawn, Moved;
    var s1 := if redrawn then Redrawn(s, blend) else s;
    RedrawnPlaces(s, blend, j);
    if drop.Drop? {
      MovedPlaces(AfterMouse(s1, mx, my, blend), drop.k, drop.x, drop.y, blend, j);
    }
  }

  ghost function PlacesOf(list: seq<DispObject>): (rs: seq<Rect>)
    reads (set o | o in list :: o.surface)`x, (set o | o in list :: o.surface)`y
    ensures |rs| == |list| && forall j :: 0 <= j < |list| ==> rs[j] == list[j].surface.Area()
  {
    if list == [] then [] else PlacesOf(list[..|list| - 1]) + [list[|list| - 1].surface.Area()]
  }

  ghost function HeightsOf(list: seq<DispObject>): (zs: seq<real>)
    reads (set o | o in list :: o.surface)`z
    ensures |zs| == |list| && forall j :: 0 <= j < |list| ==> zs[j] == list[j].surface.z
  {
    if list == [] then [] else HeightsOf(list[..|list| - 1]) + [list[|list| - 1].surface.z]
  }

  /** Window k is the highest of those at this point, the first of several as high; a k past the windows says that there
      is none.  A window at -1 or below is not seen. */
  predicate Highest(rs: seq<Rect>, zs: seq<real>, k: nat, x: int, y: int)
    requires |rs| == |zs|
  {
    if k < |rs| then
      && Inside(rs[k], x, y) && zs[k] > -1.0
      && forall j :: 0 <= j < |rs| && Inside(rs[j], x, y) ==> zs[j] <= zs[k] && (j < k ==> zs[j] < zs[k])
    else forall j :: 0 <= j < |rs| ==> !(Inside(rs[j], x, y) && zs[j] > -1.0)
  }

  /** Window k, if there is one, that much further right and down. */
  function Dragged(rs: seq<Rect>, k: nat, dx: int, dy: int): seq<Rect> {
    if k < |rs| then rs[k := Rect(rs[k].x + dx, rs[k].y + dy, rs[k].w, rs[k].h)] else rs
  }

  lemma PlacesAfter(s: Screen, mx: int, my: int, drop: Dropped, blend: Blend, rs: seq<Rect>, rs': seq<Rect>)
    requires s.Valid() && (drop.Drop? ==> drop.k < |s.views|) && |rs| == |rs'| == |s.views|
    requires var t := AfterIteration(s, false, mx, my, drop, blend);
             && |t.views| == |s.views|
             && forall j :: 0 <= j < |rs| ==> s.views[j].r == rs[j] && t.views[j].r == rs'[j]
    ensures rs' == if drop.Drop? then rs[drop.k := Rect(drop.x, drop.y, rs[drop.k].w, rs[drop.k].h)] else rs
  {
    hide AfterIteration;
    forall j: nat | j < |rs|
      ensures rs'[j] == if drop.Drop? && drop.k == j then Rect(drop.x, drop.y, rs[j].w, rs[j].h) else rs[j]
    {
      IterationPlaces(s, false, mx, my, drop, blend, j);
    }
  }

  lemma MovedIs(s: Screen, k: nat, x: int, y: int, blend: Blend)
    requires s.Valid() && k < |s.views|
    ensures Moved(s, k, x, y, blend)
            == Painted(Bare(s), s.wide, s.high, s.views[k := s.views[k].At(x, y)], s.mouse, blend)
  {
  }

  /** The surface WM_2_MoveDisplayObject commits last: the lesser corner, compared as unsigned numbers, and the
      size grown by the distance. */
  function Union(x0: int, y0: int, x1: int, y1: int, w: nat, h: nat): Rect {
    Rect(MinU(x0, x1), MinU(y0, y1), w + if x1 > x0 then x1 - x0 else x0 - x1, h + if y1 > y0 then y1 - y0 else y0 - y1)
  }

  function MinU(a: int, b: int): int {
    if a % 0x1_0000_0000 < b % 0x1_0000_0000 then a else b
  }

  /** The rectangles of the views from k on. */
  ghost function Rects(vs: seq<View>, k: nat): set<Rect> {
    set j | k <= j < |vs| :: vs[j].r
  }

  lemma RectsNext(vs: seq<View>, k: nat, m: Rect)
    requires k < |vs|
    ensures {m} + Rects(vs, k) == {m} + Rects(vs, k + 1) + {vs[k].r}
  {
    assert forall r :: r in Rects(vs, k) ==> r in Rects(vs, k + 1) + {vs[k].r};
  }

  lemma RectIn(vs: seq<View>, k: nat)
    requires k < |vs|
    ensures vs[k].r in Rects(vs, 0)
  {
  }

  lemma RectsNone(vs: seq<View>, m: Rect)
    ensures {m} + Rects(vs, |vs|) == {m}
  {
  }

  lemma SavedNone(p: seq<Pixel>, wide: nat, high: nat, vs: seq<View>, blend: Blend)
    requires wide > 0 && AllSized(vs) && |p| == Times(high, wide)
    ensures SavedViews(p, wide, high, vs, blend, 0) == vs
  {
  }

  lemma StageNext(p: seq<Pixel>, wide: nat, vs: seq<View>, blend: Blend, k: nat)
    requires wide > 0 && k < |vs| && AllSized(vs)
    ensures Stage(p, wide, vs, blend, k + 1)
            == Blitted(Stage(p, wide, vs, blend, k), wide, vs[k].r, vs[k].pixels, blend)
  {
  }

  lemma SavedNext(p: seq<Pixel>, wide: nat, high: nat, vs: seq<View>, blend: Blend, k: nat)
    requires wide > 0 && AllSized(vs) && |p| == Times(high, wide) && k < |vs|
    ensures var now := SavedViews(p, wide, high, vs, blend, k);
            && now[k] == vs[k]
            && SavedViews(p, wide, high, vs, blend, k + 1)
               == now[k := View(vs[k].r, vs[k].pixels, Saved(Stage(p, wide, vs, blend, k), wide, high, vs[k].r,
                   vs[k].behind))]
  {
    hide Saved, Stage;
  }
}
