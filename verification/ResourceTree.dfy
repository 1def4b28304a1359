/** The shape of the kernel's resource tree, over a snapshot of the nodes' pointers. */
module ResourceTree {
  import opened Bytes

  /** The four pointers of a node. */
  datatype Links<R> = Links(parent: Option<R>, next: Option<R>, prev: Option<R>, first: Option<R>)

  type Heap<R> = map<R, Links<R>>
  type Kids<R> = map<R, seq<R>>
  type Levels<R> = map<R, nat>

  /** Element i of a list of siblings, or none past its end. */
  ghost function At<R>(s: seq<R>, i: nat): Option<R> {
    if i < |s| then Some(s[i]) else None
  }

  /** The links of the i-th child of n: parent and successor are exact, the back link is exact or null. */
  ghost predicate ChildOk<R>(h: Heap<R>, n: R, s: seq<R>, i: nat)
    requires i < |s|
  {
    && s[i] in h
    && h[s[i]].parent == Some(n)
    && h[s[i]].next == At(s, i + 1)
    && (h[s[i]].prev.None? || (i > 0 && h[s[i]].prev == Some(s[i - 1])))
  }

  ghost predicate Distinct<R>(s: seq<R>) {
    forall i, j :: 0 <= i < j < |s| ==> s[i] != s[j]
  }

  /** s is the list of children that n heads. */
  ghost predicate ListOk<R>(h: Heap<R>, n: R, s: seq<R>) {
    && n in h && h[n].first == At(s, 0)
    && Distinct(s)
    && (forall c :: c in s ==> c in h)
    && (forall i :: 0 <= i < |s| ==> ChildOk(h, n, s, i))
  }

  /** Every list is made of live nodes one level further from the root. */
  ghost predicate Layered<R>(root: R, kids: Kids<R>, level: Levels<R>) {
    && level.Keys == kids.Keys
    && root in kids && level[root] == 0
    && forall n :: n in kids ==> LayerOk(root, kids, level, n)
  }

  ghost predicate LayerOk<R>(root: R, kids: Kids<R>, level: Levels<R>, n: R)
    requires n in kids && level.Keys == kids.Keys
  {
    forall c :: c in kids[n] ==> c in kids && c != root && level[c] == level[n] + 1
  }

  /** Each live node is in the list of the parent it points to. */
  ghost predicate Hung<R>(h: Heap<R>, kids: Kids<R>, c: R)
    requires c in h
  {
    h[c].parent.Some? && h[c].parent.value in kids && c in kids[h[c].parent.value]
  }

  /** The pointers form the tree that kids describes: finite, acyclic, each node reached exactly once. */
  ghost predicate Tree<R>(root: R, h: Heap<R>, kids: Kids<R>, level: Levels<R>) {
    && h.Keys == kids.Keys
    && Layered(root, kids, level)
    && h[root].parent.None? && h[root].next.None? && h[root].prev.None?
    && (forall n :: n in kids ==> ListOk(h, n, kids[n]))
    && (forall c :: c in kids && c != root ==> Hung(h, kids, c))
  }

  function Without<R>(s: seq<R>, i: nat): (r: seq<R>)
    requires i < |s|
    ensures |r| == |s| - 1
    ensures forall j :: 0 <= j < |r| ==> r[j] == if j < i then s[j] else s[j + 1]
  {
    s[..i] + s[i + 1..]
  }

  // ----- Taking a node out of its list

  /** The nodes around x are in the heap. */
  ghost predicate Bounded<R>(h: Heap<R>, x: R) {
    && x in h
    && (h[x].next.Some? ==> h[x].next.value in h)
    && (h[x].prev.Some? ==> h[x].prev.value in h)
    && (h[x].parent.Some? ==> h[x].parent.value in h)
  }

  /** The pointer writes that close the gap around x. */
  ghost function Closed<R>(h: Heap<R>, x: R): (r: Heap<R>)
    requires Bounded(h, x)
    ensures r.Keys == h.Keys
  {
    var h1 := if h[x].next.None? then h else h[h[x].next.value := h[h[x].next.value].(prev := h[x].prev)];
    var h2 := if h1[x].prev.None? then h1 else h1[h1[x].prev.value := h1[h1[x].prev.value].(next := h1[x].next)];
    var p := h2[x].parent;
    if p.Some? && h2[p.value].first == Some(x) then h2[p.value := h2[p.value].(first := h2[x].next)] else h2
  }

  /** Where a listed node's pointers lead. */
  lemma ChildBounded<R>(h: Heap<R>, p: R, s: seq<R>, i: nat)
    requires ListOk(h, p, s) && i < |s| && p !in s
    ensures Bounded(h, s[i]) && h[s[i]].parent == Some(p) && h[s[i]].next == At(s, i + 1)
    ensures h[s[i]].prev.None? || (i > 0 && h[s[i]].prev == Some(s[i - 1]))
    ensures h[s[i]].next != Some(s[i]) && h[s[i]].prev != Some(s[i])
  {
    assert ChildOk(h, p, s, i);
  }

  lemma ClosedList<R>(h: Heap<R>, p: R, s: seq<R>, i: nat)
    requires ListOk(h, p, s) && i < |s| && p !in s
    requires Bounded(h, s[i]) && (h[s[i]].prev.None? ==> i == 0)
    ensures ListOk(Closed(h, s[i]), p, Without(s, i))
  {
    var x, r := s[i], Without(s, i);
    ChildBounded(h, p, s, i);
    var h' := Closed(h, x);
    forall j | 0 <= j < |r| ensures ChildOk(h', p, r, j) {
      assert ChildOk(h, p, s, if j < i then j else j + 1);
    }
    assert |s| > 1 ==> ChildOk(h, p, s, 1);
  }

  /** Nothing else changes: only the neighbours' sibling links and the parent's first child. */
  lemma ClosedElsewhere<R>(h: Heap<R>, p: R, s: seq<R>, i: nat, n: R)
    requires ListOk(h, p, s) && i < |s| && p !in s && n in h && Bounded(h, s[i])
    ensures var h' := Closed(h, s[i]);
            && h'[n].parent == h[n].parent
            && (n !in s ==> h'[n].next == h[n].next && h'[n].prev == h[n].prev)
            && (n != p ==> h'[n].first == h[n].first)
  {
    ChildBounded(h, p, s, i);
  }

  lemma OtherList<R>(h: Heap<R>, h': Heap<R>, n: R, s: seq<R>)
    requires ListOk(h, n, s) && n in h' && h'[n].first == h[n].first
    requires forall c :: c in s ==>
               && c in h && c in h' && h'[c].parent == h[c].parent && h'[c].next == h[c].next
               && h'[c].prev == h[c].prev
    ensures ListOk(h', n, s)
  {
    forall j | 0 <= j < |s| ensures ChildOk(h', n, s, j) {
      assert ChildOk(h, n, s, j);
      assert s[j] in s;
    }
  }

  /** A node's list cannot hold the node itself, nor the root. */
  lemma NotOwnChild<R>(root: R, h: Heap<R>, kids: Kids<R>, level: Levels<R>, p: R)
    requires Tree(root, h, kids, level) && p in kids
    ensures p !in kids[p] && root !in kids[p]
  {
    hide ListOk, Hung;
    assert LayerOk(root, kids, level, p);
  }

  /** Lists of different nodes share no child. */
  lemma ListsApart<R>(root: R, h: Heap<R>, kids: Kids<R>, level: Levels<R>, n: R, m: R, c: R)
    requires Tree(root, h, kids, level) && n in kids && m in kids && c in kids[n] && c in kids[m]
    ensures n == m
  {
    hide LayerOk, Hung;
    var i :| 0 <= i < |kids[n]| && kids[n][i] == c;
    var j :| 0 <= j < |kids[m]| && kids[m][j] == c;
    assert ListOk(h, n, kids[n]) && ListOk(h, m, kids[m]);
    assert ChildOk(h, n, kids[n], i) && ChildOk(h, m, kids[m], j);
  }

  ghost function KidsWithout<R>(kids: Kids<R>, x: R, p: R, i: nat): (r: Kids<R>)
    requires p in kids && i < |kids[p]|
    ensures r.Keys == kids.Keys - {x} + {p}
  {
    (kids - {x})[p := Without(kids[p], i)]
  }

  /** Closing the gap around a leaf leaves the tree without that leaf. */
  lemma ClosedTree<R>(root: R, h: Heap<R>, kids: Kids<R>, level: Levels<R>, p: R, i: nat, x: R)
    requires Tree(root, h, kids, level) && p in kids && i < |kids[p]| && kids[p][i] == x
    requires x in kids && kids[x] == []
    requires x in h && (h[x].prev.None? ==> i == 0)
    ensures Bounded(h, x)
    ensures Tree(root, Closed(h, x) - {x}, KidsWithout(kids, x, p, i), level - {x})
  {
    hide ListOk, LayerOk, Hung, Closed;
    NotOwnChild(root, h, kids, level, p);
    assert ListOk(h, p, kids[p]);
    ChildBounded(h, p, kids[p], i);
    assert x in kids[p];
    var h', kids', level' := Closed(h, x) - {x}, KidsWithout(kids, x, p, i), level - {x};
    ClosedElsewhere(h, p, kids[p], i, root);
    forall n | n in kids' ensures ListOk(h', n, kids'[n]) && LayerOk(root, kids', level', n) {
      LayerWithout(root, h, kids, level, p, i, x, n);
      if n == p {
        ShortenedList(root, h, kids, level, p, i, x);
      } else {
        UntouchedList(root, h, kids, level, p, i, x, n);
      }
    }
    forall c | c in kids' && c != root ensures Hung(h', kids', c) {
      StillHung(root, h, kids, level, p, i, x, c);
    }
  }

  lemma LayerWithout<R>(root: R, h: Heap<R>, kids: Kids<R>, level: Levels<R>, p: R, i: nat, x: R, n: R)
    requires Tree(root, h, kids, level) && p in kids && i < |kids[p]| && kids[p][i] == x
    requires x in kids && n in kids && n != x
    ensures (level - {x}).Keys == KidsWithout(kids, x, p, i).Keys
    ensures LayerOk(root, KidsWithout(kids, x, p, i), level - {x}, n)
  {
    hide ChildOk, Closed, Hung;
    NotOwnChild(root, h, kids, level, p);
    assert LayerOk(root, kids, level, n) && ListOk(h, p, kids[p]);
    WithoutMembers(kids[p], i);
    if n != p && x in kids[n] {
      ListsApart(root, h, kids, level, n, p, x);
    }
  }

  lemma ShortenedList<R>(root: R, h: Heap<R>, kids: Kids<R>, level: Levels<R>, p: R, i: nat, x: R)
    requires Tree(root, h, kids, level) && p in kids && i < |kids[p]| && kids[p][i] == x
    requires x in kids && Bounded(h, x) && (h[x].prev.None? ==> i == 0)
    ensures ListOk(Closed(h, x) - {x}, p, Without(kids[p], i))
  {
    var s := kids[p];
    NotOwnChild(root, h, kids, level, p);
    assert ListOk(h, p, s);
    ClosedList(h, p, s, i);
    WithoutMembers(s, i);
    hide ChildOk, Closed, Distinct, Hung, LayerOk;
    OtherList(Closed(h, x), Closed(h, x) - {x}, p, Without(s, i));
  }

  lemma StillHung<R>(root: R, h: Heap<R>, kids: Kids<R>, level: Levels<R>, p: R, i: nat, x: R, c: R)
    requires Tree(root, h, kids, level) && p in kids && i < |kids[p]| && kids[p][i] == x
    requires Bounded(h, x) && c in kids && c != root && c != x && x in kids && kids[x] == []
    ensures Hung(Closed(h, x) - {x}, KidsWithout(kids, x, p, i), c)
  {
    NotOwnChild(root, h, kids, level, p);
    ClosedElsewhere(h, p, kids[p], i, c);
    assert ListOk(h, p, kids[p]);
    WithoutMembers(kids[p], i);
    hide ListOk, LayerOk, Closed;
    assert Hung(h, kids, c);
  }

  lemma WithoutMembers<R>(s: seq<R>, i: nat)
    requires i < |s| && Distinct(s)
    ensures forall c :: c in Without(s, i) <==> c in s && c != s[i]
  {
    var r := Without(s, i);
    forall c | c in s && c != s[i] ensures c in r {
      var j :| 0 <= j < |s| && s[j] == c;
      assert r[if j < i then j else j - 1] == c;
    }
  }

  lemma UntouchedList<R>(root: R, h: Heap<R>, kids: Kids<R>, level: Levels<R>, p: R, i: nat, x: R, n: R)
    requires Tree(root, h, kids, level) && p in kids && i < |kids[p]| && kids[p][i] == x
    requires Bounded(h, x) && n in kids && n != p && n != x && x in kids
    ensures ListOk(Closed(h, x) - {x}, n, kids[n])
  {
    hide ChildOk, Closed, Distinct, Hung, LayerOk;
    var s := kids[p];
    NotOwnChild(root, h, kids, level, p);
    assert x in s;
    ClosedElsewhere(h, p, s, i, n);
    forall c | c in kids[n]
      ensures c in h && c != x && Closed(h, x)[c].parent == h[c].parent && Closed(h, x)[c].next == h[c].next &&
              Closed(h, x)[c].prev == h[c].prev
    {
      if c in s {
        ListsApart(root, h, kids, level, n, p, c);
      }
      ClosedElsewhere(h, p, s, i, c);
    }
    OtherList(h, Closed(h, x) - {x}, n, kids[n]);
  }

  // ----- Putting a node at the front of a list

  /** The pointer writes that put x in front of p's children.  `back` says whether the old head is told. */
  ghost function Pushed<R>(h: Heap<R>, p: R, x: R, back: bool): (r: Heap<R>)
    requires p in h && (h[p].first.Some? ==> h[p].first.value in h)
    ensures r.Keys == h.Keys + {x}
  {
    var head := h[p].first;
    var h1 := h[x := Links(Some(p), head, None, None)];
    var h2 := if back && head.Some? then h1[head.value := h1[head.value].(prev := Some(x))] else h1;
    h2[p := h2[p].(first := Some(x))]
  }

  lemma PushedList<R>(h: Heap<R>, p: R, s: seq<R>, x: R, back: bool)
    requires ListOk(h, p, s) && p !in s && x !in h
    ensures h[p].first.Some? ==> h[p].first.value in h
    ensures ListOk(Pushed(h, p, x, back), p, [x] + s)
  {
    var r, h' := [x] + s, Pushed(h, p, x, back);
    forall j | 0 <= j < |r| ensures ChildOk(h', p, r, j) {
      if j > 0 {
        assert ChildOk(h, p, s, j - 1);
        assert r[j] == s[j - 1];
      }
    }
  }

  lemma PushedTree<R>(root: R, h: Heap<R>, kids: Kids<R>, level: Levels<R>, p: R, x: R, back: bool)
    requires Tree(root, h, kids, level) && p in kids && x !in kids
    ensures h[p].first.Some? ==> h[p].first.value in h
    ensures Tree(root, Pushed(h, p, x, back), KidsWith(kids, x, p), level[x := level[p] + 1])
  {
    hide ListOk, LayerOk, Hung, Pushed;
    NotOwnChild(root, h, kids, level, p);
    assert ListOk(h, p, kids[p]);
    PushedList(h, p, kids[p], x, back);
    var h', kids', level' := Pushed(h, p, x, back), KidsWith(kids, x, p), level[x := level[p] + 1];
    PushedElsewhere(h, p, kids[p], x, back, root);
    forall n | n in kids' ensures ListOk(h', n, kids'[n]) {
      PushedLists(root, h, kids, level, p, x, back, n);
    }
    forall n | n in kids' ensures LayerOk(root, kids', level', n) {
      PushedLayer(root, h, kids, level, p, x, n);
    }
    forall c | c in kids' && c != root ensures Hung(h', kids', c) {
      PushedHung(root, h, kids, level, p, x, back, c);
    }
  }

  ghost function KidsWith<R>(kids: Kids<R>, x: R, p: R): (r: Kids<R>)
    requires p in kids
    ensures r.Keys == kids.Keys + {x}
  {
    kids[x := []][p := [x] + kids[p]]
  }

  lemma PushedElsewhere<R>(h: Heap<R>, p: R, s: seq<R>, x: R, back: bool, n: R)
    requires ListOk(h, p, s) && x !in h && n in h
    ensures h[p].first.Some? ==> h[p].first.value in h
    ensures var h' := Pushed(h, p, x, back);
            && h'[n].parent == h[n].parent
            && (n !in s ==> h'[n].next == h[n].next && h'[n].prev == h[n].prev)
            && (n != p ==> h'[n].first == h[n].first)
  {
  }

  lemma PushedLists<R>(root: R, h: Heap<R>, kids: Kids<R>, level: Levels<R>, p: R, x: R, back: bool, n: R)
    requires Tree(root, h, kids, level) && p in kids && x !in kids && (n in kids || n == x)
    requires h[p].first.Some? ==> h[p].first.value in h
    ensures ListOk(Pushed(h, p, x, back), n, KidsWith(kids, x, p)[n])
  {
    var s := kids[p];
    hide ChildOk, Distinct, Hung, LayerOk;
    NotOwnChild(root, h, kids, level, p);
    assert ListOk(h, p, s);
    PushedList(h, p, s, x, back);
    if n == x {
      EmptyList(Pushed(h, p, x, back), x);
    } else if n != p {
      assert ListOk(h, n, kids[n]);
      forall c | c in kids[n] ensures c !in s {
        if c in s {
          ListsApart(root, h, kids, level, n, p, c);
        }
      }
      OtherList(h, Pushed(h, p, x, back), n, kids[n]);
    }
  }

  lemma PushedLayer<R>(root: R, h: Heap<R>, kids: Kids<R>, level: Levels<R>, p: R, x: R, n: R)
    requires Tree(root, h, kids, level) && p in kids && x !in kids && (n in kids || n == x)
    ensures LayerOk(root, KidsWith(kids, x, p), level[x := level[p] + 1], n)
  {
    hide Hung, ListOk;
    assert LayerOk(root, kids, level, p);
    assert n in kids ==> LayerOk(root, kids, level, n);
  }

  lemma EmptyList<R>(h: Heap<R>, x: R)
    requires x in h && h[x].first.None?
    ensures ListOk(h, x, [])
  {
  }

  lemma PushedHung<R>(root: R, h: Heap<R>, kids: Kids<R>, level: Levels<R>, p: R, x: R, back: bool, c: R)
    requires Tree(root, h, kids, level) && p in kids && x !in kids && (c in kids || c == x) && c != root
    requires h[p].first.Some? ==> h[p].first.value in h
    ensures Hung(Pushed(h, p, x, back), KidsWith(kids, x, p), c)
  {
    hide ListOk, LayerOk;
    if c != x {
      assert Hung(h, kids, c);
    }
  }

  /** The pointer writes of a whole move, and the lists they leave. */
  ghost predicate Movable<R>(root: R, h: Heap<R>, x: R) {
    && Bounded(h, x)
    && var h1 := Closed(h, x) - {x};
    root in h1 && (h1[root].first.Some? ==> h1[root].first.value in h1)
  }

  ghost function MovedHeap<R>(root: R, h: Heap<R>, x: R): Heap<R>
    requires Movable(root, h, x)
  {
    Pushed(Closed(h, x) - {x}, root, x, false)
  }

  ghost function MovedKids<R>(root: R, kids: Kids<R>, x: R, p: R, i: nat): Kids<R>
    requires p in kids && i < |kids[p]| && root in KidsWithout(kids, x, p, i)
  {
    KidsWith(KidsWithout(kids, x, p, i), x, root)
  }

  /** Taking a leaf out and putting it in front of the root's list keeps the tree. */
  lemma MovedTree<R>(root: R, h: Heap<R>, kids: Kids<R>, level: Levels<R>, p: R, i: nat, x: R)
    requires Tree(root, h, kids, level) && p in kids && i < |kids[p]| && kids[p][i] == x
    requires x in kids && kids[x] == [] && x != root
    requires x in h && (h[x].prev.None? ==> i == 0)
    ensures Movable(root, h, x)
    ensures root in KidsWithout(kids, x, p, i)
    ensures Tree(root, MovedHeap(root, h, x), MovedKids(root, kids, x, p, i), level[x := 1])
    ensures MovedKids(root, kids, x, p, i).Keys == kids.Keys
  {
    hide ListOk, LayerOk, Hung, Closed, Pushed;
    NotOwnChild(root, h, kids, level, p);
    assert x in kids[p];
    ClosedTree(root, h, kids, level, p, i, x);
    var h1, level1 := Closed(h, x) - {x}, level - {x};
    PushedTree(root, h1, KidsWithout(kids, x, p, i), level1, root, x, false);
    assert level1[x := level1[root] + 1] == level[x := 1];
  }

  // ----- Depth

  /** n is reached from a by exactly d child steps. */
  ghost predicate Under<R>(kids: Kids<R>, a: R, n: R, d: nat) {
    if d == 0 then n == a
    else a in kids && exists c :: c in kids[a] && Under(kids, c, n, d - 1)
  }

  lemma {:induction false} UnderLevel<R>(root: R, kids: Kids<R>, level: Levels<R>, a: R, n: R, d: nat)
    requires Layered(root, kids, level) && a in kids && Under(kids, a, n, d)
    ensures n in kids && level[n] == level[a] + d
    ensures d > 0 ==> n != root
  {
    if d > 0 {
      var c :| c in kids[a] && Under(kids, c, n, d - 1);
      assert LayerOk(root, kids, level, a);
      UnderLevel(root, kids, level, c, n, d - 1);
    }
  }

  lemma {:induction false} UnderSnoc<R>(kids: Kids<R>, a: R, p: R, c: R, d: nat)
    requires Under(kids, a, p, d) && p in kids && c in kids[p]
    ensures Under(kids, a, c, d + 1)
  {
    if d == 0 {
      assert Under(kids, c, c, 0);
    } else {
      var m :| m in kids[a] && Under(kids, m, p, d - 1);
      UnderSnoc(kids, m, p, c, d - 1);
    }
  }

  /** Every live node is reached from the root in as many steps as its level says. */
  lemma {:induction false} Reached<R>(root: R, h: Heap<R>, kids: Kids<R>, level: Levels<R>, n: R)
    requires Tree(root, h, kids, level) && n in kids
    ensures Under(kids, root, n, level[n])
    ensures n != root ==> level[n] > 0
    decreases level[n]
  {
    hide ListOk;
    if n != root {
      assert Hung(h, kids, n);
      var p := h[n].parent.value;
      assert LayerOk(root, kids, level, p);
      Reached(root, h, kids, level, p);
      UnderSnoc(kids, root, p, n, level[p]);
    }
  }
}
