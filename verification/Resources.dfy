/** The kernel's resource manager: the operations that create, move, release and find resources. */
module Resources {
  import opened Bytes
  import opened ResourceTree

  const MAX_RESOURCE_DEPTH := 32
  const INVALID_RID := 0xFFFF_FFFF
  const KERNEL: nat := 0

  /** The calls a process makes, by identifier. */
  datatype Call = CreateCall(parent: nat, size: nat, region: Option<nat>, room: bool, owner: nat)
                | UnlinkCall(rid: nat) | ReleaseCall(rid: nat)
                | HandoverCall(rid: nat, dest: nat)

  /** A call, the process that makes it, and the processes alive at that time. */
  datatype Request = Request(call: Call, self: nat, alive: set<nat>)

  datatype Result =
    | Ok | FailedToMap | FailedToAllocate | InvalidArguments | PermissionsError | HasChildren | AlreadyUnlinked
    | Corrupted | NoOperation | ArgumentDoesNotExist

  class Resource {
    var parent: Resource?
    var nextSibling: Resource?
    var previousSibling: Resource?
    var firstChild: Resource?
    var region: nat
    var owner: nat
    var used: bool
    var onHeap: bool
    var rid: nat

    constructor (region: nat, owner: nat, rid: nat)
      ensures parent == null && nextSibling == null && previousSibling == null && firstChild == null
      ensures this.region == region && this.owner == owner && used && onHeap && this.rid == rid
    {
      parent, nextSibling, previousSibling, firstChild := null, null, null, null;
      this.region, this.owner, this.rid := region, owner, rid;
      used, onHeap := true, true;
    }
  }

  function Opt(r: Resource?): (o: Option<Resource>) {
    if r == null then None else Some(r)
  }

  ghost function Just(r: Resource?): set<Resource> {
    if r == null then {} else {r}
  }

  ghost function LinksOf(n: Resource): Links<Resource>
    reads n`parent, n`nextSibling, n`previousSibling, n`firstChild
  {
    Links(Opt(n.parent), Opt(n.nextSibling), Opt(n.previousSibling), Opt(n.firstChild))
  }

  ghost function Snapshot(nodes: set<Resource>): (h: Heap<Resource>)
    reads nodes`parent, nodes`nextSibling, nodes`previousSibling, nodes`firstChild
    ensures h.Keys == nodes
  {
    map n | n in nodes :: LinksOf(n)
  }

  lemma SnapshotAt(nodes: set<Resource>, x: Resource)
    requires x in nodes
    ensures x in Snapshot(nodes) && Snapshot(nodes)[x] == LinksOf(x)
  {
  }

  lemma SnapshotLess(nodes: set<Resource>, x: Resource)
    ensures Snapshot(nodes - {x}) == Snapshot(nodes) - {x}
  {
  }

  // One pointer write each, and its effect on the snapshot.

  method SetPrevious(n: Resource, v: Resource?, ghost nodes: set<Resource>)
    requires n in nodes
    modifies n`previousSibling
    ensures n.previousSibling == v
    ensures n in old(Snapshot(nodes)) &&
            Snapshot(nodes) == old(Snapshot(nodes))[n := old(Snapshot(nodes))[n].(prev := Opt(v))]
  {
    n.previousSibling := v;
  }

  method SetNext(n: Resource, v: Resource?, ghost nodes: set<Resource>)
    requires n in nodes
    modifies n`nextSibling
    ensures n in old(Snapshot(nodes)) &&
            Snapshot(nodes) == old(Snapshot(nodes))[n := old(Snapshot(nodes))[n].(next := Opt(v))]
  {
    n.nextSibling := v;
  }

  method SetFirst(n: Resource, v: Resource?, ghost nodes: set<Resource>)
    requires n in nodes
    modifies n`firstChild
    ensures n in old(Snapshot(nodes)) &&
            Snapshot(nodes) == old(Snapshot(nodes))[n := old(Snapshot(nodes))[n].(first := Opt(v))]
  {
    n.firstChild := v;
  }

  /** The writes that close the gap x leaves among its siblings. */
  method CloseGap(x: Resource, ghost nodes: set<Resource>)
    requires x in nodes && Bounded(Snapshot(nodes), x)
    requires x.nextSibling != x && x.previousSibling != x && x.parent != x
    modifies nodes`nextSibling, nodes`previousSibling, nodes`firstChild
    ensures Snapshot(nodes) == Closed(old(Snapshot(nodes)), x)
    ensures LinksOf(x) == old(LinksOf(x))
    ensures forall n :: n in nodes && n != old(x.nextSibling) ==> n.previousSibling == old(n.previousSibling)
  {
    hide Snapshot;
    SnapshotAt(nodes, x);
    if x.nextSibling != null {
      SetPrevious(x.nextSibling, x.previousSibling, nodes);
    }
    if x.previousSibling != null {
      SetNext(x.previousSibling, x.nextSibling, nodes);
    }
    if x.parent != null {
      SnapshotAt(nodes, x.parent);
      if x.parent.firstChild == x {
        SetFirst(x.parent, x.nextSibling, nodes);
      }
    }
  }

  /** The three pointers of x itself, written when x becomes p's first child. */
  method Adopt(p: Resource, x: Resource, ghost nodes: set<Resource>)
    requires p in nodes && x !in nodes && x.firstChild == null
    modifies x`parent, x`nextSibling, x`previousSibling
    ensures p in old(Snapshot(nodes)) && Opt(x.nextSibling) == old(Snapshot(nodes))[p].first
    ensures Snapshot(nodes + {x}) ==
            old(Snapshot(nodes))[x := Links(Some(p), old(Snapshot(nodes))[p].first, None, None)]
  {
    x.parent := p;
    x.nextSibling := p.firstChild;
    x.previousSibling := null;
  }

  /** The writes that put x in front of p's children; only creation tells the old head. */
  method PushFront(p: Resource, x: Resource, back: bool, ghost nodes: set<Resource>)
    requires p in nodes && x !in nodes
    requires Snapshot(nodes)[p].first.Some? ==> Snapshot(nodes)[p].first.value in nodes
    requires x.firstChild == null
    modifies nodes`previousSibling, nodes`firstChild, x`parent, x`nextSibling, x`previousSibling
    ensures Snapshot(nodes + {x}) == Pushed(old(Snapshot(nodes)), p, x, back)
    ensures !back ==> forall n :: n in nodes ==> n.previousSibling == old(n.previousSibling)
  {
    hide Snapshot;
    Adopt(p, x, nodes);
    if back && x.nextSibling != null {
      SetPrevious(x.nextSibling, x, nodes + {x});
    }
    SetFirst(p, x, nodes + {x});
  }

  /** A move rewrites the back links of the node and of its old successor only: the pool's old head is
      not told that it has a predecessor now. */
  twostate predicate BackLinksKept(nodes: set<Resource>, x: Resource)
    reads nodes`previousSibling
  {
    forall n :: n in nodes && n != x && n != old(x.nextSibling) ==> n.previousSibling == old(n.previousSibling)
  }

  /** The pointer writes that take x out of its list and put it in front of the root's. */
  method MovePointers(root: Resource, x: Resource, ghost nodes: set<Resource>)
    requires Movable(root, Snapshot(nodes), x) && root != x
    requires x.nextSibling != x && x.previousSibling != x && x.parent != x && x.firstChild == null
    modifies nodes`parent, nodes`nextSibling, nodes`previousSibling, nodes`firstChild
    ensures Snapshot(nodes) == MovedHeap(root, old(Snapshot(nodes)), x)
    ensures BackLinksKept(nodes, x)
  {
    hide Closed, Pushed, Snapshot;
    ghost var h1 := Closed(Snapshot(nodes), x) - {x};
    CloseGap(x, nodes);
    SnapshotLess(nodes, x);
    PushFront(root, x, false, nodes - {x});
    assert nodes - {x} + {x} == nodes;
  }

  /** Identifiers were handed out below counter, each once. */
  ghost predicate RidsOk(nodes: set<Resource>, counter: nat)
    reads nodes`rid
  {
    && (forall c :: c in nodes ==> c.rid < counter)
    && (forall c, c' :: c in nodes && c' in nodes && c.rid == c'.rid ==> c == c')
  }

  /** kids' is kids with x taken out of its list and put in front of the pool, the root's list. */
  ghost predicate MovedToPool(root: Resource, kids: Kids<Resource>, kids': Kids<Resource>, x: Resource) {
    exists p, i: nat :: p in kids && MovedFrom(root, kids, kids', x, p, i)
  }

  ghost predicate MovedFrom(root: Resource, kids: Kids<Resource>, kids': Kids<Resource>, x: Resource, p: Resource,
          i: nat) {
    && p in kids && i < |kids[p]| && kids[p][i] == x
    && root in KidsWithout(kids, x, p, i)
    && kids' == MovedKids(root, kids, x, p, i)
  }

  /** The lists after a move to the pool: the node stands first in the root's list and has left its own; the other
      nodes keep their order there, and no other list changes. */
  lemma MovedMeans(root: Resource, kids: Kids<Resource>, kids': Kids<Resource>, x: Resource)
    requires MovedToPool(root, kids, kids', x) && root in kids && x != root && x in kids && kids[x] == []
    ensures exists p, i: nat ::
              && p in kids && i < |kids[p]| && kids[p][i] == x
              && var rest := kids[p][..i] + kids[p][i + 1..];
              if p == root then kids' == kids[root := [x] + rest]
              else kids' == kids[p := rest][root := [x] + kids[root]]
  {
    var p, i: nat :| p in kids && MovedFrom(root, kids, kids', x, p, i);
    var rest := kids[p][..i] + kids[p][i + 1..];
    assert Without(kids[p], i) == rest;
    if p == root {
      assert kids' == kids[root := [x] + rest];
    } else {
      assert p != x;
      assert kids' == kids[p := rest][root := [x] + kids[root]];
    }
  }

  class ResourceManager {
    const root: Resource
    const heapEnd: nat
    var counter: nat
    ghost var kids: Kids<Resource>
    ghost var level: Levels<Resource>

    ghost predicate Valid()
      reads this, kids.Keys
      ensures Valid() ==> level.Keys == kids.Keys && root in kids
    {
      && Tree(root, Snapshot(kids.Keys), kids, level)
      && RidsOk(kids.Keys - {root}, counter)
    }

    constructor (heapEnd: nat)
      ensures Valid() && fresh(root)
      ensures kids == map[root := []] && counter == 0 && this.heapEnd == heapEnd
    {
      root := new Resource(0, 0, 0);
      this.heapEnd, counter := heapEnd, 0;
      new;
      kids, level := map[root := []], map[root := 0];
    }

    // ----- The answers, as functions of the state before the call

    /** Why an unlink is refused, in the order of the checks.  The last check meets a node that is not at
        the front of its list but whose back link was never set. */
    ghost function UnlinkAnswer(x: Resource?, self: nat): Result
      reads x, if x != null then {x.parent} else {}
    {
      if x == null then InvalidArguments
      else if x.owner != self then PermissionsError
      else if x.firstChild != null then HasChildren
      else if x.parent == null && x.nextSibling == null && x.previousSibling == null then AlreadyUnlinked
      else if x.parent != null && x.parent.firstChild != x && x.previousSibling == null then Corrupted
      else Ok
    }

    /** Where a live node hangs. */
    lemma Place(x: Resource) returns (p: Resource, i: nat)
      requires Valid() && x in kids && x != root
      ensures p == x.parent && p in kids && i < |kids[p]| && kids[p][i] == x
      ensures p.firstChild == x <==> i == 0
      ensures (x.firstChild == null) == (kids[x] == [])
      ensures x.previousSibling == null || (i > 0 && x.previousSibling == kids[p][i - 1])
      ensures x != p && x.nextSibling != x && x.previousSibling != x
      ensures root in KidsWithout(kids, x, p, i)
    {
      hide LayerOk;
      var h := Snapshot(kids.Keys);
      assert Hung(h, kids, x);
      p := x.parent;
      i :| 0 <= i < |kids[p]| && kids[p][i] == x;
      NotOwnChild(root, h, kids, level, p);
      assert ListOk(h, p, kids[p]) && ListOk(h, x, kids[x]);
      assert h[p] == LinksOf(p) && h[x] == LinksOf(x);
      ChildBounded(h, p, kids[p], i);
    }

    /** Only the root has no parent, and it has no siblings; a node without children heads no list. */
    lemma LiveLinks(x: Resource)
      requires Valid() && x in kids
      ensures x == root ==> x.parent == null && x.nextSibling == null && x.previousSibling == null
      ensures (x.firstChild == null) == (kids[x] == [])
    {
      hide LayerOk, Hung;
      var h := Snapshot(kids.Keys);
      assert ListOk(h, x, kids[x]);
      assert h[x] == LinksOf(x);
    }

    /** The nodes that may be unlinked: the caller's own leaves but for the root, as long as the back link is there
        where one is needed. */
    ghost predicate Unlinkable(x: Resource, self: nat)
      reads this, x, x.parent
    {
      && x in kids && x != root && x.owner == self && kids[x] == []
      && (x.previousSibling != null || (x.parent != null && x.parent.firstChild == x))
    }

    lemma UnlinkGranted(x: Resource, self: nat)
      requires Valid() && x in kids
      ensures UnlinkAnswer(x, self) == Ok <==> Unlinkable(x, self)
    {
      LiveLinks(x);
      hide Tree, RidsOk, Snapshot;
      if x != root {
        var p, i := Place(x);
      }
    }

    method Unlink(x: Resource?, self: nat) returns (r: Result)
      requires Valid() && (x != null ==> x in kids)
      modifies this`kids, this`level, kids.Keys`parent, kids.Keys`nextSibling, kids.Keys`previousSibling,
               kids.Keys`firstChild
      ensures Valid() && kids.Keys == old(kids.Keys)
      ensures r == old(UnlinkAnswer(x, self))
      ensures r == Ok <==> x != null && old(Unlinkable(x, self))
      ensures r != Ok ==> kids == old(kids) && level == old(level) && forall n :: n in kids ==>
              LinksOf(n) == old(LinksOf(n))
      ensures r == Ok ==> MovedToPool(root, old(kids), kids, x)
      ensures r == Ok ==> level == old(level)[x := 1] && BackLinksKept(kids.Keys, x)
    {
      if x == null {
        return InvalidArguments;
      }
      LiveLinks(x);
      UnlinkGranted(x, self);
      if x.owner != self {
        return PermissionsError;
      }
      if x.firstChild != null {
        return HasChildren;
      }
      if x.parent == null && x.nextSibling == null && x.previousSibling == null {
        return AlreadyUnlinked;
      }
      if x.parent != null && x.parent.firstChild != x && x.previousSibling == null {
        return Corrupted;
      }
      Move(x);
      return Ok;
    }

    method Move(x: Resource)
      requires Valid() && x in kids && x != root && kids[x] == []
      requires x.previousSibling == null ==> x.parent != null && x.parent.firstChild == x
      modifies this`kids, this`level, kids.Keys`parent, kids.Keys`nextSibling, kids.Keys`previousSibling,
               kids.Keys`firstChild
      ensures Valid() && kids.Keys == old(kids.Keys)
      ensures MovedToPool(root, old(kids), kids, x)
      ensures level == old(level)[x := 1] && BackLinksKept(kids.Keys, x)
    {
      hide Tree, Snapshot, MovedHeap, MovedKids, KidsWithout, RidsOk, Movable;
      ghost var p, i := Place(x);
      SnapshotAt(kids.Keys, x);
      MovedTree(root, Snapshot(kids.Keys), kids, level, p, i, x);
      ghost var kids0 := kids;
      MovePointers(root, x, kids.Keys);
      kids, level := MovedKids(root, kids, x, p, i), level[x := 1];
      assert MovedFrom(root, kids0, kids, x, p, i);
    }
  
    /** Release: the same checks, then the move to the pool, then the hand-over to the kernel. */
    ghost function ReleaseAnswer(x: Resource?, self: nat): Result
      reads this, x, if x != null then {x.parent} else {}
    {
      if x == null then InvalidArguments
      else if x.owner != self then PermissionsError
      else if x.firstChild != null then HasChildren
      else if x.region > heapEnd then Corrupted
      else UnlinkAnswer(x, self)
    }

    method Release(x: Resource?, self: nat) returns (r: Result)
      requires Valid() && (x != null ==> x in kids)
      modifies this`kids, this`level, kids.Keys`parent, kids.Keys`nextSibling, kids.Keys`previousSibling,
               kids.Keys`firstChild, Just(x)`owner, Just(x)`used
      ensures Valid() && kids.Keys == old(kids.Keys)
      ensures r == old(ReleaseAnswer(x, self))
      ensures r == Ok <==> x != null && old(Unlinkable(x, self) && x.region <= heapEnd)
      ensures r != Ok ==> kids == old(kids) && level == old(level) && forall n :: n in kids ==>
              LinksOf(n) == old(LinksOf(n))
      ensures r != Ok && x != null ==> x.owner == old(x.owner) && x.used == old(x.used)
      ensures r == Ok ==>
                && MovedToPool(root, old(kids), kids, x) && level == old(level)[x := 1] && x.owner == KERNEL
                && !x.used
    {
      hide Tree, RidsOk, MovedToPool, LinksOf, Snapshot;
      if x == null {
        return InvalidArguments;
      }
      LiveLinks(x);
      UnlinkGranted(x, self);
      if x.owner != self {
        return PermissionsError;
      }
      if x.firstChild != null {
        return HasChildren;
      }
      if x.region > heapEnd {
        return Corrupted;
      }
      r := Unlink(x, self);
      if r == Ok {
        x.owner := KERNEL;
        x.used := false;
      }
    }

    ghost function HandoverAnswer(x: Resource?, self: nat, dest: nat, alive: set<nat>): Result
      reads this, x
    {
      if dest == self then NoOperation
      else if dest !in alive then ArgumentDoesNotExist
      else if x == null then InvalidArguments
      else if x.owner != self then PermissionsError
      else if x.firstChild != null then HasChildren
      else if x.region > heapEnd && x.onHeap then Corrupted
      else Ok
    }

    lemma ChildlessIs(x: Resource)
      requires Valid() && x in kids
      ensures x.firstChild == null <==> kids[x] == []
    {
      LiveLinks(x);
    }

    /** Handing over changes the owner and no pointer. */
    method Handover(x: Resource?, self: nat, dest: nat, alive: set<nat>) returns (r: Result)
      requires Valid() && (x != null ==> x in kids)
      modifies Just(x)`owner, Just(x)`used
      ensures Valid()
      ensures r == old(HandoverAnswer(x, self, dest, alive))
      ensures r == Ok <==>
                && dest != self && dest in alive && x != null && old(x.owner) == self && kids[x] == []
                && (old(x.region) <= heapEnd || !old(x.onHeap))
      ensures r != Ok && x != null ==> unchanged(x)
      ensures r == Ok ==> x.owner == dest && x.used
    {
      hide Tree, RidsOk, LinksOf, Snapshot, Layered, ListOk, Hung;
      if x != null {
        ChildlessIs(x);
      }
      if dest == self {
        return NoOperation;
      }
      if dest !in alive {
        return ArgumentDoesNotExist;
      }
      if x == null {
        return InvalidArguments;
      }
      if x.owner != self {
        return PermissionsError;
      }
      if x.firstChild != null {
        return HasChildren;
      }
      if x.region > heapEnd && x.onHeap {
        return Corrupted;
      }
      x.owner := dest;
      x.used := true;
      return Ok;
    }

    /** A new resource in front of its parent's children, or of the pool when no parent is given.  The
        data region is None when it could not be mapped, and `room` says whether the node could be allocated. */
    method Create(parent: Resource?, size: nat, region: Option<nat>, room: bool, owner: nat)
      returns (x: Resource?, r: Result)
      requires Valid() && (parent != null ==> parent in kids)
      modifies this, kids.Keys`previousSibling, kids.Keys`firstChild
      ensures Valid()
      ensures r == if size > 0 && region.None? then FailedToMap else if !room then FailedToAllocate else Ok
      ensures (x == null) == (r != Ok)
      ensures x == null ==>
                && kids == old(kids) && level == old(level) && counter == old(counter)
                && forall n :: n in kids ==> LinksOf(n) == old(LinksOf(n))
      ensures x != null ==>
                && fresh(x) && x.owner == owner && x.rid == old(counter) && counter == old(counter) + 1
                && x.used
      ensures x != null ==> var p: Resource := if parent == null then root else parent;
                            && kids == old(kids)[x := []][p := [x] + old(kids)[p]]
                            && level == old(level)[x := old(level)[p] + 1]
    {
      hide Tree, Snapshot, LinksOf, RidsOk;
      x := null;
      if size > 0 && region.None? {
        return x, FailedToMap;
      }
      if !room {
        return x, FailedToAllocate;
      }
      LiveRoot();
      var p: Resource := if parent == null then root else parent;
      var y := new Resource(if size == 0 then 0 else region.value, owner, counter);
      Attach(p, y);
      return y, Ok;
    }

    method Attach(p: Resource, y: Resource)
      requires Valid() && p in kids && level.Keys == kids.Keys
      requires y !in kids && y.firstChild == null && y.rid == counter
      modifies this`kids, this`level, this`counter, kids.Keys`previousSibling, kids.Keys`firstChild,
               y`parent, y`nextSibling, y`previousSibling
      ensures Valid() && counter == old(counter) + 1
      ensures kids == KidsWith(old(kids), y, p) && level == old(level)[y := old(level)[p] + 1]
    {
      hide Tree, Snapshot, Pushed, KidsWith, RidsOk, LinksOf;
      LiveRoot();
      ghost var nodes, kids1, level1 := kids.Keys, KidsWith(kids, y, p), level[y := level[p] + 1];
      SnapshotAt(nodes, p);
      PushedTree(root, Snapshot(nodes), kids, level, p, y, true);
      NewRid(nodes - {root}, y, counter);
      PushFront(p, y, true, nodes);
      assert kids1.Keys == nodes + {y} && kids1.Keys - {root} == nodes - {root} + {y};
      assert Tree(root, Snapshot(kids1.Keys), kids1, level1);
      Adopt(kids1, level1);
    }

    /** The tree with a new node, and the next identifier. */
    method Adopt(ghost kids1: Kids<Resource>, ghost level1: Levels<Resource>)
      requires Tree(root, Snapshot(kids1.Keys), kids1, level1) && root in kids1 &&
               RidsOk(kids1.Keys - {root}, counter + 1)
      modifies this`kids, this`level, this`counter
      ensures Valid() && counter == old(counter) + 1 && kids == kids1 && level == level1
    {
      hide Tree, RidsOk, Snapshot;
      counter := counter + 1;
      kids, level := kids1, level1;
    }

    lemma ChildLinks(base: Resource)
      requires Valid() && base in kids
      ensures Opt(base.firstChild) == At(kids[base], 0)
      ensures forall j :: 0 <= j < |kids[base]| ==> Opt(kids[base][j].nextSibling) == At(kids[base], j + 1)
    {
      hide LayerOk, Hung, RidsOk;
      var h, s := Snapshot(kids.Keys), kids[base];
      assert ListOk(h, base, s);
      assert h[base] == LinksOf(base);
      forall j | 0 <= j < |s| ensures Opt(s[j].nextSibling) == At(s, j + 1) {
        assert ChildOk(h, base, s, j);
        assert h[s[j]] == LinksOf(s[j]);
      }
    }

    lemma ChildLive(base: Resource, c: Resource)
      requires Valid() && base in kids && c in kids[base]
      ensures c in kids && c != root && c != base
    {
      hide ListOk, Hung, RidsOk;
      assert LayerOk(root, kids, level, base);
    }

    /** An identifier met on a node that may not be returned is on no other node. */
    lemma NoneAllowed(rid: nat, self: nat, override: bool, k: int, s: seq<Resource>)
      requires Valid() && Barred(rid, self, override)
      ensures MissIn(s, k, rid, self, override)
    {
      hide Tree, Under;
    }

    lemma NextMiss(c: Resource, k: int, rid: nat, self: nat, override: bool)
      requires Valid() && c in kids && c.rid != rid
      requires MissIn(kids[c], k - 1, rid, self, override)
      ensures Miss(c, k, rid, self, override)
    {
      hide Tree, RidsOk;
      forall n, d: nat | n in kids && n != root && d <= k && Under(kids, c, n, d) && n.rid == rid
        ensures !Allowed(n, self, override)
      {
        var x :| x in kids[c] && Under(kids, x, n, d - 1);
        assert Miss(x, k - 1, rid, self, override);
      }
    }

    lemma TooDeep(s: seq<Resource>, k: int, rid: nat, self: nat, override: bool)
      requires k < 0
      ensures MissIn(s, k, rid, self, override)
    {
    }

    lemma MissNext(s: seq<Resource>, i: nat, k: int, rid: nat, self: nat, override: bool)
      requires i < |s| && MissIn(s[..i], k, rid, self, override) && Miss(s[i], k, rid, self, override)
      ensures MissIn(s[..i + 1], k, rid, self, override)
      ensures i + 1 == |s| ==> s[..i + 1] == s
    {
      hide Miss;
    }

    lemma MissNone(s: seq<Resource>, k: int, rid: nat, self: nat, override: bool)
      ensures MissIn(s[..0], k, rid, self, override)
      ensures s == [] ==> s[..0] == s
    {
    }

    /** n lies at most k steps below base. */
    ghost predicate Within(base: Resource, n: Resource, k: int)
      reads this`kids
    {
      exists d: nat :: 1 <= d <= k && Under<Resource>(kids, base, n, d)
    }

    lemma Direct(base: Resource, c: Resource, k: int)
      requires base in kids && c in kids[base] && k >= 1
      ensures Within(base, c, k)
    {
      assert Under(kids, c, c, 0);
      assert Under<Resource>(kids, base, c, 1);
    }

    lemma Deeper(base: Resource, c: Resource, n: Resource, k: int)
      requires base in kids && c in kids[base] && Within(c, n, k)
      ensures Within(base, n, k + 1)
    {
      var d: nat :| 1 <= d <= k && Under<Resource>(kids, c, n, d);
      assert Under<Resource>(kids, base, n, d + 1);
    }

    /** A child that does not bear the identifier, below which it is missed too, leaves it missed so far. */
    lemma MissedSoFar(base: Resource, i: nat, k: int, rid: nat, self: nat, override: bool)
      requires Valid() && base in kids && i < |kids[base]| && kids[base][i] in kids && kids[base][i].rid != rid
      requires MissIn(kids[base][..i], k, rid, self, override)
      requires MissIn(kids[kids[base][i]], k - 1, rid, self, override)
      ensures MissIn(kids[base][..i + 1], k, rid, self, override)
      ensures i + 1 == |kids[base]| ==> kids[base][..i + 1] == kids[base]
    {
      hide *;
      NextMiss(kids[base][i], k, rid, self, override);
      MissNext(kids[base], i, k, rid, self, override);
    }

    /** The child met at place i, which is live, is not base, and whose successor is at the next place. */
    lemma ChildMet(base: Resource, c: Resource, i: nat)
      requires Valid() && base in kids && Opt(c) == At(kids[base], i)
      ensures i < |kids[base]| && kids[base][i] == c && c in kids[base] && c in kids && c != root && c != base
      ensures Opt(c.nextSibling) == At(kids[base], i + 1)
    {
      hide Tree, Snapshot, RidsOk, ListOk, Hung, LayerOk, Under;
      ChildLinks(base);
      assert c == kids[base][i];
      ChildLive(base, c);
    }

    // ----- Finding a resource

    ghost predicate Allowed(n: Resource, self: nat, override: bool)
      reads n`owner
    {
      n.owner == self || override
    }

    /** No node within k steps of a has this identifier and may be returned. */
    ghost predicate Miss(a: Resource, k: int, rid: nat, self: nat, override: bool)
      reads this`kids, kids.Keys`rid, kids.Keys`owner
    {
      forall n, d: nat :: n in kids && n != root && d <= k && Under(kids, a, n, d) && n.rid == rid ==>
          !Allowed(n, self, override)
    }

    ghost predicate MissIn(s: seq<Resource>, k: int, rid: nat, self: nat, override: bool)
      reads this`kids, kids.Keys`rid, kids.Keys`owner
    {
      forall c :: c in s ==> Miss(c, k, rid, self, override)
    }

    /** Some node has this identifier and may not be returned. */
    ghost predicate Barred(rid: nat, self: nat, override: bool)
      reads this`kids, kids.Keys`rid, kids.Keys`owner
    {
      exists m :: m in kids && m != root && m.rid == rid && !Allowed(m, self, override)
    }

    /** The search below base: first each child, then everything under it, at most to the depth bound.
        `found` says that the identifier was met among base's own children. */
    method Search(base: Resource, rid: nat, depth: nat, override: bool, self: nat) returns (rp: Resource?, found: bool)
      requires Valid() && base in kids && depth <= MAX_RESOURCE_DEPTH + 1
      ensures rp != null ==> rp in kids && rp.rid == rid && Allowed(rp, self, override)
                             && Within(base, rp, MAX_RESOURCE_DEPTH + 1 - depth)
      ensures rp == null ==> MissIn(kids[base], MAX_RESOURCE_DEPTH - depth, rid, self, override)
      ensures found && rp == null ==> Barred(rid, self, override)
      decreases MAX_RESOURCE_DEPTH + 1 - depth
    {
      hide Tree, Miss, MissIn, LayerOk, Hung, ListOk, Within, RidsOk, Snapshot;
      rp, found := null, false;
      ghost var k := MAX_RESOURCE_DEPTH - depth;
      MissNone(kids[base], k, rid, self, override);
      if depth > MAX_RESOURCE_DEPTH {
        TooDeep(kids[base], k, rid, self, override);
        return;
      }
      var temp := false;
      var c := base.firstChild;
      ghost var i := 0;
      ChildLinks(base);
      while c != null
        invariant 0 <= i <= |kids[base]| && Opt(c) == At(kids[base], i)
        invariant !temp && !found
        invariant MissIn(kids[base][..i], k, rid, self, override)
        invariant i == |kids[base]| ==> kids[base][..i] == kids[base]
        decreases |kids[base]| - i
      {
        ChildMet(base, c, i);
        if c == base {
          return null, found;
        }
        if c.rid == rid {
          if c.owner == self || override {
            Direct(base, c, k + 1);
            return c, true;
          }
          assert Barred(rid, self, override);
          NoneAllowed(rid, self, override, k, kids[base]);
          return null, true;
        }
        var rp2, t := Search(c, rid, depth + 1, override, self);
        temp := temp || t;
        if rp2 != null || temp {
          if rp2 != null {
            Deeper(base, c, rp2, k);
          } else {
            NoneAllowed(rid, self, override, k, kids[base]);
          }
          return rp2, found;
        }
        MissedSoFar(base, i, k, rid, self, override);
        c := c.nextSibling;
        i := i + 1;
      }
    }

    /** Looking up an identifier is exact: it returns the one live node that bears it when that node lies
        at levels 1 to 33 and the caller owns it or overrides, and nothing otherwise. */
    method GetFromRID(rid: nat, override: bool, self: nat) returns (rp: Resource?)
      requires Valid()
      ensures rp != null ==> Findable(rp, rid, override, self)
      ensures rp != null ==> rp in kids && rp != root && rp.rid == rid && (rp.owner == self || override)
      ensures rp == null ==> forall n :: n in kids ==> !Findable(n, rid, override, self)
    {
      hide Tree, Under, RidsOk, Layered;
      rp := null;
      if rid == INVALID_RID {
        return;
      }
      var found;
      LiveRoot();
      rp, found := Search(root, rid, 0, override, self);
      if rp != null {
        ghost var d: nat :| 1 <= d <= MAX_RESOURCE_DEPTH + 1 && Under<Resource>(kids, root, rp, d);
        LevelOf(rp, d);
      } else {
        NotFindable(rid, override, self);
      }
    }

    ghost predicate Findable(n: Resource, rid: nat, override: bool, self: nat)
      requires level.Keys == kids.Keys
      reads this, n
    {
      rid != INVALID_RID && n in kids && n != root && n.rid == rid && 1 <= level[n] <= MAX_RESOURCE_DEPTH + 1 &&
          Allowed(n, self, override)
    }

    lemma LevelOf(n: Resource, d: nat)
      requires Valid() && Under(kids, root, n, d)
      ensures n in kids && level[n] == d && (d > 0 ==> n != root)
    {
      hide ListOk, Hung, Under, LayerOk, RidsOk;
      UnderLevel(root, kids, level, root, n, d);
    }

    lemma NotFindable(rid: nat, override: bool, self: nat)
      requires Valid() && forall c :: c in kids[root] ==> Miss(c, MAX_RESOURCE_DEPTH, rid, self, override)
      ensures level.Keys == kids.Keys
      ensures forall n :: n in kids ==> !Findable(n, rid, override, self)
    {
      LiveRoot();
      forall n | n in kids && n != root && n.rid == rid && level[n] <= MAX_RESOURCE_DEPTH + 1
        ensures !Allowed(n, self, override)
      {
        hide ListOk, Hung, LayerOk, RidsOk;
        Reached(root, Snapshot(kids.Keys), kids, level, n);
        var c :| c in kids[root] && Under(kids, c, n, level[n] - 1);
        assert Miss(c, MAX_RESOURCE_DEPTH, rid, self, override);
      }
    }

    /** The head of the pool has no predecessor and is no node's successor. */
    lemma HeadOfPool(y: Resource)
      requires Valid() && root.firstChild == y
      ensures |kids[root]| > 0 && kids[root][0] == y && y in kids && y != root && y.previousSibling == null
      ensures (y.firstChild == null) == (kids[y] == [])
      ensures forall x :: x in kids && x != root ==> x.nextSibling != y
    {
      ChildLinks(root);
      assert y in kids[root];
      ChildLive(root, y);
      hide Tree, RidsOk, Snapshot;
      var p, i := Place(y);
      var _, _ := ParentIsRoot(y);
      forall x | x in kids && x != root ensures x.nextSibling != y {
        NotSuccessor(x, y);
      }
    }

    lemma ParentIsRoot(y: Resource) returns (p: Resource, i: nat)
      requires Valid() && y in kids[root]
      ensures p == root && i < |kids[root]| && kids[root][i] == y && y.parent == root
    {
      hide LayerOk, Hung, RidsOk;
      var h := Snapshot(kids.Keys);
      p := root;
      i :| 0 <= i < |kids[root]| && kids[root][i] == y;
      assert ListOk(h, root, kids[root]);
      assert ChildOk(h, root, kids[root], i);
      assert h[y] == LinksOf(y);
    }

    lemma NotSuccessor(x: Resource, y: Resource)
      requires Valid() && x in kids && x != root && |kids[root]| > 0 && kids[root][0] == y
      ensures x.nextSibling != y
    {
      hide Tree, RidsOk, Snapshot;
      var p, i := Place(x);
      ChildLinks(p);
      if i + 1 < |kids[p]| && kids[p][i + 1] == y {
        assert y in kids[p] && y in kids[root];
        Apart(p, root, y);
        FirstOnly(p, i + 1);
      }
    }

    lemma Apart(n: Resource, m: Resource, c: Resource)
      requires Valid() && n in kids && m in kids && c in kids[n] && c in kids[m]
      ensures n == m
    {
      hide Tree, RidsOk;
      ListsApart(root, Snapshot(kids.Keys), kids, level, n, m, c);
    }

    lemma FirstOnly(p: Resource, j: nat)
      requires Valid() && p in kids && 0 < j < |kids[p]|
      ensures kids[p][j] != kids[p][0]
    {
      hide LayerOk, Hung, RidsOk, ChildOk;
      assert ListOk(Snapshot(kids.Keys), p, kids[p]);
    }

    /** The cost of a back link never set: once a leaf has moved to the pool, the leaf that headed the
        pool before is refused as corrupted, for its own owner too. */
    method UnlinkTwice(x: Resource, y: Resource, self: nat) returns (first: Result, second: Result)
      requires Valid() && x in kids && x != y && UnlinkAnswer(x, self) == Ok
      requires root.firstChild == y && y.firstChild == null && y.owner == self
      modifies this`kids, this`level, kids.Keys`parent, kids.Keys`nextSibling, kids.Keys`previousSibling,
               kids.Keys`firstChild
      ensures Valid() && first == Ok && second == Corrupted
    {
      hide Tree, RidsOk, Snapshot, MovedFrom, MovedToPool, UnlinkAnswer, LinksOf;
      HeadOfPool(y);
      OkIsMovable(x, self);
      ghost var kids0 := kids;
      first := Unlink(x, self);
      StaleHead(kids0, x, y, self);
      second := Unlink(y, self);
    }

    /** An only child without children may be unlinked by its owner. */
    lemma FrontLeaf(p: Resource, x: Resource)
      requires Valid() && p in kids && x in kids && x != root && kids[p] == [x] && kids[x] == []
      ensures UnlinkAnswer(x, x.owner) == Ok
    {
      hide Tree, RidsOk, Snapshot;
      var q, i := Place(x);
      assert x in kids[q] && x in kids[p];
      Apart(p, q, x);
    }

    lemma PoolHead(y: Resource)
      requires Valid() && root in kids && kids[root] != [] && kids[root][0] == y && y in kids && kids[y] == []
      ensures root.firstChild == y && y.firstChild == null
    {
      hide Tree, RidsOk, Snapshot;
      ChildLinks(root);
      LiveLinks(y);
    }

    lemma OkIsMovable(x: Resource, self: nat)
      requires Valid() && x in kids && UnlinkAnswer(x, self) == Ok
      ensures x != root
    {
      LiveLinks(x);
    }

    /** The old head is now second, and nothing told it so. */
    lemma StaleHead(kids0: Kids<Resource>, x: Resource, y: Resource, self: nat)
      requires Valid() && root in kids0 && x in kids0 && y in kids0
      requires y in kids0[root] && kids0[y] == [] && x != y && y != root
      requires MovedToPool(root, kids0, kids, x) && y.previousSibling == null && y.owner == self
      ensures y in kids && UnlinkAnswer(y, self) == Corrupted
    {
      hide Tree, RidsOk, Snapshot, MovedToPool;
      AfterMove(kids0, x, y);
      LiveLinks(y);
    }

    lemma AfterMove(kids0: Kids<Resource>, x: Resource, y: Resource)
      requires Valid() && root in kids0 && x in kids0 && y in kids0 && y in kids0[root] && kids0[y] == [] && x != y &&
               y != root
      requires MovedToPool(root, kids0, kids, x)
      ensures root.firstChild == x && y.parent == root && y in kids && kids[y] == []
    {
      hide Tree, RidsOk, Snapshot, MovedToPool;
      HeadAfterMove(kids0, x, y);
      ChildLinks(root);
      var _, _ := ParentIsRoot(y);
    }

    /** The lists after the move: x heads the pool, and y is still in it, without children. */
    lemma HeadAfterMove(kids0: Kids<Resource>, x: Resource, y: Resource)
      requires root in kids0 && x in kids0 && y in kids0 && y in kids0[root] && kids0[y] == [] && x != y && y != root
      requires MovedToPool(root, kids0, kids, x)
      ensures root in kids && |kids[root]| > 0 && kids[root][0] == x && y in kids[root] && y in kids && kids[y] == []
    {
      var p, i: nat :| p in kids0 && MovedFrom(root, kids0, kids, x, p, i);
      assert x in kids0[p];
      WithoutKeeps(kids0[p], i, y);
    }

    lemma WithoutKeeps(s: seq<Resource>, i: nat, y: Resource)
      requires i < |s| && s[i] != y
      ensures y in s ==> y in Without(s, i)
    {
      if y in s {
        var j :| 0 <= j < |s| && s[j] == y;
        assert Without(s, i)[if j < i then j else j - 1] == y;
      }
    }

    /** One call of process `self`. */
    method Perform(call: Call, self: nat, alive: set<nat>) returns (r: Result)
      requires Valid()
      modifies this, kids.Keys
      ensures Valid()
      ensures old(kids.Keys) <= kids.Keys && fresh(kids.Keys - old(kids.Keys))
      ensures old(counter) <= counter && forall n :: n in old(kids) ==> n.rid == old(n.rid)
    {
      hide Tree, RidsOk, Snapshot, Findable, LinksOf, MovedToPool, KidsWith;
      var x: Resource?;
      match call
      case CreateCall(parent, size, region, room, owner) =>
        x := GetFromRID(parent, false, self);
        FoundIsLive(x, parent, false, self);
        x, r := Create(x, size, region, room, owner);
      case UnlinkCall(rid) =>
        x := GetFromRID(rid, false, self);
        FoundIsLive(x, rid, false, self);
        r := Unlink(x, self);
      case ReleaseCall(rid) =>
        x := GetFromRID(rid, false, self);
        FoundIsLive(x, rid, false, self);
        r := Release(x, self);
      case HandoverCall(rid, dest) =>
        x := GetFromRID(rid, false, self);
        FoundIsLive(x, rid, false, self);
        r := Handover(x, self, dest, alive);
    }

    lemma FoundIsLive(x: Resource?, rid: nat, override: bool, self: nat)
      requires level.Keys == kids.Keys && (x != null ==> Findable(x, rid, override, self))
      ensures x != null ==> x in kids
    {
    }

    /** Over any run of calls by any processes, the pointers stay the links of one finite tree, no
        resource is lost and no identifier changes hands. */
    method Run(requests: seq<Request>)
      requires Valid()
      modifies this, kids.Keys
      ensures Valid()
      ensures old(kids.Keys) <= kids.Keys && forall n :: n in old(kids) ==> n.rid == old(n.rid)
    {
      hide Tree, RidsOk, Snapshot;
      for i := 0 to |requests|
        invariant Valid()
        invariant old(kids.Keys) <= kids.Keys && fresh(kids.Keys - old(kids.Keys))
        invariant forall n :: n in old(kids) ==> n.rid == old(n.rid)
      {
        var _ := Perform(requests[i].call, requests[i].self, requests[i].alive);
      }
    }

    lemma LiveRoot()
      requires Valid()
      ensures root in kids && level.Keys == kids.Keys && Snapshot(kids.Keys).Keys == kids.Keys
    {
    }
  }

  /** A run to that state: two nodes in the pool, the elder with a child.  After the child has moved to the pool,
      its owner cannot unlink the former head. */
  method StaleBackLink(self: nat) returns (first: Result, second: Result)
    ensures first == Ok && second == Corrupted
  {
    hide Tree, RidsOk, Snapshot, LinksOf, ResourceManager.UnlinkAnswer, ResourceManager.Valid;
    var manager := new ResourceManager(0);
    var p, x, y := ThreeNodes(manager, self);
    first, second := UnlinkBoth(manager, p, x, y, self);
  }

  method ThreeNodes(manager: ResourceManager, self: nat) returns (p: Resource, x: Resource, y: Resource)
    requires manager.Valid() && manager.kids == map[manager.root := []]
    modifies manager, manager.root
    ensures manager.Valid() && p != manager.root && x != manager.root && y != manager.root && p != x && p != y && x != y
    ensures manager.kids == map[manager.root := [y, p], p := [x], x := [], y := []]
    ensures fresh(p) && fresh(x) && fresh(y) && x.owner == self && y.owner == self
  {
    hide Tree, RidsOk, Snapshot, LinksOf, ResourceManager.Valid;
    ghost var root := manager.root;
    p := NewUnder(manager, root, null, self);
    FirstOf(root, p);
    x := NewUnder(manager, p, p, self);
    SecondOf(root, p, x);
    y := NewUnder(manager, root, null, self);
    ThirdOf(root, p, x, y);
  }

  // The three lists, one creation after another.

  lemma FirstOf(root: Resource, p: Resource)
    requires root != p
    ensures map[root := []][p := []][root := [p] + []] == map[root := [p], p := []]
  {
    assert [p] + [] == [p];
  }

  lemma SecondOf(root: Resource, p: Resource, x: Resource)
    requires root != p && x != root && x != p
    ensures map[root := [p], p := []][x := []][p := [x] + []] == map[root := [p], p := [x], x := []]
  {
    assert [x] + [] == [x];
  }

  lemma ThirdOf(root: Resource, p: Resource, x: Resource, y: Resource)
    requires root != p && x != root && x != p && y != root && y != p && y != x
    ensures map[root := [p], p := [x], x := []][y := []][root := [y] + [p]] ==
            map[root := [y, p], p := [x], x := [], y := []]
  {
    assert [y] + [p] == [y, p];
  }

  method NewUnder(manager: ResourceManager, ghost p: Resource, parent: Resource?, self: nat) returns (y: Resource)
    requires manager.Valid() && p in manager.kids && p == (if parent == null then manager.root else parent)
    modifies manager, manager.kids.Keys`previousSibling, manager.kids.Keys`firstChild
    ensures manager.Valid() && fresh(y) && y.owner == self
    ensures manager.kids == old(manager.kids)[y := []][p := [y] + old(manager.kids)[p]]
  {
    hide Tree, RidsOk, Snapshot, LinksOf;
    var c, _ := manager.Create(parent, 0, None, true, self);
    y := c;
  }

  method UnlinkBoth(manager: ResourceManager, p: Resource, x: Resource, y: Resource, self: nat)
    returns (first: Result, second: Result)
    requires manager.Valid() && x != manager.root && y != manager.root && p != manager.root && p != x && p != y &&
             x != y
    requires manager.kids == map[manager.root := [y, p], p := [x], x := [], y := []]
    requires x.owner == self && y.owner == self
    modifies manager`kids, manager`level, manager.kids.Keys`parent, manager.kids.Keys`nextSibling,
             manager.kids.Keys`previousSibling, manager.kids.Keys`firstChild
    ensures first == Ok && second == Corrupted
  {
    hide Tree, RidsOk, Snapshot, LinksOf, ResourceManager.Valid, ResourceManager.UnlinkAnswer;
    manager.FrontLeaf(p, x);
    manager.PoolHead(y);
    first, second := manager.UnlinkTwice(x, y, self);
  }

  lemma NewRid(nodes: set<Resource>, x: Resource, counter: nat)
    requires RidsOk(nodes, counter) && x.rid == counter
    ensures RidsOk(nodes + {x}, counter + 1)
  {
  }
}
