/** Paths: splitting them as strtok and strrchr do, and walking them over the directories of a volume. */
module FatPaths {
  import opened Bytes
  import opened FatVolume
  import opened FatTable
  import opened FatFiles
  import opened FatDirectory
  import opened FatLookup

  const MAX_COPY := 255

  /** The local copy of a path holds at most 255 characters. */
  function Cut(path: seq<byte>): seq<byte> {
    if |path| <= MAX_COPY then path else path[..MAX_COPY]
  }

  function SegmentLength(path: seq<byte>): (n: nat)
    ensures n <= |path|
    ensures forall i :: 0 <= i < n ==> path[i] != SLASH
    ensures n < |path| ==> path[n] == SLASH
  {
    if path == [] || path[0] == SLASH then 0 else 1 + SegmentLength(path[1..])
  }

  /** The strings that repeated strtok(path, "/") yields. */
  function Segments(path: seq<byte>): seq<seq<byte>>
    decreases |path|
  {
    if path == [] then []
    else if path[0] == SLASH then Segments(path[1..])
    else
      var n := SegmentLength(path);
      [path[..n]] + Segments(path[n..])
  }

  /** strrchr(path, '/'): the length of the part before the last slash. */
  function LastSlash(path: seq<byte>): (r: Option<nat>)
    ensures r.Some? ==> r.value < |path| && path[r.value] == SLASH
    ensures r.Some? ==> forall i :: r.value < i < |path| ==> path[i] != SLASH
    ensures r.None? ==> forall i :: 0 <= i < |path| ==> path[i] != SLASH
  {
    if path == [] then None
    else if path[|path| - 1] == SLASH then Some(|path| - 1)
    else LastSlash(path[..|path| - 1])
  }

  /** The directory part and the file name of a path. */
  function DirPart(path: seq<byte>): seq<byte> {
    match LastSlash(path)
    case Some(n) => path[..n]
    case None => []
  }

  function FilePart(path: seq<byte>): seq<byte> {
    match LastSlash(path)
    case Some(n) => path[n + 1..]
    case None => path
  }

  lemma {:induction false} SegmentLengthAppend(s: seq<byte>, t: seq<byte>)
    requires forall i :: 0 <= i < |s| ==> s[i] != SLASH
    requires t == [] || t[0] == SLASH
    ensures SegmentLength(s + t) == |s|
  {
    if s == [] {
      assert s + t == t;
    } else {
      assert (s + t)[0] == s[0] && (s + t)[1..] == s[1..] + t;
      SegmentLengthAppend(s[1..], t);
    }
  }

  lemma OneSegment(f: seq<byte>)
    requires f != [] && forall i :: 0 <= i < |f| ==> f[i] != SLASH
    ensures Segments(f) == [f]
  {
    assert f + [] == f;
    SegmentLengthAppend(f, []);
    assert f[..|f|] == f && f[|f|..] == [];
  }

  /** The segments of a path are those of its directory part, then its file name. */
  lemma {:induction false} SegmentsJoin(p: seq<byte>, f: seq<byte>)
    requires f != [] && forall i :: 0 <= i < |f| ==> f[i] != SLASH
    ensures Segments(p + [SLASH] + f) == Segments(p) + [f]
    decreases |p|
  {
    var whole := p + [SLASH] + f;
    if p == [] {
      assert whole[1..] == f;
      OneSegment(f);
    } else if p[0] == SLASH {
      assert whole[1..] == p[1..] + [SLASH] + f;
      SegmentsJoin(p[1..], f);
    } else {
      var n := SegmentLength(p);
      assert whole == p[..n] + (p[n..] + [SLASH] + f);
      SegmentLengthAppend(p[..n], p[n..] + [SLASH] + f);
      assert whole[..n] == p[..n] && whole[n..] == p[n..] + [SLASH] + f;
      SegmentsJoin(p[n..], f);
    }
  }

  lemma PathSegments(path: seq<byte>)
    requires FilePart(path) != []
    ensures Segments(path) == Segments(DirPart(path)) + [FilePart(path)]
    ensures forall i :: 0 <= i < |FilePart(path)| ==> FilePart(path)[i] != SLASH
  {
    match LastSlash(path)
    case Some(n) =>
      assert path == path[..n] + [SLASH] + path[n + 1..];
      SegmentsJoin(path[..n], path[n + 1..]);
    case None =>
      OneSegment(path);
  }

  // ----- Names without NUL

  ghost predicate Text(s: seq<byte>) {
    forall i :: 0 <= i < |s| ==> s[i] != 0
  }

  lemma NamesAreText(seg: seq<byte>)
    requires Text(seg)
    ensures Text(NameOf(seg)) && Text(ExtOf(seg))
  {
  }

  lemma {:induction false} NoDotBefore(seg: seq<byte>, i: nat)
    requires i <= |seg| && i <= 8
    ensures forall k :: i <= k < NameLength(seg, i) ==> seg[k] != DOT
    decreases |seg| - i
  {
    if i < |seg| && seg[i] != DOT && i < 8 {
      NoDotBefore(seg, i + 1);
    }
  }

  /** No path segment names an entry whose name begins with a dot: "." and "..", and with them the one directory entry
      that names cluster 0 for the root, are never stepped into. */
  lemma DotsNeverNamed(e: Entry, seg: seq<byte>)
    requires e[0] == DOT
    ensures !Named(e, NameOf(seg), ExtOf(seg))
  {
    NoDotBefore(seg, 0);
    assert NameOf(seg)[0] != DOT;
    assert e[..8][0] == DOT;
  }

  lemma {:induction false} SegmentsAreText(path: seq<byte>)
    requires Text(path)
    ensures forall q :: 0 <= q < |Segments(path)| ==> Text(Segments(path)[q])
    decreases |path|
  {
    if path != [] {
      if path[0] == SLASH {
        SegmentsAreText(path[1..]);
      } else {
        SegmentsAreText(path[SegmentLength(path)..]);
      }
    }
  }

  /** Two spellings that differ only in letter case name the same entries. */
  lemma SameSpelling(p: seq<byte>, q: seq<byte>, x: seq<byte>)
    requires |p| == |q| == |x| && Text(p) && Text(q) && NcsSame(p, q)
    ensures NcsSame(x, p) <==> NcsSame(x, q)
  {
    NcsMeaning(p, q);
    NcsMeaning(x, p);
    NcsMeaning(x, q);
  }

  lemma {:induction false} SameFound(s: seq<byte>, name: Name, ext: Ext, name': Name, ext': Ext, i: nat)
    requires Text(name) && Text(ext) && Text(name') && Text(ext')
    requires NcsSame(name, name') && NcsSame(ext, ext')
    ensures FindInSector(s, name, ext, i) == FindInSector(s, name', ext', i)
    decreases Slots(s) - i
  {
    if i < Slots(s) {
      var e := EntryAt(s, i);
      SameSpelling(name, name', e[..8]);
      SameSpelling(ext, ext', e[8..11]);
      hide NcsSame, EntryAt;
      SameFound(s, name, ext, name', ext', i + 1);
    }
  }

  lemma {:induction false} SameFoundIn(dir: seq<seq<byte>>, name: Name, ext: Ext, name': Name, ext': Ext, k: nat)
    requires Text(name) && Text(ext) && Text(name') && Text(ext')
    requires NcsSame(name, name') && NcsSame(ext, ext')
    ensures FindIn(dir, name, ext, k) == FindIn(dir, name', ext', k)
    decreases |dir| - k
  {
    hide FindInSector, NcsSame;
    if k < |dir| {
      SameFound(dir[k], name, ext, name', ext', 0);
      SameFoundIn(dir, name, ext, name', ext', k + 1);
    }
  }

  // ----- Walking a path

  ghost predicate HasChain(b: Boot, d: Disk, c: nat)
    requires Volume(b, d)
  {
    exists cs :: IsChain(b, d, cs) && cs[0] == c
  }

  ghost function ChainOf(b: Boot, d: Disk, c: nat): (cs: seq<nat>)
    requires Volume(b, d) && HasChain(b, d, c)
    ensures IsChain(b, d, cs) && cs[0] == c
  {
    var cs :| IsChain(b, d, cs) && cs[0] == c;
    cs
  }

  lemma ChainOfIs(b: Boot, d: Disk, cs: seq<nat>)
    requires Volume(b, d) && IsChain(b, d, cs)
    ensures HasChain(b, d, cs[0]) && ChainOf(b, d, cs[0]) == cs
  {
    hide Volume, Next;
    ChainUnique(b, d, cs, ChainOf(b, d, cs[0]));
  }

  /** What a directory, or an entry that is none, answers for one path segment. */
  ghost function Lookup(b: Boot, d: Disk, parent: Option<Entry>, seg: seq<byte>): Location
    requires Volume(b, d) && (Searchable(parent) ==> HasChain(b, d, DirStart(b, parent)))
  {
    if Searchable(parent) then Located(b, d, ChainOf(b, d, DirStart(b, parent)), NameOf(seg), ExtOf(seg)) else NotFound
  }

  /** The three walks: reading and sizing a file, and finding the directory to write into. */
  datatype Mode = Reading | Sizing | Writing

  /** The next parent after an entry is found, or None when the walk refuses it.  Reading stays where it
      is at a plain file, sizing steps into any entry, writing insists on a directory. */
  function Into(mode: Mode, parent: Option<Entry>, e: Entry): Option<Option<Entry>> {
    match mode
    case Reading => Some(if IsDirectory(e) then Some(e) else parent)
    case Sizing => Some(Some(e))
    case Writing => if IsDirectory(e) then Some(Some(e)) else None
  }

  function Followed(mode: Mode, parent: Option<Entry>, loc: Location): Option<Option<Entry>> {
    if loc.Location? then Into(mode, parent, loc.dir) else None
  }

  /** Every directory searched on the way has a well-formed chain. */
  ghost predicate Walkable(b: Boot, d: Disk, mode: Mode, parent: Option<Entry>, segs: seq<seq<byte>>)
    requires Volume(b, d)
    decreases |segs|
  {
    && (Searchable(parent) ==> HasChain(b, d, DirStart(b, parent)))
    && (segs != [] ==>
          var next := Followed(mode, parent, Lookup(b, d, parent, segs[0]));
          next.Some? ==> Walkable(b, d, mode, next.value, segs[1..]))
  }

  /** The parent a walk arrives at, or None when a segment is missing or refused. */
  ghost function Walk(b: Boot, d: Disk, mode: Mode, parent: Option<Entry>, segs: seq<seq<byte>>): Option<Option<Entry>>
    requires Volume(b, d) && Walkable(b, d, mode, parent, segs)
    decreases |segs|
  {
    if segs == [] then Some(parent)
    else
      var next := Followed(mode, parent, Lookup(b, d, parent, segs[0]));
      if next.Some? then Walk(b, d, mode, next.value, segs[1..]) else None
  }

  // ----- What a walk finds, hop by hop

  /** One step of a path: its segment, the chain of the directory searched, and the slot and entry found there. */
  datatype Hop = Hop(seg: seq<byte>, chain: seq<nat>, k: nat, i: nat, entry: Entry)

  /** In the directory that begins at this cluster the first listed entry of that name is in that slot. */
  ghost predicate Found(b: Boot, d: Disk, start: nat, h: Hop)
    requires Volume(b, d)
  {
    && IsChain(b, d, h.chain) && h.chain[0] == start
    && var dir := FileSectors(b, d, h.chain);
    && FindIn(dir, NameOf(h.seg), ExtOf(h.seg), 0) == Some((h.k, h.i)) && EntryAt(dir[h.k], h.i) == h.entry
  }

  /** Each entry but the last is a directory, and the next one is found in it. */
  ghost predicate Leads(b: Boot, d: Disk, start: nat, hops: seq<Hop>)
    requires Volume(b, d)
    decreases |hops|
  {
    hops != [] ==>
      && Found(b, d, start, hops[0])
      && (|hops| > 1 ==> IsDirectory(hops[0].entry))
      && Leads(b, d, ClusterOf(hops[0].entry), hops[1..])
  }

  function SegmentsOf(hops: seq<Hop>): (s: seq<seq<byte>>)
    ensures |s| == |hops|
  {
    if hops == [] then [] else [hops[0].seg] + SegmentsOf(hops[1..])
  }

  lemma LookupFound(b: Boot, d: Disk, parent: Option<Entry>, h: Hop)
    requires Volume(b, d) && Searchable(parent) && Found(b, d, DirStart(b, parent), h)
    ensures HasChain(b, d, DirStart(b, parent))
    ensures var loc := Lookup(b, d, parent, h.seg); loc.Location? && loc.dir == h.entry
  {
    hide Volume, Next, FindIn, FileSectors, NameOf, ExtOf, Cluster;
    ChainOfIs(b, d, h.chain);
  }

  /** A path whose hops lead to a plain file: reading ends in the directory that holds it and finds it there. */
  lemma {:induction false} ReadingLeads(b: Boot, d: Disk, parent: Option<Entry>, hops: seq<Hop>)
    requires Volume(b, d) && Searchable(parent) && hops != [] && Leads(b, d, DirStart(b, parent), hops)
    requires !IsDirectory(hops[|hops| - 1].entry)
    ensures Walkable(b, d, Reading, parent, SegmentsOf(hops))
    ensures var r := Walk(b, d, Reading, parent, SegmentsOf(hops));
            && r.Some? && Searchable(r.value) && HasChain(b, d, DirStart(b, r.value))
            && var loc := Lookup(b, d, r.value, SegmentsOf(hops)[|hops| - 1]);
            loc.Location? && loc.dir == hops[|hops| - 1].entry
    decreases |hops|
  {
    hide Volume, HasChain, Lookup, Found, IsDirectory, ClusterOf;
    var h, segs := hops[0], SegmentsOf(hops);
    LookupFound(b, d, parent, h);
    assert segs[1..] == SegmentsOf(hops[1..]);
    var next := if IsDirectory(h.entry) then Some(h.entry) else parent;
    if |hops| > 1 {
      ReadingLeads(b, d, Some(h.entry), hops[1..]);
    } else {
      assert segs[1..] == [];
      assert Walkable(b, d, Reading, parent, []) && Walk(b, d, Reading, parent, []) == Some(parent);
    }
  }

  /** Sizing ends at the last entry, whatever it is. */
  lemma {:induction false} SizingLeads(b: Boot, d: Disk, parent: Option<Entry>, hops: seq<Hop>)
    requires Volume(b, d) && Searchable(parent) && hops != [] && Leads(b, d, DirStart(b, parent), hops)
    requires IsDirectory(hops[|hops| - 1].entry) ==> HasChain(b, d, ClusterOf(hops[|hops| - 1].entry))
    ensures Walkable(b, d, Sizing, parent, SegmentsOf(hops))
    ensures Walk(b, d, Sizing, parent, SegmentsOf(hops)) == Some(Some(hops[|hops| - 1].entry))
    decreases |hops|
  {
    hide Volume, HasChain, Lookup, Found, IsDirectory, ClusterOf;
    var h, segs := hops[0], SegmentsOf(hops);
    LookupFound(b, d, parent, h);
    assert segs[1..] == SegmentsOf(hops[1..]);
    if |hops| > 1 {
      SizingLeads(b, d, Some(h.entry), hops[1..]);
    } else {
      assert segs[1..] == [];
      assert Walkable(b, d, Sizing, Some(h.entry), []);
      assert Walk(b, d, Sizing, Some(h.entry), []) == Some(Some(h.entry));
    }
  }

  /** A path of directories: a write goes into the last of them. */
  lemma {:induction false} WritingLeads(b: Boot, d: Disk, parent: Option<Entry>, hops: seq<Hop>)
    requires Volume(b, d) && Searchable(parent) && hops != [] && Leads(b, d, DirStart(b, parent), hops)
    requires IsDirectory(hops[|hops| - 1].entry) && HasChain(b, d, ClusterOf(hops[|hops| - 1].entry))
    ensures Walkable(b, d, Writing, parent, SegmentsOf(hops))
    ensures Walk(b, d, Writing, parent, SegmentsOf(hops)) == Some(Some(hops[|hops| - 1].entry))
    decreases |hops|
  {
    hide Volume, HasChain, Lookup, Found, IsDirectory, ClusterOf;
    var h, segs := hops[0], SegmentsOf(hops);
    LookupFound(b, d, parent, h);
    assert segs[1..] == SegmentsOf(hops[1..]);
    if |hops| > 1 {
      WritingLeads(b, d, Some(h.entry), hops[1..]);
    } else {
      assert segs[1..] == [];
      assert Walkable(b, d, Writing, Some(h.entry), []);
      assert Walk(b, d, Writing, Some(h.entry), []) == Some(Some(h.entry));
    }
  }
}
