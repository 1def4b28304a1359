/** Separation at paths: writing one new file leaves every other path reading as it did. */
module StorageSeparation {
  import opened Arith
  import opened Bytes
  import opened FatVolume
  import opened FatTable
  import opened FatFiles
  import opened FatDirectory
  import opened FatLookup
  import opened FatWrite
  import opened FatRead
  import opened FatLaws
  import opened FatPaths
  import opened Drives
  import opened Storage
  import opened StorageLaws

  /** Where a new file goes: the chain of its directory, and its name. */
  datatype Place = Place(dir: seq<nat>, name: Name, ext: Ext)

  function PlaceOf(w: Written): Place {
    Place(w.dir, w.name, w.ext)
  }

  /** Where a path says to write. */
  ghost function Target(b: Boot, d: Disk, path: seq<byte>): (p: Place)
    requires Volume(b, d) && Walkable(b, d, Writing, None, Segments(DirPart(Cut(path))))
    requires Walk(b, d, Writing, None, Segments(DirPart(Cut(path)))).Some?
    ensures p.dir != []
  {
    Place(ParentChain(b, d, path), NameOf(FilePart(Cut(path))), ExtOf(FilePart(Cut(path))))
  }

  /** Where a segment is looked up: in the directory that takes the new entry, under another name unless the lookup
      succeeds, or in one that shares no cluster with it. */
  ghost predicate LookupApart(b: Boot, d: Disk, parent: Option<Entry>, seg: seq<byte>, to: Place)
    requires Volume(b, d) && to.dir != [] && (Searchable(parent) ==> HasChain(b, d, DirStart(b, parent)))
  {
    Searchable(parent) ==>
      if DirStart(b, parent) == to.dir[0] then
        Lookup(b, d, parent, seg) == NotFound ==> !(NcsSame(to.name, NameOf(seg)) && NcsSame(to.ext, ExtOf(seg)))
      else
        forall c :: c in ChainOf(b, d, DirStart(b, parent)) ==> c !in to.dir
  }

  /** Every lookup of a walk is. */
  ghost predicate WalkApart(b: Boot, d: Disk, mode: Mode, parent: Option<Entry>, segs: seq<seq<byte>>, to: Place)
    requires Volume(b, d) && to.dir != [] && Walkable(b, d, mode, parent, segs)
    decreases |segs|
  {
    segs != [] ==>
      && LookupApart(b, d, parent, segs[0], to)
      && var next := Followed(mode, parent, Lookup(b, d, parent, segs[0]));
         next.Some? ==> WalkApart(b, d, mode, next.value, segs[1..], to)
  }

  /** A file that uses no cluster of the directory. */
  ghost predicate FileApart(b: Boot, d: Disk, e: Entry, to: Place)
    requires Volume(b, d) && HasTrail(b, d, ClusterOf(e))
  {
    if ClusterOf(e) == 0 then SizeOf(e) == 0 else forall c :: c in TrailOf(b, d, ClusterOf(e)) ==> c !in to.dir
  }

  /** A path other than the new one, none of whose lookups and whose file the write can disturb. */
  ghost predicate OtherPath(b: Boot, d: Disk, segs: seq<seq<byte>>, to: Place)
    requires Volume(b, d) && to.dir != [] && Readable(b, d, segs)
  {
    && (forall q :: 0 <= q < |segs| ==> Text(segs[q]))
    && WalkApart(b, d, Reading, None, segs, to)
    && (segs != [] && Walk(b, d, Reading, None, segs).Some? ==>
          && LastApart(b, d, segs, to)
          && FileApart(b, d, FileAt(b, d, segs).value, to))
  }

  ghost predicate LastApart(b: Boot, d: Disk, segs: seq<seq<byte>>, to: Place)
    requires Volume(b, d) && to.dir != [] && Walkable(b, d, Reading, None, segs)
    requires segs != [] && Walk(b, d, Reading, None, segs).Some?
  {
    WalkEnds(b, d, Reading, None, segs);
    LookupApart(b, d, Walk(b, d, Reading, None, segs).value, segs[|segs| - 1], to)
  }

  /** One lookup answers as before. */
  lemma LookupSame(b: Boot, d0: Disk, d1: Disk, d2: Disk, w: Written, parent: Option<Entry>, seg: seq<byte>)
    requires NewFile(b, d0, d1, d2, w) && Text(seg)
    requires Searchable(parent) ==> HasChain(b, d0, DirStart(b, parent))
    requires LookupApart(b, d0, parent, seg, PlaceOf(w))
    ensures Searchable(parent) ==> HasChain(b, d2, DirStart(b, parent))
    ensures Lookup(b, d2, parent, seg) == Lookup(b, d0, parent, seg)
  {
    hide GoodBoot, NameOf, ExtOf, NewEntry, FileSectors, FindIn, LocationOf, Next, ClusterCount, TableGrown, DataKept,
         FileHolds, Padded, SectorOf, FreeIn, PutEntry, Times, HasChain, NcsSame, IsDirectory, Listed, Terminated;
    if Searchable(parent) {
      if DirStart(b, parent) == w.dir[0] && Lookup(b, d0, parent, seg) == NotFound {
        StillNotFound(b, d0, d1, d2, w, seg);
      } else {
        LookupKept(b, d0, d1, d2, w, parent, seg);
      }
    }
  }

  /** Another name, absent from the directory, is still absent. */
  lemma StillNotFound(b: Boot, d0: Disk, d1: Disk, d2: Disk, w: Written, seg: seq<byte>)
    requires NewFile(b, d0, d1, d2, w)
    requires !(NcsSame(w.name, NameOf(seg)) && NcsSame(w.ext, ExtOf(seg)))
    ensures IsChain(b, d0, w.dir) && HasChain(b, d0, w.dir[0]) && ChainOf(b, d0, w.dir[0]) == w.dir
    ensures HasChain(b, d2, w.dir[0]) && ChainOf(b, d2, w.dir[0]) == w.dir
    ensures Located(b, d2, w.dir, NameOf(seg), ExtOf(seg)) == Located(b, d0, w.dir, NameOf(seg), ExtOf(seg))
  {
    hide GoodBoot, NameOf, ExtOf, NewEntry, FileSectors, FindIn, LocationOf, Next, ClusterCount, TableGrown, DataKept,
         FileHolds, Padded, SectorOf, FreeIn, PutEntry, Times;
    NotTheNewName(w, seg);
    NewEntryFacts(w);
    ChainOfIs(b, d0, w.dir);
    OtherNamesLocated(b, d0, d1, d2, w, w.dir, NameOf(seg), ExtOf(seg));
    ChainOfIs(b, d2, w.dir);
  }

  lemma NotTheNewName(w: Written, seg: seq<byte>)
    requires w.chain != [] && w.chain[0] < U32 && w.size < U32
    requires !(NcsSame(w.name, NameOf(seg)) && NcsSame(w.ext, ExtOf(seg)))
    ensures !Named(NewEntry(w), NameOf(seg), ExtOf(seg))
  {
    NewEntryFacts(w);
  }

  /** Every chain keeps its links. */
  lemma ChainStays(b: Boot, d0: Disk, d1: Disk, d2: Disk, w: Written, c: nat)
    requires DataWritten(b, d0, d1, w) && EntryWritten(b, d0, d1, d2, w) && Volume(b, d2)
    requires HasChain(b, d0, c)
    ensures HasChain(b, d2, c) && ChainOf(b, d2, c) == ChainOf(b, d0, c)
  {
    hide GoodBoot, NewEntry, FileSectors, Next, ClusterCount, TableGrown, DataKept, FileHolds, Padded, SectorOf, FreeIn,
         PutEntry, Times, InFats;
    var cs := ChainOf(b, d0, c);
    OldChainKept(b, d0, d1, w.chain, cs);
    EntryChanges(b, d0, d1, d2, w);
    ChainSurvives(b, d1, d2, cs);
    ChainOfIs(b, d2, cs);
  }

  /** A walk ends where it did. */
  lemma {:induction false} WalkSame(b: Boot, d0: Disk, d1: Disk, d2: Disk, w: Written, mode: Mode,
          parent: Option<Entry>, segs: seq<seq<byte>>)
    requires NewFile(b, d0, d1, d2, w) && forall q :: 0 <= q < |segs| ==> Text(segs[q])
    requires Walkable(b, d0, mode, parent, segs) && WalkApart(b, d0, mode, parent, segs, PlaceOf(w))
    ensures Walkable(b, d2, mode, parent, segs) && Walk(b, d2, mode, parent, segs) == Walk(b, d0, mode, parent, segs)
    decreases |segs|
  {
    hide GoodBoot, NameOf, ExtOf, NewEntry, FileSectors, FindIn, LocationOf, Next, ClusterCount, TableGrown, DataKept,
         FileHolds, Padded, SectorOf, FreeIn, PutEntry, Times, HasChain, NcsSame, IsDirectory, Listed, Terminated,
         Lookup, LookupApart;
    if segs == [] {
      if Searchable(parent) {
        ChainStays(b, d0, d1, d2, w, DirStart(b, parent));
      }
    } else {
      LookupSame(b, d0, d1, d2, w, parent, segs[0]);
      var next := Followed(mode, parent, Lookup(b, d0, parent, segs[0]));
      if next.Some? {
        WalkSame(b, d0, d1, d2, w, mode, next.value, segs[1..]);
      }
    }
  }

  /** Cluster 0 reads as before, as far as its table word goes. */
  lemma ZeroStays(b: Boot, d0: Disk, d1: Disk, d2: Disk, w: Written)
    requires DataWritten(b, d0, d1, w) && EntryWritten(b, d0, d1, d2, w) && Volume(b, d2)
    ensures ZeroReads(b, d2) <==> ZeroReads(b, d0)
  {
    hide GoodBoot, NewEntry, FileSectors, RawEntry, ClusterCount, DataKept, FileHolds, Padded, SectorOf, FreeIn,
         PutEntry, Times, InFats, FirstData;
    EntryChanges(b, d0, d1, d2, w);
    OtherSectorRaw(b, d1, d2, 0);
    assert 0 !in w.chain;
  }

  /** The file's trail and bytes stay. */
  lemma FileSame(b: Boot, d0: Disk, d1: Disk, d2: Disk, w: Written, e: Entry)
    requires DataWritten(b, d0, d1, w) && EntryWritten(b, d0, d1, d2, w) && Volume(b, d2)
    requires HasTrail(b, d0, ClusterOf(e)) && FileApart(b, d0, e, PlaceOf(w))
    ensures HasTrail(b, d2, ClusterOf(e)) && TrailOf(b, d2, ClusterOf(e)) == TrailOf(b, d0, ClusterOf(e))
    ensures var cs := TrailOf(b, d0, ClusterOf(e));
            && TrailData(b, d2, cs, SizeOf(e)) == TrailData(b, d0, cs, SizeOf(e))
            && |TrailSectors(b, d2, cs)| == |TrailSectors(b, d0, cs)|
  {
    var c := ClusterOf(e);
    hide GoodBoot, NewEntry, FileSectors, Next, ClusterCount, TableGrown, DataKept, FileHolds, Padded, SectorOf, FreeIn,
         PutEntry, Times, ZeroReads, FileBytes, ClusterOf, SizeOf;
    if c == 0 {
      ZeroStays(b, d0, d1, d2, w);
      NotAChain(b, d0);
      EmptyTrail(b, d0);
      EmptyTrail(b, d2);
    } else {
      var cs := ChainOf(b, d0, c);
      ChainStays(b, d0, d1, d2, w, c);
      OtherFilesKept(b, d0, d1, d2, w, cs);
      ChainIsTrail(b, d0, cs, SizeOf(e));
      ChainIsTrail(b, d2, cs, SizeOf(e));
    }
  }

  lemma NotAChain(b: Boot, d: Disk)
    requires Volume(b, d)
    ensures !HasChain(b, d, 0)
  {
    hide GoodBoot, Next, ClusterCount;
  }

  /** Separation.  After a new file is written under one path, every other path whose lookups and file are apart
      from the directory that took the entry gives the same entry and the same bytes. */
  lemma OtherPathKept(b: Boot, d0: Disk, d1: Disk, d2: Disk, path: seq<byte>, w: Written, segs: seq<seq<byte>>)
    requires DataWritten(b, d0, d1, w) && EntryWritten(b, d0, d1, d2, w) && Volume(b, d2)
    requires Walkable(b, d0, Writing, None, Segments(DirPart(Cut(path))))
    requires Fresh(b, d0, path) && WrittenAt(b, d0, path, w)
    requires Readable(b, d0, segs) && OtherPath(b, d0, segs, PlaceOf(w))
    ensures Readable(b, d2, segs) && FileAt(b, d2, segs) == FileAt(b, d0, segs)
    ensures FileAt(b, d0, segs).Some? ==>
              var e := FileAt(b, d0, segs).value;
              var cs := TrailOf(b, d0, ClusterOf(e));
              && TrailOf(b, d2, ClusterOf(e)) == cs
              && TrailData(b, d2, cs, SizeOf(e)) == TrailData(b, d0, cs, SizeOf(e))
              && |TrailSectors(b, d2, cs)| == |TrailSectors(b, d0, cs)|
  {
    hide GoodBoot, NewEntry, FileSectors, Next, ClusterCount, TableGrown, DataKept, FileHolds, Padded, SectorOf, FreeIn,
         PutEntry, Times, Walk, Walkable, WalkApart, FileApart, ClusterOf, SizeOf, Fresh, WrittenAt, NewFile, HasTrail,
         TrailData, TrailSectors, Segments, Cut, DirPart, Lookup, LookupApart, HasChain;
    FreshIsNew(b, d0, d1, d2, path, w);
    WalkSame(b, d0, d1, d2, w, Reading, None, segs);
    if segs != [] && Walk(b, d0, Reading, None, segs).Some? {
      WalkEnds(b, d0, Reading, None, segs);
      LookupSame(b, d0, d1, d2, w, Walk(b, d0, Reading, None, segs).value, segs[|segs| - 1]);
      FileSame(b, d0, d1, d2, w, FileAt(b, d0, segs).value);
    }
  }

  /** Reading another path before and after a write, on one drive. */
  method WriteBesides(drive: Drive, path: seq<byte>, data: seq<byte>, size: nat, other: seq<byte>)
    returns (status: int, before: array?<byte>, after: array?<byte>)
    requires Online(drive)
    requires Writable(BootOf(drive.disk[0]), drive.disk, path, data, size)
    requires Fresh(BootOf(drive.disk[0]), drive.disk, path) && SlotFits(BootOf(drive.disk[0]), drive.disk, path)
    requires Readable(BootOf(drive.disk[0]), drive.disk, Segments(Cut(other)))
    requires Walk(BootOf(drive.disk[0]), drive.disk, Writing, None, Segments(DirPart(Cut(path)))).Some? ==>
               OtherPath(BootOf(drive.disk[0]), drive.disk, Segments(Cut(other)),
                   Target(BootOf(drive.disk[0]), drive.disk, path))
    modifies drive, drive.bufferA
    ensures status == 0 ==>
              && (before == null <==> after == null)
              && (before != null && after != null ==> after[..] == before[..])
  {
    hide GoodBoot, NewEntry, FileSectors, Next, ClusterCount, Cut, Segments, DirPart, FilePart, FreeIn, TableGrown,
         DataKept, FileHolds, Padded, Times, Ceil, Walk, Walkable, TrailData, TrailSectors, ClusterOf, SizeOf, Fresh,
         LastFound, EntryWritten, NameOf, ExtOf, Readable, FileAt, OtherPath;
    ghost var d0 := drive.disk;
    ghost var b := BootOf(d0[0]);
    after := null;
    var overran;
    before, overran := IDEReadFile(drive, other);
    ghost var contents := if before == null then [] else before[..];
    ghost var d1, w;
    status, d1, w := IDEWriteFile(drive, path, data, size);
    if status == 0 {
      OtherPathKept(b, d0, d1, drive.disk, path, w, Segments(Cut(other)));
      BootKept(b, d0, d1, drive.disk, w);
      after, overran := IDEReadFile(drive, other);
    }
  }
}
