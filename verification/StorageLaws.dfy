/** The write-then-read law of storage.c, at the level of paths. */
module StorageLaws {
  import opened Arith
  import opened Bytes
  import opened FatVolume
  import opened FatTable
  import opened FatFiles
  import opened FatDirectory
  import opened FatLookup
  import opened FatWrite
  import opened FatRead
  import opened FatLaws
  import opened FatPaths
  import opened Drives
  import opened Storage

  /** Each directory on the way to the parent is either the parent itself or shares no cluster with it. */
  ghost predicate Apart(b: Boot, d: Disk, parent: Option<Entry>, segs: seq<seq<byte>>, dir: seq<nat>)
    requires Volume(b, d) && Walkable(b, d, Writing, parent, segs) && dir != []
    decreases |segs|
  {
    && (Searchable(parent) ==>
          DirStart(b, parent) == dir[0] || forall c :: c in ChainOf(b, d, DirStart(b, parent)) ==> c !in dir)
    && (segs != [] ==>
          var next := Followed(Writing, parent, Lookup(b, d, parent, segs[0]));
          next.Some? ==> Apart(b, d, next.value, segs[1..], dir))
  }

  /** The conditions on a new file: its name is absent from the directory, is one a scan can return, and
      the sector that takes the entry obeys the format's end rule. */
  ghost predicate NewFile(b: Boot, d0: Disk, d1: Disk, d2: Disk, w: Written) {
    && DataWritten(b, d0, d1, w) && EntryWritten(b, d0, d1, d2, w) && Volume(b, d2)
    && Located(b, d0, w.dir, w.name, w.ext) == NotFound
    && Listed(NewEntry(w))
    && Terminated(FileSectors(b, d0, w.dir)[w.k])
    && Text(w.name) && Text(w.ext)
  }

  lemma NewEntryFacts(w: Written)
    requires w.chain != [] && w.chain[0] < U32 && w.size < U32
    ensures var e := NewEntry(w);
            && e[..8] == w.name && e[8..11] == w.ext && !IsDirectory(e) && Named(e, w.name, w.ext)
            && ClusterOf(e) == w.chain[0] && SizeOf(e) == w.size
  {
    CreateEntryFields(w.name, w.ext, w.chain[0], w.size, ARCHIVE);
  }

  /** A name that was found in the parent is not the new name. */
  lemma FoundIsOther(b: Boot, d0: Disk, d1: Disk, d2: Disk, w: Written, seg: seq<byte>)
    requires NewFile(b, d0, d1, d2, w) && Text(seg)
    requires Located(b, d0, w.dir, NameOf(seg), ExtOf(seg)) != NotFound
    ensures !Named(NewEntry(w), NameOf(seg), ExtOf(seg))
  {
    NewEntryFacts(w);
    NamesAreText(seg);
    hide GoodBoot, NameOf, ExtOf, NewEntry, DataWritten, EntryWritten, FileSectors, FindIn;
    if NcsSame(w.name, NameOf(seg)) && NcsSame(w.ext, ExtOf(seg)) {
      SameFoundIn(FileSectors(b, d0, w.dir), w.name, w.ext, NameOf(seg), ExtOf(seg), 0);
    }
  }

  /** Lookups on the way to the parent are not disturbed by the write. */
  lemma LookupKept(b: Boot, d0: Disk, d1: Disk, d2: Disk, w: Written, parent: Option<Entry>, seg: seq<byte>)
    requires NewFile(b, d0, d1, d2, w) && Text(seg) && Searchable(parent)
    requires HasChain(b, d0, DirStart(b, parent))
    requires DirStart(b, parent) == w.dir[0] || forall c :: c in ChainOf(b, d0, DirStart(b, parent)) ==> c !in w.dir
    requires Lookup(b, d0, parent, seg) != NotFound || DirStart(b, parent) != w.dir[0]
    ensures HasChain(b, d2, DirStart(b, parent))
    ensures Lookup(b, d2, parent, seg) == Lookup(b, d0, parent, seg)
  {
    hide GoodBoot, NameOf, ExtOf, NewEntry, FileSectors, FindIn, LocationOf, Next, FileData, ClusterCount, TableGrown,
         DataKept, FileHolds, Padded, SectorOf, FreeIn, PutEntry, Times;
    var cs := ChainOf(b, d0, DirStart(b, parent));
    if DirStart(b, parent) == w.dir[0] {
      ChainUnique(b, d0, cs, w.dir);
      FoundIsOther(b, d0, d1, d2, w, seg);
      OtherNamesLocated(b, d0, d1, d2, w, cs, NameOf(seg), ExtOf(seg));
      ChainOfIs(b, d2, cs);
    } else {
      OtherFilesKept(b, d0, d1, d2, w, cs);
      ChainOfIs(b, d2, cs);
      LocatedKept(b, d0, d1, d2, w, cs, NameOf(seg), ExtOf(seg));
    }
  }

  lemma LocatedKept(b: Boot, d0: Disk, d1: Disk, d2: Disk, w: Written, cs: seq<nat>, name: Name, ext: Ext)
    requires DataWritten(b, d0, d1, w) && EntryWritten(b, d0, d1, d2, w) && Volume(b, d2)
    requires IsChain(b, d0, cs) && forall c :: c in cs ==> c !in w.dir
    ensures IsChain(b, d2, cs)
    ensures Located(b, d2, cs, name, ext) == Located(b, d0, cs, name, ext)
  {
    hide GoodBoot, NewEntry, FindIn, DataWritten, EntryWritten, Next, ClusterCount, FileSectors, EntryAt, Quot, Rem;
    OtherFilesKept(b, d0, d1, d2, w, cs);
  }

  /** The walk of the reader over the new path, on the new disk. */
  lemma {:induction false} NewPathRead(b: Boot, d0: Disk, d1: Disk, d2: Disk, w: Written,
                                       parent: Option<Entry>, segs: seq<seq<byte>>, file: seq<byte>, mode: Mode)
    requires NewFile(b, d0, d1, d2, w) && Searchable(parent) && mode != Writing
    requires forall q :: 0 <= q < |segs| ==> Text(segs[q])
    requires NameOf(file) == w.name && ExtOf(file) == w.ext
    requires Walkable(b, d0, Writing, parent, segs) && Apart(b, d0, parent, segs, w.dir)
    requires var p := Walk(b, d0, Writing, parent, segs);
             p.Some? && DirStart(b, p.value) == w.dir[0]
    ensures Walkable(b, d2, mode, parent, segs + [file])
    ensures var p := Walk(b, d0, Writing, parent, segs).value;
            && Searchable(p) && HasChain(b, d2, DirStart(b, p))
            && Lookup(b, d2, p, file).Location? && Lookup(b, d2, p, file).dir == NewEntry(w)
            && Walk(b, d2, mode, parent, segs + [file]) == Some(if mode == Reading then p else Some(NewEntry(w)))
    decreases |segs|
  {
    hide GoodBoot, NameOf, ExtOf, NewEntry, FileSectors, FindIn, LocationOf, Next, Lookup, HasChain, IsDirectory,
         ClusterCount, Terminated, Listed, TableGrown, DataKept, FileHolds, Padded, SectorOf, FreeIn, PutEntry, Times;
    var all := segs + [file];
    if segs == [] {
      NewFileLookup(b, d0, d1, d2, w, parent, file);
      assert all[0] == file && all[1..] == [];
      LastStep(b, d2, mode, parent, all, NewEntry(w));
    } else {
      var e := Lookup(b, d0, parent, segs[0]).dir;
      LookupKept(b, d0, d1, d2, w, parent, segs[0]);
      NewPathRead(b, d0, d1, d2, w, Some(e), segs[1..], file, mode);
      assert all[0] == segs[0] && all[1..] == segs[1..] + [file];
    }
  }

  lemma NewFileLookup(b: Boot, d0: Disk, d1: Disk, d2: Disk, w: Written, parent: Option<Entry>, file: seq<byte>)
    requires NewFile(b, d0, d1, d2, w) && Searchable(parent) && DirStart(b, parent) == w.dir[0]
    requires NameOf(file) == w.name && ExtOf(file) == w.ext
    ensures HasChain(b, d2, DirStart(b, parent))
    ensures Lookup(b, d2, parent, file).Location? && Lookup(b, d2, parent, file).dir == NewEntry(w)
    ensures !IsDirectory(NewEntry(w))
  {
    NewEntryFacts(w);
    hide GoodBoot, NameOf, ExtOf, NewEntry, FileSectors, FindIn, DataWritten, EntryWritten, Next, IsDirectory, Quot,
         Rem, Terminated, Listed;
    NewFileLocated(b, d0, d1, d2, w);
    ChainOfIs(b, d2, w.dir);
  }

  lemma LastStep(b: Boot, d: Disk, mode: Mode, parent: Option<Entry>, segs: seq<seq<byte>>, e: Entry)
    requires Volume(b, d) && mode != Writing && |segs| == 1
    requires Searchable(parent) && HasChain(b, d, DirStart(b, parent))
    requires Lookup(b, d, parent, segs[0]).Location? && Lookup(b, d, parent, segs[0]).dir == e && !IsDirectory(e)
    ensures Walkable(b, d, mode, parent, segs)
    ensures Walk(b, d, mode, parent, segs) == Some(if mode == Reading then parent else Some(e))
  {
    hide GoodBoot, Lookup, HasChain, IsDirectory;
    var next := Followed(mode, parent, Lookup(b, d, parent, segs[0])).value;
    assert segs[1..] == [];
    assert Walkable(b, d, mode, next, []);
    assert Walk(b, d, mode, next, []) == Some(next);
  }

  /** What a caller can check before writing a new file under a path. */
  ghost predicate Fresh(b: Boot, d: Disk, path: seq<byte>)
    requires Volume(b, d) && Walkable(b, d, Writing, None, Segments(DirPart(Cut(path))))
  {
    var file := FilePart(Cut(path));
    && Text(path) && file != []
    && NameOf(file)[0] != UNUSED && ExtOf(file)[2] != LONG_NAME
    && (Walk(b, d, Writing, None, Segments(DirPart(Cut(path)))).Some? ==>
          var dir := ParentChain(b, d, path);
          && Located(b, d, dir, NameOf(file), ExtOf(file)) == NotFound
          && Apart(b, d, None, Segments(DirPart(Cut(path))), dir)
          && forall j :: 0 <= j < |FileSectors(b, d, dir)| ==> Terminated(FileSectors(b, d, dir)[j]))
  }

  /** The write recorded in w went to the place the path names. */
  ghost predicate WrittenAt(b: Boot, d0: Disk, path: seq<byte>, w: Written)
    requires Volume(b, d0) && Walkable(b, d0, Writing, None, Segments(DirPart(Cut(path))))
  {
    && Walk(b, d0, Writing, None, Segments(DirPart(Cut(path)))).Some?
    && w.dir == ParentChain(b, d0, path)
    && w.name == NameOf(FilePart(Cut(path))) && w.ext == ExtOf(FilePart(Cut(path)))
  }

  lemma PathText(path: seq<byte>)
    requires Text(path)
    ensures Text(DirPart(Cut(path))) && Text(FilePart(Cut(path)))
  {
  }

  lemma FreshIsNew(b: Boot, d0: Disk, d1: Disk, d2: Disk, path: seq<byte>, w: Written)
    requires DataWritten(b, d0, d1, w) && EntryWritten(b, d0, d1, d2, w) && Volume(b, d2)
    requires Walkable(b, d0, Writing, None, Segments(DirPart(Cut(path))))
    requires Fresh(b, d0, path) && WrittenAt(b, d0, path, w)
    ensures NewFile(b, d0, d1, d2, w)
  {
    PathText(path);
    NamesAreText(FilePart(Cut(path)));
    CreateEntryFields(w.name, w.ext, w.chain[0], w.size, ARCHIVE);
    var e := NewEntry(w);
    assert e[0] == e[..8][0] && e[10] == e[8..11][2];
    hide GoodBoot, NameOf, ExtOf, NewEntry, FileSectors, FindIn, LocationOf, Next, ClusterCount, Walk, Walkable, Apart,
         Segments, Terminated, Cut, DirPart, FilePart, TableGrown, DataKept, FileHolds, Padded, SectorOf, PutEntry,
         Times, CreateEntry;
  }

  /** The boot sector is not among the sectors a write touches. */
  lemma BootKept(b: Boot, d0: Disk, d1: Disk, d2: Disk, w: Written)
    requires DataWritten(b, d0, d1, w) && EntryWritten(b, d0, d1, d2, w) && Volume(b, d2)
    ensures |d0| > 0 && d2[0] == d0[0]
  {
    EntryChanges(b, d0, d1, d2, w);
    GeometryExact(b);
    hide ClusterCount, FileSectors, Times, Identify, RootDirSize, TableGrown, FileHolds, Padded, Next, FatSize,
         SectorOf, FreeIn, PutEntry, NewEntry, ClusterSectors;
    var c :| c in w.dir && Cluster(b, c) && c !in w.chain && DataKept(b, d1, d2, [c]);
    assert !InFats(b, 0) && !InData(b, 0);
  }

  /** The path of a new file leads to its entry, for the reader and for the sizer. */
  lemma NewPathFound(b: Boot, d0: Disk, d1: Disk, d2: Disk, path: seq<byte>, w: Written)
    requires NewFile(b, d0, d1, d2, w)
    requires Walkable(b, d0, Writing, None, Segments(DirPart(Cut(path))))
    requires Fresh(b, d0, path) && WrittenAt(b, d0, path, w)
    ensures var segs := Segments(Cut(path));
            && segs != []
            && Walkable(b, d2, Reading, None, segs) && Walk(b, d2, Reading, None, segs).Some?
            && LastFound(b, d2, segs).Location? && LastFound(b, d2, segs).dir == NewEntry(w)
            && Walkable(b, d2, Sizing, None, segs)
            && Walk(b, d2, Sizing, None, segs) == Some(Some(NewEntry(w)))
  {
    hide GoodBoot, NameOf, ExtOf, NewEntry, FileSectors, FindIn, LocationOf, Next, Lookup, IsDirectory, ClusterCount,
         Cut, DirPart, FilePart, Terminated, Listed, TableGrown, DataKept, FileHolds, Padded, SectorOf, FreeIn,
         PutEntry, Times, Walk, Walkable, Apart, Segments, ClusterOf, SizeOf, HasChain;
    var dirs, file := Segments(DirPart(Cut(path))), FilePart(Cut(path));
    PathText(path);
    SegmentsAreText(DirPart(Cut(path)));
    PathSegments(Cut(path));
    NewPathRead(b, d0, d1, d2, w, None, dirs, file, Reading);
    NewPathRead(b, d0, d1, d2, w, None, dirs, file, Sizing);
    assert (dirs + [file])[|dirs|] == file;
  }

  /** The write-then-read law.  After a new file is written under a path, reading that path returns its
      bytes and sizing it returns their number. */
  lemma WriteReadRoundTrip(b: Boot, d0: Disk, d1: Disk, d2: Disk, path: seq<byte>, w: Written)
    requires DataWritten(b, d0, d1, w) && EntryWritten(b, d0, d1, d2, w) && Volume(b, d2)
    requires Walkable(b, d0, Writing, None, Segments(DirPart(Cut(path))))
    requires Fresh(b, d0, path) && WrittenAt(b, d0, path, w)
    ensures var segs := Segments(Cut(path));
            && Readable(b, d2, segs)
            && FileAt(b, d2, segs) == Some(NewEntry(w))
            && Walkable(b, d2, Sizing, None, segs)
            && Walk(b, d2, Sizing, None, segs) == Some(Some(NewEntry(w)))
    ensures SizeOf(NewEntry(w)) == w.size <= |w.data|
    ensures HasTrail(b, d2, ClusterOf(NewEntry(w))) && TrailOf(b, d2, ClusterOf(NewEntry(w))) == w.chain
    ensures TrailData(b, d2, w.chain, w.size) == w.data[..w.size]
    ensures TrailSectors(b, d2, w.chain) == FileSectors(b, d2, w.chain)
  {
    hide GoodBoot, NewEntry, FileSectors, FindIn, Next, ClusterCount, Cut, Segments, DirPart, TableGrown, DataKept,
         FileHolds, Padded, SectorOf, FreeIn, PutEntry, Times, Walk, Walkable, FileData, ClusterOf, SizeOf, Fresh,
         LastFound, WrittenAt, NewFile;
    FreshIsNew(b, d0, d1, d2, path, w);
    NewEntryFacts(w);
    WrittenReadsBack(b, d0, d1, d2, w);
    NewPathFound(b, d0, d1, d2, path, w);
    TrailOfChain(b, d2, w.chain);
    ChainIsTrail(b, d2, w.chain, w.size);
  }

  /** The clusters of a new file are as many as its size needs. */
  lemma WrittenLength(b: Boot, d0: Disk, d1: Disk, d2: Disk, w: Written)
    requires DataWritten(b, d0, d1, w) && Volume(b, d2)
    ensures Times(b.sectorsPerCluster, b.bytesPerSector) > 0
    ensures |FileSectors(b, d2, w.chain)|
            == Times(Ceil(w.size, Times(b.sectorsPerCluster, b.bytesPerSector)), b.sectorsPerCluster)
    ensures |FileSectors(b, d2, w.chain)| > 0
  {
    hide GoodBoot, Times, Ceil, TableGrown, DataKept, FileHolds, Padded, FileSectors, ClusterCount;
    FileSectorsSized(b, d2, w.chain);
    var bpc := Times(b.sectorsPerCluster, b.bytesPerSector);
    BytesPerCluster(b);
    CeilLeast(w.size, bpc, |w.chain|);
    CeilLeast(w.size, bpc, |w.chain| - 1);
  }

  lemma BytesPerCluster(b: Boot)
    requires GoodBoot(b)
    ensures Times(b.sectorsPerCluster, b.bytesPerSector) > 0
  {
    hide Identify, ClusterCount, TotalSectors, FatSize, RootDirSize;
    TimesMono(0, b.sectorsPerCluster, b.bytesPerSector);
  }

  /** Reading back a file of this size copies past the end of its block. */
  predicate Overruns(b: Boot, size: nat)
    requires Times(b.sectorsPerCluster, b.bytesPerSector) > 0 && size > 0
  {
    var sectors := Times(Ceil(size, Times(b.sectorsPerCluster, b.bytesPerSector)), b.sectorsPerCluster);
    sectors > 0 && Times(sectors - 1, b.bytesPerSector) > size
  }

  /** With one sector to a cluster no read overruns. */
  lemma SingleSectorClusters(b: Boot, size: nat)
    requires b.sectorsPerCluster == 1 && b.bytesPerSector > 0 && size > 0
    ensures Times(b.sectorsPerCluster, b.bytesPerSector) == b.bytesPerSector
    ensures !Overruns(b, size)
  {
    var bps := b.bytesPerSector;
    assert Times(1, bps) == bps;
    TimesIsProduct(Ceil(size, bps), 1);
    CeilLeast(size, bps, 0);
    if Ceil(size, bps) > 0 {
      CeilLeast(size, bps, Ceil(size, bps) - 1);
    }
  }

  /** Writing a new file and reading it back, on one drive. */
  method WriteThenRead(drive: Drive, path: seq<byte>, data: seq<byte>, size: nat)
    returns (status: int, contents: array?<byte>, overrun: bool, n: nat)
    requires Online(drive)
    requires Writable(BootOf(drive.disk[0]), drive.disk, path, data, size)
    requires Fresh(BootOf(drive.disk[0]), drive.disk, path) && SlotFits(BootOf(drive.disk[0]), drive.disk, path)
    modifies drive, drive.bufferA
    ensures var b := BootOf(old(drive.disk)[0]);
            status == 0 ==>
              && size <= |data|
              && contents != null && contents[..] == data[..size] + [0]
              && n == size
              && Times(b.sectorsPerCluster, b.bytesPerSector) > 0 && size > 0 && (overrun <==> Overruns(b, size))
  {
    hide GoodBoot, NewEntry, FileSectors, Next, ClusterCount, Cut, Segments, DirPart, FilePart, FreeIn, TableGrown,
         DataKept, FileHolds, Padded, Times, Ceil, Walk, Walkable, TrailData, TrailSectors, ClusterOf, SizeOf, Fresh,
         LastFound, EntryWritten, NameOf, ExtOf, Readable, FileAt;
    contents, overrun, n := null, false, 0;
    ghost var d0 := drive.disk;
    ghost var b := BootOf(d0[0]);
    ghost var d1, w;
    status, d1, w := IDEWriteFile(drive, path, data, size);
    if status == 0 {
      WriteReadRoundTrip(b, d0, d1, drive.disk, path, w);
      BootKept(b, d0, d1, drive.disk, w);
      WrittenLength(b, d0, d1, drive.disk, w);
      contents, overrun := IDEReadFile(drive, path);
      n := IDEFileSize(drive, path);
    }
  }
}
