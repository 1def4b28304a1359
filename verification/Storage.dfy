/** The file operations of storage.c on a drive. */
module Storage {
  import opened Arith
  import opened Bytes
  import opened FatVolume
  import opened FatTable
  import opened FatFiles
  import opened FatDirectory
  import opened FatLookup
  import opened FatAllocate
  import opened FatWrite
  import opened FatRead
  import opened FatLaws
  import opened FatPaths
  import opened Drives

  /** The drive holds a volume described by its own boot sector. */
  ghost predicate Online(drive: Drive)
    reads drive
  {
    |drive.disk| > 0 && |drive.disk[0]| >= 512 && Mounted(BootOf(drive.disk[0]), drive)
  }

  method FatReadBootSector(drive: Drive) returns (b: Boot)
    requires Online(drive)
    modifies drive`lba, drive.bufferA
    ensures b == BootOf(drive.disk[0]) && Mounted(b, drive)
  {
    hide GoodBoot;
    drive.SMReadFrom(0);
    b := BootOf(drive.bufferA[..drive.sectorSize]);
  }

  /** The segment loop shared by the three path operations. */
  method WalkPath(b: Boot, drive: Drive, mode: Mode, segs: seq<seq<byte>>) returns (r: Option<Option<Entry>>)
    requires Mounted(b, drive) && Walkable(b, drive.disk, mode, None, segs)
    modifies drive`lba, drive.bufferA
    ensures r == Walk(b, drive.disk, mode, None, segs)
  {
    hide GoodBoot, Located, HasChain, IsChain, Followed, NameOf, ExtOf;
    var i := 0;
    var parent: Option<Entry> := None;
    while i < |segs|
      invariant 0 <= i <= |segs|
      invariant Walkable(b, drive.disk, mode, parent, segs[i..])
      invariant Walk(b, drive.disk, mode, None, segs) == Walk(b, drive.disk, mode, parent, segs[i..])
    {
      ghost var chain := if Searchable(parent) then ChainOf(b, drive.disk, DirStart(b, parent)) else [];
      assert segs[i..][0] == segs[i] && segs[i..][1..] == segs[i + 1..];
      var loc := FatLocateInDir(NameOf(segs[i]), ExtOf(segs[i]), b, drive, parent, chain);
      var next := Followed(mode, parent, loc);
      if next.None? {
        return None;
      }
      parent := next.value;
      i := i + 1;
    }
    return Some(parent);
  }

  lemma {:induction false} WalkEnds(b: Boot, d: Disk, mode: Mode, parent: Option<Entry>, segs: seq<seq<byte>>)
    requires Volume(b, d) && Walkable(b, d, mode, parent, segs)
    requires mode != Sizing && Searchable(parent)
    ensures var r := Walk(b, d, mode, parent, segs);
            r.Some? ==> Searchable(r.value) && HasChain(b, d, DirStart(b, r.value))
    decreases |segs|
  {
    hide GoodBoot, HasChain, Lookup;
    if segs != [] {
      var next := Followed(mode, parent, Lookup(b, d, parent, segs[0]));
      if next.Some? {
        WalkEnds(b, d, mode, next.value, segs[1..]);
      }
    }
  }

  /** The answer for the last segment of a path that was walked to its end. */
  ghost function LastFound(b: Boot, d: Disk, segs: seq<seq<byte>>): Location
    requires Volume(b, d) && Walkable(b, d, Reading, None, segs)
    requires segs != [] && Walk(b, d, Reading, None, segs).Some?
  {
    WalkEnds(b, d, Reading, None, segs);
    Lookup(b, d, Walk(b, d, Reading, None, segs).value, segs[|segs| - 1])
  }

  /** FATFileLocation's entry: the one found, or zeros. */
  function EntryOf(loc: Location): Entry {
    if loc.Location? then loc.dir else ZeroEntry()
  }

  function ZeroEntry(): (e: Entry)
    ensures ClusterOf(e) == 0 && SizeOf(e) == 0
  {
    seq<byte>(32, _ => 0)
  }

  /** The first cluster of an entry can be read from: it begins a chain, or is cluster 0. */
  ghost predicate HasTrail(b: Boot, d: Disk, c: nat)
    requires Volume(b, d)
  {
    HasChain(b, d, c) || (c == 0 && ZeroReads(b, d))
  }

  ghost function TrailOf(b: Boot, d: Disk, c: nat): (cs: seq<nat>)
    requires Volume(b, d) && HasTrail(b, d, c)
    ensures IsTrail(b, d, cs) && cs[0] == c
  {
    if c == 0 && ZeroReads(b, d) then [0] else ChainOf(b, d, c)
  }

  lemma TrailOfChain(b: Boot, d: Disk, cs: seq<nat>)
    requires Volume(b, d) && IsChain(b, d, cs)
    ensures HasTrail(b, d, cs[0]) && TrailOf(b, d, cs[0]) == cs
  {
    assert Cluster(b, cs[0]);
    ChainOfIs(b, d, cs);
  }

  /** The path stops early, or the entry its last segment gives, in the directory the walk arrived at, can be read.
      A last segment that names a directory is looked up inside that directory; when nothing is found there, the
      entry is all zeros. */
  ghost predicate Readable(b: Boot, d: Disk, segs: seq<seq<byte>>)
    requires Volume(b, d)
  {
    && Walkable(b, d, Reading, None, segs)
    && (segs != [] && Walk(b, d, Reading, None, segs).Some? ==>
          var e := EntryOf(LastFound(b, d, segs));
          HasTrail(b, d, ClusterOf(e)) && SizeOf(e) + 1 < U32)
  }

  /** The entry IDEReadFile reads, if it reads one. */
  ghost function FileAt(b: Boot, d: Disk, segs: seq<seq<byte>>): (e: Option<Entry>)
    requires Volume(b, d) && Readable(b, d, segs)
    ensures e.Some? ==> HasTrail(b, d, ClusterOf(e.value))
  {
    if segs == [] || Walk(b, d, Reading, None, segs).None? then None else Some(EntryOf(LastFound(b, d, segs)))
  }

  /** A path whose hops lead from the root to a plain file reads and sizes as that file. */
  lemma PathLeads(b: Boot, d: Disk, hops: seq<Hop>)
    requires Volume(b, d) && hops != [] && Leads(b, d, b.rootCluster, hops)
    requires var e := hops[|hops| - 1].entry;
             !IsDirectory(e) && HasTrail(b, d, ClusterOf(e)) && SizeOf(e) + 1 < U32
    ensures Readable(b, d, SegmentsOf(hops))
    ensures FileAt(b, d, SegmentsOf(hops)) == Some(hops[|hops| - 1].entry)
    ensures Walkable(b, d, Sizing, None, SegmentsOf(hops))
    ensures Walk(b, d, Sizing, None, SegmentsOf(hops)) == Some(Some(hops[|hops| - 1].entry))
  {
    hide Volume, Walk, Walkable, Lookup, Leads, HasTrail, HasChain, IsDirectory, ClusterOf, SizeOf;
    ReadingLeads(b, d, None, hops);
    SizingLeads(b, d, None, hops);
  }

  /** A path that arrives at a directory and finds nothing of that name in it reads as an empty file. */
  lemma DirectoryReadsEmpty(b: Boot, d: Disk, segs: seq<seq<byte>>)
    requires Volume(b, d) && Walkable(b, d, Reading, None, segs) && ZeroReads(b, d)
    requires segs != [] && Walk(b, d, Reading, None, segs).Some? && LastFound(b, d, segs) == NotFound
    ensures Readable(b, d, segs) && FileAt(b, d, segs) == Some(ZeroEntry())
    ensures SizeOf(ZeroEntry()) == 0 && TrailOf(b, d, ClusterOf(ZeroEntry())) == [0] && TrailData(b, d, [0], 0) == []
  {
    hide GoodBoot, Walk, Walkable, LastFound, HasChain, ZeroReads, FileBytes;
  }

  method IDEReadFile(drive: Drive, path: seq<byte>) returns (data: array?<byte>, overrun: bool)
    requires Online(drive)
    requires Readable(BootOf(drive.disk[0]), drive.disk, Segments(Cut(path)))
    modifies drive`lba, drive.bufferA
    ensures var b := BootOf(drive.disk[0]);
            var e := FileAt(b, drive.disk, Segments(Cut(path)));
            && (data == null <==> e.None?)
            && (data != null ==> fresh(data))
            && (data != null ==>
                  var trail := TrailOf(b, drive.disk, ClusterOf(e.value));
                  && data[..] == TrailData(b, drive.disk, trail, SizeOf(e.value)) + [0]
                  && (overrun <==> Times(|TrailSectors(b, drive.disk, trail)| - 1, b.bytesPerSector) > SizeOf(e.value)))
  {
    hide GoodBoot, Located, HasChain, IsChain, IsTrail, TrailData, TrailSectors, Walk, Walkable, NameOf, ExtOf,
         ClusterOf, SizeOf, Segments;
    data, overrun := null, false;
    var b := FatReadBootSector(drive);
    var segs := Segments(Cut(path));
    var parent := WalkPath(b, drive, Reading, segs);
    if parent.None? || segs == [] {
      return;
    }
    WalkEnds(b, drive.disk, Reading, None, segs);
    var last := segs[|segs| - 1];
    var loc := FatLocateInDir(NameOf(last), ExtOf(last), b, drive, parent.value,
        ChainOf(b, drive.disk, DirStart(b, parent.value)));
    var e := EntryOf(loc);
    data, overrun := ReadChain(b, drive, ClusterOf(e), SizeOf(e), TrailOf(b, drive.disk, ClusterOf(e)));
  }

  method IDEFileSize(drive: Drive, path: seq<byte>) returns (n: nat)
    requires Online(drive)
    requires Walkable(BootOf(drive.disk[0]), drive.disk, Sizing, None, Segments(Cut(path)))
    modifies drive`lba, drive.bufferA
    ensures var r := Walk(BootOf(drive.disk[0]), drive.disk, Sizing, None, Segments(Cut(path)));
            n == if r.Some? && r.value.Some? then SizeOf(r.value.value) else 0
  {
    hide GoodBoot, Walk, Walkable, Segments, SizeOf;
    var b := FatReadBootSector(drive);
    var r := WalkPath(b, drive, Sizing, Segments(Cut(path)));
    n := if r.Some? && r.value.Some? then SizeOf(r.value.value) else 0;
  }

  /** What IDEWriteFile needs of its volume and buffer: directories on the way and the parent have well-formed
      chains, and the packed place of the entry, if one is packed, names a cluster. */
  ghost predicate Writable(b: Boot, d: Disk, path: seq<byte>, data: seq<byte>, size: nat)
    requires Volume(b, d)
  {
    && Padded(data, size, b.bytesPerSector) && size < U32 - 1
    && Walkable(b, d, Writing, None, Segments(DirPart(Cut(path))))
    && var r := Walk(b, d, Writing, None, Segments(DirPart(Cut(path))));
    r.Some? && Fits(b, d, size) ==>
      var p := PackedAt(b, d, ParentChain(b, d, path)); p == 0 || Cluster(b, p / U16)
  }

  /** What FatFindFreeEntry packs for a directory; 0 when its chain has no free slot. */
  ghost function PackedAt(b: Boot, d: Disk, dir: seq<nat>): (p: nat)
    requires Volume(b, d) && AllClusters(b, dir)
  {
    SlotRange(b, d, dir);
    PackedSlot(b, dir, FreeIn(FileSectors(b, d, dir), 0))
  }

  /** The entry went to the slot that a packed place names. */
  ghost predicate StoredAt(b: Boot, d1: Disk, d2: Disk, p: nat, e: Entry)
    requires b.bytesPerSector > 0 && p / U16 >= 2
  {
    var x := ClusterStart(b, p / U16) + p / 0x100 % 0x100;
    x < |d1| && p % 0x100 < Slots(d1[x]) && d2 == d1[x := PutEntry(d1[x], p % 0x100, e)]
  }

  /** The new entry's place survives the packing. */
  ghost predicate SlotFits(b: Boot, d: Disk, path: seq<byte>)
    requires Volume(b, d) && Walkable(b, d, Writing, None, Segments(DirPart(Cut(path))))
  {
    Walk(b, d, Writing, None, Segments(DirPart(Cut(path)))).Some? ==> SlotCluster(b, d, ParentChain(b, d, path)) < U16
  }

  /** The cluster of a directory that holds its first free slot; 0 when none does. */
  ghost function SlotCluster(b: Boot, d: Disk, dir: seq<nat>): (c: nat)
    requires Volume(b, d) && AllClusters(b, dir)
  {
    SlotRange(b, d, dir);
    var r := FreeIn(FileSectors(b, d, dir), 0);
    if r.Some? then dir[Quot(r.value.0, b.sectorsPerCluster)] else 0
  }

  /** The chain of the directory a path is to be written into. */
  ghost function ParentChain(b: Boot, d: Disk, path: seq<byte>): (cs: seq<nat>)
    requires Volume(b, d) && Walkable(b, d, Writing, None, Segments(DirPart(Cut(path))))
    requires Walk(b, d, Writing, None, Segments(DirPart(Cut(path)))).Some?
    ensures IsChain(b, d, cs)
    ensures cs[0] == DirStart(b, Walk(b, d, Writing, None, Segments(DirPart(Cut(path)))).value)
  {
    WalkEnds(b, d, Writing, None, Segments(DirPart(Cut(path))));
    ChainOf(b, d, DirStart(b, Walk(b, d, Writing, None, Segments(DirPart(Cut(path)))).value))
  }

  /** The clusters that size bytes need are there. */
  ghost predicate Fits(b: Boot, d: Disk, size: nat)
    requires Volume(b, d)
  {
    var bpc := Times(b.sectorsPerCluster, b.bytesPerSector);
    0 < size && 0 < bpc && Ceil(size, bpc) <= |FreeSet(b, d)|
  }

  /** Where the packed place lies: in the cluster of the free slot when its number is below 65536, and otherwise in
      the one that is left of it. */
  lemma PackedPlace(b: Boot, d: Disk, dir: seq<nat>)
    requires Volume(b, d) && AllClusters(b, dir)
    ensures var r, p, c := FreeIn(FileSectors(b, d, dir), 0), PackedAt(b, d, dir), SlotCluster(b, d, dir);
            && p < U32
            && (r.None? ==> p == 0)
            && (r.Some? ==>
                  && p / U16 == c % U16
                  && p / 0x100 % 0x100 == Rem(r.value.0, b.sectorsPerCluster) < b.sectorsPerCluster
                  && p % 0x100 == r.value.1 < b.bytesPerSector / 32)
            && (c < U16 ==> (p == 0 <==> r.None?))
            && (c >= U16 ==> p / U16 != c)
  {
    hide ClusterCount, Identify, TotalSectors, FatSize, RootDirSize, Quot, Rem, Pack, FileSectors, FreeIn, FirstData;
    SlotRange(b, d, dir);
    var r := FreeIn(FileSectors(b, d, dir), 0);
    if r.Some? {
      PackFits(SlotCluster(b, d, dir), Rem(r.value.0, b.sectorsPerCluster), r.value.1);
      PackLow(SlotCluster(b, d, dir), Rem(r.value.0, b.sectorsPerCluster), r.value.1);
    }
  }

  /** Storing the entry of a finished write at the slot the directory scan packed. */
  method StoreEntry(b: Boot, drive: Drive, location: nat, entry: Entry, ghost d0: Disk, ghost dir: seq<nat>)
    requires Mounted(b, drive) && Volume(b, d0) && AllClusters(b, dir)
    requires location == PackedAt(b, d0, dir) != 0 && Cluster(b, location / U16)
    modifies drive, drive.bufferA
    ensures Mounted(b, drive) && StoredAt(b, old(drive.disk), drive.disk, location, entry)
  {
    hide ClusterCount, FileSectors, Times, Quot, Rem, Identify, TotalSectors, FatSize, RootDirSize, FreeIn, PutEntry,
         FirstData, Pack, ClusterStart, PackedAt;
    PackedPlace(b, d0, dir);
    FatWriteDirectoryEntry(b, location, entry, drive);
  }

  /** When the place survives the packing, the entry is where the scan found room. */
  lemma StoredIsWritten(b: Boot, d0: Disk, d1: Disk, d2: Disk, w: Written)
    requires DataWritten(b, d0, d1, w) && IsChain(b, d0, w.dir) && SlotCluster(b, d0, w.dir) < U16
    requires FreeIn(FileSectors(b, d0, w.dir), 0) == Some((w.k, w.i)) && w.chain[0] < U32
    requires PackedAt(b, d0, w.dir) / U16 >= 2 && StoredAt(b, d1, d2, PackedAt(b, d0, w.dir), NewEntry(w))
    ensures EntryWritten(b, d0, d1, d2, w)
  {
    hide ClusterCount, FileSectors, Times, Quot, Rem, Identify, TotalSectors, FatSize, RootDirSize, TableGrown,
         DataKept, FileHolds, Padded, NewEntry, Next, FreeIn, PutEntry, FirstData, Pack, ClusterStart, PackedAt;
    PackedPlace(b, d0, w.dir);
    SlotRange(b, d0, w.dir);
    assert w.k < Times(|w.dir|, b.sectorsPerCluster);
    assert ClusterStart(b, SlotCluster(b, d0, w.dir)) + Rem(w.k, b.sectorsPerCluster) == SectorOf(b, w.dir, w.k);
  }

  method IDEWriteFile(drive: Drive, path: seq<byte>, data: seq<byte>, size: nat)
    returns (status: int, ghost d1: Disk, ghost w: Written)
    requires Online(drive)
    requires Writable(BootOf(drive.disk[0]), drive.disk, path, data, size)
    modifies drive, drive.bufferA
    ensures var b, d0, d := BootOf(old(drive.disk)[0]), old(drive.disk), drive.disk;
            var parent := Walk(b, d0, Writing, None, Segments(DirPart(Cut(path))));
            && Mounted(b, drive)
            && (status == -1 <==> parent.None?)
            && (status == -2 <==> parent.Some? && !Fits(b, d0, size))
            && (status == -3 <==> parent.Some? && Fits(b, d0, size) && PackedAt(b, d0, ParentChain(b, d0, path)) == 0)
            && (status == 0 <==> parent.Some? && Fits(b, d0, size) && PackedAt(b, d0, ParentChain(b, d0, path)) != 0)
            && (status == -1 ==> d == d0)
            && (status == -2 ==> TableGrown(b, d0, d, w.chain) && DataKept(b, d0, d, w.chain))
            && (status == -2 && size == 0 ==> w.chain == [] && d == d0)
            && (status == -2 && size > 0 ==> FreeSet(b, d) == {} && |w.chain| == |FreeSet(b, d0)|)
            && (status == -3 ==> DataWritten(b, d0, d, w))
            && (status == 0 ==> DataWritten(b, d0, d1, w) && w.chain[0] < U32)
            && (status == 0 ==>
                  var p := PackedAt(b, d0, ParentChain(b, d0, path));
                  p / U16 >= 2 && StoredAt(b, d1, d, p, NewEntry(w)))
            && (status == 0 && SlotFits(b, d0, path) ==> EntryWritten(b, d0, d1, d, w))
            && (status == 0 ==> w.data == data && w.size == size && w.dir == ParentChain(b, d0, path))
            && (status == 0 ==> w.name == NameOf(FilePart(Cut(path))) && w.ext == ExtOf(FilePart(Cut(path))))
  {
    hide GoodBoot, ClusterCount, Located, HasChain, FileSectors, Walk, Walkable, NameOf, ExtOf, Segments, TableGrown,
         DataKept, FileHolds, Padded, Times, Quot, Rem, Ceil, CreateEntry, Pack, Next, Cut, DirPart, FilePart, FreeIn;
    ghost var d0 := drive.disk;
    d1 := d0;
    var b := FatReadBootSector(drive);
    var filename := FilePart(Cut(path));
    var name, ext := NameOf(filename), ExtOf(filename);
    w := Written(data, size, name, ext, [], [], 0, 0);
    var r := WalkPath(b, drive, Writing, Segments(DirPart(Cut(path))));
    if r.None? {
      return -1, d1, w;
    }
    ghost var dir := ParentChain(b, d0, path);
    WalkEnds(b, d0, Writing, None, Segments(DirPart(Cut(path))));
    // A name already present is only warned about.
    var _ := FatLocateInDir(name, ext, b, drive, r.value, dir);
    var firstCluster, chain := FatWriteData(b, data, size, drive);
    d1 := drive.disk;
    WriteOutcome(b, d0, d1, chain, size, firstCluster);
    w := Written(data, size, name, ext, chain, dir, 0, 0);
    if firstCluster == 0 {
      return -2, d1, w;
    }
    assert DataWritten(b, d0, d1, w);
    OldChainKept(b, d0, d1, chain, dir);
    ClusterIsWord(b, chain);
    var entry := CreateEntry(name, ext, firstCluster, size, ARCHIVE);
    var location := FatFindFreeEntry(b, DirStart(b, r.value), drive, dir);
    if location == 0 {
      return -3, d1, w;
    }
    PackedPlace(b, d0, dir);
    ghost var slot := FreeIn(FileSectors(b, d0, dir), 0);
    w := Written(data, size, name, ext, chain, dir, slot.value.0, slot.value.1);
    StoreEntry(b, drive, location, entry, d0, dir);
    if SlotCluster(b, d0, dir) < U16 {
      StoredIsWritten(b, d0, d1, drive.disk, w);
    }
    return 0, d1, w;
  }

  lemma ClusterIsWord(b: Boot, chain: seq<nat>)
    requires GoodBoot(b) && AllClusters(b, chain)
    ensures chain != [] ==> chain[0] < U32
  {
    hide ClusterCount, Identify, TotalSectors, FatSize, RootDirSize;
  }
}
