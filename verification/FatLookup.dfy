/** Directory operations of fat.c on a drive: locating a name, finding a free slot, storing an entry. */
module FatLookup {
  import opened Arith
  import opened Bytes
  import opened FatVolume
  import opened FatTable
  import opened FatFiles
  import opened FatDirectory
  import opened Drives
  import opened FatAllocate

  /** FATFileLocation. */
  datatype Location = NotFound | Location(cluster: nat, offset: nat, index: nat, dir: Entry)

  /** The cluster a directory starts at; no parent means the root. */
  function DirStart(b: Boot, parent: Option<Entry>): nat {
    match parent
    case None => b.rootCluster
    case Some(e) => ClusterOf(e)
  }

  /** An entry that is not a directory is never searched. */
  predicate Searchable(parent: Option<Entry>) {
    parent.Some? ==> IsDirectory(parent.value)
  }

  /** The location reported for a search result over the sectors of a directory chain. */
  function LocationOf(b: Boot, d: Disk, chain: seq<nat>, r: Option<(nat, nat)>): Location
    requires Volume(b, d) && AllClusters(b, chain)
    requires r.Some? ==>
               && r.value.0 < |FileSectors(b, d, chain)|
               && r.value.1 < Slots(FileSectors(b, d, chain)[r.value.0])
  {
    match r
    case None => NotFound
    case Some((k, i)) =>
      Split(k, |chain|, b.sectorsPerCluster);
      Location(chain[Quot(k, b.sectorsPerCluster)], Rem(k, b.sectorsPerCluster), i,
          EntryAt(FileSectors(b, d, chain)[k], i))
  }

  /** Where the search for a name ends, as a function of the disk. */
  function Located(b: Boot, d: Disk, chain: seq<nat>, name: Name, ext: Ext): Location
    requires Volume(b, d) && AllClusters(b, chain)
  {
    LocationOf(b, d, chain, FindIn(FileSectors(b, d, chain), name, ext, 0))
  }

  lemma LocationAt(b: Boot, d: Disk, chain: seq<nat>, q: nat, s: nat, i: nat)
    requires Volume(b, d) && AllClusters(b, chain) && q < |chain| && s < b.sectorsPerCluster
    ensures Times(q, b.sectorsPerCluster) + s < |FileSectors(b, d, chain)|
    ensures ClusterStart(b, chain[q]) + s < |d|
    ensures FileSectors(b, d, chain)[Times(q, b.sectorsPerCluster) + s] == d[ClusterStart(b, chain[q]) + s]
    ensures FirstSectorForCluster(b, chain[q]) == ClusterStart(b, chain[q])
    ensures i < Slots(d[ClusterStart(b, chain[q]) + s]) ==>
              LocationOf(b, d, chain, Some((Times(q, b.sectorsPerCluster) + s, i))) ==
              Location(chain[q], s, i, EntryAt(d[ClusterStart(b, chain[q]) + s], i))
  {
    hide ClusterCount, FirstData, Times, Quot, Rem, ClusterStart, FileSectors, EntryAt, FirstSectorForCluster, Identify,
         TotalSectors, FatSize, RootDirSize;
    FileSectorsAt(b, d, chain, q, s);
    ClusterRange(b, chain[q]);
    var k := Times(q, b.sectorsPerCluster) + s;
    Split(k, |chain|, b.sectorsPerCluster);
    PairInjective(q, s, Quot(k, b.sectorsPerCluster), Rem(k, b.sectorsPerCluster), b.sectorsPerCluster);
  }

  /** The buffered copy of sector s of a directory cluster. */
  method ReadDirectorySector(b: Boot, first: nat, s: nat, drive: Drive, ghost chain: seq<nat>, ghost q: nat)
    returns (sector: seq<byte>)
    requires Mounted(b, drive) && AllClusters(b, chain) && q < |chain| && s < b.sectorsPerCluster
    requires first == FirstSectorForCluster(b, chain[q])
    modifies drive`lba, drive.bufferA
    ensures Times(q, b.sectorsPerCluster) + s < |FileSectors(b, drive.disk, chain)|
    ensures sector == FileSectors(b, drive.disk, chain)[Times(q, b.sectorsPerCluster) + s]
  {
    hide ClusterCount, Times, FirstData, ClusterStart, FileSectors, EntryAt, LocationOf, FirstSectorForCluster,
         Identify, TotalSectors, FatSize, RootDirSize;
    LocationAt(b, drive.disk, chain, q, s, 0);
    drive.SMReadFrom(first + s);
    sector := drive.bufferA[..b.bytesPerSector];
  }

  /** The scan of one sector that is already in the buffer. */
  method ScanSector(s: seq<byte>, name: Name, ext: Ext) returns (r: Option<nat>)
    ensures r == FindInSector(s, name, ext, 0)
  {
    hide EntryAt, Named;
    var i := 0;
    while i < Slots(s) && EntryAt(s, i)[0] != 0
      invariant 0 <= i <= Slots(s)
      invariant FindInSector(s, name, ext, 0) == FindInSector(s, name, ext, i)
    {
      var e := EntryAt(s, i);
      if e[0] != UNUSED && e[10] != LONG_NAME && Named(e, name, ext) {
        return Some(i);
      }
      i := i + 1;
    }
    return None;
  }

  /** One step along a directory chain: the sectors passed, and the link that is followed. */
  lemma LinkStep(b: Boot, d: Disk, chain: seq<nat>, q: nat)
    requires Volume(b, d) && IsChain(b, d, chain) && q <= |chain|
    ensures |chain| > 0 && AllClusters(b, chain)
    ensures Times(0, b.sectorsPerCluster) == 0
    ensures Times(q, b.sectorsPerCluster) <= |FileSectors(b, d, chain)| == Times(|chain|, b.sectorsPerCluster)
    ensures q < |chain| ==>
              && Cluster(b, chain[q]) && chain[q] < EOC
              && Times(q + 1, b.sectorsPerCluster) == Times(q, b.sectorsPerCluster) + b.sectorsPerCluster
              && Times(q + 1, b.sectorsPerCluster) <= |FileSectors(b, d, chain)|
              && if q + 1 < |chain| then Next(b, d, chain[q]) == chain[q + 1]
                 else Next(b, d, chain[q]) >= EOC
  {
    hide ClusterCount, Times, FileSectors, Next, Identify, TotalSectors, FatSize, RootDirSize;
    ZeroTimes(b.sectorsPerCluster);
    TimesMono(q, |chain|, b.sectorsPerCluster);
    if q < |chain| {
      ChainLast(b, d, chain, q);
      TimesStep(q, b.sectorsPerCluster);
      TimesMono(q + 1, |chain|, b.sectorsPerCluster);
    }
  }

  method FatLocateInDir(name: Name, ext: Ext, b: Boot, drive: Drive, parent: Option<Entry>, ghost chain: seq<nat>)
    returns (r: Location)
    requires Mounted(b, drive)
    requires Searchable(parent) ==> IsChain(b, drive.disk, chain) && chain[0] == DirStart(b, parent)
    modifies drive`lba, drive.bufferA
    ensures r == if Searchable(parent) then Located(b, drive.disk, chain, name, ext) else NotFound
  {
    hide ClusterCount, Times, FirstData, ClusterStart, FileSectors, FindInSector, EntryAt, LocationOf,
         FirstSectorForCluster, Identify, TotalSectors, FatSize, RootDirSize, IsDirectory, Next, ClusterOf, IsChain,
         AllClusters, FindIn;
    if !Searchable(parent) {
      return NotFound;
    }
    LinkStep(b, drive.disk, chain, 0);
    var cluster := DirStart(b, parent);
    ghost var d, q := drive.disk, 0;
    ghost var dir := FileSectors(b, d, chain);
    while cluster < EOC
      invariant 0 <= q <= |chain|
      invariant q < |chain| ==> cluster == chain[q]
      invariant q == |chain| ==> cluster >= EOC
      invariant Times(q, b.sectorsPerCluster) <= |dir|
      invariant FindIn(dir, name, ext, 0) == FindIn(dir, name, ext, Times(q, b.sectorsPerCluster))
      decreases |chain| - q
    {
      var first := FirstSectorForCluster(b, cluster);
      var s := 0;
      while s < b.sectorsPerCluster
        invariant 0 <= s <= b.sectorsPerCluster
        invariant FindIn(dir, name, ext, 0) == FindIn(dir, name, ext, Times(q, b.sectorsPerCluster) + s)
      {
        var sector := ReadDirectorySector(b, first, s, drive, chain, q);
        var found := ScanSector(sector, name, ext);
        FindInStep(dir, name, ext, Times(q, b.sectorsPerCluster) + s);
        if found.Some? {
          LocationAt(b, d, chain, q, s, found.value);
          return Location(cluster, s, found.value, EntryAt(sector, found.value));
        }
        s := s + 1;
      }
      LinkStep(b, d, chain, q);
      cluster := FatNextCluster(b, cluster, drive);
      q := q + 1;
    }
    LinkStep(b, d, chain, q);
    FindInStep(dir, name, ext, |dir|);
    NoLocation(b, d, chain);
    return NotFound;
  }

  lemma NoLocation(b: Boot, d: Disk, chain: seq<nat>)
    requires Volume(b, d) && AllClusters(b, chain)
    ensures LocationOf(b, d, chain, None) == NotFound
  {
  }

  lemma ZeroTimes(k: nat)
    ensures Times(0, k) == 0
  {
  }

  // ----- Inserting an entry

  /** FatFindFreeEntry's packed result, in a 32-bit word. */
  function Pack(cluster: nat, s: nat, i: nat): (r: nat)
    requires s < 256 && i < 256
    ensures r < U32
  {
    cluster * U16 % U32 + s * 0x100 + i
  }

  /** Unpacking gives back what was packed exactly when the cluster number fits 16 bits. */
  lemma PackFits(cluster: nat, s: nat, i: nat)
    requires s < 256 && i < 256
    ensures var p := Pack(cluster, s, i);
            && p / 0x100 % 0x100 == s && p % 0x100 == i
            && (p / U16 == cluster <==> cluster < U16)
  {
    var c := cluster % U16;
    assert cluster * U16 % U32 == c * U16 by {
      assert cluster * U16 == cluster / U16 * U32 + c * U16;
    }
  }

  /** What is left of the cluster number. */
  lemma PackLow(cluster: nat, s: nat, i: nat)
    requires s < 256 && i < 256
    ensures Pack(cluster, s, i) / U16 == cluster % U16
  {
    var c := cluster % U16;
    assert cluster * U16 % U32 == c * U16 by {
      assert cluster * U16 == cluster / U16 * U32 + c * U16;
    }
  }

  function PackedSlot(b: Boot, chain: seq<nat>, r: Option<(nat, nat)>): nat
    requires b.sectorsPerCluster > 0 && b.sectorsPerCluster < 256
    requires r.Some? ==> Quot(r.value.0, b.sectorsPerCluster) < |chain| && r.value.1 < 256
  {
    match r
    case None => 0
    case Some((k, i)) => Pack(chain[Quot(k, b.sectorsPerCluster)], Rem(k, b.sectorsPerCluster), i)
  }

  /** The scan of one sector for a slot that is empty or unused. */
  method ScanFree(s: seq<byte>) returns (r: Option<nat>)
    ensures r == FreeInSector(s, 0)
  {
    hide EntryAt;
    var i := 0;
    while i < Slots(s)
      invariant 0 <= i <= Slots(s)
      invariant FreeInSector(s, 0) == FreeInSector(s, i)
    {
      if EntryAt(s, i)[0] == 0 || EntryAt(s, i)[0] == UNUSED {
        return Some(i);
      }
      i := i + 1;
    }
    return None;
  }

  lemma SlotRange(b: Boot, d: Disk, chain: seq<nat>)
    requires Volume(b, d) && AllClusters(b, chain)
    ensures var r := FreeIn(FileSectors(b, d, chain), 0);
            r.Some? ==>
              && Quot(r.value.0, b.sectorsPerCluster) < |chain| && r.value.1 < 256
              && |FileSectors(b, d, chain)[r.value.0]| == b.bytesPerSector
  {
    hide ClusterCount, FirstData, Times, FileSectors, FreeIn, FreeInSector, Quot, Rem, ClusterStart, Identify,
         TotalSectors, FatSize, RootDirSize;
    var dir := FileSectors(b, d, chain);
    var r := FreeIn(dir, 0);
    if r.Some? {
      Split(r.value.0, |chain|, b.sectorsPerCluster);
      FileSectorsAt(b, d, chain, Quot(r.value.0, b.sectorsPerCluster), Rem(r.value.0, b.sectorsPerCluster));
    }
  }

  /** The first slot, in directory order, that is free; 0 when the chain has none. */
  method FatFindFreeEntry(b: Boot, dirCluster: nat, drive: Drive, ghost chain: seq<nat>) returns (location: nat)
    requires Mounted(b, drive)
    requires IsChain(b, drive.disk, chain) && chain[0] == dirCluster
    modifies drive`lba, drive.bufferA
    ensures var r := FreeIn(FileSectors(b, drive.disk, chain), 0);
            && (r.Some? ==> Quot(r.value.0, b.sectorsPerCluster) < |chain| && r.value.1 < 256)
            && location == PackedSlot(b, chain, r)
  {
    hide ClusterCount, Times, FirstData, ClusterStart, FileSectors, FreeInSector, EntryAt, FirstSectorForCluster,
         Identify, TotalSectors, FatSize, RootDirSize, Next, Pack, Quot, Rem, IsChain, AllClusters, FreeIn;
    LinkStep(b, drive.disk, chain, 0);
    SlotRange(b, drive.disk, chain);
    var cluster := dirCluster;
    ghost var d, q := drive.disk, 0;
    ghost var dir := FileSectors(b, d, chain);
    while cluster < EOC
      invariant 0 <= q <= |chain|
      invariant q < |chain| ==> cluster == chain[q]
      invariant q == |chain| ==> cluster >= EOC
      invariant Times(q, b.sectorsPerCluster) <= |dir|
      invariant FreeIn(dir, 0) == FreeIn(dir, Times(q, b.sectorsPerCluster))
      decreases |chain| - q
    {
      var first := FirstSectorForCluster(b, cluster);
      var s := 0;
      while s < b.sectorsPerCluster
        invariant 0 <= s <= b.sectorsPerCluster
        invariant FreeIn(dir, 0) == FreeIn(dir, Times(q, b.sectorsPerCluster) + s)
      {
        var sector := ReadDirectorySector(b, first, s, drive, chain, q);
        var found := ScanFree(sector);
        FreeInStep(dir, Times(q, b.sectorsPerCluster) + s);
        if found.Some? {
          QuotAt(q, s, b.sectorsPerCluster);
          return Pack(cluster, s, found.value);
        }
        s := s + 1;
      }
      LinkStep(b, d, chain, q);
      cluster := FatNextCluster(b, cluster, drive);
      q := q + 1;
    }
    LinkStep(b, d, chain, q);
    FreeInStep(dir, |dir|);
    return 0;
  }

  lemma QuotAt(q: nat, s: nat, k: nat)
    requires s < k
    ensures Quot(Times(q, k) + s, k) == q && Rem(Times(q, k) + s, k) == s
  {
    QuotRem(Times(q, k) + s, k);
    PairInjective(q, s, Quot(Times(q, k) + s, k), Rem(Times(q, k) + s, k), k);
  }

  /** Store an entry into the slot a packed location names. */
  method FatWriteDirectoryEntry(b: Boot, location: nat, entry: Entry, drive: Drive)
    requires Mounted(b, drive) && location < U32
    requires Cluster(b, location / U16) && location / 0x100 % 0x100 < b.sectorsPerCluster
    requires location % 0x100 < b.bytesPerSector / 32
    modifies drive, drive.bufferA
    ensures Mounted(b, drive)
    ensures var x := ClusterStart(b, location / U16) + location / 0x100 % 0x100;
            && x < |old(drive.disk)| && location % 0x100 < Slots(old(drive.disk)[x])
            && drive.disk == old(drive.disk)[x := PutEntry(old(drive.disk)[x], location % 0x100, entry)]
  {
    hide ClusterCount, Times, FirstData, ClusterStart, FirstSectorForCluster, Identify, TotalSectors, FatSize,
         RootDirSize, PutEntry;
    var cluster, sector, index := location / U16, location / 0x100 % 0x100, location % 0x100;
    ClusterRange(b, cluster);
    var x := FirstSectorForCluster(b, cluster) + sector;
    drive.SMReadFrom(x);
    var image := PutEntry(drive.bufferA[..b.bytesPerSector], index, entry);
    assert image[..b.bytesPerSector] == image;
    var _ := drive.SMWriteTo(x, image, b.bytesPerSector);
  }
}
