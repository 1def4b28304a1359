/** What writing a file does to a volume: the file reads back, and every other file stays. */
module FatLaws {
  import opened Arith
  import opened Bytes
  import opened FatVolume
  import opened FatTable
  import opened FatFiles
  import opened FatDirectory
  import opened FatLookup
  import opened FatWrite
  import opened FatRead

  /** One completed write: the data went to a fresh chain (d0 to d1), then an entry for it went to the
      first free slot of the directory (d1 to d2). */
  datatype Written = Written(
    data: seq<byte>, size: nat, name: Name, ext: Ext, chain: seq<nat>, dir: seq<nat>, k: nat, i: nat)

  function NewEntry(w: Written): Entry
    requires w.chain != [] && w.chain[0] < U32 && w.size < U32
  {
    CreateEntry(w.name, w.ext, w.chain[0], w.size, ARCHIVE)
  }

  /** The disk sector that holds sector j of a file. */
  function SectorOf(b: Boot, cs: seq<nat>, j: nat): nat
    requires b.bytesPerSector > 0 && b.sectorsPerCluster > 0 && j < Times(|cs|, b.sectorsPerCluster)
    requires AllClusters(b, cs)
  {
    Split(j, |cs|, b.sectorsPerCluster);
    ClusterStart(b, cs[Quot(j, b.sectorsPerCluster)]) + Rem(j, b.sectorsPerCluster)
  }

  ghost predicate DataWritten(b: Boot, d0: Disk, d1: Disk, w: Written) {
    && Volume(b, d0) && Volume(b, d1)
    && 0 < w.size < U32 - 1 && Padded(w.data, w.size, b.bytesPerSector)
    && TableGrown(b, d0, d1, w.chain) && DataKept(b, d0, d1, w.chain)
    && w.chain != [] && AllClusters(b, w.chain) && FileHolds(b, d1, w.chain, w.data, w.size)
    && Times(|w.chain| - 1, Times(b.sectorsPerCluster, b.bytesPerSector)) < w.size
    && w.size <= Times(|w.chain|, Times(b.sectorsPerCluster, b.bytesPerSector))
  }

  ghost predicate EntryWritten(b: Boot, d0: Disk, d1: Disk, d2: Disk, w: Written)
    requires DataWritten(b, d0, d1, w)
  {
    && IsChain(b, d0, w.dir)
    && FreeIn(FileSectors(b, d0, w.dir), 0) == Some((w.k, w.i))
    && var x := SectorOf(b, w.dir, w.k);
    && x < |d1| && w.i < Slots(d1[x]) && w.chain[0] < U32
    && d2 == d1[x := PutEntry(d1[x], w.i, NewEntry(w))]
  }

  // ----- Step one: the data

  lemma FileSectorIs(b: Boot, d: Disk, cs: seq<nat>, j: nat)
    requires Volume(b, d) && AllClusters(b, cs) && j < Times(|cs|, b.sectorsPerCluster)
    ensures SectorOf(b, cs, j) < |d|
    ensures FileSectors(b, d, cs)[j] == d[SectorOf(b, cs, j)]
  {
    hide Times, FileSectors, ClusterCount, ClusterStart, Identify, TotalSectors, FatSize, RootDirSize, FirstData, Quot,
         Rem;
    Split(j, |cs|, b.sectorsPerCluster);
    FileSectorsAt(b, d, cs, Quot(j, b.sectorsPerCluster), Rem(j, b.sectorsPerCluster));
  }

  /** Any chain of the old table avoids the fresh clusters, keeps its links and keeps its sectors. */
  lemma OldChainKept(b: Boot, d0: Disk, d1: Disk, new_: seq<nat>, cs: seq<nat>)
    requires Volume(b, d0) && Volume(b, d1)
    requires TableGrown(b, d0, d1, new_) && DataKept(b, d0, d1, new_)
    requires IsChain(b, d0, cs)
    ensures forall q :: 0 <= q < |cs| ==> cs[q] !in new_
    ensures IsChain(b, d1, cs)
    ensures FileSectors(b, d1, cs) == FileSectors(b, d0, cs)
  {
    hide RawEntry, ClusterCount, FileSectors, ClusterSectors, Mirrored, Identify, TotalSectors, FatSize, RootDirSize,
         InFats, InData;
    forall q | 0 <= q < |cs| ensures cs[q] !in new_ && Next(b, d1, cs[q]) == Next(b, d0, cs[q]) {
      ChainLast(b, d0, cs, q);
    }
    FileSectorsSame(b, d0, d1, cs);
  }

  /** The bytes of the fresh chain are the caller's bytes. */
  lemma DataReadsBack(b: Boot, d: Disk, cs: seq<nat>, data: seq<byte>, size: nat)
    requires Volume(b, d) && AllClusters(b, cs) && Padded(data, size, b.bytesPerSector) &&
             FileHolds(b, d, cs, data, size)
    requires size <= Times(|cs|, Times(b.sectorsPerCluster, b.bytesPerSector))
    ensures size <= |data|
    ensures FileData(b, d, cs, size) == data[..size]
  {
    hide ClusterCount, FileSectors, Times, Quot, Rem, Identify, TotalSectors, FatSize, RootDirSize, FileBytes;
    CeilLeast(size, b.bytesPerSector, 0);
    TimesAssoc(|cs|, b.sectorsPerCluster, b.bytesPerSector);
    FileSectorsSized(b, d, cs);
    BytesOfBlocks(FileSectors(b, d, cs), b.bytesPerSector, data, size);
  }

  lemma BytesOfBlocks(secs: seq<Sector>, bps: nat, data: seq<byte>, size: nat)
    requires bps > 0 && forall k :: 0 <= k < |secs| ==> |secs[k]| == bps
    requires size <= |data| && size <= Times(|secs|, bps)
    requires forall k :: 0 <= k < |secs| && Times(k, bps) < size ==>
               Times(k, bps) + bps <= |data| && secs[k] == Block(data, bps, k)
    ensures FileBytes(secs, bps, size) == data[..size]
  {
    var file := FileBytes(secs, bps, size);
    hide Times, Quot, Rem, FileBytes;
    forall x | 0 <= x < size ensures file[x] == data[x] {
      QuotRem(x, bps);
      BlockOf(x, |secs|, bps);
      assert secs[Quot(x, bps)] == Block(data, bps, Quot(x, bps));
    }
  }

  // ----- Step two: the entry

  /** The stored entry changes one disk sector, in the data area. */
  lemma EntryChanges(b: Boot, d0: Disk, d1: Disk, d2: Disk, w: Written)
    requires DataWritten(b, d0, d1, w) && EntryWritten(b, d0, d1, d2, w)
    ensures Volume(b, d2)
    ensures w.k < Times(|w.dir|, b.sectorsPerCluster)
    ensures exists c :: c in w.dir && Cluster(b, c) && c !in w.chain && DataKept(b, d1, d2, [c])
    ensures forall i :: 0 <= i < |d1| && InFats(b, i) ==> d2[i] == d1[i]
    ensures d1[SectorOf(b, w.dir, w.k)] == FileSectors(b, d0, w.dir)[w.k]
  {
    hide ClusterCount, FileSectors, Times, Quot, Rem, Identify, TotalSectors, FatSize, RootDirSize, TableGrown,
         DataKept, FileHolds, Padded, NewEntry, Next, ClusterStart, InFats, FreeIn, PutEntry, FirstData;
    OldChainKept(b, d0, d1, w.chain, w.dir);
    FileSectorIs(b, d1, w.dir, w.k);
    Split(w.k, |w.dir|, b.sectorsPerCluster);
    var c := w.dir[Quot(w.k, b.sectorsPerCluster)];
    EntryInCluster(b, d1, d2, c, Rem(w.k, b.sectorsPerCluster));
  }

  lemma EntryInCluster(b: Boot, d: Disk, d': Disk, c: nat, s: nat)
    requires Volume(b, d) && Cluster(b, c) && s < b.sectorsPerCluster
    requires ClusterStart(b, c) + s < |d| && |d'| == |d|
    requires |d'[ClusterStart(b, c) + s]| == |d[ClusterStart(b, c) + s]|
    requires forall i :: 0 <= i < |d| && i != ClusterStart(b, c) + s ==> d'[i] == d[i]
    ensures Volume(b, d')
    ensures DataKept(b, d, d', [c])
    ensures forall i :: 0 <= i < |d| && InFats(b, i) ==> d'[i] == d[i]
  {
    hide ClusterCount, Times, Identify, TotalSectors, FatSize, RootDirSize, DataKept, ClusterStart, InFats, FirstData;
    ClusterWriteKeeps(b, d, d', c);
  }

  lemma ChainSurvives(b: Boot, d: Disk, d': Disk, cs: seq<nat>)
    requires Volume(b, d) && Volume(b, d')
    requires forall i :: 0 <= i < |d| && InFats(b, i) ==> d'[i] == d[i]
    ensures IsChain(b, d, cs) ==> IsChain(b, d', cs)
  {
    hide RawEntry, ClusterCount, InFats, Identify, TotalSectors, FatSize, RootDirSize;
    if IsChain(b, d, cs) {
      forall q | 0 <= q < |cs| ensures Next(b, d', cs[q]) == Next(b, d, cs[q]) {
        OtherSectorRaw(b, d, d', cs[q]);
      }
    }
  }

  /** After the write, each sector of each old chain is what it was, except the one that got the entry. */
  lemma OldSectorsAfter(b: Boot, d0: Disk, d1: Disk, d2: Disk, w: Written, cs: seq<nat>, j: nat)
    requires DataWritten(b, d0, d1, w) && EntryWritten(b, d0, d1, d2, w) && Volume(b, d2)
    requires IsChain(b, d0, cs) && j < Times(|cs|, b.sectorsPerCluster)
    ensures FileSectors(b, d2, cs)[j] ==
            if SectorOf(b, cs, j) == SectorOf(b, w.dir, w.k)
                then PutEntry(FileSectors(b, d0, w.dir)[w.k], w.i, NewEntry(w))
            else FileSectors(b, d0, cs)[j]
    ensures SectorOf(b, cs, j) == SectorOf(b, w.dir, w.k) ==>
            FileSectors(b, d0, cs)[j] == FileSectors(b, d0, w.dir)[w.k]
  {
    hide ClusterCount, FileSectors, Times, Quot, Rem, Identify, TotalSectors, FatSize, RootDirSize, TableGrown,
         DataKept, FileHolds, Padded, NewEntry, Next, SectorOf, FreeIn, PutEntry, FirstData;
    OldChainKept(b, d0, d1, w.chain, cs);
    OldChainKept(b, d0, d1, w.chain, w.dir);
    FileSectorIs(b, d1, cs, j);
    FileSectorIs(b, d2, cs, j);
    FileSectorIs(b, d1, w.dir, w.k);
  }

  /** After the write an old chain has its old sectors, but where the sector that got the entry stands. */
  lemma OldChainStored(b: Boot, d0: Disk, d1: Disk, d2: Disk, w: Written, cs: seq<nat>)
    requires DataWritten(b, d0, d1, w) && EntryWritten(b, d0, d1, d2, w) && Volume(b, d2)
    requires IsChain(b, d0, cs)
    ensures IsChain(b, d2, cs)
    ensures Stored(FileSectors(b, d0, cs), FileSectors(b, d2, cs), FileSectors(b, d0, w.dir)[w.k], w.i, NewEntry(w))
  {
    hide ClusterCount, FileSectors, Times, Quot, Rem, Identify, TotalSectors, FatSize, RootDirSize, TableGrown,
         DataKept, FileHolds, Padded, Next, SectorOf, FreeIn, PutEntry, FirstData, EntryAt, NewEntry;
    OldChainSurvives(b, d0, d1, d2, w, cs);
    forall j | 0 <= j < Times(|cs|, b.sectorsPerCluster)
      ensures StoredAt(FileSectors(b, d0, cs)[j], FileSectors(b, d2, cs)[j], FileSectors(b, d0, w.dir)[w.k], w.i,
        NewEntry(w))
    {
      OldSectorsAfter(b, d0, d1, d2, w, cs, j);
    }
  }

  lemma OldChainSurvives(b: Boot, d0: Disk, d1: Disk, d2: Disk, w: Written, cs: seq<nat>)
    requires DataWritten(b, d0, d1, w) && EntryWritten(b, d0, d1, d2, w) && Volume(b, d2)
    requires IsChain(b, d0, cs)
    ensures IsChain(b, d2, cs)
  {
    hide ClusterCount, FileSectors, Times, Quot, Rem, Identify, TotalSectors, FatSize, RootDirSize, TableGrown,
         DataKept, FileHolds, Padded, Next, SectorOf, FreeIn, PutEntry, FirstData, EntryAt, NewEntry;
    OldChainKept(b, d0, d1, w.chain, cs);
    EntryChanges(b, d0, d1, d2, w);
    ChainSurvives(b, d1, d2, cs);
  }

  /** The new name, absent before, is found afterwards with the entry that was stored. */
  lemma NewFileLocated(b: Boot, d0: Disk, d1: Disk, d2: Disk, w: Written)
    requires DataWritten(b, d0, d1, w) && EntryWritten(b, d0, d1, d2, w) && Volume(b, d2)
    requires Located(b, d0, w.dir, w.name, w.ext) == NotFound
    requires Listed(NewEntry(w))
    ensures IsChain(b, d2, w.dir)
    ensures FindIn(FileSectors(b, d2, w.dir), w.name, w.ext, 0) == Some((w.k, w.i))
    ensures EntryAt(FileSectors(b, d2, w.dir)[w.k], w.i) == NewEntry(w)
    ensures var e := NewEntry(w);
            e[..8] == w.name && e[8..11] == w.ext && e[11] == 0x20 && ClusterOf(e) == w.chain[0] && SizeOf(e) == w.size
  {
    CreateEntryFields(w.name, w.ext, w.chain[0], w.size, ARCHIVE);
    hide ClusterCount, FileSectors, Times, Quot, Rem, Identify, TotalSectors, FatSize, RootDirSize, TableGrown,
         DataKept, FileHolds, Padded, Next, SectorOf, FreeIn, PutEntry, FirstData, FindIn, FindInSector, FreeInSector,
         EntryAt, NewEntry, CreateEntry, Named, Listed, Stored;
    OldChainStored(b, d0, d1, d2, w, w.dir);
    OldSectorsAfter(b, d0, d1, d2, w, w.dir, w.k);
    NewNameFound(FileSectors(b, d0, w.dir), FileSectors(b, d2, w.dir), w.k, w.i, NewEntry(w), w.name, w.ext);
  }

  /** Every other name, in every directory, leads to the same entry in the same slot. */
  lemma OtherNamesLocated(b: Boot, d0: Disk, d1: Disk, d2: Disk, w: Written, cs: seq<nat>, name: Name, ext: Ext)
    requires DataWritten(b, d0, d1, w) && EntryWritten(b, d0, d1, d2, w) && Volume(b, d2)
    requires NewEntry(w)[0] != 0 && !Named(NewEntry(w), name, ext)
    requires Terminated(FileSectors(b, d0, w.dir)[w.k])
    requires IsChain(b, d0, cs)
    ensures IsChain(b, d2, cs)
    ensures Located(b, d2, cs, name, ext) == Located(b, d0, cs, name, ext)
  {
    hide ClusterCount, FileSectors, Times, Quot, Rem, Identify, TotalSectors, FatSize, RootDirSize, TableGrown,
         DataKept, FileHolds, Padded, Next, SectorOf, FreeIn, PutEntry, FirstData, FindIn, FindInSector, FreeInSector,
         EntryAt, NewEntry, CreateEntry, Named, Listed, Terminated, LocationOf, Stored;
    OldChainStored(b, d0, d1, d2, w, cs);
    OtherNamesStay(FileSectors(b, d0, cs), FileSectors(b, d2, cs), FileSectors(b, d0, w.dir)[w.k], w.i, NewEntry(w),
      name, ext);
    SameLocated(b, d0, d2, cs, name, ext);
  }

  /** A name found in the same slot with the same entry has the same location. */
  lemma SameLocated(b: Boot, d: Disk, d': Disk, cs: seq<nat>, name: Name, ext: Ext)
    requires Volume(b, d) && Volume(b, d') && AllClusters(b, cs)
    requires SameFind(FileSectors(b, d, cs), FileSectors(b, d', cs), name, ext)
    ensures Located(b, d', cs, name, ext) == Located(b, d, cs, name, ext)
  {
    hide ClusterCount, FileSectors, Times, Quot, Rem, EntryAt, Identify, TotalSectors, FatSize, RootDirSize, FindIn,
         LocationOf;
    var r := FindIn(FileSectors(b, d, cs), name, ext, 0);
    if r.Some? {
      SameLocation(b, d, d', cs, r.value.0, r.value.1);
    } else {
      NoLocation(b, d, cs);
      NoLocation(b, d', cs);
    }
  }

  lemma SameLocation(b: Boot, d: Disk, d': Disk, cs: seq<nat>, j: nat, i: nat)
    requires Volume(b, d) && Volume(b, d') && AllClusters(b, cs)
    requires j < |FileSectors(b, d, cs)| == |FileSectors(b, d', cs)|
    requires i < Slots(FileSectors(b, d, cs)[j]) && i < Slots(FileSectors(b, d', cs)[j])
    requires EntryAt(FileSectors(b, d', cs)[j], i) == EntryAt(FileSectors(b, d, cs)[j], i)
    ensures LocationOf(b, d', cs, Some((j, i))) == LocationOf(b, d, cs, Some((j, i)))
  {
    hide ClusterCount, FileSectors, Times, Quot, Rem, EntryAt, Identify, TotalSectors, FatSize, RootDirSize;
    Split(j, |cs|, b.sectorsPerCluster);
  }

  /** Separation: a file that does not use the directory cluster that got the entry keeps its chain and its bytes. */
  lemma OtherFilesKept(b: Boot, d0: Disk, d1: Disk, d2: Disk, w: Written, cs: seq<nat>)
    requires DataWritten(b, d0, d1, w) && EntryWritten(b, d0, d1, d2, w) && Volume(b, d2)
    requires IsChain(b, d0, cs) && forall c :: c in cs ==> c !in w.dir
    ensures IsChain(b, d2, cs)
    ensures FileSectors(b, d2, cs) == FileSectors(b, d0, cs)
    ensures forall size: nat :: FileData(b, d2, cs, size) == FileData(b, d0, cs, size)
  {
    hide ClusterCount, FileSectors, Times, Identify, TotalSectors, FatSize, RootDirSize, TableGrown, FirstData,
         FileHolds, Padded, Next, SectorOf, FreeIn, PutEntry, NewEntry, ClusterSectors;
    OldChainKept(b, d0, d1, w.chain, cs);
    EntryChanges(b, d0, d1, d2, w);
    ChainSurvives(b, d1, d2, cs);
    var c :| c in w.dir && Cluster(b, c) && c !in w.chain && DataKept(b, d1, d2, [c]);
    forall q | 0 <= q < |cs| ensures ClusterSectors(b, d2, cs[q]) == ClusterSectors(b, d1, cs[q]) {
      assert cs[q] in cs;
    }
    FileSectorsSame(b, d1, d2, cs);
  }

  /** The round trip: the new chain is in place and the bytes it holds are the caller's. */
  lemma WrittenReadsBack(b: Boot, d0: Disk, d1: Disk, d2: Disk, w: Written)
    requires DataWritten(b, d0, d1, w) && EntryWritten(b, d0, d1, d2, w) && Volume(b, d2)
    ensures IsChain(b, d2, w.chain)
    ensures w.size <= |w.data| && FileData(b, d2, w.chain, w.size) == w.data[..w.size]
  {
    hide ClusterCount, FileSectors, Times, Identify, TotalSectors, FatSize, RootDirSize, FirstData, FileHolds, Padded,
         Next, SectorOf, FreeIn, PutEntry, NewEntry, ClusterSectors;
    EntryChanges(b, d0, d1, d2, w);
    ChainSurvives(b, d1, d2, w.chain);
    var c :| c in w.dir && Cluster(b, c) && c !in w.chain && DataKept(b, d1, d2, [c]);
    forall q | 0 <= q < |w.chain| ensures ClusterSectors(b, d2, w.chain[q]) == ClusterSectors(b, d1, w.chain[q]) {
      assert w.chain[q] in w.chain;
    }
    FileSectorsSame(b, d1, d2, w.chain);
    DataReadsBack(b, d1, w.chain, w.data, w.size);
  }

  // ----- The table as a whole

  ghost function SetOf(cs: seq<nat>): set<int> {
    set c | c in cs
  }

  lemma {:induction false} IncreasingCard(cs: seq<nat>)
    requires Increasing(cs)
    ensures |SetOf(cs)| == |cs|
  {
    if cs != [] {
      var m := |cs| - 1;
      var rest, last := cs[..m], cs[m];
      IncreasingCard(rest);
      assert cs == rest + [last];
      assert SetOf(cs) == SetOf(rest) + {last};
      assert last !in SetOf(rest);
    }
  }

  /** A write takes exactly its clusters out of the free set. */
  lemma FreeSetFalls(b: Boot, d0: Disk, d: Disk, cs: seq<nat>)
    requires Volume(b, d0) && Volume(b, d) && TableGrown(b, d0, d, cs)
    ensures FreeSet(b, d) == FreeSet(b, d0) - SetOf(cs)
    ensures |FreeSet(b, d)| == |FreeSet(b, d0)| - |cs|
  {
    hide ClusterCount, RawEntry, Mirrored, Identify, TotalSectors, FatSize, RootDirSize;
    forall c | 2 <= c < ClusterCount(b) + 2
      ensures c in FreeSet(b, d) <==> c in FreeSet(b, d0) && c !in SetOf(cs)
    {
      if c in cs {
        var q :| 0 <= q < |cs| && cs[q] == c;
        ChainLast(b, d, cs, q);
      }
    }
    assert SetOf(cs) <= FreeSet(b, d0);
    IncreasingCard(cs);
  }

  /** The outcome of FatWriteData, told from the free count alone: it succeeds exactly when there is
      something to write and the clusters suffice, it then takes exactly as many as the size needs, and
      otherwise it leaves nothing free. */
  lemma WriteOutcome(b: Boot, d0: Disk, d: Disk, cs: seq<nat>, size: nat, first: nat)
    requires Volume(b, d0) && Volume(b, d) && TableGrown(b, d0, d, cs)
    requires cs != [] ==> Times(|cs| - 1, Times(b.sectorsPerCluster, b.bytesPerSector)) < size
    requires first != 0 ==> cs != [] && size <= Times(|cs|, Times(b.sectorsPerCluster, b.bytesPerSector))
    requires first == 0 && size > 0 ==>
               && (forall x :: !Free(b, d, x))
               && Times(|cs|, Times(b.sectorsPerCluster, b.bytesPerSector)) < size
    requires size == 0 ==> first == 0 && cs == []
    ensures var bpc := Times(b.sectorsPerCluster, b.bytesPerSector);
            && bpc > 0
            && (first != 0 <==> 0 < size && Ceil(size, bpc) <= |FreeSet(b, d0)|)
            && (first != 0 ==> |cs| == Ceil(size, bpc) && |FreeSet(b, d)| == |FreeSet(b, d0)| - Ceil(size, bpc))
            && (first == 0 && size > 0 ==> FreeSet(b, d) == {} && |cs| == |FreeSet(b, d0)|)
  {
    var bpc := Times(b.sectorsPerCluster, b.bytesPerSector);
    hide ClusterCount, Times, RawEntry, Ceil, TableGrown, Identify, TotalSectors, FatSize, RootDirSize, Next;
    ZeroTimes(b.bytesPerSector);
    TimesMono(0, b.sectorsPerCluster, b.bytesPerSector);
    FreeSetFalls(b, d0, d, cs);
    CeilLeast(size, bpc, |cs|);
    if cs != [] {
      CeilLeast(size, bpc, |cs| - 1);
    }
    if first == 0 && size > 0 {
      assert forall c :: c in FreeSet(b, d) ==> Free(b, d, c);
    }
  }
}
