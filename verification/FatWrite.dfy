/** FatWriteData: allocating a chain of free clusters and filling it with the caller's bytes. */
module FatWrite {
  import opened Arith
  import opened Bytes
  import opened FatVolume
  import opened FatTable
  import opened FatFiles
  import opened Drives
  import opened FatAllocate

  // ----- What a write does to the table

  ghost predicate Increasing(cs: seq<nat>) {
    forall p, q :: 0 <= p < q < |cs| ==> cs[p] < cs[q]
  }

  /** From d0 to d, the table has gained the chain cs, built from the lowest clusters free in d0. */
  ghost predicate TableGrown(b: Boot, d0: Disk, d: Disk, cs: seq<nat>)
    requires Volume(b, d0) && Volume(b, d)
  {
    && Increasing(cs)
    && (forall q :: 0 <= q < |cs| ==> Free(b, d0, cs[q]))
    && (forall x :: Free(b, d0, x) && x !in cs ==> cs == [] || cs[|cs| - 1] < x)
    && (forall c :: 0 <= c < ClusterCount(b) + 2 ==> RawEntry(b, d, c) / TOP == RawEntry(b, d0, c) / TOP)
    && (forall c :: 0 <= c < ClusterCount(b) + 2 && c !in cs ==> RawEntry(b, d, c) == RawEntry(b, d0, c))
    && (cs != [] ==> IsChain(b, d, cs) && Next(b, d, cs[|cs| - 1]) == EOC)
    && (Mirrored(b, d0) ==> Mirrored(b, d))
  }

  /** The data area agrees outside the clusters cs, and so does everything that is neither table nor cluster. */
  ghost predicate DataKept(b: Boot, d0: Disk, d: Disk, cs: seq<nat>)
    requires Volume(b, d0) && Volume(b, d)
  {
    && (forall c :: Cluster(b, c) && c !in cs ==> ClusterSectors(b, d, c) == ClusterSectors(b, d0, c))
    && (forall i :: 0 <= i < |d0| && !InFats(b, i) && !InData(b, i) ==> d[i] == d0[i])
  }

  ghost predicate InData(b: Boot, i: int)
    requires b.bytesPerSector > 0 && b.sectorsPerCluster > 0
  {
    FirstData(b) <= i < FirstData(b) + Times(ClusterCount(b), b.sectorsPerCluster)
  }

  /** The disk after c is appended to the chain cs. */
  function Appended(b: Boot, d: Disk, cs: seq<nat>, c: nat): (r: Disk)
    requires Volume(b, d) && Cluster(b, c) && AllClusters(b, cs)
    ensures |r| == |d|
  {
    SetEntryEffect(b, d, c, EOC);
    var r := SetEntry(b, d, c, EOC);
    if cs == [] then r else SetEntry(b, r, cs[|cs| - 1], c)
  }

  lemma AppendedSectors(b: Boot, d: Disk, cs: seq<nat>, c: nat)
    requires Volume(b, d) && Cluster(b, c) && AllClusters(b, cs)
    ensures var r := Appended(b, d, cs, c);
            && Volume(b, r)
            && (forall i :: 0 <= i < |d| && !InFats(b, i) ==> r[i] == d[i])
            && (Mirrored(b, d) ==> Mirrored(b, r))
  {
    SetEntryEffect(b, d, c, EOC);
    if cs != [] {
      SetEntryEffect(b, SetEntry(b, d, c, EOC), cs[|cs| - 1], c);
    }
    hide SetEntry, RawEntry, Mirrored, InFats, FatSize, ClusterCount;
  }

  lemma AppendedEntries(b: Boot, d: Disk, cs: seq<nat>, c: nat, x: nat)
    requires Volume(b, d) && Cluster(b, c) && x < ClusterCount(b) + 2 && AllClusters(b, cs)
    requires c !in cs
    requires Volume(b, Appended(b, d, cs, c))
    ensures var r := Appended(b, d, cs, c);
            && RawEntry(b, r, x) / TOP == RawEntry(b, d, x) / TOP
            && (x == c ==> Next(b, r, x) == EOC)
            && (cs != [] && x == cs[|cs| - 1] ==> Next(b, r, x) == c)
            && (x != c && (cs == [] || x != cs[|cs| - 1]) ==> RawEntry(b, r, x) == RawEntry(b, d, x))
  {
    SetEntryEffect(b, d, c, EOC);
    var r := SetEntry(b, d, c, EOC);
    hide SetEntry, RawEntry, Next, Mirrored, InFats, ClusterCount, GoodBoot;
    SetEntryNext(b, d, c, EOC, x);
    if cs != [] {
      SetEntryEffect(b, r, cs[|cs| - 1], c);
      SetEntryNext(b, r, cs[|cs| - 1], c, x);
    }
  }

  /** The lowest free cluster lies above a chain built from the lowest free clusters. */
  lemma NextFree(b: Boot, d0: Disk, d: Disk, cs: seq<nat>, c: nat)
    requires Volume(b, d0) && Volume(b, d) && TableGrown(b, d0, d, cs)
    requires Free(b, d, c)
    ensures AllClusters(b, cs)
    ensures c !in cs && Free(b, d0, c)
    ensures forall q :: 0 <= q < |cs| ==> cs[q] < c
  {
    hide Volume, RawEntry, ClusterCount, Mirrored;
    forall q | 0 <= q < |cs| ensures cs[q] != c {
      ChainLast(b, d, cs, q);
    }
  }

  /** Appending the lowest free cluster keeps the table well grown. */
  lemma GrowTable(b: Boot, d0: Disk, d: Disk, cs: seq<nat>, c: nat)
    requires Volume(b, d0) && Volume(b, d) && TableGrown(b, d0, d, cs)
    requires Free(b, d, c) && forall x :: Free(b, d, x) ==> c <= x
    requires AllClusters(b, cs)
    ensures Volume(b, Appended(b, d, cs, c))
    ensures TableGrown(b, d0, Appended(b, d, cs, c), cs + [c])
  {
    NextFree(b, d0, d, cs, c);
    AppendedSectors(b, d, cs, c);
    var r, cs' := Appended(b, d, cs, c), cs + [c];
    hide Volume, RawEntry, Appended, Mirrored, InFats, ClusterCount;
    forall x | 0 <= x < ClusterCount(b) + 2
      ensures RawEntry(b, r, x) / TOP == RawEntry(b, d0, x) / TOP
      ensures x !in cs' ==> RawEntry(b, r, x) == RawEntry(b, d0, x)
    {
      AppendedEntries(b, d, cs, c, x);
    }
    AppendedChain(b, d, cs, c);
    FreeAbove(b, d0, d, cs, c);
    assert Increasing(cs');
  }

  lemma FreeAbove(b: Boot, d0: Disk, d: Disk, cs: seq<nat>, c: nat)
    requires Volume(b, d0) && Volume(b, d) && TableGrown(b, d0, d, cs)
    requires forall x :: Free(b, d, x) ==> c <= x
    ensures forall x :: Free(b, d0, x) && x !in cs + [c] ==> c < x
  {
    hide Volume, RawEntry, Mirrored, ClusterCount;
    forall x | Free(b, d0, x) && x !in cs + [c] ensures c < x {
      assert x !in cs;
      assert RawEntry(b, d, x) == RawEntry(b, d0, x);
      assert Free(b, d, x);
    }
  }

  lemma AppendedChain(b: Boot, d: Disk, cs: seq<nat>, c: nat)
    requires Volume(b, d) && Cluster(b, c) && AllClusters(b, cs)
    requires Increasing(cs) && forall q :: 0 <= q < |cs| ==> cs[q] < c
    requires cs != [] ==> IsChain(b, d, cs)
    requires Volume(b, Appended(b, d, cs, c))
    ensures IsChain(b, Appended(b, d, cs, c), cs + [c])
    ensures Next(b, Appended(b, d, cs, c), c) == EOC
  {
    var r, cs' := Appended(b, d, cs, c), cs + [c];
    hide Volume, RawEntry, Appended, Mirrored, ClusterCount;
    AppendedEntries(b, d, cs, c, c);
    forall q | 0 <= q < |cs| ensures Next(b, r, cs'[q]) == cs'[q + 1] {
      AppendedEntries(b, d, cs, c, cs[q]);
    }
  }

  // ----- What a write does to the data area

  /** The k-th whole sector of the caller's buffer. */
  function Block(data: seq<byte>, bps: nat, k: nat): Sector
    requires Times(k, bps) + bps <= |data|
  {
    data[Times(k, bps)..Times(k, bps) + bps]
  }

  /** The buffer is readable up to a whole number of sectors. */
  predicate Padded(data: seq<byte>, size: nat, bps: nat)
    requires bps > 0
  {
    |data| >= Times(Ceil(size, bps), bps)
  }

  lemma PaddedBlock(data: seq<byte>, size: nat, bps: nat, k: nat)
    requires bps > 0 && Padded(data, size, bps) && Times(k, bps) < size
    ensures Times(k, bps) + bps <= |data|
  {
    CeilLeast(size, bps, k);
    TimesMono(k, Ceil(size, bps), bps);
  }

  /** Each sector of the file that lies below size holds the matching sector of the buffer. */
  ghost predicate FileHolds(b: Boot, d: Disk, cs: seq<nat>, data: seq<byte>, size: nat)
    requires Volume(b, d) && AllClusters(b, cs) && Padded(data, size, b.bytesPerSector)
  {
    forall k :: 0 <= k < |FileSectors(b, d, cs)| && Times(k, b.bytesPerSector) < size ==>
      && Times(k, b.bytesPerSector) + b.bytesPerSector <= |data|
      && FileSectors(b, d, cs)[k] == Block(data, b.bytesPerSector, k)
  }

  /** The disk sectors of cluster c. */
  ghost predicate InCluster(b: Boot, c: nat, i: int)
    requires b.bytesPerSector > 0 && c >= 2
  {
    ClusterStart(b, c) <= i < ClusterStart(b, c) + b.sectorsPerCluster
  }

  lemma ClusterSame(b: Boot, d: Disk, d': Disk, c: nat)
    requires Volume(b, d) && Volume(b, d') && Cluster(b, c)
    requires forall i :: 0 <= i < |d| && InCluster(b, c, i) ==> d'[i] == d[i]
    ensures ClusterSectors(b, d', c) == ClusterSectors(b, d, c)
  {
    hide ClusterCount, FirstData, ClusterStart;
  }

  /** Table updates do not reach the data area. */
  lemma TableKeepsData(b: Boot, d: Disk, d': Disk)
    requires Volume(b, d) && Volume(b, d')
    requires forall i :: 0 <= i < |d| && !InFats(b, i) ==> d'[i] == d[i]
    ensures DataKept(b, d, d', [])
  {
    GeometryExact(b);
    hide ClusterCount, FatSize, Identify, RootDirSize, TotalSectors, ClusterSectors;
    forall c | Cluster(b, c) ensures ClusterSectors(b, d', c) == ClusterSectors(b, d, c) {
      ClusterRange(b, c);
      ClusterSame(b, d, d', c);
    }
  }

  /** Sectors of one cluster lie in no other cluster and in no table. */
  lemma ClusterWriteKeeps(b: Boot, d: Disk, d': Disk, c: nat)
    requires Volume(b, d) && Volume(b, d') && Cluster(b, c)
    requires forall i :: 0 <= i < |d| && !InCluster(b, c, i) ==> d'[i] == d[i]
    ensures forall i :: 0 <= i < |d| && InFats(b, i) ==> d'[i] == d[i]
    ensures DataKept(b, d, d', [c])
  {
    GeometryExact(b);
    ClusterRange(b, c);
    hide ClusterCount, FatSize, Identify, RootDirSize, TotalSectors, Times, ClusterSectors, ClusterStart;
    forall x | Cluster(b, x) && x !in [c] ensures ClusterSectors(b, d', x) == ClusterSectors(b, d, x) {
      assert x != c by { assert c in [c]; }
      forall i | 0 <= i < |d| && InCluster(b, x, i) ensures d'[i] == d[i] {
        ClustersApart(b, c, x, i);
      }
      ClusterSame(b, d, d', x);
    }
  }

  lemma ClustersApart(b: Boot, c: nat, x: nat, i: nat)
    requires b.bytesPerSector > 0 && c >= 2 && x >= 2 && c != x && InCluster(b, x, i)
    ensures !InCluster(b, c, i)
  {
    hide FirstData;
    if c < x {
      TimesMono(c - 2, x - 2, b.sectorsPerCluster);
    } else {
      TimesMono(x - 2, c - 2, b.sectorsPerCluster);
    }
  }

  lemma DataKeptTrans(b: Boot, d0: Disk, d1: Disk, d2: Disk, cs: seq<nat>, cs': seq<nat>)
    requires Volume(b, d0) && Volume(b, d1) && Volume(b, d2)
    requires DataKept(b, d0, d1, cs) && DataKept(b, d1, d2, cs')
    ensures DataKept(b, d0, d2, cs + cs')
  {
    hide ClusterSectors, InFats, InData, GoodBoot;
  }

  lemma TableSame(b: Boot, d0: Disk, d: Disk, d': Disk, cs: seq<nat>)
    requires Volume(b, d0) && Volume(b, d) && Volume(b, d') && TableGrown(b, d0, d, cs)
    requires forall i :: 0 <= i < |d| && InFats(b, i) ==> d'[i] == d[i]
    ensures TableGrown(b, d0, d', cs)
  {
    GeometryExact(b);
    forall c | 0 <= c < ClusterCount(b) + 2 ensures RawEntry(b, d', c) == RawEntry(b, d, c) {
      OtherSectorRaw(b, d, d', c);
    }
    assert Mirrored(b, d) ==> Mirrored(b, d');
    hide GoodBoot, RawEntry, Mirrored, ClusterCount, FatSize;
  }

  /** Filling the cluster appended last extends what the file holds. */
  lemma FileExtended(b: Boot, d: Disk, d': Disk, cs: seq<nat>, c: nat, data: seq<byte>, size: nat)
    requires Volume(b, d) && Volume(b, d') && AllClusters(b, cs) && Cluster(b, c)
    requires Padded(data, size, b.bytesPerSector)
    requires FileHolds(b, d, cs, data, size)
    requires FileSectors(b, d', cs) == FileSectors(b, d, cs)
    requires ClusterHolds(b, d', c, data, size, Times(|cs|, b.sectorsPerCluster))
    ensures AllClusters(b, cs + [c])
    ensures FileHolds(b, d', cs + [c], data, size)
  {
    var f, f', bps := FileSectors(b, d, cs), FileSectors(b, d', cs + [c]), b.bytesPerSector;
    assert (cs + [c])[..|cs|] == cs;
    var a := Times(|cs|, b.sectorsPerCluster);
    assert f' == f + ClusterSectors(b, d', c);
    hide FileSectors, Volume, ClusterSectors, Times, Padded;
    forall k | 0 <= k < |f'| && Times(k, bps) < size
      ensures Times(k, bps) + bps <= |data| && f'[k] == Block(data, bps, k)
    {
      assert k >= a ==> f'[k] == ClusterSectors(b, d', c)[k - a];
    }
  }

  /** The sectors of cluster c hold the blocks of the buffer from block a on. */
  ghost predicate ClusterHolds(b: Boot, d: Disk, c: nat, data: seq<byte>, size: nat, a: nat)
    requires Volume(b, d) && Cluster(b, c) && Padded(data, size, b.bytesPerSector)
  {
    forall k :: a <= k < a + b.sectorsPerCluster && Times(k, b.bytesPerSector) < size ==>
      && Times(k, b.bytesPerSector) + b.bytesPerSector <= |data|
      && ClusterSectors(b, d, c)[k - a] == Block(data, b.bytesPerSector, k)
  }

  /** A cluster is filled when the loop has written all its sectors or all the bytes. */
  lemma ClusterFilled(b: Boot, d: Disk, c: nat, data: seq<byte>, size: nat, a: nat, writeSize: nat, i: nat)
    requires Volume(b, d) && Cluster(b, c) && Padded(data, size, b.bytesPerSector)
    requires Times(a, b.bytesPerSector) <= size
    requires writeSize == size - Times(a, b.bytesPerSector) || writeSize == Times(b.sectorsPerCluster, b.bytesPerSector)
    requires i <= b.sectorsPerCluster
    requires i == b.sectorsPerCluster || writeSize <= Times(i, b.bytesPerSector)
    requires forall k :: a <= k < a + i ==>
               && Times(k, b.bytesPerSector) + b.bytesPerSector <= |data|
               && ClusterSectors(b, d, c)[k - a] == Block(data, b.bytesPerSector, k)
    ensures ClusterHolds(b, d, c, data, size, a)
  {
    hide ClusterCount, Times, ClusterSectors, Padded, Block, Identify, TotalSectors;
    forall k | a <= k < a + b.sectorsPerCluster && Times(k, b.bytesPerSector) < size ensures k < a + i {
      WithinWritten(b.bytesPerSector, size, a, writeSize, i, b.sectorsPerCluster, k);
    }
  }

  lemma WithinWritten(bps: nat, size: nat, a: nat, writeSize: nat, i: nat, spc: nat, k: nat)
    requires writeSize == size - Times(a, bps) || writeSize == Times(spc, bps)
    requires i <= spc && (i == spc || writeSize <= Times(i, bps))
    requires bps > 0 && a <= k < a + spc && Times(k, bps) < size
    ensures k < a + i
  {
    hide Times;
    var n := k - a;
    TimesAdd(a, n, bps);
    assert a + n == k;
    if i <= n {
      TimesMono(i, n, bps);
      TimesMono(n, spc, bps);
    }
  }

  /** One block of the buffer to one sector. */
  method WriteBlock(drive: Drive, sector: nat, data: seq<byte>, p: nat, bps: nat, ghost k: nat)
    requires drive.Valid() && drive.sectorSize == bps <= BUFFER_SIZE && sector < |drive.disk|
    requires p == Times(k, bps) && p + bps <= |data|
    modifies drive, drive.bufferA
    ensures drive.Valid() && drive.disk == old(drive.disk)[sector := Block(data, bps, k)]
  {
    hide Times;
    assert data[p..][..bps] == Block(data, bps, k);
    var _ := drive.SMWriteTo(sector, data[p..], bps);
  }

  /** Filling one cluster, sector by sector, until writeSize bytes are consumed.
      Block a of the buffer starts at ptr. */
  method WriteCluster(b: Boot, drive: Drive, cluster: nat, data: seq<byte>, ptr: nat, writeSize: nat, ghost size: nat,
          ghost a: nat)
    requires Mounted(b, drive) && Cluster(b, cluster) && Padded(data, size, b.bytesPerSector)
    requires ptr == Times(a, b.bytesPerSector) && writeSize <= size - ptr
    requires writeSize == size - ptr || writeSize == Times(b.sectorsPerCluster, b.bytesPerSector)
    modifies drive, drive.bufferA
    ensures Mounted(b, drive)
    ensures forall i :: 0 <= i < |drive.disk| && !InCluster(b, cluster, i) ==> drive.disk[i] == old(drive.disk)[i]
    ensures ClusterHolds(b, drive.disk, cluster, data, size, a)
  {
    hide ClusterCount, TotalSectors, Times, Quot, ClusterSectors, Padded, ClusterHolds, ClusterStart, Block,
         FirstSectorForCluster, Identify, FatSize, RootDirSize, FirstData;
    var bps := b.bytesPerSector;
    ClusterRange(b, cluster);
    var firstSector := FirstSectorForCluster(b, cluster);
    ghost var d := drive.disk;
    var i, p, left := 0, ptr, writeSize;
    while i < b.sectorsPerCluster && left > 0
      invariant 0 <= i <= b.sectorsPerCluster
      invariant drive.Valid() && |drive.disk| == |d|
      invariant left > 0 ==> p == Times(a + i, bps) && left == writeSize - (p - ptr)
      invariant left == 0 ==> writeSize <= Times(i, bps)
      invariant forall x :: 0 <= x < |d| && !(firstSector <= x < firstSector + i) ==> drive.disk[x] == d[x]
      invariant forall k :: a <= k < a + i ==>
                  && Times(k, bps) + bps <= |data|
                  && drive.disk[firstSector + (k - a)] == Block(data, bps, k)
    {
      TimesAdd(a, i, bps);
      TimesStep(i, bps);
      TimesStep(a + i, bps);
      PaddedBlock(data, size, bps, a + i);
      var sectorSize := if left < bps then left else bps;
      WriteBlock(drive, firstSector + i, data, p, bps, a + i);
      p := p + sectorSize;
      left := left - sectorSize;
      i := i + 1;
    }
    ClusterFilled(b, drive.disk, cluster, data, size, a, writeSize, i);
  }

  /** One turn of the loop: cluster c is appended to the chain, then filled. */
  lemma ClusterAdded(b: Boot, d0: Disk, d: Disk, d': Disk, cs: seq<nat>, c: nat, data: seq<byte>, size: nat)
    requires Volume(b, d0) && Volume(b, d) && Volume(b, d')
    requires TableGrown(b, d0, d, cs) && DataKept(b, d0, d, cs)
    requires AllClusters(b, cs) && Padded(data, size, b.bytesPerSector) && FileHolds(b, d, cs, data, size)
    requires Free(b, d, c) && forall x :: Free(b, d, x) ==> c <= x
    requires forall i :: 0 <= i < |d| && !InCluster(b, c, i) ==> d'[i] == Appended(b, d, cs, c)[i]
    requires ClusterHolds(b, d', c, data, size, Times(|cs|, b.sectorsPerCluster))
    ensures TableGrown(b, d0, d', cs + [c]) && DataKept(b, d0, d', cs + [c])
    ensures AllClusters(b, cs + [c]) && FileHolds(b, d', cs + [c], data, size)
  {
    hide GoodBoot, ClusterCount, Times, TableGrown, DataKept, FileHolds, ClusterHolds, Appended, InFats, InCluster,
         FileSectors, ClusterSectors, Padded, Next;
    var r := Appended(b, d, cs, c);
    NextFree(b, d0, d, cs, c);
    AppendedSectors(b, d, cs, c);
    GrowTable(b, d0, d, cs, c);
    TableKeepsData(b, d, r);
    ClusterWriteKeeps(b, r, d', c);
    TableSame(b, d0, r, d', cs + [c]);
    DataKeptTrans(b, d0, d, r, cs, []);
    assert cs + [] == cs;
    DataKeptTrans(b, d0, r, d', cs, [c]);
    DataKeptTrans(b, d, r, d', [], [c]);
    assert [] + [c] == [c];
    OldSectorsKept(b, d, d', cs, c);
    FileExtended(b, d, d', cs, c, data, size);
  }

  lemma OldSectorsKept(b: Boot, d: Disk, d': Disk, cs: seq<nat>, c: nat)
    requires Volume(b, d) && Volume(b, d') && AllClusters(b, cs) && c !in cs
    requires DataKept(b, d, d', [c])
    ensures FileSectors(b, d', cs) == FileSectors(b, d, cs)
  {
    hide GoodBoot, ClusterCount, Times, FileSectors, ClusterSectors, InFats;
    FileSectorsSame(b, d, d', cs);
  }

  /** The cluster loop's arithmetic: bytes consumed after n whole clusters. */
  lemma NextCluster(b: Boot, n: nat, size: nat, remaining: nat)
    requires b.bytesPerSector > 0 && b.sectorsPerCluster > 0
    requires remaining > 0
    requires size == Times(Times(n, b.sectorsPerCluster), b.bytesPerSector) + remaining
    ensures var bpc := Times(b.sectorsPerCluster, b.bytesPerSector);
            && bpc > 0
            && Times(n, bpc) < size
            && Times(Times(n, b.sectorsPerCluster), b.bytesPerSector) == Times(n, bpc)
            && (remaining <= bpc ==> size <= Times(n + 1, bpc))
            && (remaining >= bpc ==>
               size == Times(Times(n + 1, b.sectorsPerCluster), b.bytesPerSector) + remaining - bpc)
  {
    var spc, bps := b.sectorsPerCluster, b.bytesPerSector;
    TimesAssoc(n, spc, bps);
    TimesAssoc(n + 1, spc, bps);
    TimesStep(n, Times(spc, bps));
    TimesMono(0, spc, bps);
  }

  /** Write size bytes into a fresh chain.  The result is the first cluster, or 0 when nothing is to be
      written or the clusters run out; in the second case the clusters claimed so far stay claimed. */
  method FatWriteData(b: Boot, data: seq<byte>, size: nat, drive: Drive) returns (firstCluster: nat,
          ghost chain: seq<nat>)
    requires Mounted(b, drive) && Padded(data, size, b.bytesPerSector)
    modifies drive, drive.bufferA
    ensures Mounted(b, drive)
    ensures TableGrown(b, old(drive.disk), drive.disk, chain)
    ensures DataKept(b, old(drive.disk), drive.disk, chain)
    ensures AllClusters(b, chain) && FileHolds(b, drive.disk, chain, data, size)
    ensures chain != [] ==> Times(|chain| - 1, Times(b.sectorsPerCluster, b.bytesPerSector)) < size
    ensures firstCluster != 0 ==>
              chain != [] && firstCluster == chain[0] &&
                  size <= Times(|chain|, Times(b.sectorsPerCluster, b.bytesPerSector))
    ensures firstCluster == 0 && size > 0 ==>
              && (forall x :: !Free(b, drive.disk, x))
              && Times(|chain|, Times(b.sectorsPerCluster, b.bytesPerSector)) < size
    ensures size == 0 ==> firstCluster == 0 && chain == []
    ensures chain == [] ==> drive.disk == old(drive.disk)
  {
    hide Identify, TotalSectors, FatSize, RootDirSize, ClusterCount, Times, TableGrown, DataKept, FileHolds,
         ClusterHolds, SetEntry, Padded, FileSectors, ClusterSectors, Next;
    firstCluster, chain := 0, [];
    ghost var d0 := drive.disk;
    NothingWritten(b, d0, data, size);
    var prevCluster := 0;
    var remaining := size;
    var ptr := 0;
    var sectorsPerCluster := b.sectorsPerCluster;
    var bytesPerCluster := Times(sectorsPerCluster, b.bytesPerSector);
    while remaining > 0
      invariant Mounted(b, drive)
      invariant TableGrown(b, d0, drive.disk, chain) && DataKept(b, d0, drive.disk, chain)
      invariant AllClusters(b, chain) && FileHolds(b, drive.disk, chain, data, size)
      invariant chain == [] <==> firstCluster == 0
      invariant chain == [] ==> prevCluster == 0 && remaining == size && drive.disk == d0
      invariant chain != [] ==> firstCluster == chain[0] && prevCluster == chain[|chain| - 1] && prevCluster != 0
      invariant chain != [] ==> Times(|chain| - 1, bytesPerCluster) < size
      invariant remaining > 0 ==>
                  && ptr == Times(Times(|chain|, sectorsPerCluster), b.bytesPerSector)
                  && size == ptr + remaining
      invariant remaining == 0 ==> size <= Times(|chain|, bytesPerCluster)
    {
      ghost var d := drive.disk;
      NextCluster(b, |chain|, size, remaining);
      var cluster := FatAllocateCluster(b, drive);
      if cluster == 0 {
        firstCluster := 0;
        return;
      }
      if firstCluster == 0 {
        firstCluster := cluster;
      }
      if prevCluster != 0 {
        FatSetCluster(b, prevCluster, cluster, drive);
      }
      assert drive.disk == Appended(b, d, chain, cluster);
      var writeSize := if remaining < bytesPerCluster then remaining else bytesPerCluster;
      WriteCluster(b, drive, cluster, data, ptr, writeSize, size, Times(|chain|, sectorsPerCluster));
      ClusterAdded(b, d0, d, drive.disk, chain, cluster, data, size);
      ptr := ptr + writeSize;
      remaining := remaining - writeSize;
      prevCluster := cluster;
      chain := chain + [cluster];
    }
  }

  lemma NothingWritten(b: Boot, d: Disk, data: seq<byte>, size: nat)
    requires Volume(b, d) && Padded(data, size, b.bytesPerSector)
    ensures TableGrown(b, d, d, []) && DataKept(b, d, d, []) && FileHolds(b, d, [], data, size)
    ensures Times(0, b.sectorsPerCluster) == 0 && Times(0, b.bytesPerSector) == 0
    ensures Times(0, Times(b.sectorsPerCluster, b.bytesPerSector)) == 0
  {
    hide GoodBoot, RawEntry, ClusterSectors, ClusterCount;
  }
}
