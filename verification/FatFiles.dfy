/** Files as the table and the data area describe them: chains of clusters and the sectors they hold. */
module FatFiles {
  import opened Arith
  import opened FatVolume
  import opened FatTable

  ghost predicate AllClusters(b: Boot, cs: seq<nat>)
    requires b.bytesPerSector > 0 && b.sectorsPerCluster > 0
  {
    forall q :: 0 <= q < |cs| ==> Cluster(b, cs[q])
  }

  /** cs is the whole list of clusters reached from cs[0], up to an end-of-chain mark. */
  ghost predicate IsChain(b: Boot, d: Disk, cs: seq<nat>)
    requires Volume(b, d)
  {
    && |cs| > 0
    && AllClusters(b, cs)
    && (forall q :: 0 <= q < |cs| - 1 ==> Next(b, d, cs[q]) == cs[q + 1])
    && Next(b, d, cs[|cs| - 1]) >= EOC
  }

  /** The sectors of one cluster. */
  function ClusterSectors(b: Boot, d: Disk, c: nat): (r: seq<Sector>)
    requires Volume(b, d) && Cluster(b, c)
    ensures |r| == b.sectorsPerCluster
    ensures ClusterStart(b, c) + b.sectorsPerCluster <= |d|
    ensures r == d[ClusterStart(b, c)..ClusterStart(b, c) + b.sectorsPerCluster]
  {
    ClusterRange(b, c);
    hide Times, FirstData, GoodBoot, ClusterCount;
    var x := ClusterStart(b, c);
    d[x..x + b.sectorsPerCluster]
  }

  /** The sectors of the listed clusters, in file order. */
  function FileSectors(b: Boot, d: Disk, cs: seq<nat>): (r: seq<Sector>)
    requires Volume(b, d) && AllClusters(b, cs)
    ensures |r| == Times(|cs|, b.sectorsPerCluster)
  {
    if cs == [] then []
    else
      var m := |cs| - 1;
      FileSectors(b, d, cs[..m]) + ClusterSectors(b, d, cs[m])
  }

  ghost function FreeSet(b: Boot, d: Disk): set<int>
    requires Volume(b, d)
  {
    set c | 2 <= c < ClusterCount(b) + 2 && Next(b, d, c) == 0
  }

  ghost predicate Free(b: Boot, d: Disk, c: int)
    requires Volume(b, d)
  {
    Cluster(b, c) && Next(b, d, c) == 0
  }

  lemma SectorPlace(b: Boot, d: Disk, c: nat, s: nat)
    requires Volume(b, d) && Cluster(b, c) && s < b.sectorsPerCluster
    ensures 0 <= ClusterStart(b, c) + s < |d|
    ensures ClusterSectors(b, d, c)[s] == d[ClusterStart(b, c) + s]
  {
    ClusterRange(b, c);
  }

  lemma {:induction false} FileSectorsAt(b: Boot, d: Disk, cs: seq<nat>, q: nat, s: nat)
    requires Volume(b, d) && AllClusters(b, cs) && q < |cs| && s < b.sectorsPerCluster
    ensures Times(q, b.sectorsPerCluster) + s < Times(|cs|, b.sectorsPerCluster)
    ensures 0 <= ClusterStart(b, cs[q]) + s < |d|
    ensures FileSectors(b, d, cs)[Times(q, b.sectorsPerCluster) + s] == d[ClusterStart(b, cs[q]) + s]
  {
    hide GoodBoot, Times, ClusterCount, FirstData, ClusterStart, ClusterSectors;
    var m := |cs| - 1;
    TimesMono(q, |cs|, b.sectorsPerCluster);
    TimesMono(q, m, b.sectorsPerCluster);
    var last := ClusterSectors(b, d, cs[m]);
    SectorPlace(b, d, cs[q], s);
    if q < m {
      FileSectorsAt(b, d, cs[..m], q, s);
      assert FileSectors(b, d, cs) == FileSectors(b, d, cs[..m]) + last;
    }
  }

  /** Two files hold the same sectors when each of their sectors does. */
  lemma FileSectorsSame(b: Boot, d: Disk, d': Disk, cs: seq<nat>)
    requires Volume(b, d) && Volume(b, d') && AllClusters(b, cs)
    requires forall q :: 0 <= q < |cs| ==> ClusterSectors(b, d', cs[q]) == ClusterSectors(b, d, cs[q])
    ensures FileSectors(b, d', cs) == FileSectors(b, d, cs)
  {
    hide GoodBoot, Times, ClusterCount, ClusterSectors;
    if cs != [] {
      FileSectorsSame(b, d, d', cs[..|cs| - 1]);
    }
  }

  /** The chain of a cluster is determined by the table. */
  lemma ChainUnique(b: Boot, d: Disk, cs: seq<nat>, cs': seq<nat>)
    requires Volume(b, d) && IsChain(b, d, cs) && IsChain(b, d, cs') && cs[0] == cs'[0]
    ensures cs == cs'
  {
    hide GoodBoot, Next;
    if |cs| <= |cs'| {
      ChainPrefix(b, d, cs, cs', |cs|);
      ChainStops(b, d, cs, cs');
    } else {
      ChainPrefix(b, d, cs', cs, |cs'|);
      ChainStops(b, d, cs', cs);
    }
  }

  lemma {:induction false} ChainPrefix(b: Boot, d: Disk, cs: seq<nat>, cs': seq<nat>, m: nat)
    requires Volume(b, d) && IsChain(b, d, cs) && IsChain(b, d, cs') && cs[0] == cs'[0]
    requires m <= |cs| && m <= |cs'|
    ensures cs[..m] == cs'[..m]
  {
    hide GoodBoot, ClusterCount, FirstData, Next;
    if m > 1 {
      ChainPrefix(b, d, cs, cs', m - 1);
      assert cs[m - 2] == cs[..m - 1][m - 2] == cs'[m - 2];
      assert Next(b, d, cs[m - 2]) == cs[m - 2 + 1] && Next(b, d, cs'[m - 2]) == cs'[m - 2 + 1];
    }
  }

  /** Only the last cluster of a chain carries an end mark. */
  lemma ChainLast(b: Boot, d: Disk, cs: seq<nat>, q: nat)
    requires Volume(b, d) && IsChain(b, d, cs) && q < |cs|
    ensures Next(b, d, cs[q]) >= EOC <==> q == |cs| - 1
    ensures Next(b, d, cs[q]) != 0
  {
    hide Next, ClusterCount, DataCount, FirstData;
    assert q + 1 < |cs| ==> Cluster(b, cs[q + 1]);
  }

  lemma ChainStops(b: Boot, d: Disk, cs: seq<nat>, cs': seq<nat>)
    requires Volume(b, d) && IsChain(b, d, cs) && IsChain(b, d, cs')
    requires |cs| <= |cs'| && cs'[..|cs|] == cs
    ensures cs == cs'
  {
    var m := |cs| - 1;
    hide Next, ClusterCount, DataCount, FirstData;
    assert cs'[m] == cs'[..|cs|][m] == cs[m];
    ChainLast(b, d, cs', m);
    assert cs'[..|cs'|] == cs';
  }
}
