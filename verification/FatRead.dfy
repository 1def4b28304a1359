/** FatRead: copying a chain of clusters into a buffer of the file's size. */
module FatRead {
  import opened Arith
  import opened Bytes
  import opened FatVolume
  import opened FatTable
  import opened FatFiles
  import opened FatDirectory
  import opened FatLookup
  import opened Drives
  import opened FatAllocate

  /** The first size bytes of a list of sectors, with zeros where the list is too short. */
  function FileBytes(secs: seq<Sector>, bps: nat, size: nat): (r: seq<byte>)
    requires bps > 0 && forall k :: 0 <= k < |secs| ==> |secs[k]| == bps
    ensures |r| == size
    ensures forall x :: 0 <= x < size && Quot(x, bps) < |secs| ==> r[x] == secs[Quot(x, bps)][Rem(x, bps)]
    ensures forall x :: 0 <= x < size && Quot(x, bps) >= |secs| ==> r[x] == 0
  {
    seq(size, (x: nat) => if Quot(x, bps) < |secs| then secs[Quot(x, bps)][Rem(x, bps)] else 0)
  }

  lemma FileSectorsSized(b: Boot, d: Disk, chain: seq<nat>)
    requires Volume(b, d) && AllClusters(b, chain)
    ensures forall k :: 0 <= k < |FileSectors(b, d, chain)| ==> |FileSectors(b, d, chain)[k]| == b.bytesPerSector
    ensures chain != [] ==> |FileSectors(b, d, chain)| > 0
  {
    ZeroTimes(b.sectorsPerCluster);
    TimesMono(0, |chain|, b.sectorsPerCluster);
    hide ClusterCount, Times, FirstData, ClusterStart, FileSectors, Identify, TotalSectors, FatSize, RootDirSize, Quot,
         Rem;
    forall k | 0 <= k < |FileSectors(b, d, chain)| ensures |FileSectors(b, d, chain)[k]| == b.bytesPerSector {
      Split(k, |chain|, b.sectorsPerCluster);
      FileSectorsAt(b, d, chain, Quot(k, b.sectorsPerCluster), Rem(k, b.sectorsPerCluster));
    }
  }

  /** The first size bytes a chain holds. */
  function FileData(b: Boot, d: Disk, chain: seq<nat>, size: nat): (r: seq<byte>)
    requires Volume(b, d) && AllClusters(b, chain)
    ensures |r| == size
  {
    FileSectorsSized(b, d, chain);
    FileBytes(FileSectors(b, d, chain), b.bytesPerSector, size)
  }

  /** Byte x lies below block k exactly when its block number is below k. */
  lemma BlockOf(x: nat, k: nat, bps: nat)
    requires bps > 0
    ensures x < Times(k, bps) <==> Quot(x, bps) < k
    ensures Times(k, bps) <= x < Times(k, bps) + bps ==> Quot(x, bps) == k && Rem(x, bps) == x - Times(k, bps)
  {
    hide Times, Quot, Rem;
    QuotRem(x, bps);
    var q := Quot(x, bps);
    if q < k {
      TimesMono(q, k, bps);
    } else if q == k {
    } else {
      TimesMono(k, q, bps);
    }
  }

  /** Where each byte of a file lies: clusters in chain order, their sectors in order, a sector's bytes in order. */
  lemma ByteOfFile(b: Boot, d: Disk, chain: seq<nat>, size: nat, q: nat, s: nat, x: nat)
    requires Volume(b, d) && AllClusters(b, chain) && q < |chain| && s < b.sectorsPerCluster && x < b.bytesPerSector
    ensures ClusterStart(b, chain[q]) + s < |d|
    ensures var at := Times(Times(q, b.sectorsPerCluster) + s, b.bytesPerSector) + x;
            at < size ==> FileData(b, d, chain, size)[at] == d[ClusterStart(b, chain[q]) + s][x]
  {
    hide ClusterCount, Times, FirstData, ClusterStart, FileSectors, Identify, TotalSectors, FatSize, RootDirSize, Quot,
         Rem, FileBytes;
    FileSectorsAt(b, d, chain, q, s);
    FileSectorsSized(b, d, chain);
    BlockOf(Times(Times(q, b.sectorsPerCluster) + s, b.bytesPerSector) + x, Times(q, b.sectorsPerCluster) + s,
      b.bytesPerSector);
  }

  /** One copy step.  Bytes that fall outside the block are not part of the result; `beyond` says some did. */
  method CopySector(data: array<byte>, p: nat, sector: seq<byte>, n: nat) returns (beyond: bool)
    requires n <= |sector|
    modifies data
    ensures forall x :: 0 <= x < data.Length ==>
              data[x] == if p <= x < p + n then sector[x - p] else old(data[x])
    ensures beyond <==> n > 0 && p + n > data.Length
  {
    forall x | 0 <= x < data.Length && p <= x < p + n {
      data[x] := sector[x - p];
    }
    beyond := n > 0 && p + n > data.Length;
  }

  /** What the buffer holds after k sectors have been copied. */
  ghost predicate Copied(s: seq<byte>, file: seq<byte>, k: nat, bps: nat) {
    && |s| == |file| + 1
    && forall x :: 0 <= x <= |file| ==> s[x] == if x < |file| && x < Times(k, bps) then file[x] else 0
  }

  lemma CopyStep(s: seq<byte>, s': seq<byte>, secs: seq<Sector>, bps: nat, size: nat, k: nat, n: nat)
    requires bps > 0 && forall j :: 0 <= j < |secs| ==> |secs[j]| == bps
    requires k < |secs| && n <= bps
    requires Copied(s, FileBytes(secs, bps, size), k, bps)
    requires |s'| == |s|
    requires forall x :: 0 <= x < |s| ==>
               s'[x] == if Times(k, bps) <= x < Times(k, bps) + n then secs[k][x - Times(k, bps)] else s[x]
    requires Times(k, bps) <= size ==> n == if size - Times(k, bps) > bps then bps else size - Times(k, bps)
    ensures Copied(s', FileBytes(secs, bps, size), k + 1, bps)
  {
    TimesStep(k, bps);
    var file := FileBytes(secs, bps, size);
    hide Times, Quot, Rem, FileBytes;
    forall x | 0 <= x <= size
      ensures s'[x] == if x < size && x < Times(k + 1, bps) then file[x] else 0
    {
      BlockOf(x, k, bps);
      BlockOf(x, k + 1, bps);
    }
  }

  // ----- What a first cluster leads to

  /** Cluster 0, which the entry of an empty file names, can be read like any other: the sectors two clusters before
      the first one are there, and word 0 of the table is an end mark. */
  ghost predicate ZeroReads(b: Boot, d: Disk)
    requires Volume(b, d)
  {
    2 * b.sectorsPerCluster <= FirstData(b) && Next(b, d, 0) >= EOC
  }

  function ZeroSectors(b: Boot, d: Disk): (r: seq<Sector>)
    requires Volume(b, d) && 2 * b.sectorsPerCluster <= FirstData(b)
    ensures |r| == b.sectorsPerCluster
  {
    GeometryExact(b);
    var x := FirstData(b) - 2 * b.sectorsPerCluster;
    d[x..x + b.sectorsPerCluster]
  }

  /** What the read loop visits: a chain, or cluster 0 alone. */
  ghost predicate IsTrail(b: Boot, d: Disk, cs: seq<nat>)
    requires Volume(b, d)
  {
    IsChain(b, d, cs) || (cs == [0] && ZeroReads(b, d))
  }

  ghost function TrailSectors(b: Boot, d: Disk, cs: seq<nat>): (r: seq<Sector>)
    requires Volume(b, d) && IsTrail(b, d, cs)
    ensures |r| == Times(|cs|, b.sectorsPerCluster) > 0
    ensures forall k :: 0 <= k < |r| ==> |r[k]| == b.bytesPerSector
  {
    if cs == [0] then
      OnceTimes(b.sectorsPerCluster);
      ZeroSectors(b, d)
    else
      FileSectorsSized(b, d, cs);
      FileSectors(b, d, cs)
  }

  lemma OnceTimes(n: nat)
    ensures Times(1, n) == n
  {
  }

  lemma TrailStart(b: Boot, d: Disk, cs: seq<nat>)
    requires Volume(b, d) && IsTrail(b, d, cs)
    ensures |cs| > 0 && cs[0] < EOC
  {
  }

  /** The first size bytes of what the loop visits. */
  ghost function TrailData(b: Boot, d: Disk, cs: seq<nat>, size: nat): (r: seq<byte>)
    requires Volume(b, d) && IsTrail(b, d, cs)
    ensures |r| == size
  {
    FileBytes(TrailSectors(b, d, cs), b.bytesPerSector, size)
  }

  /** On a chain that is the file's data. */
  lemma ChainIsTrail(b: Boot, d: Disk, cs: seq<nat>, size: nat)
    requires Volume(b, d) && IsChain(b, d, cs)
    ensures IsTrail(b, d, cs) && TrailSectors(b, d, cs) == FileSectors(b, d, cs) &&
            TrailData(b, d, cs, size) == FileData(b, d, cs, size)
  {
    assert Cluster(b, cs[0]);
    hide GoodBoot, FileSectors, ClusterCount, Next, FileBytes;
  }

  /** An empty file at cluster 0 has no bytes; reading it copies past its block unless a cluster is one sector. */
  lemma EmptyTrail(b: Boot, d: Disk)
    requires Volume(b, d) && ZeroReads(b, d)
    ensures IsTrail(b, d, [0]) && TrailData(b, d, [0], 0) == []
    ensures Times(|TrailSectors(b, d, [0])| - 1, b.bytesPerSector) > 0 <==> b.sectorsPerCluster > 1
  {
    hide ZeroSectors, ClusterCount, Identify, FirstData, TotalSectors, FatSize, RootDirSize;
    OnceTimes(b.sectorsPerCluster);
    if b.sectorsPerCluster > 1 {
      TimesMono(1, b.sectorsPerCluster - 1, b.bytesPerSector);
      OnceTimes(b.bytesPerSector);
    } else {
      ZeroTimes(b.bytesPerSector);
    }
  }

  lemma ZeroPlace(b: Boot, d: Disk)
    requires Volume(b, d) && 2 * b.sectorsPerCluster <= FirstData(b)
    ensures FirstSectorForCluster(b, 0) == FirstData(b) - 2 * b.sectorsPerCluster
    ensures FirstSectorForCluster(b, 0) + b.sectorsPerCluster <= |d|
  {
    GeometryExact(b);
    hide ClusterCount, Identify, TotalSectors, FatSize, RootDirSize, FirstData;
    TimesIsProduct(U32 - 2, b.sectorsPerCluster);
    var f := FirstData(b) - 2 * b.sectorsPerCluster;
    assert (U32 - 2) * b.sectorsPerCluster + FirstData(b) == U32 * b.sectorsPerCluster + f;
    assert (0 - 2) % U32 == U32 - 2;
    WholeWords(b.sectorsPerCluster, f);
  }

  lemma WholeWords(k: nat, f: nat)
    requires f < U32
    ensures (U32 * k + f) % U32 == f
  {
  }

  /** Where the loop finds sector s of its q-th cluster, and what it follows. */
  lemma TrailAt(b: Boot, d: Disk, cs: seq<nat>, q: nat, s: nat)
    requires Volume(b, d) && IsTrail(b, d, cs) && q < |cs| && s < b.sectorsPerCluster
    ensures Times(q, b.sectorsPerCluster) + s < |TrailSectors(b, d, cs)|
    ensures FirstSectorForCluster(b, cs[q]) + s < |d|
    ensures TrailSectors(b, d, cs)[Times(q, b.sectorsPerCluster) + s] == d[FirstSectorForCluster(b, cs[q]) + s]
  {
    hide ClusterCount, Times, FirstData, ClusterStart, FileSectors, FirstSectorForCluster, Identify, TotalSectors,
         FatSize, RootDirSize, Next, Quot, Rem, LocationOf, EntryAt;
    if cs == [0] {
      ZeroPlace(b, d);
      ZeroTimes(b.sectorsPerCluster);
      OnceTimes(b.sectorsPerCluster);
    } else {
      ChainIsTrail(b, d, cs, 0);
      LocationAt(b, d, cs, q, s, 0);
    }
  }

  lemma TrailNext(b: Boot, d: Disk, cs: seq<nat>, q: nat)
    requires Volume(b, d) && IsTrail(b, d, cs) && q < |cs|
    ensures cs[q] < ClusterCount(b) + 2 && cs[q] < EOC
    ensures if q + 1 < |cs| then Next(b, d, cs[q]) == cs[q + 1] < EOC else Next(b, d, cs[q]) >= EOC
  {
  }

  /** The file's sectors, copied one after another while the chain goes on.  The count of bytes left is
      an unsigned word that keeps falling; the copies run past the block exactly when the chain has a
      sector that starts after the file's end. */
  method ReadChain(b: Boot, drive: Drive, start: nat, size: nat, ghost chain: seq<nat>)
    returns (data: array<byte>, overrun: bool)
    requires Mounted(b, drive) && size + 1 < U32
    requires IsTrail(b, drive.disk, chain) && chain[0] == start
    modifies drive`lba, drive.bufferA
    ensures fresh(data)
    ensures data[..] == TrailData(b, drive.disk, chain, size) + [0]
    ensures overrun <==> Times(|TrailSectors(b, drive.disk, chain)| - 1, b.bytesPerSector) > size
  {
    hide ClusterCount, Times, FirstData, ClusterStart, FirstSectorForCluster, Identify, TotalSectors, FatSize,
         RootDirSize, Next, Quot, Rem, FileBytes, Copied, IsChain, ZeroReads, TrailSectors;
    var bps := b.bytesPerSector;
    var cluster: nat, remaining: nat, p: nat := start, size, 0;
    data, overrun := new byte[size + 1](_ => 0), false;
    ghost var d, q := drive.disk, 0;
    ghost var secs := TrailSectors(b, d, chain);
    ghost var file := TrailData(b, d, chain, size);
    TrailStart(b, d, chain);
    StartCopy(data[..], file, bps, b.sectorsPerCluster, |chain|);
    while cluster < EOC
      invariant 0 <= q <= |chain|
      invariant q < |chain| ==> cluster == chain[q] < EOC
      invariant q == |chain| ==> cluster >= EOC
      invariant fresh(data) && data.Length == size + 1
      invariant CopyState(b, secs, file, data[..], Times(q, b.sectorsPerCluster), p, remaining, overrun)
      decreases |chain| - q
    {
      var sector := FirstSectorForCluster(b, cluster);
      var off := 0;
      while off < b.sectorsPerCluster
        invariant 0 <= off <= b.sectorsPerCluster
        invariant fresh(data) && data.Length == size + 1
        invariant CopyState(b, secs, file, data[..], Times(q, b.sectorsPerCluster) + off, p, remaining, overrun)
      {
        TrailAt(b, d, chain, q, off);
        drive.SMReadFrom(sector + off);
        var n := if remaining > bps then bps else remaining;
        ghost var s := data[..];
        var beyond := CopySector(data, p, drive.bufferA[..bps], n);
        CopyMore(b, secs, size, s, data[..], Times(q, b.sectorsPerCluster) + off, p, remaining, overrun, beyond);
        overrun := overrun || beyond;
        remaining := (remaining - bps) % U32;
        p := p + bps;
        off := off + 1;
      }
      TimesStep(q, b.sectorsPerCluster);
      TrailNext(b, d, chain, q);
      cluster := FatNextCluster(b, cluster, drive);
      q := q + 1;
    }
    AllCopied(b, secs, file, data[..], p, remaining, overrun);
  }

  /** The state of the copy loop after k sectors. */
  ghost predicate CopyState(b: Boot, secs: seq<Sector>, file: seq<byte>, s: seq<byte>, k: nat, p: nat, remaining: nat,
          overrun: bool) {
    && Copied(s, file, k, b.bytesPerSector)
    && p == Times(k, b.bytesPerSector)
    && remaining < U32
    && (p <= |file| + b.bytesPerSector ==> remaining == (|file| - p) % U32)
    && (overrun <==> k > 0 && Times(k - 1, b.bytesPerSector) > |file|)
  }

  lemma StartCopy(s: seq<byte>, file: seq<byte>, bps: nat, spc: nat, n: nat)
    requires |s| == |file| + 1 && forall x :: 0 <= x < |s| ==> s[x] == 0
    ensures Times(0, spc) == 0 && Times(0, bps) == 0
    ensures Copied(s, file, 0, bps)
  {
  }

  lemma CopyMore(b: Boot, secs: seq<Sector>, size: nat, s: seq<byte>, s': seq<byte>, k: nat, p: nat, remaining: nat,
          overrun: bool, beyond: bool)
    requires 0 < b.bytesPerSector <= 2048 && forall j :: 0 <= j < |secs| ==> |secs[j]| == b.bytesPerSector
    requires k < |secs| && size + 1 < U32
    requires CopyState(b, secs, FileBytes(secs, b.bytesPerSector, size), s, k, p, remaining, overrun)
    requires |s'| == |s|
    requires var n := if remaining > b.bytesPerSector then b.bytesPerSector else remaining;
             && (forall x :: 0 <= x < |s| ==> s'[x] == if p <= x < p + n then secs[k][x - p] else s[x])
             && (beyond <==> n > 0 && p + n > |s|)
    ensures CopyState(b, secs, FileBytes(secs, b.bytesPerSector, size), s', k + 1, p + b.bytesPerSector,
                      (remaining - b.bytesPerSector) % U32, overrun || beyond)
  {
    var bps := b.bytesPerSector;
    var n := if remaining > bps then bps else remaining;
    TimesStep(k, bps);
    CopyStep(s, s', secs, bps, size, k, n);
    if k > 0 {
      TimesStep(k - 1, bps);
    }
    hide Times, FileBytes, Copied;
    assert p <= size ==> remaining == size - p;
  }

  lemma AllCopied(b: Boot, secs: seq<Sector>, file: seq<byte>, s: seq<byte>, p: nat, remaining: nat, overrun: bool)
    requires b.bytesPerSector > 0 && |secs| > 0 && forall j :: 0 <= j < |secs| ==> |secs[j]| == b.bytesPerSector
    requires file == FileBytes(secs, b.bytesPerSector, |file|)
    requires CopyState(b, secs, file, s, |secs|, p, remaining, overrun)
    ensures s == file + [0]
    ensures overrun <==> Times(|secs| - 1, b.bytesPerSector) > |file|
  {
    var bps := b.bytesPerSector;
    hide Times, FileBytes;
    forall x | 0 <= x < |file| ensures s[x] == file[x] {
      BlockOf(x, |secs|, bps);
    }
  }
}
