/** The table operations of fat.c on a drive: following a link, finding, setting and allocating clusters. */
module FatAllocate {
  import opened Arith
  import opened Bytes
  import opened FatVolume
  import opened FatTable
  import opened FatFiles
  import opened Drives

  ghost predicate Mounted(b: Boot, drive: Drive)
    reads drive
  {
    drive.Valid() && Volume(b, drive.disk) && drive.sectorSize == b.bytesPerSector
  }

  /** Following a link of a FAT32 table. */
  method FatNextCluster(b: Boot, cluster: nat, drive: Drive) returns (next: nat)
    requires Mounted(b, drive) && cluster < ClusterCount(b) + 2
    modifies drive`lba, drive.bufferA
    ensures next == Next(b, drive.disk, cluster)
  {
    EntryInFat(b, cluster);
    GeometryExact(b);
    hide Identify, RootDirSize, FatSize, TotalSectors, FirstData, ClusterCount;
    var fatOffset := cluster * 4 % U32;
    var fatSector := FirstFat(b) + Quot(fatOffset, b.bytesPerSector);
    var entOffset := Rem(fatOffset, b.bytesPerSector);
    drive.SMReadFrom(fatSector);
    var entry := Get32(drive.bufferA[..b.bytesPerSector], entOffset);
    next := entry % TOP;
  }

  /** The lowest free cluster, or 0 when none is free. */
  method FatFindFreeCluster(b: Boot, drive: Drive) returns (c: nat)
    requires Mounted(b, drive)
    modifies drive`lba, drive.bufferA
    ensures c == 0 ==> forall x :: !Free(b, drive.disk, x)
    ensures c != 0 ==> Free(b, drive.disk, c)
    ensures c != 0 ==> forall x :: Free(b, drive.disk, x) ==> c <= x
  {
    hide Identify, RootDirSize, FatSize, TotalSectors, FirstData, ClusterCount, Next;
    var totalClusters := ClusterCount(b);
    var i := 2;
    while i < totalClusters + 2
      invariant 2 <= i <= totalClusters + 2
      invariant forall x :: 2 <= x < i ==> Next(b, drive.disk, x) != 0
    {
      var entry := FatNextCluster(b, i, drive);
      if entry == 0 {
        return i;
      }
      i := i + 1;
    }
    return 0;
  }

  /** The read-modify-write of one table word: the new sector image goes to both table copies. */
  method FatSetCluster(b: Boot, cluster: nat, value: nat, drive: Drive)
    requires Mounted(b, drive) && cluster < ClusterCount(b) + 2
    modifies drive, drive.bufferA
    ensures Mounted(b, drive)
    ensures drive.disk == SetEntry(b, old(drive.disk), cluster, value)
  {
    var fatOffset := cluster * 4 % U32;
    var fatSector := FirstFat(b) + Quot(fatOffset, b.bytesPerSector);
    var entOffset := Rem(fatOffset, b.bytesPerSector);
    ghost var d := drive.disk;
    SetEntryAt(b, d, cluster, value, fatSector, entOffset);
    hide *;
    drive.SMReadFrom(fatSector);
    var sector := drive.bufferA[..b.bytesPerSector];
    // The word is replaced in the drive's own buffer, which is then written out as it stands.
    var image := PutLink(sector, entOffset, value);
    forall i | 0 <= i < b.bytesPerSector {
      drive.bufferA[i] := image[i];
    }
    assert drive.bufferA[..b.bytesPerSector] == image;
    var fat2Sector := fatSector + FatSize(b);
    StoreBuffer(drive, fatSector, fat2Sector, image);
  }

  /** Two writes of the sector buffer onto the drive. */
  method StoreBuffer(drive: Drive, first: nat, second: nat, ghost image: Sector)
    requires drive.Valid() && first < |drive.disk| && second < |drive.disk|
    requires drive.bufferA[..drive.sectorSize] == image
    modifies drive, drive.bufferA
    ensures drive.Valid()
    ensures drive.disk == old(drive.disk)[first := image][second := image]
  {
    var buffer := drive.bufferA[..];
    assert buffer[..drive.sectorSize] == image;
    var _ := drive.SMWriteTo(first, buffer, BUFFER_SIZE);
    buffer := drive.bufferA[..];
    assert buffer[..drive.sectorSize] == drive.bufferA[..drive.sectorSize];
    var _ := drive.SMWriteTo(second, buffer, BUFFER_SIZE);
  }

  function PutLink(sector: Sector, o: nat, value: nat): (r: Sector)
    requires o + 4 <= |sector|
    ensures |r| == |sector|
  {
    var entry := Get32(sector, o);
    Put32(sector, o, entry / TOP * TOP + value % TOP)
  }

  lemma EntryPlace(b: Boot, c: nat)
    requires GoodBoot(b) && c < ClusterCount(b) + 2
    ensures FirstFat(b) + Quot(c * 4 % U32, b.bytesPerSector) == EntrySector(b, c)
    ensures Rem(c * 4 % U32, b.bytesPerSector) == EntryOffset(b, c)
  {
    hide DataCount, FatSize, Identify, RootDirSize, TotalSectors, Quot, Rem, Times, FirstData;
    assert c * 4 % U32 == 4 * c;
  }

  lemma SetEntryAt(b: Boot, d: Disk, c: nat, v: nat, fatSector: nat, o: nat)
    requires Volume(b, d) && c < ClusterCount(b) + 2
    requires fatSector == FirstFat(b) + Quot(c * 4 % U32, b.bytesPerSector)
    requires o == Rem(c * 4 % U32, b.bytesPerSector)
    ensures fatSector + FatSize(b) < |d| && o + 4 <= b.bytesPerSector
    ensures |d[fatSector]| == b.bytesPerSector <= BUFFER_SIZE
    ensures Volume(b, SetEntry(b, d, c, v))
    ensures SetEntry(b, d, c, v)
            == d[fatSector := PutLink(d[fatSector], o, v)][fatSector + FatSize(b) := PutLink(d[fatSector], o, v)]
  {
    hide Identify, RootDirSize, FatSize, TotalSectors, FirstData, ClusterCount, DataCount, Quot, Rem, Times,
         EntrySector, EntryOffset, Get32, Put32, InFats;
    EntryPlace(b, c);
    EntryInFat(b, c);
    GeometryExact(b);
    SetEntryEffect(b, d, c, v);
  }

  /** Claim the lowest free cluster and mark it as the end of a chain. */
  method FatAllocateCluster(b: Boot, drive: Drive) returns (c: nat)
    requires Mounted(b, drive)
    modifies drive, drive.bufferA
    ensures Mounted(b, drive)
    ensures c == 0 ==> drive.disk == old(drive.disk) && forall x :: !Free(b, drive.disk, x)
    ensures c != 0 ==> Free(b, old(drive.disk), c) && forall x :: Free(b, old(drive.disk), x) ==> c <= x
    ensures c != 0 ==> drive.disk == SetEntry(b, old(drive.disk), c, EOC)
  {
    hide ClusterCount, GoodBoot, SetEntry, Next;
    c := FatFindFreeCluster(b, drive);
    if c == 0 {
      return;
    }
    FatSetCluster(b, c, EOC, drive);
  }
}
