/** A freshly formatted volume: the conditions of the write-then-read law are met, so the law is not about nothing. */
module FormattedVolume {
  import opened Arith
  import opened Bytes
  import opened FatVolume
  import opened FatTable
  import opened FatFiles
  import opened FatDirectory
  import opened FatLookup
  import opened FatRead
  import opened FatWrite
  import opened FatPaths
  import opened Storage
  import opened StorageLaws

  const SECTORS := 70000
  const TABLE_SECTORS := 548
  const RESERVED := 32
  const DATA := 1128
  const CLUSTERS := 68872

  /** 512-byte sectors, one to a cluster, two tables, the root directory at cluster 2. */
  function FormattedBoot(): Boot {
    Boot(512, 1, RESERVED, 2, 0, 0, 0, SECTORS, 0, TABLE_SECTORS, 2, SIGN_B)
  }

  function Blank(): (s: Sector)
    ensures |s| == 512 && forall i :: 0 <= i < 512 ==> s[i] == 0
  {
    seq<byte>(512, _ => 0)
  }

  /** The first sector of a table in which only cluster 2 is taken, by a chain of one; word 0 is an end mark too. */
  function TableStart(): (s: Sector)
    ensures |s| == 512 && Get32(s, 0) == EOC && Get32(s, 8) == EOC
  {
    var first := Put32(Blank(), 0, EOC);
    Put32Get32(Blank(), 0, EOC, 0);
    Put32Get32(first, 8, EOC, 8);
    Put32Get32(first, 8, EOC, 0);
    Put32(first, 8, EOC)
  }

  function FormattedDisk(): (d: Disk)
    ensures |d| == SECTORS
    ensures forall i :: 0 <= i < SECTORS ==> d[i] == if i == RESERVED || i == RESERVED + TABLE_SECTORS then TableStart()
            else Blank()
  {
    seq<Sector>(SECTORS, i => if i == RESERVED || i == RESERVED + TABLE_SECTORS then TableStart() else Blank())
  }

  lemma FormattedGeometry()
    ensures var b := FormattedBoot();
            && RootDirSize(b) == 0 && FirstData(b) == DATA && DataCount(b) == CLUSTERS && ClusterCount(b) == CLUSTERS
            && Identify(b) == Fat32 && GoodBoot(b)
  {
    var b := FormattedBoot();
    TimesIsProduct(2, TABLE_SECTORS);
    TimesIsProduct(TABLE_SECTORS, 512);
    QuotIsQuotient(CLUSTERS, 1);
    hide Times, Quot;
    QuotIsQuotient(511, 512);
  }

  lemma FormattedIsVolume()
    ensures Volume(FormattedBoot(), FormattedDisk()) && Mirrored(FormattedBoot(), FormattedDisk())
  {
    hide GoodBoot, Identify;
    FormattedGeometry();
  }

  lemma RootChain()
    ensures Volume(FormattedBoot(), FormattedDisk()) && IsChain(FormattedBoot(), FormattedDisk(), [2])
    ensures FileSectors(FormattedBoot(), FormattedDisk(), [2]) == [Blank()]
  {
    hide GoodBoot, Identify, TableStart, FormattedDisk, ClusterCount, FirstData, RootDirSize, Get32;
    var b, d := FormattedBoot(), FormattedDisk();
    FormattedGeometry();
    FormattedIsVolume();
    assert EntrySector(b, 2) == RESERVED && EntryOffset(b, 2) == 8;
    assert Next(b, d, 2) == EOC;
    assert ClusterStart(b, 2) == DATA;
    assert [2][..0] == [] && ClusterSectors(b, d, 2) == [Blank()];
    assert FileSectors(b, d, []) + ClusterSectors(b, d, 2) == [Blank()];
  }

  /** Empty files can be read on it, and no read of one copies past its block. */
  lemma FormattedReadsEmpty()
    ensures Volume(FormattedBoot(), FormattedDisk()) && ZeroReads(FormattedBoot(), FormattedDisk())
    ensures FormattedBoot().sectorsPerCluster == 1
  {
    hide GoodBoot, Identify, TableStart, FormattedDisk, ClusterCount, FirstData, RootDirSize, Get32;
    var b, d := FormattedBoot(), FormattedDisk();
    FormattedGeometry();
    FormattedIsVolume();
    assert EntrySector(b, 0) == RESERVED && EntryOffset(b, 0) == 0;
    assert Next(b, d, 0) == EOC;
  }

  lemma BlankDirectory(name: Name, ext: Ext)
    ensures FindInSector(Blank(), name, ext, 0) == None && Terminated(Blank())
    ensures FindIn([Blank()], name, ext, 0) == None
  {
  }

  /** In a directory of low clusters the place of a free slot survives the packing. */
  lemma SmallDirectory(b: Boot, d: Disk, dir: seq<nat>)
    requires Volume(b, d) && AllClusters(b, dir) && forall c :: c in dir ==> c < U16
    ensures SlotCluster(b, d, dir) < U16
    ensures var p := PackedAt(b, d, dir); p == 0 || Cluster(b, p / U16)
  {
    hide GoodBoot, ClusterCount, PackedAt, FileSectors, FreeIn, Quot, Rem;
    SlotRange(b, d, dir);
    PackedPlace(b, d, dir);
    var r := FreeIn(FileSectors(b, d, dir), 0);
    if r.Some? {
      assert dir[Quot(r.value.0, b.sectorsPerCluster)] in dir;
    }
  }

  /** Any file name that a directory scan can return may be written into the root directory. */
  lemma NewNameWritable(path: seq<byte>, data: seq<byte>, size: nat)
    requires Text(path) && 0 < |path| <= MAX_COPY && forall i :: 0 <= i < |path| ==> path[i] != SLASH
    requires NameOf(path)[0] != UNUSED && ExtOf(path)[2] != LONG_NAME
    requires Padded(data, size, 512) && size < U32 - 1
    ensures Volume(FormattedBoot(), FormattedDisk())
    ensures Writable(FormattedBoot(), FormattedDisk(), path, data, size)
    ensures Fresh(FormattedBoot(), FormattedDisk(), path) && SlotFits(FormattedBoot(), FormattedDisk(), path)
  {
    hide GoodBoot, Identify, FormattedDisk, NameOf, ExtOf, Padded, FindInSector, Terminated, IsChain;
    var b, d := FormattedBoot(), FormattedDisk();
    RootChain();
    ChainOfIs(b, d, [2]);
    BlankDirectory(NameOf(path), ExtOf(path));
    NoLocation(b, d, [2]);
    SmallDirectory(b, d, [2]);
    assert LastSlash(path).None? && Cut(path) == path && Segments([]) == [];
  }

  // ----- Two sectors to a cluster

  function WideBoot(): Boot {
    FormattedBoot().(sectorsPerCluster := 2)
  }

  lemma WideGeometry()
    ensures GoodBoot(WideBoot())
  {
    var b := WideBoot();
    TimesIsProduct(2, TABLE_SECTORS);
    TimesIsProduct(TABLE_SECTORS, 512);
    QuotIsQuotient(CLUSTERS, 2);
    hide Times, Quot;
    QuotIsQuotient(511, 512);
  }

  /** On such a volume a read of a file of one byte copies past its block. */
  lemma WideOverruns()
    ensures GoodBoot(WideBoot()) && Times(WideBoot().sectorsPerCluster, WideBoot().bytesPerSector) == 1024
    ensures Overruns(WideBoot(), 1)
  {
    hide GoodBoot;
    WideGeometry();
    TimesIsProduct(2, 512);
    CeilLeast(1, 1024, 0);
    CeilLeast(1, 1024, 1);
    ZeroTimes(1024);
    TimesIsProduct(1, 1024);
    TimesIsProduct(1, 2);
    TimesIsProduct(1, 512);
  }

  // ----- One directory

  /** A directory of the name A with its chain at cluster 3. */
  function DirectoryEntry(): (e: Entry)
    ensures IsDirectory(e) && ClusterOf(e) == 3 && e[0] == 65 && e[10] == 32
    ensures e[..8] == [65] + seq<byte>(7, _ => 32) && e[8..11] == [32, 32, 32]
  {
    var name: Name := [65] + seq<byte>(7, _ => 32);
    CreateEntryFields(name, [32, 32, 32], 3, 0, DIRECTORY);
    CreateEntry(name, [32, 32, 32], 3, 0, DIRECTORY)
  }

  lemma EntryIs()
    ensures IsDirectory(DirectoryEntry()) && ClusterOf(DirectoryEntry()) == 3
  {
  }

  function DirectorySector(): (s: Sector)
    ensures |s| == 512 && EntryAt(s, 0) == DirectoryEntry()
  {
    EntryAtPut(Blank(), 0, DirectoryEntry(), 0);
    PutEntry(Blank(), 0, DirectoryEntry())
  }

  /** Cluster 3 is taken too. */
  function TwoTaken(): (s: Sector)
    ensures |s| == 512 && Get32(s, 0) == EOC && Get32(s, 8) == EOC && Get32(s, 12) == EOC
  {
    Put32Get32(TableStart(), 12, EOC, 0);
    Put32Get32(TableStart(), 12, EOC, 8);
    Put32Get32(TableStart(), 12, EOC, 12);
    Put32(TableStart(), 12, EOC)
  }

  /** The formatted volume with an empty directory A in its root. */
  function DirectoryDisk(): (d: Disk)
    ensures |d| == SECTORS
    ensures forall i :: 0 <= i < SECTORS ==>
              d[i] == if i == RESERVED || i == RESERVED + TABLE_SECTORS then TwoTaken()
                      else if i == DATA then DirectorySector() else Blank()
  {
    FormattedDisk()[RESERVED := TwoTaken()][RESERVED + TABLE_SECTORS := TwoTaken()][DATA := DirectorySector()]
  }

  lemma DirectoryIsVolume()
    ensures Volume(FormattedBoot(), DirectoryDisk())
  {
    hide GoodBoot, Identify;
    FormattedGeometry();
  }

  /** The first table sector holds the links of the first clusters. */
  lemma LinkIs(d: Disk, c: nat, s: Sector)
    requires Volume(FormattedBoot(), d) && ClusterCount(FormattedBoot()) == CLUSTERS
    requires c < 128 && d[RESERVED] == s && |s| == 512
    ensures Next(FormattedBoot(), d, c) == Get32(s, 4 * c) % TOP
  {
    hide GoodBoot, Identify, ClusterCount, Get32, Quot, Rem;
    QuotIsQuotient(4 * c, 512);
    var b := FormattedBoot();
    assert EntrySector(b, c) == RESERVED && EntryOffset(b, c) == 4 * c;
  }

  lemma DirectoryLinks()
    ensures var b, d := FormattedBoot(), DirectoryDisk();
            && Volume(b, d) && ClusterCount(b) == CLUSTERS
            && Next(b, d, 0) == EOC && Next(b, d, 2) == EOC && Next(b, d, 3) == EOC
  {
    hide GoodBoot, Identify, TwoTaken, DirectoryDisk, ClusterCount, Get32, Next, Volume;
    FormattedGeometry();
    DirectoryIsVolume();
    LinkIs(DirectoryDisk(), 0, TwoTaken());
    LinkIs(DirectoryDisk(), 2, TwoTaken());
    LinkIs(DirectoryDisk(), 3, TwoTaken());
  }

  lemma OneCluster(b: Boot, d: Disk, c: nat)
    requires Volume(b, d) && b.sectorsPerCluster == 1 && Cluster(b, c) && Next(b, d, c) >= EOC
    ensures ClusterStart(b, c) < |d|
    ensures IsChain(b, d, [c]) && FileSectors(b, d, [c]) == [d[ClusterStart(b, c)]]
  {
    hide Identify, Next, ClusterCount, FirstData, Times, TotalSectors;
    ClusterRange(b, c);
    assert ClusterSectors(b, d, c) == [d[ClusterStart(b, c)]];
    assert [c][..0] == [] && FileSectors(b, d, []) == [];
    assert [] + ClusterSectors(b, d, c) == ClusterSectors(b, d, c);
  }

  lemma DirectoryChains()
    ensures var b, d := FormattedBoot(), DirectoryDisk();
            && Volume(b, d) && ZeroReads(b, d) && IsChain(b, d, [2]) && IsChain(b, d, [3])
            && FileSectors(b, d, [2]) == [DirectorySector()] && FileSectors(b, d, [3]) == [Blank()]
  {
    hide GoodBoot, Identify, TwoTaken, DirectoryDisk, ClusterCount, FirstData, RootDirSize, Next, DirectorySector,
         IsChain, FileSectors;
    var b, d := FormattedBoot(), DirectoryDisk();
    FormattedGeometry();
    DirectoryLinks();
    assert ClusterStart(b, 2) == DATA && ClusterStart(b, 3) == DATA + 1;
    OneCluster(b, d, 2);
    OneCluster(b, d, 3);
  }

  lemma NameA()
    ensures NameOf([65]) == [65] + seq<byte>(7, _ => 32) && ExtOf([65]) == [32, 32, 32]
    ensures Named(DirectoryEntry(), NameOf([65]), ExtOf([65]))
  {
    NcsReflexive(NameOf([65]));
    NcsReflexive(ExtOf([65]));
  }

  lemma DirectoryFound()
    ensures FindIn([DirectorySector()], NameOf([65]), ExtOf([65]), 0) == Some((0, 0))
  {
    hide DirectoryEntry, DirectorySector, NameOf, ExtOf, Named, EntryAt;
    NameA();
    assert FindInSector(DirectorySector(), NameOf([65]), ExtOf([65]), 0) == Some(0);
  }

  /** The path A arrives at the directory, finds no A in it, and reads as an empty file. */
  lemma DirectoryAsFile()
    ensures var b, d := FormattedBoot(), DirectoryDisk();
            && Volume(b, d) && Segments(Cut([65])) == [[65]] && Readable(b, d, [[65]])
            && FileAt(b, d, [[65]]) == Some(ZeroEntry())
            && TrailOf(b, d, ClusterOf(ZeroEntry())) == [0] && TrailData(b, d, [0], SizeOf(ZeroEntry())) == []
  {
    hide GoodBoot, DirectoryDisk, DirectoryEntry, DirectorySector, IsChain, ZeroReads, HasChain, Located, NameOf, ExtOf,
         Readable, FileAt, TrailOf, TrailData, ZeroEntry, ClusterOf, SizeOf, IsDirectory;
    var b, d := FormattedBoot(), DirectoryDisk();
    DirectoryChains();
    ChainOfIs(b, d, [2]);
    ChainOfIs(b, d, [3]);
    RootGives();
    DirectoryGives();
    OneSegment([65]);
    assert LastSlash([65]).None? && Cut([65]) == [65];
    var e := DirectoryEntry();
    EntryIs();
    assert Lookup(b, d, None, [65]).Location? && Followed(Reading, None, Lookup(b, d, None, [65])) == Some(Some(e));
    assert [[65]][1..] == [];
    assert Walkable(b, d, Reading, Some(e), []) && Walk(b, d, Reading, Some(e), []) == Some(Some(e));
    assert Walkable(b, d, Reading, None, [[65]]) && Walk(b, d, Reading, None, [[65]]) == Some(Some(e));
    assert LastFound(b, d, [[65]]) == NotFound;
    DirectoryReadsEmpty(b, d, [[65]]);
  }

  lemma RootGives()
    ensures var b, d := FormattedBoot(), DirectoryDisk();
            && Volume(b, d) && IsChain(b, d, [2])
            && var r := Located(b, d, [2], NameOf([65]), ExtOf([65]));
               r.Location? && r.dir == DirectoryEntry()
  {
    hide GoodBoot, DirectoryDisk, DirectoryEntry, DirectorySector, NameOf, ExtOf, FindIn, FileSectors, Next, EntryAt;
    DirectoryChains();
    DirectoryFound();
    var b, d := FormattedBoot(), DirectoryDisk();
    assert FileSectors(b, d, [2])[0] == DirectorySector();
  }

  lemma DirectoryGives()
    ensures var b, d := FormattedBoot(), DirectoryDisk();
            Volume(b, d) && IsChain(b, d, [3]) && Located(b, d, [3], NameOf([65]), ExtOf([65])) == NotFound
  {
    hide GoodBoot, DirectoryDisk, NameOf, ExtOf, FindIn, FileSectors, Next, LocationOf;
    DirectoryChains();
    BlankDirectory(NameOf([65]), ExtOf([65]));
    NoLocation(FormattedBoot(), DirectoryDisk(), [3]);
  }
}