/** A volume with names on it: a file A.TXT in the root directory, and another of that name in a directory D. */
module NamedVolume {
  import opened Bytes
  import opened FatVolume
  import opened FatTable
  import opened FatFiles
  import opened FatDirectory
  import opened FatLookup
  import opened FatRead
  import opened FatPaths
  import opened Storage
  import opened FormattedVolume

  // The path segments, in bytes.
  const A_TXT: seq<byte> := [65, 46, 84, 88, 84]
  const LOWER: seq<byte> := [97, 46, 116, 120, 116]
  const D: seq<byte> := [68]

  const A_NAME: Name := [65, 32, 32, 32, 32, 32, 32, 32]
  const TXT: Ext := [84, 88, 84]
  const D_NAME: Name := [68, 32, 32, 32, 32, 32, 32, 32]
  const NO_EXT: Ext := [32, 32, 32]

  const OUTER: seq<byte> := [72, 105]
  const INNER: seq<byte> := [66, 121, 101]

  lemma NamesAre()
    ensures NameOf(A_TXT) == A_NAME && ExtOf(A_TXT) == TXT
    ensures NameOf(D) == D_NAME && ExtOf(D) == NO_EXT
  {
    hide NameOf, ExtOf;
    assert A_TXT == [65] + [DOT] + [84, 88, 84];
    DottedName([65], [84, 88, 84]);
    PlainName(D);
  }

  // ----- The directories

  function EntryD(): (e: Entry)
    ensures e[..8] == D_NAME && e[8..11] == NO_EXT && IsDirectory(e) && ClusterOf(e) == 3
  {
    CreateEntryFields(D_NAME, NO_EXT, 3, 0, DIRECTORY);
    CreateEntry(D_NAME, NO_EXT, 3, 0, DIRECTORY)
  }

  function EntryA(cluster: nat, size: nat): (e: Entry)
    requires cluster < U32 && size < U32
    ensures e[..8] == A_NAME && e[8..11] == TXT && !IsDirectory(e) && ClusterOf(e) == cluster && SizeOf(e) == size
  {
    CreateEntryFields(A_NAME, TXT, cluster, size, ARCHIVE);
    CreateEntry(A_NAME, TXT, cluster, size, ARCHIVE)
  }

  function RootSector(): (s: Sector)
    ensures |s| == 512 && EntryAt(s, 0) == EntryD() && EntryAt(s, 1) == EntryA(4, 2)
  {
    var s := PutEntry(Blank(), 0, EntryD());
    EntryAtPut(Blank(), 0, EntryD(), 0);
    EntryAtPut(s, 1, EntryA(4, 2), 0);
    EntryAtPut(s, 1, EntryA(4, 2), 1);
    PutEntry(s, 1, EntryA(4, 2))
  }

  function SectorOfD(): (s: Sector)
    ensures |s| == 512 && EntryAt(s, 0) == EntryA(5, 3)
  {
    EntryAtPut(Blank(), 0, EntryA(5, 3), 0);
    PutEntry(Blank(), 0, EntryA(5, 3))
  }

  lemma EntryIs(e: Entry, name: Name, ext: Ext)
    requires e[..8] == name && e[8..11] == ext
    ensures Named(e, name, ext)
    ensures e[0] == name[0] && e[10] == ext[2]
  {
    NcsReflexive(name);
    NcsReflexive(ext);
    assert e[..8][0] == e[0] && e[8..11][2] == e[10];
  }

  lemma RootFinds()
    ensures FindIn([RootSector()], D_NAME, NO_EXT, 0) == Some((0, 0))
    ensures FindIn([RootSector()], A_NAME, TXT, 0) == Some((0, 1))
  {
    hide RootSector, EntryD, EntryA, Named, EntryAt, FindInSector;
    var s := RootSector();
    EntryIs(EntryD(), D_NAME, NO_EXT);
    EntryIs(EntryA(4, 2), A_NAME, TXT);
    NotD(EntryD());
    FirstSlot(s, D_NAME, NO_EXT);
    SecondSlot(s, A_NAME, TXT);
  }

  lemma NotD(e: Entry)
    requires e[..8] == D_NAME
    ensures !Named(e, A_NAME, TXT)
  {
  }

  lemma FirstSlot(s: seq<byte>, name: Name, ext: Ext)
    requires Slots(s) > 0 && Listed(EntryAt(s, 0)) && Named(EntryAt(s, 0), name, ext)
    ensures FindInSector(s, name, ext, 0) == Some(0)
  {
    hide EntryAt, Named;
  }

  lemma SecondSlot(s: seq<byte>, name: Name, ext: Ext)
    requires Slots(s) > 1 && EntryAt(s, 0)[0] != 0 && !Named(EntryAt(s, 0), name, ext)
    requires Listed(EntryAt(s, 1)) && Named(EntryAt(s, 1), name, ext)
    ensures FindInSector(s, name, ext, 0) == Some(1)
  {
    hide EntryAt, Named;
    assert FindInSector(s, name, ext, 1) == Some(1);
  }

  lemma DFinds()
    ensures FindIn([SectorOfD()], A_NAME, TXT, 0) == Some((0, 0))
  {
    hide SectorOfD, EntryA, Named, EntryAt, FindInSector;
    EntryIs(EntryA(5, 3), A_NAME, TXT);
    FirstSlot(SectorOfD(), A_NAME, TXT);
  }

  // ----- The disk

  /** Clusters 2 to 5 are chains of one. */
  function NamedTable(): (s: Sector)
    ensures |s| == 512
    ensures Get32(s, 8) == EOC && Get32(s, 12) == EOC && Get32(s, 16) == EOC && Get32(s, 20) == EOC
  {
    var t := Put32(TwoTaken(), 16, EOC);
    Put32Get32(TwoTaken(), 16, EOC, 8);
    Put32Get32(TwoTaken(), 16, EOC, 12);
    Put32Get32(TwoTaken(), 16, EOC, 16);
    Put32Get32(t, 20, EOC, 8);
    Put32Get32(t, 20, EOC, 12);
    Put32Get32(t, 20, EOC, 16);
    Put32Get32(t, 20, EOC, 20);
    Put32(t, 20, EOC)
  }

  function DataSector(data: seq<byte>): (s: Sector)
    requires |data| <= 512
    ensures |s| == 512 && s[..|data|] == data
  {
    data + Blank()[|data|..]
  }

  function NamedDisk(): (d: Disk)
    ensures |d| == SECTORS
    ensures forall i :: 0 <= i < SECTORS ==> |d[i]| == 512
    ensures d[RESERVED] == NamedTable() && d[DATA] == RootSector() && d[DATA + 1] == SectorOfD()
    ensures d[DATA + 2] == DataSector(OUTER) && d[DATA + 3] == DataSector(INNER)
  {
    FormattedDisk()[RESERVED := NamedTable()][RESERVED + TABLE_SECTORS := NamedTable()]
        [DATA := RootSector()][DATA + 1 := SectorOfD()][DATA + 2 := DataSector(OUTER)][DATA + 3 := DataSector(INNER)]
  }

  lemma NamedIsVolume()
    ensures Volume(FormattedBoot(), NamedDisk()) && ClusterCount(FormattedBoot()) == CLUSTERS
  {
    hide GoodBoot, Identify, NamedDisk, ClusterCount;
    FormattedGeometry();
  }

  lemma NamedChain(c: nat, s: Sector)
    requires 2 <= c <= 5 && NamedDisk()[DATA + c - 2] == s
    ensures Volume(FormattedBoot(), NamedDisk()) && IsChain(FormattedBoot(), NamedDisk(), [c])
    ensures FileSectors(FormattedBoot(), NamedDisk(), [c]) == [s]
  {
    hide GoodBoot, Identify, NamedDisk, NamedTable, ClusterCount, FirstData, RootDirSize, Get32, Next, IsChain,
         FileSectors;
    FormattedGeometry();
    NamedIsVolume();
    LinkIs(NamedDisk(), c, NamedTable());
    FourClusters(c);
    assert ClusterStart(FormattedBoot(), c) == DATA + c - 2;
    OneCluster(FormattedBoot(), NamedDisk(), c);
  }

  lemma FourClusters(c: nat)
    requires 2 <= c <= 5
    ensures Get32(NamedTable(), 4 * c) == EOC
  {
    hide NamedTable, Get32;
  }

  // ----- The two paths

  function OuterHop(): Hop {
    Hop(A_TXT, [2], 0, 1, EntryA(4, 2))
  }

  function InnerHops(): seq<Hop> {
    [Hop(D, [2], 0, 0, EntryD()), Hop(A_TXT, [3], 0, 0, EntryA(5, 3))]
  }

  lemma OuterLeads()
    ensures Volume(FormattedBoot(), NamedDisk())
    ensures Leads(FormattedBoot(), NamedDisk(), 2, [OuterHop()])
  {
    hide GoodBoot, NamedDisk, RootSector, EntryA, FindIn, FileSectors, IsChain, NameOf, ExtOf;
    NamesAre();
    NamedChain(2, RootSector());
    RootFinds();
    assert Found(FormattedBoot(), NamedDisk(), 2, OuterHop());
  }

  lemma InnerLeads()
    ensures Volume(FormattedBoot(), NamedDisk())
    ensures Leads(FormattedBoot(), NamedDisk(), 2, InnerHops())
  {
    hide GoodBoot, NamedDisk, RootSector, SectorOfD, EntryD, EntryA, FindIn, FileSectors, IsChain, NameOf, ExtOf,
         IsDirectory, ClusterOf;
    NamesAre();
    NamedChain(2, RootSector());
    NamedChain(3, SectorOfD());
    RootFinds();
    DFinds();
    assert Found(FormattedBoot(), NamedDisk(), 2, InnerHops()[0]);
    assert Found(FormattedBoot(), NamedDisk(), 3, InnerHops()[1]);
    assert InnerHops()[1..] == [InnerHops()[1]];
    assert Leads(FormattedBoot(), NamedDisk(), 3, InnerHops()[1..]);
  }

  /** A.TXT is the file of the root directory, with its bytes. */
  lemma OuterFile()
    ensures var b, d := FormattedBoot(), NamedDisk();
            && Volume(b, d) && Segments(Cut(A_TXT)) == [A_TXT] && Readable(b, d, [A_TXT])
            && FileAt(b, d, [A_TXT]) == Some(EntryA(4, 2))
            && TrailOf(b, d, 4) == [4] && TrailData(b, d, [4], 2) == OUTER
  {
    hide GoodBoot, NamedDisk, EntryA, Leads, Readable, FileAt, HasTrail, TrailOf, TrailData, IsTrail, IsDirectory,
         IsChain, ClusterOf, SizeOf;
    OuterLeads();
    OneSegment(A_TXT);
    DataOf(4, OUTER);
    assert SegmentsOf([OuterHop()]) == [A_TXT];
    PathLeads(FormattedBoot(), NamedDisk(), [OuterHop()]);
  }

  /** D/A.TXT is the other one. */
  lemma InnerFile()
    ensures var b, d := FormattedBoot(), NamedDisk();
            && Volume(b, d) && Segments(Cut(D + [SLASH] + A_TXT)) == [D, A_TXT] && Readable(b, d, [D, A_TXT])
            && FileAt(b, d, [D, A_TXT]) == Some(EntryA(5, 3))
            && TrailOf(b, d, 5) == [5] && TrailData(b, d, [5], 3) == INNER
  {
    hide GoodBoot, NamedDisk, EntryA, EntryD, Leads, Readable, FileAt, HasTrail, TrailOf, TrailData, IsTrail,
         IsDirectory, IsChain, ClusterOf, SizeOf;
    InnerLeads();
    OneSegment(D);
    SegmentsJoin(D, A_TXT);
    assert [D] + [A_TXT] == [D, A_TXT];
    DataOf(5, INNER);
    assert SegmentsOf(InnerHops()[1..]) == [A_TXT] && SegmentsOf(InnerHops()) == [D, A_TXT];
    PathLeads(FormattedBoot(), NamedDisk(), InnerHops());
  }

  lemma DataOf(c: nat, data: seq<byte>)
    requires 4 <= c <= 5 && data == (if c == 4 then OUTER else INNER)
    ensures var b, d := FormattedBoot(), NamedDisk();
            && Volume(b, d) && HasTrail(b, d, c)
            && TrailOf(b, d, c) == [c] && IsTrail(b, d, [c]) && TrailData(b, d, [c], |data|) == data
  {
    hide GoodBoot, NamedDisk, FileSectors, IsChain, FileBytes, Next, HasTrail, TrailOf, TrailData, IsTrail;
    var b, d := FormattedBoot(), NamedDisk();
    NamedChain(c, DataSector(data));
    TrailOfChain(b, d, [c]);
    ChainIsTrail(b, d, [c], |data|);
    FileSectorsSized(b, d, [c]);
    FirstBytes(DataSector(data), data);
  }

  lemma FirstBytes(s: Sector, data: seq<byte>)
    requires |s| == 512 && |data| <= 512 && s[..|data|] == data
    ensures FileBytes([s], 512, |data|) == data
  {
  }

  /** Letter case does not matter: a.txt is that file too. */
  lemma LowerCaseFile()
    ensures var b, d := FormattedBoot(), NamedDisk();
            && Volume(b, d) && Readable(b, d, [LOWER]) && FileAt(b, d, [LOWER]) == Some(EntryA(4, 2))
  {
    hide GoodBoot, NamedDisk, RootSector, EntryA, FindIn, FileSectors, IsChain, NameOf, ExtOf, Readable, FileAt,
         HasTrail, TrailOf, TrailData, IsTrail, IsDirectory, ClusterOf, SizeOf;
    var h := Hop(LOWER, [2], 0, 1, EntryA(4, 2));
    LowerFinds();
    NamedChain(2, RootSector());
    assert Found(FormattedBoot(), NamedDisk(), 2, h);
    DataOf(4, OUTER);
    assert SegmentsOf([h]) == [LOWER] && Leads(FormattedBoot(), NamedDisk(), 2, [h]);
    PathLeads(FormattedBoot(), NamedDisk(), [h]);
  }

  lemma LowerFinds()
    ensures FindIn([RootSector()], NameOf(LOWER), ExtOf(LOWER), 0) == Some((0, 1))
  {
    hide RootSector, FindIn, NcsSame;
    assert LOWER == [97] + [DOT] + [116, 120, 116];
    DottedName([97], [116, 120, 116]);
    RootFinds();
    NcsMeaning(A_NAME, NameOf(LOWER));
    NcsMeaning(TXT, ExtOf(LOWER));
    SameFoundIn([RootSector()], A_NAME, TXT, NameOf(LOWER), ExtOf(LOWER), 0);
  }
}
