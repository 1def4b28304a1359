/** Geometry of a FAT32 volume: the boot record, the arithmetic on it, and where each table slot and
    each cluster lives on the disk.  (Microsoft, "FAT: General Overview of On-Disk Format", sections
    "FAT Data Structure" and "FAT Type Determination".) */
module FatVolume {
  import opened Arith
  import opened Bytes

  type Sector = seq<byte>
  type Disk = seq<Sector>

  /** The boot record fields the kernel uses. */
  datatype Boot = Boot(
    bytesPerSector: nat, sectorsPerCluster: nat, reserved: nat, fatCount: nat, rootEntries: nat,
    total16: nat, fatSize16: nat, total32: nat, sign16: nat,
    fatSize32: nat, rootCluster: nat, sign32: nat)

  datatype FatType = FatUnknown | Fat12 | Fat16 | Fat32

  const EOC := 0x0FFF_FFF8
  const TOP := 0x1000_0000
  const SIGN_A := 0x28
  const SIGN_B := 0x29
  const ENTRY_SIZE := 32

  /** FatReadBootSector: the record as laid out in sector 0. */
  function BootOf(s: Sector): Boot
    requires |s| >= 512
  {
    Boot(Get16(s, 11), s[13], Get16(s, 14), s[16], Get16(s, 17),
         Get16(s, 19), Get16(s, 22), Get32(s, 32), s[38],
         Get32(s, 36), Get32(s, 44), s[66])
  }

  /** Every field from its own bytes, the low byte first: the offsets of the on-disk format. */
  lemma BootFields(s: Sector)
    requires |s| >= 512
    ensures var b := BootOf(s);
            && b.bytesPerSector == s[11] as int + 0x100 * s[12] as int
            && b.sectorsPerCluster == s[13] as int
            && b.reserved == s[14] as int + 0x100 * s[15] as int
            && b.fatCount == s[16] as int
            && b.rootEntries == s[17] as int + 0x100 * s[18] as int
            && b.total16 == s[19] as int + 0x100 * s[20] as int
            && b.fatSize16 == s[22] as int + 0x100 * s[23] as int
            && b.total32 == s[32] as int + 0x100 * s[33] as int + 0x1_0000 * s[34] as int + 0x100_0000 * s[35] as int
            && b.fatSize32 == s[36] as int + 0x100 * s[37] as int + 0x1_0000 * s[38] as int + 0x100_0000 * s[39] as int
            && b.rootCluster
               == s[44] as int + 0x100 * s[45] as int + 0x1_0000 * s[46] as int + 0x100_0000 * s[47] as int
            && b.sign16 == s[38] as int && b.sign32 == s[66] as int
  {
  }

  // ----- The arithmetic of fat.c, in 32-bit words

  function TotalSectors(b: Boot): nat {
    if b.total16 != 0 then b.total16 else b.total32
  }

  function FatSize(b: Boot): nat {
    if b.fatSize16 != 0 then b.fatSize16 else b.fatSize32
  }

  function RootDirSize(b: Boot): nat
    requires b.bytesPerSector > 0
  {
    Quot(b.rootEntries * ENTRY_SIZE + (b.bytesPerSector - 1), b.bytesPerSector)
  }

  function FirstData(b: Boot): nat
    requires b.bytesPerSector > 0
  {
    (b.reserved + Times(b.fatCount, FatSize(b)) + RootDirSize(b)) % U32
  }

  function FirstFat(b: Boot): nat {
    b.reserved
  }

  function DataCount(b: Boot): nat
    requires b.bytesPerSector > 0
  {
    (TotalSectors(b) - (b.reserved + Times(b.fatCount, FatSize(b)) + RootDirSize(b))) % U32
  }

  function ClusterCount(b: Boot): nat
    requires b.bytesPerSector > 0 && b.sectorsPerCluster > 0
  {
    Quot(DataCount(b), b.sectorsPerCluster)
  }

  function Identify(b: Boot): FatType
    requires b.bytesPerSector > 0 && b.sectorsPerCluster > 0
  {
    var n := ClusterCount(b);
    if n < 4085 && (b.sign16 == SIGN_A || b.sign16 == SIGN_B) then Fat12
    else if n < 65525 && (b.sign16 == SIGN_A || b.sign16 == SIGN_B) then Fat16
    else if b.sign32 == SIGN_A || b.sign32 == SIGN_B then Fat32
    else FatUnknown
  }

  function FirstSectorForCluster(b: Boot, cluster: nat): nat
    requires b.bytesPerSector > 0
  {
    (Times((cluster - 2) % U32, b.sectorsPerCluster) + FirstData(b)) % U32
  }

  // ----- Well-formed volumes

  /** A FAT32 volume of the shape the specification demands, whose sectors fit the drive's buffer. */
  ghost predicate GoodBoot(b: Boot) {
    && 512 <= b.bytesPerSector <= 2048 && b.bytesPerSector % ENTRY_SIZE == 0
    && 1 <= b.sectorsPerCluster < 256
    && 1 <= b.reserved && 2 <= b.fatCount
    && b.reserved + Times(b.fatCount, FatSize(b)) + RootDirSize(b) <= TotalSectors(b) < U32
    && Identify(b) == Fat32
    && ClusterCount(b) + 2 < EOC
    && 4 * (ClusterCount(b) + 2) <= Times(FatSize(b), b.bytesPerSector)
  }

  ghost predicate Volume(b: Boot, d: Disk) {
    && GoodBoot(b)
    && |d| == TotalSectors(b)
    && forall i :: 0 <= i < |d| ==> |d[i]| == b.bytesPerSector
  }

  predicate Cluster(b: Boot, c: int)
    requires b.bytesPerSector > 0 && b.sectorsPerCluster > 0
  {
    2 <= c < ClusterCount(b) + 2
  }

  // ----- Where things live

  function EntrySector(b: Boot, c: nat): nat
    requires b.bytesPerSector > 0
  {
    b.reserved + Quot(4 * c, b.bytesPerSector)
  }

  function EntryOffset(b: Boot, c: nat): nat
    requires b.bytesPerSector > 0
  {
    Rem(4 * c, b.bytesPerSector)
  }

  /** The first sector of cluster c. */
  function ClusterStart(b: Boot, c: nat): nat
    requires b.bytesPerSector > 0 && c >= 2
  {
    Times(c - 2, b.sectorsPerCluster) + FirstData(b)
  }

  /** On a well-formed volume no geometry word wraps. */
  lemma GeometryExact(b: Boot)
    requires GoodBoot(b)
    ensures FirstData(b) == b.reserved + Times(b.fatCount, FatSize(b)) + RootDirSize(b)
    ensures FirstData(b) >= b.reserved + 2 * FatSize(b)
    ensures FirstData(b) + Times(ClusterCount(b), b.sectorsPerCluster) <= TotalSectors(b)
  {
    TimesMono(2, b.fatCount, FatSize(b));
    QuotRem(DataCount(b), b.sectorsPerCluster);
    hide RootDirSize, Identify;
  }

  /** The table slot of a cluster is a whole word inside the first FAT. */
  lemma EntryInFat(b: Boot, c: nat)
    requires GoodBoot(b) && c < ClusterCount(b) + 2
    ensures b.reserved <= EntrySector(b, c) < b.reserved + FatSize(b)
    ensures EntryOffset(b, c) + 4 <= b.bytesPerSector
  {
    hide ClusterCount, DataCount, FatSize, Identify, RootDirSize, TotalSectors, Quot, Rem, FirstData;
    assert Times(FatSize(b), b.bytesPerSector) > 4 * c;
    WordInTable(c, b.bytesPerSector, FatSize(b));
  }

  /** It is the word at byte 4 * c of the table. */
  lemma EntryPlace(b: Boot, c: nat)
    requires b.bytesPerSector > 0
    ensures EntryOffset(b, c) < b.bytesPerSector
    ensures Times(EntrySector(b, c) - FirstFat(b), b.bytesPerSector) + EntryOffset(b, c) == 4 * c
  {
    hide Quot, Rem;
    QuotRem(4 * c, b.bytesPerSector);
  }

  /** Different clusters have table slots that do not overlap. */
  lemma EntrySlotsDisjoint(b: Boot, c: nat, c': nat)
    requires b.bytesPerSector > 0 && c != c'
    ensures EntrySector(b, c) == EntrySector(b, c') ==>
              EntryOffset(b, c) + 4 <= EntryOffset(b, c') || EntryOffset(b, c') + 4 <= EntryOffset(b, c)
  {
    hide Quot, Rem;
    if EntrySector(b, c) == EntrySector(b, c') {
      WordsDisjoint(c, c', b.bytesPerSector);
    }
  }

  /** Cluster sectors lie in the data area, inside the disk. */
  lemma ClusterRange(b: Boot, c: nat)
    requires GoodBoot(b) && Cluster(b, c)
    ensures FirstData(b) <= ClusterStart(b, c)
    ensures ClusterStart(b, c) + b.sectorsPerCluster <= FirstData(b) + Times(ClusterCount(b),
            b.sectorsPerCluster) <= TotalSectors(b)
    ensures FirstSectorForCluster(b, c) == ClusterStart(b, c)
  {
    GeometryExact(b);
    var k, n := b.sectorsPerCluster, ClusterCount(b);
    hide Identify, ClusterCount, RootDirSize, FatSize, FirstData, TotalSectors;
    TimesMono(c - 2, n, k);
  }

  /** The map from (cluster, sector in cluster) to disk sectors is injective. */
  lemma ClusterSectorInjective(b: Boot, c: nat, s: nat, c': nat, s': nat)
    requires b.bytesPerSector > 0 && c >= 2 && c' >= 2
    requires s < b.sectorsPerCluster && s' < b.sectorsPerCluster
    requires ClusterStart(b, c) + s == ClusterStart(b, c') + s'
    ensures c == c' && s == s'
  {
    hide FirstData;
    PairInjective(c - 2, s, c' - 2, s', b.sectorsPerCluster);
  }
}
