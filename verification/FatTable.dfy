/** The allocation table: its entries, the chains they form, and what one mirrored update does. */
module FatTable {
  import opened Bytes
  import opened FatVolume

  /** The 32-bit table word of cluster c, read from the first FAT. */
  function RawEntry(b: Boot, d: Disk, c: nat): (v: nat)
    requires Volume(b, d) && c < ClusterCount(b) + 2
    ensures v < U32
  {
    EntryInFat(b, c);
    GeometryExact(b);
    Get32(d[EntrySector(b, c)], EntryOffset(b, c))
  }

  /** The low 28 bits are the link; the top nibble is reserved. */
  function Next(b: Boot, d: Disk, c: nat): (v: nat)
    requires Volume(b, d) && c < ClusterCount(b) + 2
    ensures v < TOP
  {
    RawEntry(b, d, c) % TOP
  }

  function Patched(w: nat, v: nat): (r: nat)
    requires w < U32
    ensures r < U32
    ensures r % TOP == v % TOP && r / TOP == w / TOP
  {
    w / TOP * TOP + v % TOP
  }

  /** Both copies of the table sector of c, with the link of c replaced and its top nibble kept. */
  function SetEntry(b: Boot, d: Disk, c: nat, v: nat): (r: Disk)
    requires Volume(b, d) && c < ClusterCount(b) + 2
    ensures |r| == |d|
  {
    EntryInFat(b, c);
    GeometryExact(b);
    var s := Put32(d[EntrySector(b, c)], EntryOffset(b, c), Patched(RawEntry(b, d, c), v));
    d[EntrySector(b, c) := s][EntrySector(b, c) + FatSize(b) := s]
  }

  /** The sectors of the first two FATs. */
  predicate InFats(b: Boot, i: int) {
    b.reserved <= i < b.reserved + 2 * FatSize(b)
  }

  ghost predicate Mirrored(b: Boot, d: Disk)
    requires Volume(b, d)
  {
    GeometryExact(b);
    forall k :: b.reserved <= k < b.reserved + FatSize(b) ==> d[k] == d[k + FatSize(b)]
  }

  /** An update of one entry touches the two table copies only, keeps them equal,
      and changes no other entry. */
  lemma SetEntryEffect(b: Boot, d: Disk, c: nat, v: nat)
    requires Volume(b, d) && c < ClusterCount(b) + 2
    ensures var r := SetEntry(b, d, c, v);
            && Volume(b, r)
            && (forall i :: 0 <= i < |d| && !InFats(b, i) ==> r[i] == d[i])
            && (Mirrored(b, d) ==> Mirrored(b, r))
  {
    EntryInFat(b, c);
    GeometryExact(b);
    hide ClusterCount, DataCount, FatSize, Identify, RootDirSize, TotalSectors, EntrySector, EntryOffset, RawEntry,
         FirstData;
  }

  lemma SetEntryRaw(b: Boot, d: Disk, c: nat, v: nat, c': nat)
    requires Volume(b, d) && c < ClusterCount(b) + 2 && c' < ClusterCount(b) + 2
    requires Volume(b, SetEntry(b, d, c, v))
    ensures RawEntry(b, SetEntry(b, d, c, v), c') ==
            if c' == c then Patched(RawEntry(b, d, c), v) else RawEntry(b, d, c')
  {
    EntryInFat(b, c);
    EntryInFat(b, c');
    GeometryExact(b);
    if c' != c {
      EntrySlotsDisjoint(b, c, c');
    }
    var w := Patched(RawEntry(b, d, c), v);
    var s, o, o' := d[EntrySector(b, c)], EntryOffset(b, c), EntryOffset(b, c');
    if EntrySector(b, c) == EntrySector(b, c') {
      Put32Get32(s, o, w, o');
    }
    hide ClusterCount, DataCount, FatSize, Identify, RootDirSize, TotalSectors, EntrySector, EntryOffset, FirstData,
         Put32, Get32, Patched;
  }

  lemma SetEntryNext(b: Boot, d: Disk, c: nat, v: nat, c': nat)
    requires Volume(b, d) && c < ClusterCount(b) + 2 && c' < ClusterCount(b) + 2 && v < TOP
    requires Volume(b, SetEntry(b, d, c, v))
    ensures RawEntry(b, SetEntry(b, d, c, v), c') / TOP == RawEntry(b, d, c') / TOP
    ensures c' != c ==> RawEntry(b, SetEntry(b, d, c, v), c') == RawEntry(b, d, c')
    ensures c' == c ==> Next(b, SetEntry(b, d, c, v), c') == v
  {
    SetEntryRaw(b, d, c, v, c');
    hide Volume, ClusterCount, RawEntry, SetEntry, Patched;
  }

  /** Writing a sector outside the two FATs leaves every entry as it was. */
  lemma OtherSectorRaw(b: Boot, d: Disk, d': Disk, c: nat)
    requires Volume(b, d) && Volume(b, d') && c < ClusterCount(b) + 2
    requires forall i :: 0 <= i < |d| && InFats(b, i) ==> d'[i] == d[i]
    ensures RawEntry(b, d', c) == RawEntry(b, d, c)
  {
    EntryInFat(b, c);
    GeometryExact(b);
    hide ClusterCount, DataCount, FatSize, Identify, RootDirSize, TotalSectors, EntrySector, EntryOffset, FirstData,
         Get32;
  }
}
