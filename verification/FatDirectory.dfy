/** Directory sectors: 32-byte entries, the case-insensitive search over them and the insertion of one. */
module FatDirectory {
  import opened Bytes

  type Name = s: seq<byte> | |s| == 8 witness [0, 0, 0, 0, 0, 0, 0, 0]
  type Ext = s: seq<byte> | |s| == 3 witness [0, 0, 0]
  type Entry = s: seq<byte> | |s| == 32 witness seq(32, _ => 0)

  const UNUSED: byte := 0xE5
  const SPACE: byte := 32
  const DOT: byte := 46
  const SLASH: byte := 47
  const DIRECTORY := 0x10
  const ARCHIVE: byte := 0x20
  const LONG_NAME: byte := 0x0F

  // ----- One entry

  function ClusterOf(e: Entry): (c: nat)
    ensures c < U32
  {
    Get16(e, 20) * U16 + Get16(e, 26)
  }

  function SizeOf(e: Entry): (n: nat)
    ensures n < U32
  {
    Get32(e, 28)
  }

  predicate IsDirectory(e: Entry) {
    e[11] / DIRECTORY % 2 == 1
  }

  function Lower(c: byte): byte {
    if 65 <= c <= 90 then c + 32 else c
  }

  /** ncsstrncmp(p, q, |p|) == 0. */
  predicate NcsSame(p: seq<byte>, q: seq<byte>)
    requires |p| == |q|
  {
    if p == [] then true
    else if Lower(p[0]) != Lower(q[0]) || p[0] == 0 then p[0] == q[0]
    else NcsSame(p[1..], q[1..])
  }

  lemma {:induction false} NcsReflexive(p: seq<byte>)
    ensures NcsSame(p, p)
  {
    if p != [] {
      NcsReflexive(p[1..]);
    }
  }

  /** The comparison is equality up to letter case when the name sought holds no NUL. */
  lemma {:induction false} NcsMeaning(p: seq<byte>, q: seq<byte>)
    requires |p| == |q| && forall i :: 0 <= i < |q| ==> q[i] != 0
    ensures NcsSame(p, q) <==> forall i :: 0 <= i < |p| ==> Lower(p[i]) == Lower(q[i])
  {
    if p != [] {
      assert p == [p[0]] + p[1..] && q == [q[0]] + q[1..];
      NcsMeaning(p[1..], q[1..]);
      assert (forall i :: 0 <= i < |p| ==> Lower(p[i]) == Lower(q[i])) <==>
             Lower(p[0]) == Lower(q[0]) && forall i :: 0 <= i < |p| - 1 ==> Lower(p[1..][i]) == Lower(q[1..][i]);
    }
  }

  predicate Named(e: Entry, name: Name, ext: Ext) {
    NcsSame(e[..8], name) && NcsSame(e[8..11], ext)
  }

  /** FatConvert83: the padded name and extension a path segment stands for. */
  function Pad(s: seq<byte>, n: nat): (r: seq<byte>)
    requires |s| <= n
    ensures |r| == n
  {
    s + seq(n - |s|, _ => SPACE)
  }

  function NameLength(path: seq<byte>, i: nat): (n: nat)
    requires i <= |path| && i <= 8
    ensures i <= n <= |path| && n <= 8
    decreases |path| - i
  {
    if i < |path| && path[i] != DOT && i < 8 then NameLength(path, i + 1) else i
  }

  function ExtLength(path: seq<byte>, i: nat): (n: nat)
    requires i <= |path| && i <= 3
    ensures i <= n <= |path| && n <= 3
    decreases |path| - i
  {
    if i < |path| && i < 3 && path[i] != SLASH then ExtLength(path, i + 1) else i
  }

  function NameOf(path: seq<byte>): Name {
    Pad(path[..NameLength(path, 0)], 8)
  }

  function ExtOf(path: seq<byte>): Ext {
    var n := NameLength(path, 0);
    var rest := if n < |path| && path[n] == DOT then path[n + 1..] else path[n..];
    Pad(rest[..ExtLength(rest, 0)], 3)
  }

  lemma {:induction false} NameStops(path: seq<byte>, i: nat, n: nat)
    requires i <= n <= |path| && n <= 8 && forall k :: i <= k < n ==> path[k] != DOT
    requires n == 8 || n == |path| || path[n] == DOT
    ensures NameLength(path, i) == n
    decreases n - i
  {
    if i < n {
      NameStops(path, i + 1, n);
    }
  }

  lemma {:induction false} ExtStops(path: seq<byte>, i: nat)
    requires i <= |path| && i <= 3 && forall k :: i <= k < |path| ==> path[k] != SLASH
    ensures ExtLength(path, i) == if |path| < 3 then |path| else 3
    decreases |path| - i
  {
    if i < |path| && i < 3 {
      ExtStops(path, i + 1);
    }
  }

  /** A name of at most eight characters, a dot and an extension: each goes to its own field from the first character
      on, the extension cut to three, and spaces fill up both. */
  lemma DottedName(n: seq<byte>, e: seq<byte>)
    requires |n| <= 8 && DOT !in n && SLASH !in e
    ensures forall k: nat :: k < 8 ==> NameOf(n + [DOT] + e)[k] == if k < |n| then n[k] else SPACE
    ensures forall k: nat :: k < 3 ==> ExtOf(n + [DOT] + e)[k] == if k < |e| then e[k] else SPACE
  {
    var path := n + [DOT] + e;
    NameStops(path, 0, |n|);
    assert path[|n| + 1..] == e;
    ExtStops(e, 0);
  }

  /** Without a dot the extension is blank. */
  lemma PlainName(n: seq<byte>)
    requires |n| <= 8 && DOT !in n
    ensures forall k: nat :: k < 8 ==> NameOf(n)[k] == if k < |n| then n[k] else SPACE
    ensures forall k: nat :: k < 3 ==> ExtOf(n)[k] == SPACE
  {
    NameStops(n, 0, |n|);
    assert n[|n|..] == [];
  }

  /** With more than eight characters before the dot the extension is the ninth character and the two after it,
      whatever stands behind the dot. */
  lemma LongName(path: seq<byte>)
    requires |path| > 8 && SLASH !in path && forall k :: 0 <= k < 9 ==> path[k] != DOT
    ensures forall k: nat :: k < 8 ==> NameOf(path)[k] == path[k]
    ensures forall k: nat :: k < 3 ==> ExtOf(path)[k] == if 8 + k < |path| then path[8 + k] else SPACE
  {
    NameStops(path, 0, 8);
    ExtStops(path[8..], 0);
  }

  /** FatCreateEntry. */
  function CreateEntry(name: Name, ext: Ext, firstCluster: nat, size: nat, flags: byte): Entry
    requires firstCluster < U32 && size < U32
  {
    name + ext + [flags, 0, 0, 0, 0, 0, 0, 0, 0] + Enc16(firstCluster / U16) + [0, 0, 0, 0]
    + Enc16(firstCluster % U16) + Enc32(size)
  }

  lemma CreateEntryFields(name: Name, ext: Ext, firstCluster: nat, size: nat, flags: byte)
    requires firstCluster < U32 && size < U32
    ensures var e := CreateEntry(name, ext, firstCluster, size, flags);
            e[..8] == name && e[8..11] == ext && e[11] == flags
            && ClusterOf(e) == firstCluster && SizeOf(e) == size && Named(e, name, ext)
  {
    var e := CreateEntry(name, ext, firstCluster, size, flags);
    assert e[20..22] == Enc16(firstCluster / U16);
    assert e[26..28] == Enc16(firstCluster % U16);
    assert e[28..32] == Enc32(size);
    Get16Of(e, Enc16(firstCluster / U16), 20);
    Get16Of(e, Enc16(firstCluster % U16), 26);
    Get32Of(e, Enc32(size), 28);
    assert e[..8] == name && e[8..11] == ext;
    NcsReflexive(name);
    NcsReflexive(ext);
  }

  /** Where the bytes of an entry lie. */
  lemma CreateEntryBytes(name: Name, ext: Ext, firstCluster: nat, size: nat, flags: byte)
    requires firstCluster < U32 && size < U32
    ensures var e := CreateEntry(name, ext, firstCluster, size, flags);
            && (forall k :: 0 <= k < 8 ==> e[k] == name[k]) && (forall k :: 0 <= k < 3 ==> e[8 + k] == ext[k])
            && e[11] == flags && (forall k :: 12 <= k < 20 || 22 <= k < 26 ==> e[k] == 0)
            && firstCluster == e[26] as int + 0x100 * e[27] as int + 0x1_0000 * e[20] as int + 0x100_0000 * e[21] as int
            && size == e[28] as int + 0x100 * e[29] as int + 0x1_0000 * e[30] as int + 0x100_0000 * e[31] as int
  {
    CreateEntryFields(name, ext, firstCluster, size, flags);
  }

  // ----- One sector of entries

  function Slots(s: seq<byte>): nat {
    |s| / 32
  }

  function EntryAt(s: seq<byte>, i: nat): Entry
    requires i < Slots(s)
  {
    s[32 * i..32 * i + 32]
  }

  function PutEntry(s: seq<byte>, i: nat, e: Entry): (r: seq<byte>)
    requires i < Slots(s)
    ensures |r| == |s|
  {
    s[..32 * i] + e + s[32 * i + 32..]
  }

  lemma EntryAtPut(s: seq<byte>, i: nat, e: Entry, j: nat)
    requires i < Slots(s) && j < Slots(s)
    ensures EntryAt(PutEntry(s, i, e), j) == if j == i then e else EntryAt(s, j)
  {
    var r := PutEntry(s, i, e);
    if j < i {
      assert r[..32 * i] == s[..32 * i];
      assert r[32 * j..32 * j + 32] == r[..32 * i][32 * j..32 * j + 32];
    } else if j > i {
      assert r[32 * i + 32..] == s[32 * i + 32..];
      assert r[32 * j..32 * j + 32] == r[32 * i + 32..][32 * j - 32 * i - 32..32 * j - 32 * i];
    }
  }

  /** The scan of one sector: it stops at the first entry whose name starts with 0 and passes over
      unused entries and those taken for long names. */
  function FindInSector(s: seq<byte>, name: Name, ext: Ext, i: nat): (r: Option<nat>)
    ensures r.Some? ==> i <= r.value < Slots(s)
    decreases Slots(s) - i
  {
    if i >= Slots(s) || EntryAt(s, i)[0] == 0 then None
    else if EntryAt(s, i)[0] == UNUSED || EntryAt(s, i)[10] == LONG_NAME then FindInSector(s, name, ext, i + 1)
    else if Named(EntryAt(s, i), name, ext) then Some(i)
    else FindInSector(s, name, ext, i + 1)
  }

  function FreeInSector(s: seq<byte>, i: nat): (r: Option<nat>)
    ensures r.Some? ==> i <= r.value < Slots(s)
    decreases Slots(s) - i
  {
    if i >= Slots(s) then None
    else if EntryAt(s, i)[0] == 0 || EntryAt(s, i)[0] == UNUSED then Some(i)
    else FreeInSector(s, i + 1)
  }

  /** An entry that a scan can return. */
  predicate Listed(e: Entry) {
    e[0] != 0 && e[0] != UNUSED && e[10] != LONG_NAME
  }

  /** Once an entry is marked as the last, so is every later one: the format's own rule. */
  ghost predicate Terminated(s: seq<byte>) {
    forall i, j :: 0 <= i < j < Slots(s) && EntryAt(s, i)[0] == 0 ==> EntryAt(s, j)[0] == 0
  }

  /** What the scan finds: the first listed entry of that name that no end mark precedes. */
  lemma {:induction false} FindInSectorMeans(s: seq<byte>, name: Name, ext: Ext, i: nat, k: nat)
    requires i <= k < Slots(s)
    ensures FindInSector(s, name, ext, i) == Some(k) <==>
            && Listed(EntryAt(s, k)) && Named(EntryAt(s, k), name, ext)
            && (forall j :: i <= j < k ==> EntryAt(s, j)[0] != 0)
            && (forall j :: i <= j < k ==> !(Listed(EntryAt(s, j)) && Named(EntryAt(s, j), name, ext)))
    decreases k - i
  {
    hide Named, EntryAt;
    if i < k {
      FindInSectorMeans(s, name, ext, i + 1, k);
    }
  }

  /** A listed entry put into the first free slot is found under its name, if that name was absent. */
  lemma {:induction false} FindInserted(s: seq<byte>, i: nat, k: nat, e: Entry, name: Name, ext: Ext)
    requires FreeInSector(s, i) == Some(k)
    requires FindInSector(s, name, ext, i) == None
    requires Listed(e) && Named(e, name, ext)
    ensures FindInSector(PutEntry(s, k, e), name, ext, i) == Some(k)
    decreases k - i
  {
    var r := PutEntry(s, k, e);
    EntryAtPut(s, k, e, i);
    hide EntryAt, PutEntry, Named;
    if i < k {
      FindInserted(s, i + 1, k, e, name, ext);
    }
  }

  /** ... and every other name is found where it was, if the sector obeys the format's end rule. */
  lemma {:induction false} FindOthers(s: seq<byte>, i: nat, k: nat, e: Entry, name: Name, ext: Ext)
    requires k < Slots(s) && (EntryAt(s, k)[0] == 0 || EntryAt(s, k)[0] == UNUSED)
    requires forall j :: 0 <= j < k ==> EntryAt(s, j)[0] != 0
    requires Terminated(s) && e[0] != 0 && !Named(e, name, ext)
    ensures i <= k || EntryAt(s, k)[0] != 0 ==>
              FindInSector(PutEntry(s, k, e), name, ext, i) == FindInSector(s, name, ext, i)
    ensures i > k && EntryAt(s, k)[0] == 0 ==> FindInSector(PutEntry(s, k, e), name, ext, i) == None
    decreases Slots(s) - i
  {
    var r := PutEntry(s, k, e);
    if i < Slots(s) {
      EntryAtPut(s, k, e, i);
      hide EntryAt, PutEntry, Named;
      FindOthers(s, i + 1, k, e, name, ext);
    }
  }

  lemma {:induction false} FreeIsFirst(s: seq<byte>, i: nat, k: nat)
    requires FreeInSector(s, i) == Some(k)
    ensures EntryAt(s, k)[0] == 0 || EntryAt(s, k)[0] == UNUSED
    ensures forall j :: i <= j < k ==> EntryAt(s, j)[0] != 0 && EntryAt(s, j)[0] != UNUSED
    decreases k - i
  {
    hide EntryAt;
    if i < k {
      FreeIsFirst(s, i + 1, k);
    }
  }

  // ----- A whole directory, as the list of its sectors

  function FindIn(dir: seq<seq<byte>>, name: Name, ext: Ext, k: nat): (r: Option<(nat, nat)>)
    ensures r.Some? ==> k <= r.value.0 < |dir| && r.value.1 < Slots(dir[r.value.0])
    decreases |dir| - k
  {
    if k >= |dir| then None
    else match FindInSector(dir[k], name, ext, 0)
      case Some(i) => Some((k, i))
      case None => FindIn(dir, name, ext, k + 1)
  }

  function FreeIn(dir: seq<seq<byte>>, k: nat): (r: Option<(nat, nat)>)
    ensures r.Some? ==> k <= r.value.0 < |dir| && r.value.1 < Slots(dir[r.value.0])
    ensures r.Some? ==> FreeInSector(dir[r.value.0], 0) == Some(r.value.1)
    decreases |dir| - k
  {
    if k >= |dir| then None
    else match FreeInSector(dir[k], 0)
      case Some(i) => Some((k, i))
      case None => FreeIn(dir, k + 1)
  }

  lemma FindInStep(dir: seq<seq<byte>>, name: Name, ext: Ext, k: nat)
    requires k <= |dir|
    ensures FindIn(dir, name, ext, k) ==
            if k == |dir| then None
            else match FindInSector(dir[k], name, ext, 0)
              case Some(i) => Some((k, i))
              case None => FindIn(dir, name, ext, k + 1)
  {
  }

  lemma FreeInStep(dir: seq<seq<byte>>, k: nat)
    requires k <= |dir|
    ensures FreeIn(dir, k) ==
            if k == |dir| then None
            else match FreeInSector(dir[k], 0)
              case Some(i) => Some((k, i))
              case None => FreeIn(dir, k + 1)
  {
  }

  lemma {:induction false} FindInSame(dir: seq<seq<byte>>, dir': seq<seq<byte>>, name: Name, ext: Ext, k: nat)
    requires |dir| == |dir'|
    requires forall j :: k <= j < |dir| ==> FindInSector(dir'[j], name, ext, 0) == FindInSector(dir[j], name, ext, 0)
    ensures FindIn(dir', name, ext, k) == FindIn(dir, name, ext, k)
    decreases |dir| - k
  {
    hide FindInSector;
    if k < |dir| {
      FindInSame(dir, dir', name, ext, k + 1);
    }
  }

  /** The directory-wide search also means the first match in order. */
  lemma {:induction false} FindInMeans(dir: seq<seq<byte>>, name: Name, ext: Ext, k: nat, q: nat, i: nat)
    requires k <= q < |dir|
    ensures FindIn(dir, name, ext, k) == Some((q, i)) <==>
            && FindInSector(dir[q], name, ext, 0) == Some(i)
            && forall j :: k <= j < q ==> FindInSector(dir[j], name, ext, 0) == None
    decreases q - k
  {
    hide FindInSector;
    if k < q {
      FindInMeans(dir, name, ext, k + 1, q, i);
    }
  }

  lemma {:induction false} FindInNone(dir: seq<seq<byte>>, name: Name, ext: Ext, k: nat)
    ensures FindIn(dir, name, ext, k) == None <==>
            forall j :: k <= j < |dir| ==> FindInSector(dir[j], name, ext, 0) == None
    decreases |dir| - k
  {
    hide FindInSector;
    if k < |dir| {
      FindInNone(dir, name, ext, k + 1);
    }
  }

  /** The first free slot of a directory: no earlier sector has one. */
  lemma {:induction false} FreeInFirst(dir: seq<seq<byte>>, k: nat, q: nat, i: nat)
    requires FreeIn(dir, k) == Some((q, i))
    ensures forall j :: k <= j < q ==> FreeInSector(dir[j], 0) == None
    decreases |dir| - k
  {
    hide FreeInSector;
    if k < q {
      FreeInFirst(dir, k + 1, q, i);
    }
  }

  /** A sector after entry e went to slot i of sector s: itself, or s with the entry. */
  predicate StoredAt(x: seq<byte>, x': seq<byte>, s: seq<byte>, i: nat, e: Entry)
    requires i < Slots(s)
  {
    x' == x || (x == s && x' == PutEntry(s, i, e))
  }

  /** A directory after entry e went to slot i of sector s. */
  predicate Stored(dir: seq<seq<byte>>, dir': seq<seq<byte>>, s: seq<byte>, i: nat, e: Entry)
    requires i < Slots(s)
  {
    && |dir'| == |dir|
    && forall j :: 0 <= j < |dir| ==> StoredAt(dir[j], dir'[j], s, i, e)
  }

  /** A new name is found where it was stored. */
  lemma NewNameFound(dir: seq<seq<byte>>, dir': seq<seq<byte>>, k: nat, i: nat, e: Entry, name: Name, ext: Ext)
    requires FreeIn(dir, 0) == Some((k, i))
    requires FindIn(dir, name, ext, 0) == None
    requires Listed(e) && Named(e, name, ext)
    requires Stored(dir, dir', dir[k], i, e) && dir'[k] == PutEntry(dir[k], i, e)
    ensures FindIn(dir', name, ext, 0) == Some((k, i))
    ensures EntryAt(dir'[k], i) == e
  {
    FindInNone(dir, name, ext, 0);
    FindInserted(dir[k], 0, i, e, name, ext);
    EntryAtPut(dir[k], i, e, i);
    hide FindIn, FindInSector, FreeIn, FreeInSector, PutEntry, EntryAt, Named, Listed;
    FreeInFirst(dir, 0, k, i);
    forall j | 0 <= j < k ensures dir'[j] == dir[j] {
      assert StoredAt(dir[j], dir'[j], dir[k], i, e);
    }
    FindInMeans(dir', name, ext, 0, k, i);
  }

  /** Storing an entry into a free slot of one sector hides or moves no other name. */
  lemma OtherNamesKept(s: seq<byte>, i: nat, e: Entry, name: Name, ext: Ext)
    requires FreeInSector(s, 0) == Some(i)
    requires Terminated(s) && e[0] != 0 && !Named(e, name, ext)
    ensures FindInSector(PutEntry(s, i, e), name, ext, 0) == FindInSector(s, name, ext, 0)
    ensures forall j :: 0 <= j < Slots(s) && j != i ==> EntryAt(PutEntry(s, i, e), j) == EntryAt(s, j)
  {
    FreeIsFirst(s, 0, i);
    FindOthers(s, 0, i, e, name, ext);
    forall j | 0 <= j < Slots(s) && j != i ensures EntryAt(PutEntry(s, i, e), j) == EntryAt(s, j) {
      EntryAtPut(s, i, e, j);
    }
  }

  lemma FoundIsNotFree(s: seq<byte>, k: nat, name: Name, ext: Ext)
    requires FreeInSector(s, 0) == Some(k)
    ensures FindInSector(s, name, ext, 0) != Some(k)
  {
    FreeIsFirst(s, 0, k);
    FindInSectorMeans(s, name, ext, 0, k);
  }

  /** The name is found in the same slot of both directories, with the same entry, or in neither. */
  predicate SameFind(dir: seq<seq<byte>>, dir': seq<seq<byte>>, name: Name, ext: Ext) {
    && FindIn(dir', name, ext, 0) == FindIn(dir, name, ext, 0)
    && match FindIn(dir, name, ext, 0)
      case None => true
      case Some((j, i)) => EntryAt(dir'[j], i) == EntryAt(dir[j], i)
  }

  /** The same for a directory in which several places may hold the sector that got the entry. */
  lemma OtherNamesStay(dir: seq<seq<byte>>, dir': seq<seq<byte>>, s: seq<byte>, i: nat, e: Entry, name: Name, ext: Ext)
    requires FreeInSector(s, 0) == Some(i)
    requires Terminated(s) && e[0] != 0 && !Named(e, name, ext)
    requires Stored(dir, dir', s, i, e)
    ensures SameFind(dir, dir', name, ext)
  {
    hide FindIn, FindInSector, FreeInSector, PutEntry, EntryAt, Named, Terminated;
    OtherNamesKept(s, i, e, name, ext);
    FoundIsNotFree(s, i, name, ext);
    forall j | 0 <= j < |dir| ensures FindInSector(dir'[j], name, ext, 0) == FindInSector(dir[j], name, ext, 0) {
      assert StoredAt(dir[j], dir'[j], s, i, e);
    }
    FindInSame(dir, dir', name, ext, 0);
    var r := FindIn(dir, name, ext, 0);
    if r.Some? {
      FindInMeans(dir, name, ext, 0, r.value.0, r.value.1);
      assert StoredAt(dir[r.value.0], dir'[r.value.0], s, i, e);
    }
  }
}
