/** The binary font file: written by the font compiler, loaded by the kernel. */
module FontFile {
  import opened Bytes

  datatype Font = Font(name: seq<byte>, charW: nat, charH: nat, first: nat, last: nat, bpp: nat, bitmap: seq<byte>) {
    /** struct.pack takes 32-bit fields only. */
    predicate Packable() {
      charW < U32 && charH < U32 && first < U32 && last < U32 && bpp < U32 && |bitmap| < U32
    }
  }

  const MAGIC: seq<byte> := [0x46, 0x4F, 0x4E, 0x54]
  const VERSION := 1
  const FIXED := 32
  const NAME_LIMIT := 256

  // ----- Writing

  function Header(f: Font): (h: seq<byte>)
    requires f.Packable()
    ensures |h| == FIXED
  {
    MAGIC + Enc32(VERSION) + Enc32(f.charW) + Enc32(f.charH)
    + Enc32(f.first) + Enc32(f.last) + Enc32(f.bpp) + Enc32(|f.bitmap|)
  }

  function Written(f: Font): seq<byte>
    requires f.Packable()
  {
    Header(f) + f.name + [0] + f.bitmap
  }

  /** compile_font's writing, field by field.  No file is written for an empty bitmap. */
  method WriteFont(f: Font) returns (r: Option<seq<byte>>)
    requires f.Packable()
    ensures r == if f.bitmap == [] then None else Some(Written(f))
  {
    if |f.bitmap| == 0 {
      return None;
    }
    var file := MAGIC;
    file := file + Enc32(VERSION);
    file := file + Enc32(f.charW);
    file := file + Enc32(f.charH);
    file := file + Enc32(f.first);
    file := file + Enc32(f.last);
    file := file + Enc32(f.bpp);
    file := file + Enc32(|f.bitmap|);
    file := file + f.name;
    file := file + [0];
    file := file + f.bitmap;
    r := Some(file);
  }

  // ----- Loading

  /** strnlen(name, 256), as far as the file goes. */
  function NameLength(file: seq<byte>, n: nat): (l: nat)
    requires FIXED + n <= |file| && n <= NAME_LIMIT
    ensures n <= l <= NAME_LIMIT && FIXED + l <= |file|
    decreases NAME_LIMIT - n
  {
    if n == NAME_LIMIT || FIXED + n == |file| || file[FIXED + n] == 0 then n else NameLength(file, n + 1)
  }

  /** The kernel's record keeps one byte each of the first and last character and the depth. */
  const BYTE := 256

  /** The font a file holds; None for a file that FontLoad refuses. */
  function Loaded(file: seq<byte>): Option<Font>
    requires FIXED <= |file| && FIXED + NameLength(file, 0) + 1 <= |file| < U32
  {
    var len := NameLength(file, 0);
    if file[..4] != MAGIC || Get32(file, 4) != VERSION || Get32(file, 28) != |file| - (FIXED + len + 1) then None
    else
      Some(Font(file[FIXED..FIXED + len], Get32(file, 8), Get32(file, 12),
                Get32(file, 16) % BYTE, Get32(file, 20) % BYTE, Get32(file, 24) % BYTE, file[FIXED + len + 1..]))
  }

  /** FontLoad's parser: a pointer that advances over the file. */
  method FontLoad(file: array<byte>) returns (font: Option<Font>)
    requires FIXED <= file.Length && FIXED + NameLength(file[..], 0) + 1 <= file.Length < U32
    ensures font == Loaded(file[..])
  {
    var ptr := 0;
    if file[..][ptr..ptr + 4] != MAGIC {
      return None;
    }
    ptr := ptr + 4;
    var version := Get32(file[..], ptr);
    ptr := ptr + 4;
    if version != VERSION {
      return None;
    }
    var charW := Get32(file[..], ptr);
    ptr := ptr + 4;
    var charH := Get32(file[..], ptr);
    ptr := ptr + 4;
    var first := Get32(file[..], ptr);
    ptr := ptr + 4;
    var last := Get32(file[..], ptr);
    ptr := ptr + 4;
    var bpp := Get32(file[..], ptr);
    ptr := ptr + 4;
    var dataSize := Get32(file[..], ptr);
    ptr := ptr + 4;
    var nameLen := 0;
    while nameLen < NAME_LIMIT && file[ptr + nameLen] != 0
      invariant 0 <= nameLen <= NAME_LIMIT && FIXED + nameLen + 1 <= file.Length
      invariant NameLength(file[..], nameLen) == NameLength(file[..], 0)
    {
      nameLen := nameLen + 1;
    }
    var name := file[ptr..ptr + nameLen];
    assert nameLen == NameLength(file[..], 0);
    ptr := ptr + nameLen + 1;
    if dataSize != file.Length - ptr {
      return None;
    }
    font := Some(Font(name, charW, charH, first % BYTE, last % BYTE, bpp % BYTE, file[ptr..]));
  }

  // ----- Round trip

  /** A name the file format can carry. */
  predicate NameFits(name: seq<byte>) {
    |name| <= NAME_LIMIT && 0 !in name
  }

  /** The length the loader reads: up to the first zero byte of the name, or the limit. */
  lemma {:induction false} NameLengthOf(f: Font, n: nat)
    requires f.Packable() && n <= |f.name| && n <= NAME_LIMIT && forall k :: 0 <= k < n ==> f.name[k] != 0
    ensures FIXED + NameLength(Written(f), n) + 1 <= |Written(f)|
    ensures NameLength(Written(f), n) <= |f.name|
    ensures NameFits(f.name) <==> NameLength(Written(f), n) == |f.name|
    decreases |f.name| - n
  {
    hide Header;
    var file := Written(f);
    if n < |f.name| {
      assert file[FIXED + n] == f.name[n];
      if n < NAME_LIMIT && f.name[n] != 0 {
        NameLengthOf(f, n + 1);
      }
    } else {
      assert file[FIXED + n] == 0;
    }
  }

  lemma FieldAt(h: seq<byte>, o: nat, v: nat)
    requires o + 4 <= |h| && v < U32 && h[o..o + 4] == Enc32(v)
    ensures Get32(h, o) == v
  {
    hide Enc32;
    Get32Of(h, Enc32(v), o);
  }

  lemma HeaderFields(f: Font)
    requires f.Packable()
    ensures var h := Header(f);
            && h[..4] == MAGIC && Get32(h, 4) == VERSION && Get32(h, 8) == f.charW && Get32(h, 12) == f.charH
            && Get32(h, 16) == f.first && Get32(h, 20) == f.last && Get32(h, 24) == f.bpp && Get32(h, 28) == |f.bitmap|
  {
    hide Enc32, Get32;
    var h := Header(f);
    FieldAt(h, 4, VERSION);
    FieldAt(h, 8, f.charW);
    FieldAt(h, 12, f.charH);
    FieldAt(h, 16, f.first);
    FieldAt(h, 20, f.last);
    FieldAt(h, 24, f.bpp);
    FieldAt(h, 28, |f.bitmap|);
  }

  lemma FieldKept(h: seq<byte>, rest: seq<byte>, o: nat)
    requires o + 4 <= |h|
    ensures Get32(h + rest, o) == Get32(h, o)
  {
  }

  /** What the kernel's record keeps of a font. */
  function Kept(f: Font): Font {
    f.(first := f.first % BYTE, last := f.last % BYTE, bpp := f.bpp % BYTE)
  }

  /** A font whose name fits is loaded as the record keeps it; any other is refused. */
  lemma LoadedIsKept(f: Font)
    requires f.Packable() && |Written(f)| < U32
    ensures FIXED <= |Written(f)| && FIXED + NameLength(Written(f), 0) + 1 <= |Written(f)|
    ensures Loaded(Written(f)) == if NameFits(f.name) then Some(Kept(f)) else None
  {
    hide Header, Get32, Enc32;
    NameLengthOf(f, 0);
    HeaderFields(f);
    var h, rest, file := Header(f), f.name + [0] + f.bitmap, Written(f);
    assert file == h + rest && file[..4] == h[..4];
    FieldKept(h, rest, 4);
    FieldKept(h, rest, 8);
    FieldKept(h, rest, 12);
    FieldKept(h, rest, 16);
    FieldKept(h, rest, 20);
    FieldKept(h, rest, 24);
    FieldKept(h, rest, 28);
    if NameFits(f.name) {
      assert file[FIXED..FIXED + |f.name|] == f.name;
      assert file[FIXED + |f.name| + 1..] == f.bitmap;
    }
  }

  /** A font that is written and loaded comes back exactly when its name fits and its range and depth fit a byte
      each; it is refused exactly when its name does not fit. */
  lemma LoadOfWritten(f: Font)
    requires f.Packable() && |Written(f)| < U32
    ensures FIXED <= |Written(f)| && FIXED + NameLength(Written(f), 0) + 1 <= |Written(f)|
    ensures Loaded(Written(f)) == Some(f) <==> NameFits(f.name) && f.first < BYTE && f.last < BYTE && f.bpp < BYTE
    ensures Loaded(Written(f)) == None <==> !NameFits(f.name)
  {
    hide Loaded, Written, NameFits;
    LoadedIsKept(f);
    KeptWhole(f);
  }

  lemma KeptWhole(f: Font)
    ensures Kept(f) == f <==> f.first < BYTE && f.last < BYTE && f.bpp < BYTE
  {
  }

  /** A font of more than 224 characters from the space on, as the converter prints it for a large image: its last
      character comes back as another one. */
  lemma LargeFontCutShort(f: Font)
    requires f.Packable() && |Written(f)| < U32 && f.name == [65] && f.first == 32 && f.last == 300 && f.bpp == 1
    ensures FIXED <= |Written(f)| && FIXED + NameLength(Written(f), 0) + 1 <= |Written(f)|
    ensures Loaded(Written(f)).Some? && Loaded(Written(f)).value.last == 44
  {
    hide Loaded, Written;
    LoadedIsKept(f);
  }
}
