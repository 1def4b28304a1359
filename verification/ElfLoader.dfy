/** Loading a relocatable object: space for its zeroed sections, then its relocations one after another. */
module ElfLoader {
  import opened Bytes
  import opened ElfImage

  // ----- Relocations applied so far

  /** No relocation stores over another's site, nor over the headers and tables the loader reads. */
  ghost predicate Separate(im: seq<byte>): (b: bool)
    requires TablesFit(im)
    ensures b ==> SitesFit(im)
  {
    && SitesFit(im)
    && (forall r: nat, j: nat, r': nat, j': nat :: Stores(im, r, j) && Stores(im, r', j') && (r, j) != (r', j') ==>
          Site(im, r, j) + 4 <= Site(im, r', j') || Site(im, r', j') + 4 <= Site(im, r, j))
    && (forall r: nat, j: nat, k: nat :: Stores(im, r, j) && Covers(im, r, j, k) ==> !TableByte(im, k))
  }

  predicate Covers(im: seq<byte>, r: nat, j: nat, k: nat)
    requires TablesFit(im) && IsReloc(im, r, j)
  {
    Site(im, r, j) <= k < Site(im, r, j) + 4
  }

  /** Relocation (r, j) comes before (R, J). */
  predicate Before(r: nat, j: nat, R: nat, J: nat) {
    r < R || (r == R && j < J)
  }

  /** im is im0 with exactly the relocations before (R, J) applied. */
  ghost predicate Relocated(im0: seq<byte>, im: seq<byte>, base: nat, externs: seq<Extern>, R: nat, J: nat)
    requires TablesFit(im0) && SitesFit(im0)
  {
    && |im| == |im0|
    && (forall r: nat, j: nat :: Stores(im0, r, j) && Before(r, j, R, J) ==>
          Get32(im, Site(im0, r, j)) == Fixed(im0, base, externs, r, j))
    && (forall k: nat :: k < |im| && im[k] != im0[k] ==>
          exists r: nat, j: nat :: Stores(im0, r, j) && Before(r, j, R, J) && Covers(im0, r, j, k))
  }

  /** Sites are disjoint from the tables, so the loader keeps reading what the file said. */
  lemma TablesKept(im0: seq<byte>, im: seq<byte>, base: nat, externs: seq<Extern>, R: nat, J: nat)
    requires TablesFit(im0) && Separate(im0) && Relocated(im0, im, base, externs, R, J)
    ensures SameTables(im0, im)
  {
    hide Stores, TableByte, Covers, Site;
    forall k: nat | k < |im0| && TableByte(im0, k) ensures im[k] == im0[k] {
    }
  }

  /** The word at a site is the original one until its own relocation. */
  lemma Addend(im0: seq<byte>, im: seq<byte>, base: nat, externs: seq<Extern>, R: nat, J: nat)
    requires TablesFit(im0) && Separate(im0) && Relocated(im0, im, base, externs, R, J) && Stores(im0, R, J)
    ensures Get32(im, Site(im0, R, J)) == Get32(im0, Site(im0, R, J))
  {
    hide Stores, TableByte, Site, TablesFit, SameTables;
    var o := Site(im0, R, J);
    forall k: nat | o <= k < o + 4 ensures im[k] == im0[k] {
    }
    SameWord(im0, im, o);
  }

  /** Storing the word of the next relocation. */
  lemma RelocateNext(im0: seq<byte>, im: seq<byte>, base: nat, externs: seq<Extern>, R: nat, J: nat, w: nat)
    requires TablesFit(im0) && Separate(im0) && Relocated(im0, im, base, externs, R, J) && Stores(im0, R, J)
    requires w == Fixed(im0, base, externs, R, J) < U32
    ensures Relocated(im0, Put32(im, Site(im0, R, J), w), base, externs, R, J + 1)
  {
    hide Stores, TableByte, Site, TablesFit, Fixed, Put32;
    var o := Site(im0, R, J);
    var im' := Put32(im, o, w);
    forall r: nat, j: nat | Stores(im0, r, j) && Before(r, j, R, J + 1)
      ensures Get32(im', Site(im0, r, j)) == Fixed(im0, base, externs, r, j)
    {
      Put32Get32(im, o, w, Site(im0, r, j));
    }
    forall k: nat | k < |im'| && im'[k] != im0[k]
      ensures exists r: nat, j: nat :: Stores(im0, r, j) && Before(r, j, R, J + 1) && Covers(im0, r, j, k)
    {
      if o <= k < o + 4 {
        assert Covers(im0, R, J, k);
      } else {
        Put32Elsewhere(im, o, w, k);
        var r: nat, j: nat :| Stores(im0, r, j) && Before(r, j, R, J) && Covers(im0, r, j, k);
        assert Before(r, j, R, J + 1);
      }
    }
  }

  lemma Put32Elsewhere(s: seq<byte>, o: nat, v: nat, k: nat)
    requires o + 4 <= |s| && v < U32 && k < |s| && !(o <= k < o + 4)
    ensures Put32(s, o, v)[k] == s[k]
  {
  }

  /** A relocation that stores nothing, and the step from the end of one section to the start of the next. */
  lemma RelocateSkip(im0: seq<byte>, im: seq<byte>, base: nat, externs: seq<Extern>, R: nat, J: nat, R': nat, J': nat)
    requires TablesFit(im0) && SitesFit(im0) && Relocated(im0, im, base, externs, R, J)
    requires forall r: nat, j: nat :: Stores(im0, r, j) ==> (Before(r, j, R, J) <==> Before(r, j, R', J'))
    ensures Relocated(im0, im, base, externs, R', J')
  {
    hide Stores, Site, TablesFit, Fixed, Covers;
  }

  // ----- The loader

  /** elfLookupSymbol: the first entry whose name matches. */
  method ElfLookupSymbol(externs: seq<Extern>, name: seq<byte>) returns (addr: nat)
    ensures addr == Lookup(externs, name)
  {
    var i := 0;
    while i < |externs|
      invariant 0 <= i <= |externs| && Lookup(externs[i..], name) == Lookup(externs, name)
    {
      assert externs[i..][0] == externs[i] && externs[i..][1..] == externs[i + 1..];
      if externs[i].name == name {
        return externs[i].addr;
      }
      i := i + 1;
    }
    addr := 0;
  }

  /** The characters of a C string. */
  method ReadString(image: array<byte>, p: nat) returns (s: seq<byte>)
    ensures s == CString(image[..], p)
  {
    s := [];
    var i := p;
    while i < image.Length && image[i] != 0
      invariant i >= p && s + CString(image[..], i) == CString(image[..], p)
      decreases image.Length - i
    {
      s := s + [image[i]];
      i := i + 1;
    }
  }

  method ElfGetSymbolExternal(image: array<byte>, externs: seq<Extern>, table: Section, symbol: Symbol) returns (v: nat)
    requires HeadersFit(image[..])
    ensures v == ExternalValue(image[..], externs, table, symbol)
  {
    if table.link >= ShNum(image[..]) {
      return ELF_ERROR;
    }
    var strtab := SectionAt(image[..], table.link);
    var name := ReadString(image, strtab.offset + symbol.name);
    var target := ElfLookupSymbol(externs, name);
    v := if target != 0 then target else ELF_ERROR;
  }

  /** elfGetSymbolValue on the image as it now is, which has the tables of the file im0. */
  method ElfGetSymbolValue(image: array<byte>, base: nat, externs: seq<Extern>, table: nat, idx: nat,
          ghost im0: seq<byte>) returns (v: nat)
    requires HeadersFit(im0) && SameTables(im0, image[..]) && table < ShNum(im0)
    requires table != SHN_UNDEF ==> SymbolsFit(im0, table) && SameSymbols(im0, image[..], table)
    ensures v == SymbolValue(im0, base, externs, table, idx)
  {
    hide SymbolsFit, SameSymbols, SameTables, SymbolAt, SectionAt;
    if table == SHN_UNDEF || idx == SHN_UNDEF {
      return 0;
    }
    SameHeader(im0, image[..]);
    SameSection(im0, image[..], table);
    var symbolTable := SectionAt(image[..], table);
    if idx >= Entries(symbolTable) {
      return ELF_ERROR;
    }
    SameSymbol(im0, image[..], table, idx);
    var symbol := SymbolAt(image[..], symbolTable, idx);
    if symbol.shndx == SHN_UNDEF {
      SameExternal(im0, image[..], externs, table, idx);
      v := ElfGetSymbolExternal(image, externs, symbolTable, symbol);
    } else if symbol.shndx == SHN_ABS {
      v := symbol.value;
    } else if symbol.shndx >= ShNum(image[..]) {
      v := ELF_ERROR;
    } else {
      SameSection(im0, image[..], symbol.shndx);
      var target := SectionAt(image[..], symbol.shndx);
      v := Wrap(base + target.offset + symbol.value);
    }
  }

  lemma SameExternal(im0: seq<byte>, im: seq<byte>, externs: seq<Extern>, t: nat, idx: nat)
    requires HeadersFit(im0) && SameTables(im0, im) && t < ShNum(im0) && SymbolsFit(im0, t) && SameSymbols(im0, im, t)
    requires idx < Entries(SectionAt(im0, t)) && SectionAt(im0, t).offset + SYMBOL * idx + SYMBOL <= |im0|
    requires SymbolAt(im0, SectionAt(im0, t), idx).shndx == SHN_UNDEF
    ensures HeadersFit(im)
            && ExternalValue(im, externs, SectionAt(im0, t), SymbolAt(im0, SectionAt(im0, t), idx))
               == ExternalValue(im0, externs, SectionAt(im0, t), SymbolAt(im0, SectionAt(im0, t), idx))
  {
    hide SymbolsFit, SameSymbols, SameTables, SymbolAt, SectionAt;
    SameHeader(im0, im);
    var table := SectionAt(im0, t);
    if table.link < ShNum(im0) {
      SameSection(im0, im, table.link);
      SameName(im0, im, t, idx);
    }
  }

  /** What the loader sees of relocation section r in the image as it now is: what the file said. */
  lemma View(im0: seq<byte>, im: seq<byte>, base: nat, externs: seq<Extern>, R: nat, J: nat, r: nat)
    requires TablesFit(im0) && Separate(im0) && Relocated(im0, im, base, externs, R, J) && r < ShNum(im0)
    ensures SameTables(im0, im) && HeadersFit(im) && ShNum(im) == ShNum(im0) && |im| == |im0|
    ensures SectionAt(im, r) == SectionAt(im0, r)
    ensures IsRel(im0, r) ==>
              var sec := SectionAt(im0, r);
              && sec.info < ShNum(im0) && SectionAt(im, sec.info) == SectionAt(im0, sec.info)
              && sec.link < ShNum(im0)
              && (sec.link != SHN_UNDEF ==> SymbolsFit(im0, sec.link) && SameSymbols(im0, im, sec.link))
  {
    hide SameTables, Relocated, SectionAt, SymbolsFit, SameSymbols, Separate;
    TablesKept(im0, im, base, externs, R, J);
    SameHeader(im0, im);
    SameSection(im0, im, r);
    if IsRel(im0, r) {
      assert RelFits(im0, r);
      SameSection(im0, im, SectionAt(im0, r).info);
      if SectionAt(im0, r).link != SHN_UNDEF {
        SymbolsOfRel(im0, im, r);
      }
    }
  }

  /** One relocation: it fails exactly when its symbol has no value or its type is unknown, and then changes nothing. */
  method ElfDoRelocation(image: array<byte>, base: nat, externs: seq<Extern>, r: nat, j: nat,
          ghost im0: seq<byte>) returns (result: nat)
    requires TablesFit(im0) && Separate(im0) && IsReloc(im0, r, j)
    requires Relocated(im0, image[..], base, externs, r, j)
    requires HeadersFit(image[..]) && r < ShNum(image[..])
    modifies image
    ensures result == ELF_ERROR <==> !Resolves(im0, base, externs, r, j)
    ensures result == ELF_ERROR ==> image[..] == old(image[..])
    ensures result != ELF_ERROR ==> Relocated(im0, image[..], base, externs, r, j + 1)
  {
    hide SameTables, Relocated, SectionAt, SymbolsFit, SameSymbols, Separate, TablesFit, SymbolValue, Put32, Get32,
         RelAt, HeadersFit;
    View(im0, image[..], base, externs, r, j, r);
    SameRel(im0, image[..], r, j);
    var reltab := SectionAt(image[..], r);
    var target := SectionAt(image[..], reltab.info);
    var rel := RelAt(image[..], reltab, j);
    var ref := Wrap(target.offset + rel.offset);
    var symbolValue := 0;
    if rel.sym != SHN_UNDEF {
      symbolValue := ElfGetSymbolValue(image, base, externs, reltab.link, rel.sym, im0);
    }
    SymbolOfUndef(im0, base, externs, r, j);
    assert symbolValue == SymbolOf(im0, base, externs, r, j);
    if symbolValue == ELF_ERROR || rel.kind > 2 {
      return ELF_ERROR;
    }
    if rel.kind != 0 {
      SiteOf(im0, r, j);
      Addend(im0, image[..], base, externs, r, j);
      var a := Get32(image[..], ref);
      var w := if rel.kind == 2 then Wrap(symbolValue + a - Wrap(base + ref)) else Wrap(symbolValue + a);
      RelocateNext(im0, image[..], base, externs, r, j, w);
      StoreWord(image, ref, w);
    } else {
      RelocateSkip(im0, image[..], base, externs, r, j, r, j + 1);
    }
    result := symbolValue;
  }

  lemma SymbolOfUndef(im0: seq<byte>, base: nat, externs: seq<Extern>, r: nat, j: nat)
    requires TablesFit(im0) && IsReloc(im0, r, j)
    ensures RelOf(im0, r, j).sym == SHN_UNDEF ==> SymbolOf(im0, base, externs, r, j) == 0
  {
  }

  lemma SiteOf(im0: seq<byte>, r: nat, j: nat)
    requires TablesFit(im0) && Separate(im0) && Stores(im0, r, j)
    ensures Site(im0, r, j) + 4 <= |im0|
  {
  }

  /** Every relocation of section r before the J-th succeeds. */
  ghost predicate ResolvesUpTo(im0: seq<byte>, base: nat, externs: seq<Extern>, R: nat, J: nat)
    requires TablesFit(im0)
  {
    forall r: nat, j: nat :: IsReloc(im0, r, j) && Before(r, j, R, J) ==> Resolves(im0, base, externs, r, j)
  }

  /** The loader stops at the first relocation that fails, with all those before it applied. */
  ghost predicate StoppedAt(im0: seq<byte>, im: seq<byte>, base: nat, externs: seq<Extern>, R: nat, J: nat)
    requires TablesFit(im0) && SitesFit(im0)
  {
    && IsReloc(im0, R, J) && !Resolves(im0, base, externs, R, J)
    && ResolvesUpTo(im0, base, externs, R, J) && Relocated(im0, im, base, externs, R, J)
  }

  /** elfApplyRelativeRelocation: the relocations of one section in order. */
  method ElfApplyRelativeRelocation(image: array<byte>, base: nat, externs: seq<Extern>, r: nat, ghost im0: seq<byte>)
    returns (result: nat)
    requires TablesFit(im0) && Separate(im0) && IsRel(im0, r)
    requires Relocated(im0, image[..], base, externs, r, 0) && ResolvesUpTo(im0, base, externs, r, 0)
    requires HeadersFit(image[..]) && r < ShNum(image[..]) && SectionAt(image[..], r) == SectionAt(im0, r)
    modifies image
    ensures result == 0 || result == ELF_ERROR
    ensures result == 0 ==>
              && Relocated(im0, image[..], base, externs, r + 1, 0)
              && ResolvesUpTo(im0, base, externs, r + 1, 0)
    ensures result == ELF_ERROR ==> exists j: nat :: StoppedAt(im0, image[..], base, externs, r, j)
  {
    hide Relocated, SectionAt, Separate, TablesFit, Resolves, HeadersFit;
    var idx := 0;
    while idx < Entries(SectionAt(image[..], r))
      invariant HeadersFit(image[..]) && r < ShNum(image[..]) && SectionAt(image[..], r) == SectionAt(im0, r)
      invariant 0 <= idx <= Entries(SectionAt(im0, r))
      invariant Relocated(im0, image[..], base, externs, r, idx) && ResolvesUpTo(im0, base, externs, r, idx)
    {
      var done := ElfDoRelocation(image, base, externs, r, idx, im0);
      if done == ELF_ERROR {
        assert StoppedAt(im0, image[..], base, externs, r, idx);
        return ELF_ERROR;
      }
      idx := idx + 1;
      View(im0, image[..], base, externs, r, idx, r);
    }
    RelocateSkip(im0, image[..], base, externs, r, idx, r + 1, 0);
    result := 0;
  }

  /** elfLoadStageTwo: it succeeds exactly when every relocation of the file resolves. */
  method ElfLoadStageTwo(image: array<byte>, base: nat, externs: seq<Extern>) returns (result: nat)
    requires TablesFit(image[..]) && Separate(image[..])
    modifies image
    ensures result == 0 || result == ELF_ERROR
    ensures result == 0 <==> AllResolve(old(image[..]), base, externs)
    ensures result == 0 ==> Relocated(old(image[..]), image[..], base, externs, ShNum(old(image[..])), 0)
    ensures result == ELF_ERROR ==> exists r: nat, j: nat :: StoppedAt(old(image[..]), image[..], base, externs, r, j)
  {
    hide Relocated, SectionAt, Separate, Resolves;
    ghost var im0 := image[..];
    var i := 0;
    NothingRelocated(im0, base, externs);
    while i < ShNum(image[..])
      invariant HeadersFit(image[..]) && ShNum(image[..]) == ShNum(im0)
      invariant 0 <= i <= ShNum(im0)
      invariant Relocated(im0, image[..], base, externs, i, 0) && ResolvesUpTo(im0, base, externs, i, 0)
    {
      View(im0, image[..], base, externs, i, 0, i);
      if SectionAt(image[..], i).kind == SHT_REL {
        var done := ElfApplyRelativeRelocation(image, base, externs, i, im0);
        if done != 0 {
          return ELF_ERROR;
        }
      } else {
        RelocateSkip(im0, image[..], base, externs, i, 0, i + 1, 0);
      }
      View(im0, image[..], base, externs, i + 1, 0, i);
      i := i + 1;
    }
    result := 0;
  }

  ghost predicate AllResolve(im0: seq<byte>, base: nat, externs: seq<Extern>)
    requires TablesFit(im0)
  {
    forall r: nat, j: nat :: IsReloc(im0, r, j) ==> Resolves(im0, base, externs, r, j)
  }

  lemma NothingRelocated(im0: seq<byte>, base: nat, externs: seq<Extern>)
    requires TablesFit(im0) && SitesFit(im0)
    ensures Relocated(im0, im0, base, externs, 0, 0) && ResolvesUpTo(im0, base, externs, 0, 0)
  {
  }

  // ----- Space for zeroed sections

  /** A section that takes no room in the file and needs room in memory. */
  predicate NeedsSpace(sec: Section) {
    sec.kind == SHT_NOBITS && sec.size != 0 && sec.flags / 2 % 2 == 1
  }

  /** The image after the first n sections have been looked at; mems[i] is the space malloc gives section i. */
  function Staged(im: seq<byte>, base: nat, mems: seq<nat>, n: nat): (r: seq<byte>)
    requires HeadersFit(im) && n <= ShNum(im) <= |mems|
    ensures |r| == |im|
  {
    if n == 0 then im
    else
      var p := Staged(im, base, mems, n - 1);
      if NeedsSpace(SectionAt(im, n - 1)) then Put32(p, ShOff(im) + SECTION * (n - 1) + 16, Wrap(mems[n - 1] - base))
          else p
  }

  /** Only the offsets of zeroed sections change: they then lead from the image to the section's space. */
  lemma {:induction false} StagedSections(im: seq<byte>, base: nat, mems: seq<nat>, n: nat, i: nat)
    requires HeadersFit(im) && n <= ShNum(im) <= |mems| && i < ShNum(im)
    ensures var s := Staged(im, base, mems, n);
            && HeadersFit(s) && ShOff(s) == ShOff(im) && ShNum(s) == ShNum(im)
            && SectionAt(s, i) == if i < n && NeedsSpace(SectionAt(im, i))
               then SectionAt(im, i).(offset := Wrap(mems[i] - base))
                                  else SectionAt(im, i)
  {
    hide Put32, Get32, SectionAt, HeadersFit, Wrap;
    if n > 0 {
      StagedSections(im, base, mems, n - 1, i);
      StagedSections(im, base, mems, n - 1, n - 1);
      if NeedsSpace(SectionAt(im, n - 1)) {
        OffsetStored(Staged(im, base, mems, n - 1), n - 1, Wrap(mems[n - 1] - base), i);
      }
    }
  }

  /** After stage one a section of zeros (type 8) with a size and the allocation flag (bit 1) lies, from the image on,
      at the space malloc gave it; every other section has the header the file has. */
  lemma SpaceGiven(im: seq<byte>, base: nat, mems: seq<nat>, i: nat)
    requires HeadersFit(im) && ShNum(im) <= |mems| && i < ShNum(im)
    ensures var s := Staged(im, base, mems, ShNum(im));
            && HeadersFit(s) && ShNum(s) == ShNum(im)
            && var sec, sec' := SectionAt(im, i), SectionAt(s, i);
            if sec.kind == 8 && sec.size > 0 && sec.flags % 4 >= 2
            then sec' == sec.(offset := sec'.offset) && (base + sec'.offset) % 0x1_0000_0000 == mems[i] % 0x1_0000_0000
            else sec' == sec
  {
    hide SectionAt, Staged, HeadersFit;
    StagedSections(im, base, mems, ShNum(im), i);
    Reaches(base, mems[i]);
  }

  lemma Reaches(base: nat, m: nat)
    ensures (base + Wrap(m - base)) % 0x1_0000_0000 == m % 0x1_0000_0000
  {
  }

  lemma OffsetStored(im: seq<byte>, n: nat, v: nat, i: nat)
    requires HeadersFit(im) && n < ShNum(im) && i < ShNum(im) && v < U32
    ensures var s := Put32(im, ShOff(im) + SECTION * n + 16, v);
            && HeadersFit(s) && ShOff(s) == ShOff(im) && ShNum(s) == ShNum(im)
            && SectionAt(s, i) == if i == n then SectionAt(im, i).(offset := v) else SectionAt(im, i)
  {
    hide Put32, Get32;
    var o, p := ShOff(im) + SECTION * n + 16, ShOff(im) + SECTION * i;
    var s := Put32(im, o, v);
    Put32Get32(im, o, v, 32);
    Put32Elsewhere(im, o, v, 48);
    Put32Elsewhere(im, o, v, 49);
    Put32Get32(im, o, v, p + 4);
    Put32Get32(im, o, v, p + 8);
    Put32Get32(im, o, v, p + 16);
    Put32Get32(im, o, v, p + 20);
    Put32Get32(im, o, v, p + 24);
    Put32Get32(im, o, v, p + 28);
    Put32Get32(im, o, v, p + 36);
  }

  /** elfLoadStageOne. */
  method ElfLoadStageOne(image: array<byte>, base: nat, mems: seq<nat>)
    requires HeadersFit(image[..]) && ShNum(image[..]) <= |mems|
    modifies image
    ensures image[..] == Staged(old(image[..]), base, mems, ShNum(old(image[..])))
  {
    hide Put32, Get32, SectionAt, HeadersFit;
    ghost var im0 := image[..];
    var i := 0;
    var shnum := ShNum(image[..]);
    while i < shnum
      invariant 0 <= i <= shnum && image[..] == Staged(im0, base, mems, i)
    {
      StagedSections(im0, base, mems, i, i);
      if NeedsSpace(SectionAt(image[..], i)) {
        HeaderInside(image[..], i);
        StoreWord(image, ShOff(image[..]) + SECTION * i + 16, Wrap(mems[i] - base));
      }
      i := i + 1;
    }
  }

  lemma HeaderInside(im: seq<byte>, i: nat)
    requires HeadersFit(im) && i < ShNum(im)
    ensures ShOff(im) + SECTION * i + SECTION <= |im|
  {
  }

  /** elfLoadRel: both stages, then the entry point the header names. */
  method ElfLoadRel(image: array<byte>, base: nat, mems: seq<nat>, externs: seq<Extern>) returns (entry: nat)
    requires HeadersFit(image[..]) && ShNum(image[..]) <= |mems|
    requires var s := Staged(image[..], base, mems, ShNum(image[..])); TablesFit(s) && Separate(s)
    modifies image
    ensures var s := Staged(old(image[..]), base, mems, ShNum(old(image[..])));
            && TablesFit(s) && Separate(s)
            && (AllResolve(s, base, externs) ==>
                  entry == Get32(s, 24) && Relocated(s, image[..], base, externs, ShNum(s), 0))
            && (!AllResolve(s, base, externs) ==>
                  entry == ELF_ERROR && exists r: nat, j: nat :: StoppedAt(s, image[..], base, externs, r, j))
  {
    hide Relocated, SectionAt, Separate, TablesFit, AllResolve, StoppedAt, Staged;
    ElfLoadStageOne(image, base, mems);
    ghost var s := image[..];
    var result := ElfLoadStageTwo(image, base, externs);
    if result == ELF_ERROR {
      return ELF_ERROR;
    }
    TablesKept(s, image[..], base, externs, ShNum(s), 0);
    EntryKept(s, image[..]);
    entry := Get32(image[..], 24);
  }

  lemma EntryKept(im0: seq<byte>, im: seq<byte>)
    requires HeadersFit(im0) && SameTables(im0, im)
    ensures |im| == |im0| && Get32(im, 24) == Get32(im0, 24)
  {
    SameWord(im0, im, 24);
  }
}
