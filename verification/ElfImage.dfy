/** A relocatable ELF object in memory: what its headers, tables and symbols say, and which bytes say it. */
module ElfImage {
  import opened Arith
  import opened Bytes

  const HEADER := 52
  const SECTION := 40
  const REL := 8
  const SYMBOL := 16
  const SHT_NOBITS := 8
  const SHT_REL := 9
  const SHN_UNDEF := 0
  const SHN_ABS := 0xFFF1
  const ELF_ERROR := 0xFFFF_FFFF

  datatype Section = Section(kind: nat, flags: nat, offset: nat, size: nat, link: nat, info: nat, entsize: nat)
  datatype Symbol = Symbol(name: nat, value: nat, shndx: nat)
  datatype Rel = Rel(offset: nat, sym: nat, kind: nat)

  /** A name the kernel offers to loaded programs, and its address. */
  datatype Extern = Extern(name: seq<byte>, addr: nat)

  /** Addresses are 32 bits wide. */
  function Wrap(x: int): (r: nat)
    ensures r < U32
  {
    x % U32
  }

  // ----- Headers

  function ShOff(im: seq<byte>): nat
    requires |im| >= HEADER
  {
    Get32(im, 32)
  }

  function ShNum(im: seq<byte>): nat
    requires |im| >= HEADER
  {
    Get16(im, 48)
  }

  ghost predicate HeadersFit(im: seq<byte>): (b: bool)
    ensures b ==> |im| >= HEADER
  {
    |im| >= HEADER && HEADER <= ShOff(im) && ShOff(im) + SECTION * ShNum(im) <= |im| <= U32
  }

  function SectionAt(im: seq<byte>, i: nat): Section
    requires HeadersFit(im) && i < ShNum(im)
  {
    var o := ShOff(im) + SECTION * i;
    Section(Get32(im, o + 4), Get32(im, o + 8), Get32(im, o + 16), Get32(im, o + 20), Get32(im, o + 24),
        Get32(im, o + 28), Get32(im, o + 36))
  }

  ghost predicate Inside(im: seq<byte>, sec: Section) {
    sec.offset + sec.size <= |im|
  }

  // ----- Tables

  function Entries(sec: Section): nat {
    if sec.entsize == 0 then 0 else sec.size / sec.entsize
  }

  /** Entry j of a table of at least `width` bytes an entry lies inside the section. */
  lemma EntryInside(sec: Section, j: nat, width: nat)
    requires (width == REL || width == SYMBOL) && sec.entsize >= width && j < Entries(sec)
    ensures width * j + width <= sec.size
  {
    QuotIsQuotient(sec.size, sec.entsize);
    EntryBelow(j, sec.size, sec.entsize, width);
    TimesIsProduct(j + 1, width);
  }

  function RelAt(im: seq<byte>, sec: Section, j: nat): Rel
    requires sec.offset + REL * j + REL <= |im|
  {
    var info := Get32(im, sec.offset + REL * j + 4);
    Rel(Get32(im, sec.offset + REL * j), info / 0x100, info % 0x100)
  }

  function SymbolAt(im: seq<byte>, sec: Section, idx: nat): Symbol
    requires sec.offset + SYMBOL * idx + SYMBOL <= |im|
  {
    var o := sec.offset + SYMBOL * idx;
    Symbol(Get32(im, o), Get32(im, o + 4), Get16(im, o + 14))
  }

  /** The bytes from p up to the terminating zero. */
  function CString(im: seq<byte>, p: nat): seq<byte>
    decreases |im| - p
  {
    if p >= |im| || im[p] == 0 then [] else [im[p]] + CString(im, p + 1)
  }

  /** The address of the first entry with this name; 0 when there is none. */
  function Lookup(externs: seq<Extern>, name: seq<byte>): nat {
    if externs == [] then 0 else if externs[0].name == name then externs[0].addr else Lookup(externs[1..], name)
  }

  // ----- What the loader may rely on

  /** An undefined symbol has a terminated name in the string table. */
  ghost predicate NameFits(im: seq<byte>, table: Section, idx: nat)
    requires HeadersFit(im) && table.offset + SYMBOL * idx + SYMBOL <= |im|
  {
    var s := SymbolAt(im, table, idx);
    s.shndx == SHN_UNDEF && table.link < ShNum(im) ==>
      var names := SectionAt(im, table.link);
      && Inside(im, names)
      && exists q :: names.offset + s.name <= q < names.offset + names.size && im[q] == 0
  }

  ghost predicate SymbolsFit(im: seq<byte>, t: nat)
    requires HeadersFit(im) && t < ShNum(im)
  {
    var table := SectionAt(im, t);
    && Inside(im, table) && table.entsize >= SYMBOL
    && forall idx: nat :: idx < Entries(table) ==>
         table.offset + SYMBOL * idx + SYMBOL <= |im| && NameFits(im, table, idx)
  }

  predicate IsRel(im: seq<byte>, r: nat): (b: bool)
    requires HeadersFit(im)
    ensures b ==> r < ShNum(im)
  {
    r < ShNum(im) && SectionAt(im, r).kind == SHT_REL
  }

  ghost predicate RelFits(im: seq<byte>, r: nat)
    requires HeadersFit(im) && r < ShNum(im)
  {
    var sec := SectionAt(im, r);
    && Inside(im, sec) && sec.entsize >= REL
    && sec.info < ShNum(im) && sec.link < ShNum(im)
    && (sec.link != SHN_UNDEF ==> SymbolsFit(im, sec.link))
  }

  ghost predicate IsReloc(im: seq<byte>, r: nat, j: nat)
    requires HeadersFit(im)
  {
    IsRel(im, r) && j < Entries(SectionAt(im, r))
  }

  /** Every relocation section, its symbols and its names lie in the image. */
  ghost predicate TablesFit(im: seq<byte>): (b: bool)
    ensures b ==> HeadersFit(im)
  {
    HeadersFit(im) && forall r: nat :: r < ShNum(im) && IsRel(im, r) ==> RelFits(im, r)
  }

  function RelOf(im: seq<byte>, r: nat, j: nat): Rel
    requires TablesFit(im) && IsReloc(im, r, j)
  {
    EntryInside(SectionAt(im, r), j, REL);
    RelAt(im, SectionAt(im, r), j)
  }

  /** Where relocation j of section r applies, from the start of the image. */
  function Site(im: seq<byte>, r: nat, j: nat): nat
    requires TablesFit(im) && IsReloc(im, r, j)
  {
    Wrap(SectionAt(im, SectionAt(im, r).info).offset + RelOf(im, r, j).offset)
  }

  /** Relocations that store a word: R_386_32 and R_386_PC32. */
  ghost predicate Stores(im: seq<byte>, r: nat, j: nat): (b: bool)
    requires TablesFit(im)
    ensures b ==> IsReloc(im, r, j)
  {
    IsReloc(im, r, j) && 1 <= RelOf(im, r, j).kind <= 2
  }

  ghost predicate SitesFit(im: seq<byte>)
    requires TablesFit(im)
  {
    forall r: nat, j: nat :: Stores(im, r, j) ==> Site(im, r, j) + 4 <= |im|
  }

  // ----- Symbols

  /** The value of symbol idx of section `table` when the image is loaded at base. */
  function SymbolValue(im: seq<byte>, base: nat, externs: seq<Extern>, table: nat, idx: nat): nat
    requires HeadersFit(im) && table < ShNum(im) && (table != SHN_UNDEF ==> SymbolsFit(im, table))
  {
    if table == SHN_UNDEF || idx == SHN_UNDEF then 0
    else
      var t := SectionAt(im, table);
      if idx >= Entries(t) then ELF_ERROR
      else
        var s := SymbolAt(im, t, idx);
        if s.shndx == SHN_UNDEF then ExternalValue(im, externs, t, s)
        else if s.shndx == SHN_ABS then s.value
        else if s.shndx >= ShNum(im) then ELF_ERROR
        else Wrap(base + SectionAt(im, s.shndx).offset + s.value)
  }

  function ExternalValue(im: seq<byte>, externs: seq<Extern>, table: Section, s: Symbol): nat
    requires HeadersFit(im)
  {
    if table.link >= ShNum(im) then ELF_ERROR
    else
      var a := Lookup(externs, CString(im, SectionAt(im, table.link).offset + s.name));
      if a == 0 then ELF_ERROR else a
  }

  /** Defined in a section of the object, so that it moves with the object. */
  ghost predicate Internal(im: seq<byte>, table: nat, idx: nat)
    requires HeadersFit(im) && table < ShNum(im) && (table != SHN_UNDEF ==> SymbolsFit(im, table))
  {
    && table != SHN_UNDEF && idx != SHN_UNDEF && idx < Entries(SectionAt(im, table))
    && var s := SymbolAt(im, SectionAt(im, table), idx);
       s.shndx != SHN_UNDEF && s.shndx != SHN_ABS && s.shndx < ShNum(im)
  }

  /** The symbol a relocation names. */
  function SymbolOf(im: seq<byte>, base: nat, externs: seq<Extern>, r: nat, j: nat): nat
    requires TablesFit(im) && IsReloc(im, r, j)
  {
    SymbolValue(im, base, externs, SectionAt(im, r).link, RelOf(im, r, j).sym)
  }

  /** A relocation succeeds: its symbol has a value and its type is known. */
  ghost predicate Resolves(im: seq<byte>, base: nat, externs: seq<Extern>, r: nat, j: nat)
    requires TablesFit(im) && IsReloc(im, r, j)
  {
    SymbolOf(im, base, externs, r, j) != ELF_ERROR && RelOf(im, r, j).kind <= 2
  }

  /** The word relocation (r, j) leaves at its site: S + A, or S + A - P. */
  function Fixed(im: seq<byte>, base: nat, externs: seq<Extern>, r: nat, j: nat): (w: nat)
    requires TablesFit(im) && IsReloc(im, r, j) && Site(im, r, j) + 4 <= |im|
    ensures w < U32
  {
    var s, a := SymbolOf(im, base, externs, r, j), Get32(im, Site(im, r, j));
    if RelOf(im, r, j).kind == 2 then Wrap(s + a - Wrap(base + Site(im, r, j))) else Wrap(s + a)
  }

  // ----- The bytes the loader reads

  predicate Within(sec: Section, k: nat) {
    sec.offset <= k < sec.offset + sec.size
  }

  /** Byte k belongs to relocation section r, its symbol table or its string table. */
  predicate RelByte(im: seq<byte>, r: nat, k: nat)
    requires HeadersFit(im) && r < ShNum(im)
  {
    var sec := SectionAt(im, r);
    || Within(sec, k)
    || (sec.link < ShNum(im) && sec.link != SHN_UNDEF && SymbolByte(im, sec.link, k))
  }

  predicate SymbolByte(im: seq<byte>, t: nat, k: nat)
    requires HeadersFit(im) && t < ShNum(im)
  {
    var table := SectionAt(im, t);
    Within(table, k) || (table.link < ShNum(im) && Within(SectionAt(im, table.link), k))
  }

  ghost predicate TableByte(im: seq<byte>, k: nat)
    requires HeadersFit(im)
  {
    || k < HEADER || ShOff(im) <= k < ShOff(im) + SECTION * ShNum(im)
    || exists r: nat :: r < ShNum(im) && IsRel(im, r) && RelByte(im, r, k)
  }

  ghost predicate SameTables(im: seq<byte>, im': seq<byte>)
    requires HeadersFit(im)
  {
    |im'| == |im| && forall k :: 0 <= k < |im| && TableByte(im, k) ==> im'[k] == im[k]
  }

  lemma SameWord(im: seq<byte>, im': seq<byte>, o: nat)
    requires o + 4 <= |im| && o + 4 <= |im'|
    requires forall k :: o <= k < o + 4 ==> im'[k] == im[k]
    ensures Get32(im', o) == Get32(im, o)
  {
  }

  lemma SameHeader(im: seq<byte>, im': seq<byte>)
    requires HeadersFit(im) && SameTables(im, im')
    ensures |im'| == |im| && HeadersFit(im') && ShOff(im') == ShOff(im) && ShNum(im') == ShNum(im)
  {
    SameWord(im, im', 32);
    assert TableByte(im, 48) && TableByte(im, 49);
  }

  lemma SameSection(im: seq<byte>, im': seq<byte>, i: nat)
    requires HeadersFit(im) && SameTables(im, im') && i < ShNum(im)
    ensures HeadersFit(im') && ShNum(im') == ShNum(im) && SectionAt(im', i) == SectionAt(im, i)
  {
    hide Get32;
    SameHeader(im, im');
    var o := ShOff(im) + SECTION * i;
    assert forall k :: o <= k < o + SECTION ==> TableByte(im, k) && im'[k] == im[k];
    SameWord(im, im', o + 4);
    SameWord(im, im', o + 8);
    SameWord(im, im', o + 16);
    SameWord(im, im', o + 20);
    SameWord(im, im', o + 24);
    SameWord(im, im', o + 28);
    SameWord(im, im', o + 36);
  }

  lemma SameRel(im: seq<byte>, im': seq<byte>, r: nat, j: nat)
    requires TablesFit(im) && SameTables(im, im') && IsReloc(im, r, j)
    ensures var sec := SectionAt(im, r);
            sec.offset + REL * j + REL <= |im'| && RelAt(im', sec, j) == RelOf(im, r, j)
  {
    var sec := SectionAt(im, r);
    assert RelFits(im, r);
    EntryInside(sec, j, REL);
    var o := sec.offset + REL * j;
    forall k | o <= k < o + REL ensures im'[k] == im[k] {
      assert RelByte(im, r, k);
      assert TableByte(im, k);
    }
    SameWord(im, im', o);
    SameWord(im, im', o + 4);
  }

  /** The bytes of symbol table t and of its names are the same. */
  ghost predicate SameSymbols(im: seq<byte>, im': seq<byte>, t: nat)
    requires HeadersFit(im) && t < ShNum(im)
  {
    |im'| == |im| && forall k :: 0 <= k < |im| && SymbolByte(im, t, k) ==> im'[k] == im[k]
  }

  lemma SymbolsOfRel(im: seq<byte>, im': seq<byte>, r: nat)
    requires TablesFit(im) && SameTables(im, im') && IsRel(im, r) && SectionAt(im, r).link != SHN_UNDEF
    ensures SectionAt(im, r).link < ShNum(im) && SameSymbols(im, im', SectionAt(im, r).link)
  {
    var t := SectionAt(im, r).link;
    assert RelFits(im, r);
    forall k | 0 <= k < |im| && SymbolByte(im, t, k) ensures im'[k] == im[k] {
      assert RelByte(im, r, k);
      assert TableByte(im, k);
    }
  }

  lemma SameSymbol(im: seq<byte>, im': seq<byte>, t: nat, idx: nat)
    requires HeadersFit(im) && t < ShNum(im) && SymbolsFit(im, t) && SameSymbols(im, im', t)
    requires idx < Entries(SectionAt(im, t))
    ensures var table := SectionAt(im, t);
            table.offset + SYMBOL * idx + SYMBOL <= |im| && SymbolAt(im', table, idx) == SymbolAt(im, table, idx)
  {
    var table := SectionAt(im, t);
    EntryInside(table, idx, SYMBOL);
    var o := table.offset + SYMBOL * idx;
    forall k | o <= k < o + SYMBOL ensures im'[k] == im[k] {
      assert SymbolByte(im, t, k);
    }
    SameWord(im, im', o);
    SameWord(im, im', o + 4);
  }

  lemma {:induction false} SameString(im: seq<byte>, im': seq<byte>, p: nat, q: nat)
    requires p <= q < |im| && |im'| == |im| && im[q] == 0
    requires forall k :: p <= k <= q ==> im'[k] == im[k]
    ensures CString(im', p) == CString(im, p)
    decreases q - p
  {
    if im[p] != 0 {
      SameString(im, im', p + 1, q);
    }
  }

  lemma SameName(im: seq<byte>, im': seq<byte>, t: nat, idx: nat)
    requires HeadersFit(im) && t < ShNum(im) && SymbolsFit(im, t) && SameSymbols(im, im', t)
    requires idx < Entries(SectionAt(im, t)) && SectionAt(im, t).link < ShNum(im)
    requires SectionAt(im, t).offset + SYMBOL * idx + SYMBOL <= |im|
    requires SymbolAt(im, SectionAt(im, t), idx).shndx == SHN_UNDEF
    ensures var table := SectionAt(im, t);
            var p := SectionAt(im, table.link).offset + SymbolAt(im, table, idx).name;
            CString(im', p) == CString(im, p)
  {
    var table := SectionAt(im, t);
    var names, s := SectionAt(im, table.link), SymbolAt(im, table, idx);
    assert NameFits(im, table, idx);
    var q :| names.offset + s.name <= q < names.offset + names.size && im[q] == 0;
    forall k | names.offset + s.name <= k <= q ensures im'[k] == im[k] {
      assert SymbolByte(im, t, k);
    }
    SameString(im, im', names.offset + s.name, q);
  }
}
