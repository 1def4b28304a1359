/** What the words of a loaded object are, in the terms of the gABI: S + A and S + A - P, modulo 2^32. */
module ElfWords {
  import opened Bytes
  import opened ElfImage
  import opened ElfLoader
  import opened ElfLaws

  /** The zero-terminated string at p is this name. */
  predicate Spells(im: seq<byte>, p: nat, name: seq<byte>) {
    && p + |name| <= |im|
    && (forall k :: 0 <= k < |name| ==> im[p + k] == name[k] && name[k] != 0)
    && (p + |name| < |im| ==> im[p + |name|] == 0)
  }

  /** s is the address of the first registered entry whose name stands at p. */
  ghost predicate Registered(im: seq<byte>, p: nat, externs: seq<Extern>, s: nat) {
    exists k: nat :: k < |externs| && externs[k].addr == s && Spells(im, p, externs[k].name) &&
      forall l: nat :: l < k ==> !Spells(im, p, externs[l].name)
  }

  /** What a relocation's symbol stands for: nothing, an address of the kernel, a number, or a place in the object. */
  ghost predicate StandsFor(im: seq<byte>, base: nat, externs: seq<Extern>, r: nat, j: nat, s: nat)
    requires TablesFit(im) && IsReloc(im, r, j)
  {
    var link, idx := SectionAt(im, r).link, RelOf(im, r, j).sym;
    if link == 0 || idx == 0 then s == 0
    else
      && RelFits(im, r) && SymbolsFit(im, link) && idx < Entries(SectionAt(im, link))
      && var table := SectionAt(im, link);
      var sym := SymbolAt(im, table, idx);
      if sym.shndx == 0 then
        table.link < ShNum(im) && Registered(im, SectionAt(im, table.link).offset + sym.name, externs, s)
      else if sym.shndx == 0xFFF1 then s == sym.value
      else sym.shndx < ShNum(im) && s == (base + SectionAt(im, sym.shndx).offset + sym.value) % 0x1_0000_0000
  }

  lemma {:induction false} StringSpells(im: seq<byte>, p: nat)
    requires p <= |im|
    ensures Spells(im, p, CString(im, p))
    decreases |im| - p
  {
    if p < |im| && im[p] != 0 {
      StringSpells(im, p + 1);
    }
  }

  lemma {:induction false} SpelledOnce(im: seq<byte>, p: nat, name: seq<byte>)
    requires Spells(im, p, name)
    ensures name == CString(im, p)
    decreases |im| - p
  {
    if name != [] {
      assert im[p] == name[0];
      forall k | 0 <= k < |name| - 1 ensures im[p + 1 + k] == name[1..][k] {
        assert im[p + (k + 1)] == name[k + 1];
      }
      SpelledOnce(im, p + 1, name[1..]);
      assert name == [name[0]] + name[1..];
    }
  }

  lemma {:induction false} LookupFirst(externs: seq<Extern>, name: seq<byte>)
    ensures Lookup(externs, name) != 0 ==>
              exists k: nat :: k < |externs| && externs[k].addr == Lookup(externs, name) && externs[k].name == name &&
                forall l: nat :: l < k ==> externs[l].name != name
  {
    if externs != [] && externs[0].name != name {
      LookupFirst(externs[1..], name);
      if Lookup(externs, name) != 0 {
        var k: nat :| k < |externs[1..]| && externs[1..][k].addr == Lookup(externs, name) &&
          externs[1..][k].name == name && forall l: nat :: l < k ==> externs[1..][l].name != name;
        forall l: nat | l < k + 1 ensures externs[l].name != name {
          if l > 0 {
            assert externs[1..][l - 1] == externs[l];
          }
        }
        assert externs[k + 1].addr == Lookup(externs, name);
      }
    }
  }

  lemma OutsideValue(im: seq<byte>, externs: seq<Extern>, p: nat)
    requires Lookup(externs, CString(im, p)) != 0 && p <= |im|
    ensures Registered(im, p, externs, Lookup(externs, CString(im, p)))
  {
    var name := CString(im, p);
    LookupFirst(externs, name);
    StringSpells(im, p);
    var k: nat :| k < |externs| && externs[k].addr == Lookup(externs, name) && externs[k].name == name &&
      forall l: nat :: l < k ==> externs[l].name != name;
    forall l: nat | l < k ensures !Spells(im, p, externs[l].name) {
      if Spells(im, p, externs[l].name) {
        SpelledOnce(im, p, externs[l].name);
      }
    }
  }

  /** The value the loader takes for the symbol of a relocation that succeeds is what the symbol stands for. */
  lemma SymbolStands(im: seq<byte>, base: nat, externs: seq<Extern>, r: nat, j: nat)
    requires TablesFit(im) && IsReloc(im, r, j) && Resolves(im, base, externs, r, j)
    ensures StandsFor(im, base, externs, r, j, SymbolOf(im, base, externs, r, j))
  {
    hide SymbolsFit, SymbolAt, SectionAt, CString, Lookup, RelOf, Get32, Registered, TablesFit, IsReloc;
    RelFitsOf(im, r, j);
    var link, idx := SectionAt(im, r).link, RelOf(im, r, j).sym;
    if link != 0 && idx != 0 {
      var table := SectionAt(im, link);
      TableFits(im, link, idx);
      var sym := SymbolAt(im, table, idx);
      if sym.shndx == 0 {
        OutsideValue(im, externs, SectionAt(im, table.link).offset + sym.name);
      }
    }
  }

  lemma TableFits(im: seq<byte>, t: nat, idx: nat)
    requires HeadersFit(im) && t < ShNum(im) && SymbolsFit(im, t)
    requires idx < Entries(SectionAt(im, t))
    ensures SectionAt(im, t).offset + SYMBOL * idx + SYMBOL <= |im|
    ensures var s := SymbolAt(im, SectionAt(im, t), idx);
            s.shndx == 0 && SectionAt(im, t).link < ShNum(im) ==>
              SectionAt(im, SectionAt(im, t).link).offset + s.name <= |im|
  {
    hide SymbolAt, SectionAt;
    assert NameFits(im, SectionAt(im, t), idx);
  }

  /** The words of a loaded object, from the file's own words: at an R_386_32 site S + A, and at an R_386_PC32 site
      the number that gives S + A when the site's address is added. */
  lemma LoadedWords(im0: seq<byte>, im: seq<byte>, base: nat, externs: seq<Extern>, r: nat, j: nat)
    requires TablesFit(im0) && Separate(im0) && AllResolve(im0, base, externs)
    requires Relocated(im0, im, base, externs, ShNum(im0), 0) && Stores(im0, r, j)
    ensures |im| == |im0|
    ensures var p, s := Site(im0, r, j), SymbolOf(im0, base, externs, r, j);
            var a, w := Get32(im0, p), Get32(im, p);
            && StandsFor(im0, base, externs, r, j, s)
            && (RelOf(im0, r, j).kind == 1 ==> w == (s + a) % 0x1_0000_0000)
            && (RelOf(im0, r, j).kind == 2 ==> (base + p + w) % 0x1_0000_0000 == (s + a) % 0x1_0000_0000)
    ensures InternalReloc(im0, r, j) ==> SymbolOf(im0, base, externs, r, j) == OwnAddress(im0, base, r, j)
  {
    hide TablesFit, Site, Get32, TableByte, InternalReloc, RelOf, Resolves, SymbolOf, StandsFor, OwnAddress;
    SymbolStands(im0, base, externs, r, j);
    var p, s := Site(im0, r, j), SymbolOf(im0, base, externs, r, j);
    assert Before(r, j, ShNum(im0), 0);
    PlaceBack(s + Get32(im0, p), base + p);
    if InternalReloc(im0, r, j) {
      OwnSymbol(im0, base, externs, r, j);
    }
  }

  lemma PlaceBack(x: int, p: int)
    ensures (p + Wrap(x - Wrap(p))) % U32 == x % U32
  {
  }

  // ----- An object with one call

  /** Five sections: none, eight bytes of text in which a call ends, its R_386_PC32 relocation by symbol 1, the symbols,
      of which 1 is the place 2 bytes into the text, and their names.  The call's own word is -4. */
  function CallObject(): (im: seq<byte>)
    ensures |im| == 301
    ensures forall i :: 0 <= i < 301 ==> im[i] == CallByte(i)
  {
    seq<byte>(301, i requires 0 <= i < 301 => CallByte(i))
  }

  function CallByte(i: nat): byte {
    if i == 32 then 52 else if i == 48 then 5
    else if i == 96 then 1 else if i == 100 then 2 else if i == 108 then 252 else if i == 112 then 8
    else if i == 136 then 9 else if i == 148 then 4 else if i == 149 then 1 else if i == 152 then 8
    else if i == 156 then 3 else if i == 160 then 1 else if i == 168 then 8
    else if i == 176 then 2 else if i == 188 then 12 else if i == 189 then 1 else if i == 192 then 32
    else if i == 196 then 4 else if i == 208 then 16
    else if i == 216 then 3 else if i == 228 then 44 else if i == 229 then 1 else if i == 232 then 1
    else if i == 256 then 252 else if 257 <= i < 260 then 255
    else if i == 260 then 4 else if i == 264 then 2 else if i == 265 then 1
    else if i == 288 then 2 else if i == 298 then 1 else 0
  }

  lemma CallHeader()
    ensures var im := CallObject(); HeadersFit(im) && ShOff(im) == 52 && ShNum(im) == 5
  {
  }

  lemma NoneSection()
    ensures var im := CallObject();
            HeadersFit(im) && ShNum(im) == 5 && SectionAt(im, 0) == Section(0, 0, 0, 0, 0, 0, 0)
  {
    CallHeader();
  }

  lemma TextSection()
    ensures var im := CallObject();
            HeadersFit(im) && ShNum(im) == 5 && SectionAt(im, 1) == Section(1, 2, 252, 8, 0, 0, 0)
  {
    CallHeader();
  }

  lemma CallSection()
    ensures var im := CallObject();
            HeadersFit(im) && ShNum(im) == 5 && SectionAt(im, 2) == Section(SHT_REL, 0, 260, 8, 3, 1, 8)
  {
    CallHeader();
  }

  lemma SymbolsSection()
    ensures var im := CallObject();
            HeadersFit(im) && ShNum(im) == 5 && SectionAt(im, 3) == Section(2, 0, 268, 32, 4, 0, 16)
  {
    CallHeader();
  }

  lemma NamesSection()
    ensures var im := CallObject();
            HeadersFit(im) && ShNum(im) == 5 && SectionAt(im, 4) == Section(3, 0, 300, 1, 0, 0, 0) && im[300] == 0
  {
    CallHeader();
  }

  lemma CallRel()
    ensures RelAt(CallObject(), Section(SHT_REL, 0, 260, 8, 3, 1, 8), 0) == Rel(4, 1, 2)
  {
  }

  lemma CallSymbol()
    ensures SymbolAt(CallObject(), Section(2, 0, 268, 32, 4, 0, 16), 0) == Symbol(0, 0, 0)
    ensures SymbolAt(CallObject(), Section(2, 0, 268, 32, 4, 0, 16), 1) == Symbol(0, 2, 1)
  {
  }

  lemma OwnWord()
    ensures Get32(CallObject(), 256) == 0xFFFF_FFFC
  {
  }

  lemma CallFits()
    ensures TablesFit(CallObject())
    ensures forall r: nat, j: nat :: IsReloc(CallObject(), r, j) <==> r == 2 && j == 0
    ensures RelOf(CallObject(), 2, 0) == Rel(4, 1, 2) && InternalReloc(CallObject(), 2, 0)
    ensures Site(CallObject(), 2, 0) == 256
    ensures forall base: nat :: OwnAddress(CallObject(), base, 2, 0) == Wrap(base + 254)
  {
    hide SectionAt, RelAt, SymbolAt, CallObject, Get32, CallByte;
    NoneSection();
    TextSection();
    CallSection();
    SymbolsSection();
    NamesSection();
    CallRel();
    CallSymbol();
    var im := CallObject();
    var table := SectionAt(im, 3);
    forall idx: nat | idx < Entries(table)
      ensures table.offset + SYMBOL * idx + SYMBOL <= |im| && NameFits(im, table, idx)
    {
      assert idx == 0 || idx == 1;
    }
    assert SymbolsFit(im, 3);
    assert IsRel(im, 2) && RelFits(im, 2);
    forall r: nat | r < 5 && r != 2 ensures !IsRel(im, r) {
    }
  }

  lemma CallSeparate()
    ensures TablesFit(CallObject()) && Separate(CallObject())
  {
    hide SectionAt, CallObject, IsReloc, RelOf, SymbolsFit, TablesFit, InternalReloc, OwnAddress, Site;
    CallFits();
    CallHeader();
    CallSection();
    SymbolsSection();
    NamesSection();
    NoneSection();
    TextSection();
    var im := CallObject();
    forall k: nat | 256 <= k < 260 ensures !TableByte(im, k) {
      assert !RelByte(im, 2, k);
    }
  }

  /** Wherever it is loaded, the call's word becomes -6: from behind the word, at 260, to the place at 254. */
  lemma CallWord(im: seq<byte>, base: nat, externs: seq<Extern>)
    requires Wrap(base + 254) != ELF_ERROR
    ensures TablesFit(CallObject()) && Separate(CallObject()) && AllResolve(CallObject(), base, externs)
    ensures Relocated(CallObject(), im, base, externs, 5, 0) ==> Get32(im, 256) == 0xFFFF_FFFA
  {
    hide SectionAt, CallObject, IsReloc, RelOf, TablesFit, InternalReloc, OwnAddress, Site, Separate, Relocated, Get32,
         SymbolOf, StandsFor, AllResolve;
    CallFits();
    CallHeader();
    OwnWord();
    CallSeparate();
    LoadsWhen(CallObject(), base, externs);
    if Relocated(CallObject(), im, base, externs, 5, 0) {
      LoadedWords(CallObject(), im, base, externs, 2, 0);
      WordIs(base, Get32(im, 256));
    }
  }

  lemma WordIs(base: nat, w: nat)
    requires w < U32 && (base + 256 + w) % U32 == (Wrap(base + 254) + 0xFFFF_FFFC) % U32
    ensures w == 0xFFFF_FFFA
  {
  }
}
