/** What the relocated image does not depend on: the address the object is loaded at. */
module ElfLaws {
  import opened Bytes
  import opened ElfImage
  import opened ElfLoader

  lemma SameBytes(a: seq<byte>, b: seq<byte>, o: nat)
    requires o + 4 <= |a| && o + 4 <= |b| && Get32(a, o) == Get32(b, o)
    ensures a[o] == b[o] && a[o + 1] == b[o + 1] && a[o + 2] == b[o + 2] && a[o + 3] == b[o + 3]
  {
    SameLow(a[o], b[o], High(a, o + 1, 3), High(b, o + 1, 3));
    SameLow(a[o + 1], b[o + 1], High(a, o + 2, 2), High(b, o + 2, 2));
    SameLow(a[o + 2], b[o + 2], High(a, o + 3, 1), High(b, o + 3, 1));
  }

  /** The number n bytes from o on spell. */
  function High(s: seq<byte>, o: nat, n: nat): nat
    requires o + n <= |s|
    decreases n
  {
    if n == 0 then 0 else s[o] as int + 0x100 * High(s, o + 1, n - 1)
  }

  lemma SameLow(x: byte, y: byte, p: nat, q: nat)
    requires x + 0x100 * p == y + 0x100 * q
    ensures x == y && p == q
  {
  }

  /** The relocations of a file determine the image: two loads at one address agree byte for byte. */
  lemma LoadIsDetermined(im0: seq<byte>, a: seq<byte>, b: seq<byte>, base: nat, externs: seq<Extern>, R: nat, J: nat)
    requires TablesFit(im0) && Separate(im0)
    requires Relocated(im0, a, base, externs, R, J) && Relocated(im0, b, base, externs, R, J)
    ensures a == b
  {
    hide Stores, Site, TablesFit, Fixed, TableByte, Get32;
    forall k: nat | k < |a| ensures a[k] == b[k] {
      if (exists r: nat, j: nat :: Stores(im0, r, j) && Before(r, j, R, J) && Covers(im0, r, j, k)) {
        var r: nat, j: nat :| Stores(im0, r, j) && Before(r, j, R, J) && Covers(im0, r, j, k);
        SameBytes(a, b, Site(im0, r, j));
      }
    }
  }

  /** A symbol defined in the object moves with it; any other symbol stays where it is. */
  lemma SymbolMoves(im: seq<byte>, base: nat, d: nat, externs: seq<Extern>, t: nat, idx: nat)
    requires HeadersFit(im) && t < ShNum(im) && (t != SHN_UNDEF ==> SymbolsFit(im, t))
    ensures Internal(im, t, idx) ==>
              SymbolValue(im, base + d, externs, t, idx) == Wrap(SymbolValue(im, base, externs, t, idx) + d)
    ensures !Internal(im, t, idx) ==>
            SymbolValue(im, base + d, externs, t, idx) == SymbolValue(im, base, externs, t, idx)
  {
    hide SymbolsFit, SymbolAt, SectionAt, CString, Get32;
  }

  ghost predicate InternalReloc(im: seq<byte>, r: nat, j: nat)
    requires TablesFit(im) && IsReloc(im, r, j)
  {
    && RelFits(im, r)
    && Internal(im, SectionAt(im, r).link, RelOf(im, r, j).sym)
  }

  lemma WrapAdd(x: int, y: int)
    ensures Wrap(Wrap(x) + y) == Wrap(x + y)
  {
  }

  /** S + A and S + A - P when the base, and with it an internal S, grows by d. */
  lemma WordArithmetic(s: nat, s': nat, a: nat, site: nat, base: nat, d: nat, internal: bool)
    requires s' == if internal then Wrap(s + d) else s
    ensures Wrap(s' + a) == if internal then Wrap(Wrap(s + a) + d) else Wrap(s + a)
    ensures var w, w' := Wrap(s + a - Wrap(base + site)), Wrap(s' + a - Wrap(base + d + site));
            w' == if internal then w else Wrap(w - d)
  {
    hide Wrap;
    var p, p', back: int := base + site, base + d + site, 0 - d;
    WrapSub(s + a, p);
    WrapSub(s' + a, p');
    if internal {
      WrapAdd(s + d, a);
      WrapAdd(s + a, d);
      WrapAdd(s + d, a - p');
      assert s + d + (a - p') == s + a - p;
      assert s' + a - p' == Wrap(s + d) + (a - p');
    } else {
      WrapAdd(s + a - p, back);
      assert s + a - p + back == s' + a - p';
      assert Wrap(s + a - p) - d == Wrap(s + a - p) + back;
    }
    assert s + a + d == s + d + a;
  }

  lemma WrapSub(x: int, p: int)
    ensures Wrap(x - Wrap(p)) == Wrap(x - p)
  {
  }

  /** The word at one site for two load addresses d apart. */
  lemma WordMoves(im: seq<byte>, base: nat, d: nat, externs: seq<Extern>, r: nat, j: nat)
    requires TablesFit(im) && Separate(im) && Stores(im, r, j)
    ensures var w, w' := Fixed(im, base, externs, r, j), Fixed(im, base + d, externs, r, j);
            var internal, pc := InternalReloc(im, r, j), RelOf(im, r, j).kind == 2;
            w' == if internal == pc then w else if internal then Wrap(w + d) else Wrap(w - d)
  {
    hide TablesFit, SymbolsFit, SymbolAt, SectionAt, SymbolValue, Internal, Get32, TableByte, RelOf, Site, Wrap,
         HeadersFit;
    RelFitsOf(im, r, j);
    SymbolMoves(im, base, d, externs, SectionAt(im, r).link, RelOf(im, r, j).sym);
    WordArithmetic(SymbolOf(im, base, externs, r, j), SymbolOf(im, base + d, externs, r, j), Get32(im, Site(im, r, j)),
        Site(im, r, j),
                   base, d, InternalReloc(im, r, j));
  }

  /** Loading the same object d higher: the words of absolute relocations to its own symbols grow by d, those
      of relative relocations to its own symbols stay, absolute words of outside symbols stay, relative words
      of outside symbols shrink by d, and no other byte depends on the address. */
  lemma BaseIndependence(im0: seq<byte>, a: seq<byte>, b: seq<byte>, base: nat, d: nat, externs: seq<Extern>)
    requires TablesFit(im0) && Separate(im0)
    requires Relocated(im0, a, base, externs, ShNum(im0), 0) && Relocated(im0, b, base + d, externs, ShNum(im0), 0)
    ensures |a| == |b| == |im0|
    ensures forall r: nat, j: nat :: Stores(im0, r, j) ==>
              var w, w' := Get32(a, Site(im0, r, j)), Get32(b, Site(im0, r, j));
              var internal, pc := InternalReloc(im0, r, j), RelOf(im0, r, j).kind == 2;
              w' == if internal == pc then w else if internal then Wrap(w + d) else Wrap(w - d)
    ensures forall k: nat :: k < |a| && (forall r: nat, j: nat :: Stores(im0, r, j) ==> !Covers(im0, r, j, k)) ==>
              a[k] == b[k] == im0[k]
  {
    hide Stores, Site, TablesFit, Fixed, TableByte, Get32, InternalReloc, RelOf;
    forall r: nat, j: nat | Stores(im0, r, j)
      ensures var w, w' := Get32(a, Site(im0, r, j)), Get32(b, Site(im0, r, j));
              var internal, pc := InternalReloc(im0, r, j), RelOf(im0, r, j).kind == 2;
              w' == if internal == pc then w else if internal then Wrap(w + d) else Wrap(w - d)
    {
      assert Before(r, j, ShNum(im0), 0);
      WordMoves(im0, base, d, externs, r, j);
    }
  }

  /** Where the symbol of a relocation lies when it is one of the object's own. */
  ghost function OwnAddress(im: seq<byte>, base: nat, r: nat, j: nat): nat
    requires TablesFit(im) && IsReloc(im, r, j) && InternalReloc(im, r, j)
  {
    var t := SectionAt(im, SectionAt(im, r).link);
    var s := SymbolAt(im, t, RelOf(im, r, j).sym);
    Wrap(base + SectionAt(im, s.shndx).offset + s.value)
  }

  /** What does not depend on the address: every relocation type is known, and every symbol from outside the object
      has a value that is not the error value. */
  ghost predicate Linkable(im: seq<byte>, externs: seq<Extern>)
    requires TablesFit(im)
  {
    forall r: nat, j: nat :: IsReloc(im, r, j) ==>
      RelOf(im, r, j).kind <= 2 && (InternalReloc(im, r, j) || SymbolOf(im, 0, externs, r, j) != ELF_ERROR)
  }

  /** None of the object's own symbols lands on the address that stands for an error. */
  ghost predicate Lands(im: seq<byte>, base: nat)
    requires TablesFit(im)
  {
    forall r: nat, j: nat :: IsReloc(im, r, j) && InternalReloc(im, r, j) ==> OwnAddress(im, base, r, j) != ELF_ERROR
  }

  lemma OwnSymbol(im: seq<byte>, base: nat, externs: seq<Extern>, r: nat, j: nat)
    requires TablesFit(im) && IsReloc(im, r, j) && InternalReloc(im, r, j)
    ensures SymbolOf(im, base, externs, r, j) == OwnAddress(im, base, r, j)
  {
    hide SymbolsFit, SymbolAt, SectionAt, RelOf;
  }

  /** Exactly when a load succeeds. */
  lemma LoadsWhen(im: seq<byte>, base: nat, externs: seq<Extern>)
    requires TablesFit(im)
    ensures AllResolve(im, base, externs) <==> Linkable(im, externs) && Lands(im, base)
  {
    hide IsReloc, TablesFit, SymbolsFit, SymbolValue, SymbolOf, Internal, InternalReloc, OwnAddress, RelOf, SectionAt;
    forall r: nat, j: nat | IsReloc(im, r, j)
      ensures Resolves(im, base, externs, r, j) <==>
                && RelOf(im, r, j).kind <= 2
                && (InternalReloc(im, r, j) ==> OwnAddress(im, base, r, j) != ELF_ERROR)
                && (InternalReloc(im, r, j) || SymbolOf(im, 0, externs, r, j) != ELF_ERROR)
    {
      ResolvesWhen(im, base, externs, r, j);
    }
  }

  lemma ResolvesWhen(im: seq<byte>, base: nat, externs: seq<Extern>, r: nat, j: nat)
    requires TablesFit(im) && IsReloc(im, r, j)
    ensures r < ShNum(im) && RelFits(im, r)
    ensures Resolves(im, base, externs, r, j) <==>
              && RelOf(im, r, j).kind <= 2
              && (InternalReloc(im, r, j) ==> OwnAddress(im, base, r, j) != ELF_ERROR)
              && (InternalReloc(im, r, j) || SymbolOf(im, 0, externs, r, j) != ELF_ERROR)
  {
    hide SymbolsFit, SymbolValue, Internal, OwnAddress, RelOf, SectionAt;
    RelFitsOf(im, r, j);
    if InternalReloc(im, r, j) {
      OwnSymbol(im, base, externs, r, j);
    } else {
      SymbolMoves(im, 0, base, externs, SectionAt(im, r).link, RelOf(im, r, j).sym);
    }
  }

  /** An object that loads at one address loads at another exactly when none of its own symbols lands on the address
      that stands for an error. */
  lemma SuccessMoves(im0: seq<byte>, base: nat, d: nat, externs: seq<Extern>)
    requires TablesFit(im0) && AllResolve(im0, base, externs)
    ensures AllResolve(im0, base + d, externs) <==> Lands(im0, base + d)
  {
    hide AllResolve, Linkable, Lands;
    LoadsWhen(im0, base, externs);
    LoadsWhen(im0, base + d, externs);
  }

  /** A relocation section without a symbol table: every symbol of every relocation is 0, whatever its index. */
  lemma NoTableIsZero(im: seq<byte>, base: nat, externs: seq<Extern>, r: nat, j: nat)
    requires TablesFit(im) && IsReloc(im, r, j) && SectionAt(im, r).link == SHN_UNDEF
    ensures SymbolOf(im, base, externs, r, j) == 0
  {
  }

  lemma RelFitsOf(im: seq<byte>, r: nat, j: nat)
    requires TablesFit(im) && IsReloc(im, r, j)
    ensures r < ShNum(im) && RelFits(im, r)
  {
  }

  /** When the space for zeroed sections lies at the same distances too, stage one stores the same offsets. */
  lemma {:induction false} StagedMoves(im: seq<byte>, base: nat, d: nat, mems: seq<nat>, mems': seq<nat>, n: nat)
    requires HeadersFit(im) && n <= ShNum(im) <= |mems| && |mems'| == |mems|
    requires forall i :: 0 <= i < n && NeedsSpace(SectionAt(im, i)) ==> Wrap(mems'[i]) == Wrap(mems[i] + d)
    ensures Staged(im, base, mems, n) == Staged(im, base + d, mems', n)
  {
    if n > 0 {
      StagedMoves(im, base, d, mems, mems', n - 1);
      if NeedsSpace(SectionAt(im, n - 1)) {
        WrapDifference(mems[n - 1], mems'[n - 1], base, d);
      }
    }
  }

  lemma WrapDifference(m: nat, m': nat, base: nat, d: nat)
    requires Wrap(m') == Wrap(m + d)
    ensures Wrap(m' - (base + d)) == Wrap(m - base)
  {
  }

  // ----- The conditions can be met

  /** An object of two sections: four bytes of data, and one R_386_32 relocation of them. */
  function SmallObject(): (im: seq<byte>)
    ensures |im| == 144
    ensures forall i :: 0 <= i < 144 ==> im[i] == SmallByte(i)
  {
    seq<byte>(144, i requires 0 <= i < 144 => SmallByte(i))
  }

  function SmallByte(i: nat): byte {
    if i == 32 then 52 else if i == 48 then 2
    else if i == 68 then 140 else if i == 72 then 4
    else if i == 96 then 9 else if i == 108 then 132 else if i == 112 then 8 else if i == 128 then 8
    else if i == 136 then 1 else 0
  }

  lemma SmallSections()
    ensures var im := SmallObject();
            && HeadersFit(im) && ShOff(im) == 52 && ShNum(im) == 2
            && SectionAt(im, 0) == Section(0, 0, 140, 4, 0, 0, 0)
            && SectionAt(im, 1) == Section(SHT_REL, 0, 132, 8, 0, 0, 8)
            && RelAt(im, SectionAt(im, 1), 0) == Rel(0, 0, 1)
  {
  }

  /** It loads at any address. */
  lemma SmallObjectLoads(base: nat, externs: seq<Extern>)
    ensures var im := SmallObject();
            && TablesFit(im) && Separate(im) && Stores(im, 1, 0) && Site(im, 1, 0) == 140
            && AllResolve(im, base, externs)
  {
    hide SectionAt, RelAt, SmallObject, Get32;
    SmallSections();
    var im := SmallObject();
    assert IsRel(im, 1) && !IsRel(im, 0);
    assert RelFits(im, 1);
    forall r: nat, j: nat | IsReloc(im, r, j) ensures r == 1 && j == 0 {
    }
    forall k: nat | 140 <= k < 144 ensures !TableByte(im, k) {
      assert !RelByte(im, 1, k);
    }
  }

  // ----- Objects at which the two exceptions show

  /** The small object with symbol 1 in its relocation, and still no symbol table. */
  function TablelessObject(): (im: seq<byte>)
    ensures |im| == 144
    ensures forall i :: 0 <= i < 144 ==> im[i] == if i == 137 then 1 else SmallByte(i)
  {
    seq<byte>(144, i requires 0 <= i < 144 => if i == 137 then 1 else SmallByte(i))
  }

  lemma TablelessHeader()
    ensures var im := TablelessObject();
            HeadersFit(im) && ShOff(im) == 52 && ShNum(im) == 2
  {
  }

  lemma TablelessData()
    ensures HeadersFit(TablelessObject())
    ensures SectionAt(TablelessObject(), 0) == Section(0, 0, 140, 4, 0, 0, 0)
  {
    TablelessHeader();
  }

  lemma TablelessSites()
    ensures HeadersFit(TablelessObject()) && ShNum(TablelessObject()) == 2
    ensures SectionAt(TablelessObject(), 1) == Section(SHT_REL, 0, 132, 8, 0, 0, 8)
  {
    TablelessHeader();
  }

  lemma TablelessSite()
    ensures RelAt(TablelessObject(), Section(SHT_REL, 0, 132, 8, 0, 0, 8), 0) == Rel(0, 1, 1)
  {
  }

  lemma TablelessSections()
    ensures var im := TablelessObject();
            && HeadersFit(im) && ShOff(im) == 52 && ShNum(im) == 2
            && SectionAt(im, 0) == Section(0, 0, 140, 4, 0, 0, 0)
            && SectionAt(im, 1) == Section(SHT_REL, 0, 132, 8, 0, 0, 8)
            && RelAt(im, SectionAt(im, 1), 0) == Rel(0, 1, 1)
  {
    hide SectionAt, RelAt, TablelessObject, Get32, ShOff, ShNum;
    TablelessHeader();
    TablelessData();
    TablelessSites();
    TablelessSite();
  }

  /** It loads at any address, and the word at its site is stored as if symbol 1 were 0. */
  lemma TablelessLoads(base: nat, externs: seq<Extern>)
    ensures var im := TablelessObject();
            && TablesFit(im) && Stores(im, 1, 0) && RelOf(im, 1, 0).sym == 1 && SectionAt(im, 1).link == SHN_UNDEF
            && AllResolve(im, base, externs)
            && Site(im, 1, 0) == 140 && Fixed(im, base, externs, 1, 0) == Get32(im, 140)
  {
    hide SectionAt, RelAt, TablelessObject, Get32;
    TablelessSections();
    var im := TablelessObject();
    assert IsRel(im, 1) && !IsRel(im, 0);
    assert RelFits(im, 1);
    forall r: nat, j: nat | IsReloc(im, r, j) ensures r == 1 && j == 0 {
    }
  }

  /** An object of five sections: none, four bytes of data, one R_386_32 relocation of them by symbol 1, which is the
      start of the data, the symbols, and their names. */
  function NamedObject(): (im: seq<byte>)
    ensures |im| == 297
    ensures forall i :: 0 <= i < 297 ==> im[i] == NamedByte(i)
  {
    seq<byte>(297, i requires 0 <= i < 297 => NamedByte(i))
  }

  function NamedByte(i: nat): byte {
    if i == 32 then 52 else if i == 48 then 5
    else if i == 96 then 1 else if i == 108 then 252 else if i == 112 then 4
    else if i == 136 then 9 else if i == 149 then 1 else if i == 152 then 8 else if i == 156 then 3
    else if i == 160 then 1 else if i == 168 then 8
    else if i == 176 then 2 else if i == 188 then 8 else if i == 189 then 1 else if i == 192 then 32
    else if i == 196 then 4
    else if i == 208 then 16
    else if i == 216 then 3 else if i == 228 then 40 else if i == 229 then 1 else if i == 232 then 1
    else if i == 260 then 1 else if i == 261 then 1 else if i == 294 then 1 else 0
  }

  lemma NamedHeader()
    ensures var im := NamedObject(); HeadersFit(im) && ShOff(im) == 52 && ShNum(im) == 5
  {
  }

  lemma NoSection()
    ensures var im := NamedObject();
            && HeadersFit(im) && ShNum(im) == 5
            && SectionAt(im, 0) == Section(0, 0, 0, 0, 0, 0, 0)
  {
    NamedHeader();
  }

  lemma DataSection()
    ensures var im := NamedObject();
            && HeadersFit(im) && ShNum(im) == 5
            && SectionAt(im, 1) == Section(1, 0, 252, 4, 0, 0, 0)
  {
    NamedHeader();
  }

  lemma RelSection()
    ensures var im := NamedObject();
            && HeadersFit(im) && ShNum(im) == 5
            && SectionAt(im, 2) == Section(SHT_REL, 0, 256, 8, 3, 1, 8)
  {
    NamedHeader();
  }

  lemma SymbolSection()
    ensures var im := NamedObject();
            && HeadersFit(im) && ShNum(im) == 5
            && SectionAt(im, 3) == Section(2, 0, 264, 32, 4, 0, 16)
  {
    NamedHeader();
  }

  lemma NameSection()
    ensures var im := NamedObject();
            && HeadersFit(im) && ShNum(im) == 5
            && SectionAt(im, 4) == Section(3, 0, 296, 1, 0, 0, 0) && im[296] == 0
  {
    NamedHeader();
  }

  lemma NamedEntries()
    ensures var im := NamedObject();
            && RelAt(im, Section(SHT_REL, 0, 256, 8, 3, 1, 8), 0) == Rel(0, 1, 1)
            && SymbolAt(im, Section(2, 0, 264, 32, 4, 0, 16), 0) == Symbol(0, 0, 0)
            && SymbolAt(im, Section(2, 0, 264, 32, 4, 0, 16), 1) == Symbol(0, 0, 1)
  {
  }

  lemma NamedFits()
    ensures TablesFit(NamedObject())
    ensures forall r: nat, j: nat :: IsReloc(NamedObject(), r, j) <==> r == 2 && j == 0
    ensures RelOf(NamedObject(), 2, 0) == Rel(0, 1, 1) && InternalReloc(NamedObject(), 2, 0)
    ensures forall base: nat :: OwnAddress(NamedObject(), base, 2, 0) == Wrap(base + 252)
  {
    hide SectionAt, RelAt, SymbolAt, NamedObject, Get32, NamedByte;
    NoSection();
    DataSection();
    RelSection();
    SymbolSection();
    NameSection();
    NamedEntries();
    var im := NamedObject();
    var table := SectionAt(im, 3);
    forall idx: nat | idx < Entries(table)
      ensures table.offset + SYMBOL * idx + SYMBOL <= |im| && NameFits(im, table, idx)
    {
      assert idx == 0 || idx == 1;
    }
    assert SymbolsFit(im, 3);
    assert IsRel(im, 2) && RelFits(im, 2);
    forall r: nat | r < 5 && r != 2 ensures !IsRel(im, r) {
    }
  }

  /** It loads exactly where its data does not begin at the address that stands for an error. */
  lemma NamedObjectLoads(base: nat, externs: seq<Extern>)
    ensures TablesFit(NamedObject())
    ensures AllResolve(NamedObject(), base, externs) <==> Wrap(base + 252) != ELF_ERROR
  {
    hide AllResolve, OwnAddress, InternalReloc, NamedObject, IsReloc, RelOf, TablesFit, Wrap;
    NamedFits();
    LoadsWhen(NamedObject(), base, externs);
  }

  /** One such address. */
  lemma NamedObjectFails(externs: seq<Extern>)
    ensures TablesFit(NamedObject())
    ensures AllResolve(NamedObject(), 0x10_0000, externs) && !AllResolve(NamedObject(), 0xFFFF_FF03, externs)
  {
    hide AllResolve, TablesFit, NamedObject;
    NamedObjectLoads(0x10_0000, externs);
    NamedObjectLoads(0xFFFF_FF03, externs);
  }
}
