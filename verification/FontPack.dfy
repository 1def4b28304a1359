/** Glyph bitmaps: alpha values quantised to 1, 2 or 4 bits, packed into bytes row by row, and read back by the
    renderer's addressing. */
module FontPack {
  import opened Arith
  import opened Bytes

  /** Bits per pixel the tools know. */
  predicate Depth(bpp: nat) {
    bpp == 1 || bpp == 2 || bpp == 4
  }

  function PerByte(bpp: nat): (p: nat)
    requires Depth(bpp)
    ensures p > 0
  {
    8 / bpp
  }

  /** The byte of its row that pixel x is in, and its slot there. */
  function ByteAt(bpp: nat, x: nat): nat
    requires Depth(bpp)
  {
    x / PerByte(bpp)
  }

  function SlotAt(bpp: nat, x: nat): (k: nat)
    requires Depth(bpp)
    ensures k < PerByte(bpp)
  {
    x % PerByte(bpp)
  }

  /** The pixel of slot k of a byte is this far from the low end. */
  function Shift(bpp: nat, k: nat): (s: bv8)
    requires Depth(bpp) && k < PerByte(bpp)
    ensures s < 8
  {
    if bpp == 1 then (if k == 0 then 7 else if k == 1 then 6 else if k == 2 then 5 else if k == 3 then 4
                      else if k == 4 then 3 else if k == 5 then 2 else if k == 6 then 1 else 0)
    else if bpp == 2 then (if k == 0 then 6 else if k == 1 then 4 else if k == 2 then 2 else 0)
    else if k == 0 then 4 else 0
  }

  /** The first pixel of a byte is in its highest bits. */
  lemma ShiftIs(bpp: nat, k: nat)
    requires Depth(bpp) && k < PerByte(bpp)
    ensures Shift(bpp, k) as int == 8 - bpp * (k + 1)
  {
  }

  function Mask(bpp: nat): bv8
    requires Depth(bpp)
  {
    if bpp == 1 then 1 else if bpp == 2 then 3 else 15
  }

  /** An alpha value in bpp bits. */
  function Level(a: byte, bpp: nat): bv8
    requires Depth(bpp)
  {
    if bpp == 1 then (if a > 128 then 1 else 0)
    else if bpp == 2 then (if a / 64 == 0 then 0 else if a / 64 == 1 then 1 else if a / 64 == 2 then 2 else 3)
    else Nibble(a / 16)
  }

  function Nibble(n: nat): bv8
    requires n < 16
  {
    if n == 0 then 0 else if n == 1 then 1 else if n == 2 then 2 else if n == 3 then 3
    else if n == 4 then 4 else if n == 5 then 5 else if n == 6 then 6 else if n == 7 then 7
    else if n == 8 then 8 else if n == 9 then 9 else if n == 10 then 10 else if n == 11 then 11
    else if n == 12 then 12 else if n == 13 then 13 else if n == 14 then 14 else 15
  }

  /** The level l of a depth stands for the alpha a: at 1 bit, more than half; at 2 and 4 bits, its quarter and its
      sixteenth. */
  predicate Brackets(l: int, a: byte, bpp: nat) {
    if bpp == 1 then l == (if a > 128 then 1 else 0)
    else if bpp == 2 then 64 * l <= a < 64 * (l + 1)
    else 16 * l <= a < 16 * (l + 1)
  }

  lemma LevelBrackets(a: byte, bpp: nat)
    requires Depth(bpp)
    ensures Brackets(Level(a, bpp) as int, a, bpp)
  {
    hide Nibble;
    NibbleIs(a / 16);
  }

  lemma NibbleIs(n: nat)
    requires n < 16
    ensures Nibble(n) as int == n
  {
  }

  /** No level but the one that brackets the alpha does; 0 has the lowest level, 255 the highest, and a higher alpha
      never has a lower level. */
  lemma BracketsOnce(l: int, l': int, a: byte, a': byte, bpp: nat)
    requires Depth(bpp) && Brackets(l, a, bpp) && Brackets(l', a', bpp)
    ensures a <= a' ==> l <= l'
    ensures a == a' ==> l == l'
    ensures 0 <= l <= (if bpp == 1 then 1 else if bpp == 2 then 3 else 15)
    ensures a == 0 ==> l == 0
    ensures a == 255 ==> l == if bpp == 1 then 1 else if bpp == 2 then 3 else 15
  {
  }

  /** A level of a depth has no bit above it. */
  predicate Narrow(level: bv8, bpp: nat)
    requires Depth(bpp)
  {
    level & Mask(bpp) == level
  }

  lemma LevelFits(a: byte, bpp: nat)
    requires Depth(bpp)
    ensures Narrow(Level(a, bpp), bpp)
  {
  }

  /** The bits of a byte under a mask, s places up, and a level or-ed in there. */
  function Field(b: bv8, s: bv8, mask: bv8): bv8
    requires s < 8
  {
    (b >> s) & mask
  }

  function Insert(b: bv8, level: bv8, s: bv8): bv8
    requires s < 8
  {
    b | (level << s)
  }

  /** The pixel in slot k. */
  function Unpacked(b: bv8, bpp: nat, k: nat): bv8
    requires Depth(bpp) && k < PerByte(bpp)
  {
    Field(b, Shift(bpp, k), Mask(bpp))
  }

  /** A level or-ed into slot i. */
  function Put(b: bv8, level: bv8, bpp: nat, i: nat): bv8
    requires Depth(bpp) && i < PerByte(bpp)
  {
    Insert(b, level, Shift(bpp, i))
  }

  lemma OneBit(b: bv8, level: bv8, s: bv8, t: bv8)
    requires s < 8 && t < 8 && level & 1 == level && Field(b, s, 1) == 0
    ensures Field(Insert(b, level, s), t, 1) == if s == t then level else Field(b, t, 1)
  {
  }

  lemma TwoBits(b: bv8, level: bv8, s: bv8, t: bv8)
    requires s < 8 && t < 8 && s & 1 == 0 && t & 1 == 0 && level & 3 == level && Field(b, s, 3) == 0
    ensures Field(Insert(b, level, s), t, 3) == if s == t then level else Field(b, t, 3)
  {
  }

  lemma FourBits(b: bv8, level: bv8, s: bv8, t: bv8)
    requires s < 8 && t < 8 && s & 3 == 0 && t & 3 == 0 && level & 15 == level && Field(b, s, 15) == 0
    ensures Field(Insert(b, level, s), t, 15) == if s == t then level else Field(b, t, 15)
  {
  }

  lemma ShiftsApart(bpp: nat, i: nat, k: nat)
    requires Depth(bpp) && i < PerByte(bpp) && k < PerByte(bpp)
    ensures Shift(bpp, i) == Shift(bpp, k) <==> i == k
    ensures bpp == 2 ==> Shift(bpp, i) & 1 == 0
    ensures bpp == 4 ==> Shift(bpp, i) & 3 == 0
  {
  }

  lemma PutBit(b: bv8, level: bv8, i: nat, k: nat)
    requires i < PerByte(1) && k < PerByte(1) && Narrow(level, 1) && Unpacked(b, 1, i) == 0
    ensures Unpacked(Put(b, level, 1, i), 1, k) == if k == i then level else Unpacked(b, 1, k)
  {
    hide Shift, Field, Insert;
    ShiftsApart(1, i, k);
    OneBit(b, level, Shift(1, i), Shift(1, k));
  }

  lemma PutPair(b: bv8, level: bv8, i: nat, k: nat)
    requires i < PerByte(2) && k < PerByte(2) && Narrow(level, 2) && Unpacked(b, 2, i) == 0
    ensures Unpacked(Put(b, level, 2, i), 2, k) == if k == i then level else Unpacked(b, 2, k)
  {
    hide Shift, Field, Insert;
    ShiftsApart(2, i, k);
    ShiftsApart(2, k, i);
    TwoBits(b, level, Shift(2, i), Shift(2, k));
  }

  lemma PutNibble(b: bv8, level: bv8, i: nat, k: nat)
    requires i < PerByte(4) && k < PerByte(4) && Narrow(level, 4) && Unpacked(b, 4, i) == 0
    ensures Unpacked(Put(b, level, 4, i), 4, k) == if k == i then level else Unpacked(b, 4, k)
  {
    hide Shift, Field, Insert;
    ShiftsApart(4, i, k);
    ShiftsApart(4, k, i);
    FourBits(b, level, Shift(4, i), Shift(4, k));
  }

  /** Or-ing a level into an empty slot sets that slot and no other. */
  lemma PutAt(b: bv8, level: bv8, bpp: nat, i: nat, k: nat)
    requires Depth(bpp) && i < PerByte(bpp) && k < PerByte(bpp)
    requires Narrow(level, bpp) && Unpacked(b, bpp, i) == 0
    ensures Unpacked(Put(b, level, bpp, i), bpp, k) == if k == i then level else Unpacked(b, bpp, k)
  {
    hide Unpacked, Put, Narrow;
    if bpp == 1 {
      PutBit(b, level, i, k);
    } else if bpp == 2 {
      PutPair(b, level, i, k);
    } else {
      PutNibble(b, level, i, k);
    }
  }

  // ----- Where a pixel is

  function BytesPerRow(charW: nat, bpp: nat): nat
    requires Depth(bpp)
  {
    (charW + PerByte(bpp) - 1) / PerByte(bpp)
  }

  function BytesPerChar(charW: nat, charH: nat, bpp: nat): nat
    requires Depth(bpp)
  {
    Times(charH, BytesPerRow(charW, bpp))
  }

  /** The pixel (x, y) of glyph c, as the renderer finds it. */
  predicate PixelInside(bitmap: seq<bv8>, charW: nat, charH: nat, bpp: nat, c: nat, x: nat, y: nat)
    requires Depth(bpp)
  {
    x < charW && y < charH
    && Times(c, BytesPerChar(charW, charH, bpp)) + Times(y, BytesPerRow(charW, bpp)) + ByteAt(bpp, x) < |bitmap|
  }

  function GlyphPixel(bitmap: seq<bv8>, charW: nat, charH: nat, bpp: nat, c: nat, x: nat, y: nat): bv8
    requires Depth(bpp) && PixelInside(bitmap, charW, charH, bpp, c, x, y)
  {
    var at := Times(c, BytesPerChar(charW, charH, bpp)) + Times(y, BytesPerRow(charW, bpp)) + ByteAt(bpp, x);
    Unpacked(bitmap[at], bpp, SlotAt(bpp, x))
  }

  lemma ByteOfRow(charW: nat, bpp: nat, x: nat)
    requires Depth(bpp) && x < charW
    ensures ByteAt(bpp, x) < BytesPerRow(charW, bpp)
  {
  }

  /** A bitmap of n glyphs holds every pixel of each. */
  lemma PixelFits(bitmap: seq<bv8>, charW: nat, charH: nat, bpp: nat, n: nat, c: nat, x: nat, y: nat)
    requires Depth(bpp) && x < charW && y < charH && c < n && |bitmap| >= Times(n, BytesPerChar(charW, charH, bpp))
    ensures PixelInside(bitmap, charW, charH, bpp, c, x, y)
  {
    hide BytesPerRow;
    ByteOfRow(charW, bpp, x);
    TimesMono(c + 1, n, BytesPerChar(charW, charH, bpp));
    TimesMono(y + 1, charH, BytesPerRow(charW, bpp));
  }

  // ----- Packing

  /** The row's first n pixels are packed. */
  ghost predicate RowPacked(bytes: seq<bv8>, levels: seq<bv8>, bpp: nat, n: nat)
    requires Depth(bpp) && n <= |levels|
  {
    forall x: nat :: x < n ==>
             && ByteAt(bpp, x) < |bytes|
             && Unpacked(bytes[ByteAt(bpp, x)], bpp, SlotAt(bpp, x)) == levels[x]
  }

  /** The pixels q full bytes hold. */
  function Base(bpp: nat, q: nat): nat
    requires Depth(bpp)
  {
    if bpp == 1 then 8 * q else if bpp == 2 then 4 * q else 2 * q
  }

  lemma BaseFacts(bpp: nat, q: nat, k: nat)
    requires Depth(bpp)
    ensures Base(bpp, 0) == 0 && Base(bpp, q + 1) == Base(bpp, q) + PerByte(bpp)
    ensures k < PerByte(bpp) ==> ByteAt(bpp, Base(bpp, q) + k) == q && SlotAt(bpp, Base(bpp, q) + k) == k
    ensures 0 < k <= PerByte(bpp) ==> BytesPerRow(Base(bpp, q) + k, bpp) == q + 1
    ensures k < Base(bpp, q) ==> ByteAt(bpp, k) < q
    ensures BytesPerRow(0, bpp) == 0 && PerByte(bpp) > 0
  {
  }

  lemma ByteAppended(bytes: seq<bv8>, b: bv8, levels: seq<bv8>, bpp: nat, n: nat)
    requires Depth(bpp) && n <= PerByte(bpp) && Base(bpp, |bytes|) + n <= |levels|
    requires RowPacked(bytes, levels, bpp, Base(bpp, |bytes|))
    requires forall k: nat :: k < n ==> k < PerByte(bpp) && Unpacked(b, bpp, k) == levels[Base(bpp, |bytes|) + k]
    ensures RowPacked(bytes + [b], levels, bpp, Base(bpp, |bytes|) + n)
  {
    hide Unpacked, Base, PerByte, ByteAt, SlotAt;
    var base := Base(bpp, |bytes|);
    forall x: nat | x < base + n
      ensures ByteAt(bpp, x) <= |bytes| && Unpacked((bytes + [b])[ByteAt(bpp, x)], bpp, SlotAt(bpp, x)) == levels[x]
    {
      if x >= base {
        BaseFacts(bpp, |bytes|, x - base);
        assert (bytes + [b])[|bytes|] == b;
      } else {
        BaseFacts(bpp, |bytes|, x);
        assert (bytes + [b])[ByteAt(bpp, x)] == bytes[ByteAt(bpp, x)];
      }
    }
  }

  /** One row: pixels are or-ed into a byte, which is stored when it is full or the row ends. */
  method PackRow(alphas: seq<byte>, bpp: nat) returns (bytes: seq<bv8>)
    requires Depth(bpp)
    ensures |bytes| == BytesPerRow(|alphas|, bpp)
    ensures RowPacked(bytes, Levels(alphas, bpp), bpp, |alphas|)
  {
    hide Unpacked, Put, Level, Mask, RowPacked, Base, PerByte, BytesPerRow, ByteAt, SlotAt;
    bytes := [];
    ghost var levels := Levels(alphas, bpp);
    var packed: bv8 := 0;
    var slot := 0;
    NoneUnpacked(bpp);
    NothingPacked(levels, bpp);
    BaseFacts(bpp, 0, 0);
    for x := 0 to |alphas|
      invariant slot < PerByte(bpp) && (x < |alphas| ==> x == Base(bpp, |bytes|) + slot)
      invariant x == |alphas| ==> |bytes| == BytesPerRow(x, bpp)
      invariant forall k: nat :: slot <= k < PerByte(bpp) ==> Unpacked(packed, bpp, k) == 0
      invariant x < |alphas| ==> forall k: nat :: k < slot ==> Unpacked(packed, bpp, k) == levels[x - slot + k]
      invariant RowPacked(bytes, levels, bpp, if x < |alphas| then Base(bpp, |bytes|) else x)
    {
      PutAll(packed, alphas[x], bpp, slot);
      packed := Put(packed, Level(alphas[x], bpp), bpp, slot);
      slot := slot + 1;
      if slot == PerByte(bpp) || x == |alphas| - 1 {
        ByteAppended(bytes, packed, levels, bpp, slot);
        BaseFacts(bpp, |bytes|, slot);
        bytes := bytes + [packed];
        packed := 0;
        slot := 0;
      }
    }
  }

  lemma NothingPacked(levels: seq<bv8>, bpp: nat)
    requires Depth(bpp)
    ensures RowPacked([], levels, bpp, 0)
  {
  }

  function Levels(alphas: seq<byte>, bpp: nat): (l: seq<bv8>)
    requires Depth(bpp)
    ensures |l| == |alphas| && forall x :: 0 <= x < |l| ==> l[x] == Level(alphas[x], bpp)
  {
    seq(|alphas|, x requires 0 <= x < |alphas| => Level(alphas[x], bpp))
  }

  lemma NoneUnpacked(bpp: nat)
    requires Depth(bpp)
    ensures forall k: nat :: k < PerByte(bpp) ==> Unpacked(0, bpp, k) == 0
  {
  }

  lemma PutAll(b: bv8, a: byte, bpp: nat, i: nat)
    requires Depth(bpp) && i < PerByte(bpp) && Unpacked(b, bpp, i) == 0
    ensures forall k: nat :: k < PerByte(bpp) ==>
              Unpacked(Put(b, Level(a, bpp), bpp, i), bpp, k) == if k == i then Level(a, bpp) else Unpacked(b, bpp, k)
  {
    hide Unpacked, Put, Level, Mask, Narrow;
    LevelFits(a, bpp);
    forall k: nat | k < PerByte(bpp)
      ensures Unpacked(Put(b, Level(a, bpp), bpp, i), bpp, k) == if k == i then Level(a, bpp) else Unpacked(b, bpp, k)
    {
      PutAt(b, Level(a, bpp), bpp, i, k);
    }
  }

  // ----- Whole bitmaps

  /** An image: its alpha channel, row by row. */
  datatype Image = Image(width: nat, height: nat, alpha: seq<seq<byte>>) {
    predicate Valid() {
      |alpha| == height && forall y :: 0 <= y < height ==> |alpha[y]| == width
    }
  }

  /** The glyphs in a row of the image, and in all of it. */
  function PerRow(im: Image, charW: nat): nat
    requires charW > 0
  {
    Quot(im.width, charW)
  }

  function Glyphs(im: Image, charW: nat, charH: nat): nat
    requires charW > 0 && charH > 0
  {
    Times(Quot(im.height, charH), PerRow(im, charW))
  }

  /** Glyph c's cell begins at column X and row Y of the image and lies inside it. */
  lemma CellInside(im: Image, charW: nat, charH: nat, c: nat)
    requires charW > 0 && charH > 0 && c < Glyphs(im, charW, charH)
    ensures PerRow(im, charW) > 0
    ensures Times(Rem(c, PerRow(im, charW)), charW) + charW <= im.width
    ensures Times(Quot(c, PerRow(im, charW)), charH) + charH <= im.height
  {
    TimesIsProduct(Quot(im.height, charH), PerRow(im, charW));
    Split(c, Quot(im.height, charH), PerRow(im, charW));
    QuotRem(im.width, charW);
    QuotRem(im.height, charH);
    TimesMono(Rem(c, PerRow(im, charW)) + 1, Quot(im.width, charW), charW);
    TimesMono(Quot(c, PerRow(im, charW)) + 1, Quot(im.height, charH), charH);
  }

  /** The alpha value of pixel (x, y) of glyph c. */
  function AlphaOf(im: Image, charW: nat, charH: nat, c: nat, x: nat, y: nat): byte
    requires im.Valid() && charW > 0 && charH > 0 && c < Glyphs(im, charW, charH) && x < charW && y < charH
  {
    CellInside(im, charW, charH, c);
    im.alpha[Times(Quot(c, PerRow(im, charW)), charH) + y][Times(Rem(c, PerRow(im, charW)), charW) + x]
  }

  /** The glyph in row gr and column gc of the image's cells, at its own place in the image. */
  lemma AlphaInCell(im: Image, charW: nat, charH: nat, gr: nat, gc: nat, x: nat, y: nat)
    requires im.Valid() && charW > 0 && charH > 0 && gr < Quot(im.height, charH) && gc < Quot(im.width, charW)
    requires x < charW && y < charH
    ensures var c := Times(gr, PerRow(im, charW)) + gc;
            && c < Glyphs(im, charW, charH)
            && Times(gr, charH) + y < im.height && Times(gc, charW) + x < im.width
            && AlphaOf(im, charW, charH, c, x, y) == im.alpha[Times(gr, charH) + y][Times(gc, charW) + x]
  {
    hide Times, Quot, Rem;
    var n, c := PerRow(im, charW), Times(gr, PerRow(im, charW)) + gc;
    TimesMono(gr + 1, Quot(im.height, charH), n);
    TimesStep(gr, n);
    CellInside(im, charW, charH, c);
    QuotRem(c, n);
    PairInjective(Quot(c, n), Rem(c, n), gr, gc, n);
  }

  /** The first rows of glyph c, as bytes on their own. */
  ghost predicate RowsDone(bytes: seq<bv8>, im: Image, charW: nat, charH: nat, bpp: nat, c: nat, n: nat)
    requires im.Valid() && Depth(bpp) && charW > 0 && charH > 0 && c < Glyphs(im, charW, charH) && n <= charH
  {
    && |bytes| == Times(n, BytesPerRow(charW, bpp))
    && forall x: nat, y: nat :: x < charW && y < n ==> RowPixel(bytes, im, charW, charH, bpp, c, x, y)
  }

  ghost predicate RowPixel(bytes: seq<bv8>, im: Image, charW: nat, charH: nat, bpp: nat, c: nat, x: nat, y: nat)
    requires im.Valid() && Depth(bpp) && charW > 0 && charH > 0 && c < Glyphs(im, charW, charH) && x < charW &&
             y < charH
  {
    var at := Times(y, BytesPerRow(charW, bpp)) + ByteAt(bpp, x);
    at < |bytes| && Unpacked(bytes[at], bpp, SlotAt(bpp, x)) == Level(AlphaOf(im, charW, charH, c, x, y), bpp)
  }

  /** Every pixel of the first n glyphs is where the renderer looks for it. */
  ghost predicate GlyphsDone(bytes: seq<bv8>, im: Image, charW: nat, charH: nat, bpp: nat, n: nat)
    requires im.Valid() && Depth(bpp) && charW > 0 && charH > 0 && n <= Glyphs(im, charW, charH)
  {
    && |bytes| == Times(n, BytesPerChar(charW, charH, bpp))
    && forall c: nat, x: nat, y: nat :: c < n && x < charW && y < charH ==>
         PixelInside(bytes, charW, charH, bpp, c, x, y)
         && GlyphPixel(bytes, charW, charH, bpp, c, x, y) == Level(AlphaOf(im, charW, charH, c, x, y), bpp)
  }

  lemma RowAppended(bytes: seq<bv8>, row: seq<bv8>, im: Image, charW: nat, charH: nat, bpp: nat, c: nat, n: nat,
          alphas: seq<byte>)
    requires im.Valid() && Depth(bpp) && charW > 0 && charH > 0 && c < Glyphs(im, charW, charH) && n < charH
    requires RowsDone(bytes, im, charW, charH, bpp, c, n)
    requires |alphas| == charW && |row| == BytesPerRow(charW, bpp) && RowPacked(row, Levels(alphas, bpp), bpp, charW)
    requires forall x: nat :: x < charW ==> alphas[x] == AlphaOf(im, charW, charH, c, x, n)
    ensures RowsDone(bytes + row, im, charW, charH, bpp, c, n + 1)
  {
    hide Unpacked, Level, AlphaOf, BytesPerRow, PerByte, Glyphs, ByteAt, SlotAt;
    TimesStep(n, BytesPerRow(charW, bpp));
    assert forall x: nat :: x < charW ==>
             && ByteAt(bpp, x) < |row|
             && Unpacked(row[ByteAt(bpp, x)], bpp, SlotAt(bpp, x)) == Levels(alphas, bpp)[x];
    forall x: nat, y: nat | x < charW && y < n + 1 ensures RowPixel(bytes + row, im, charW, charH, bpp, c, x, y) {
      if y == n {
        assert (bytes + row)[|bytes| + ByteAt(bpp, x)] == row[ByteAt(bpp, x)];
      } else {
        assert RowPixel(bytes, im, charW, charH, bpp, c, x, y);
      }
    }
  }

  /** One glyph. */
  method PackGlyph(im: Image, charW: nat, charH: nat, bpp: nat, c: nat) returns (bytes: seq<bv8>)
    requires im.Valid() && Depth(bpp) && charW > 0 && charH > 0 && c < Glyphs(im, charW, charH)
    ensures RowsDone(bytes, im, charW, charH, bpp, c, charH)
  {
    hide RowsDone, RowPacked, Glyphs;
    CellInside(im, charW, charH, c);
    var xStart, yStart := Times(Rem(c, PerRow(im, charW)), charW), Times(Quot(c, PerRow(im, charW)), charH);
    bytes := [];
    NoRows(im, charW, charH, bpp, c);
    for y := 0 to charH
      invariant RowsDone(bytes, im, charW, charH, bpp, c, y)
    {
      var alphas := im.alpha[yStart + y][xStart..xStart + charW];
      var row := PackRow(alphas, bpp);
      RowAppended(bytes, row, im, charW, charH, bpp, c, y, alphas);
      bytes := bytes + row;
    }
  }

  lemma NoRows(im: Image, charW: nat, charH: nat, bpp: nat, c: nat)
    requires im.Valid() && Depth(bpp) && charW > 0 && charH > 0 && c < Glyphs(im, charW, charH)
    ensures RowsDone([], im, charW, charH, bpp, c, 0)
  {
  }

  lemma GlyphAppended(bytes: seq<bv8>, glyph: seq<bv8>, im: Image, charW: nat, charH: nat, bpp: nat, n: nat)
    requires im.Valid() && Depth(bpp) && charW > 0 && charH > 0 && n < Glyphs(im, charW, charH)
    requires GlyphsDone(bytes, im, charW, charH, bpp, n) && RowsDone(glyph, im, charW, charH, bpp, n, charH)
    ensures GlyphsDone(bytes + glyph, im, charW, charH, bpp, n + 1)
  {
    hide Unpacked, Level, AlphaOf, BytesPerRow, PerByte, Glyphs, ByteAt, SlotAt;
    TimesStep(n, BytesPerChar(charW, charH, bpp));
    forall c: nat, x: nat, y: nat | c < n + 1 && x < charW && y < charH
      ensures PixelInside(bytes + glyph, charW, charH, bpp, c, x, y)
              && GlyphPixel(bytes + glyph, charW, charH, bpp, c, x, y) == Level(AlphaOf(im, charW, charH, c, x, y), bpp)
    {
      if c == n {
        assert RowPixel(glyph, im, charW, charH, bpp, n, x, y);
        var at := Times(y, BytesPerRow(charW, bpp)) + ByteAt(bpp, x);
        assert (bytes + glyph)[|bytes| + at] == glyph[at];
      } else {
        assert PixelInside(bytes, charW, charH, bpp, c, x, y);
      }
    }
  }

  /** convert_bitmap_to_font: the renderer finds every pixel of every glyph at its quantised alpha. */
  method ConvertBitmap(im: Image, charW: nat, charH: nat, bpp: nat) returns (output: seq<bv8>)
    requires im.Valid() && Depth(bpp) && charW > 0 && charH > 0
    ensures GlyphsDone(output, im, charW, charH, bpp, Glyphs(im, charW, charH))
  {
    hide GlyphsDone, RowsDone;
    output := [];
    NoGlyphs(im, charW, charH, bpp);
    for c := 0 to Glyphs(im, charW, charH)
      invariant GlyphsDone(output, im, charW, charH, bpp, c)
    {
      var glyph := PackGlyph(im, charW, charH, bpp, c);
      GlyphAppended(output, glyph, im, charW, charH, bpp, c);
      output := output + glyph;
    }
  }

  lemma NoGlyphs(im: Image, charW: nat, charH: nat, bpp: nat)
    requires im.Valid() && Depth(bpp) && charW > 0 && charH > 0
    ensures GlyphsDone([], im, charW, charH, bpp, 0)
  {
  }
}
