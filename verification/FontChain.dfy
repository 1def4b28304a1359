/** The font tool chain from an image to the screen: convert, print, parse, write, load, draw. */
module FontChain {
  import opened Arith
  import opened Bytes
  import FontPack
  import FontSource
  import FontText
  import FontFile
  import FontRender

  function ToBytes(b: seq<bv8>): (s: seq<byte>)
    ensures |s| == |b|
  {
    seq<byte>(|b|, k requires 0 <= k < |b| => ByteOf(b[k]))
  }

  function ByteOf(b: bv8): byte {
    b as int
  }

  function FromBytes(s: seq<byte>): (b: seq<bv8>)
    ensures |b| == |s|
  {
    seq<bv8>(|s|, k requires 0 <= k < |s| => s[k] as bv8)
  }

  lemma SameBytes(b: seq<bv8>)
    ensures FromBytes(ToBytes(b)) == b
  {
  }

  /** The font the renderer uses once a file is loaded. */
  function Rendered(f: FontFile.Font): FontRender.GlyphFont {
    FontRender.GlyphFont(f.charW, f.charH, f.first, f.last, f.bpp, FromBytes(f.bitmap))
  }

  /** Every pixel of every character is drawn at its quantised alpha. */
  ghost predicate Faithful(font: FontRender.GlyphFont, im: FontPack.Image, charW: nat, charH: nat, bpp: nat, first: nat)
    requires im.Valid() && charW > 0 && charH > 0
  {
    && font.Valid() && font.charW == charW && font.charH == charH && font.bpp == bpp
    && font.first == first && font.last + 1 == first + FontPack.Glyphs(im, charW, charH)
    && forall c: nat, scale: nat, x: nat, y: nat ::
         c < FontPack.Glyphs(im, charW, charH) && scale > 0 && x < Times(charW, scale) && y < Times(charH, scale) ==>
           DrawnRight(font, im, charW, charH, bpp, first, c, scale, x, y)
  }

  ghost predicate DrawnRight(font: FontRender.GlyphFont, im: FontPack.Image, charW: nat, charH: nat, bpp: nat,
          first: nat, c: nat, scale: nat, x: nat, y: nat)
    requires im.Valid() && charW > 0 && charH > 0 && c < FontPack.Glyphs(im, charW, charH)
  {
    && font.Valid() && font.Has(first + c) && font.bpp == bpp && scale > 0
    && x < Times(font.charW, scale) && y < Times(font.charH, scale)
    && Quot(x, scale) < charW && Quot(y, scale) < charH
    && FontRender.LevelAt(font, first + c, scale, x, y)
       == FontPack.Level(FontPack.AlphaOf(im, charW, charH, c, Quot(x, scale), Quot(y, scale)), bpp) as int
  }

  lemma GlyphsDrawnRight(font: FontRender.GlyphFont, im: FontPack.Image, charW: nat, charH: nat, bpp: nat, first: nat)
    requires im.Valid() && charW > 0 && charH > 0 && FontPack.Depth(bpp)
    requires var n := FontPack.Glyphs(im, charW, charH);
             && n > 0 && FontPack.GlyphsDone(font.bitmap, im, charW, charH, bpp, n)
             && font.charW == charW && font.charH == charH && font.bpp == bpp && font.first == first &&
                font.last + 1 == first + n
    ensures Faithful(font, im, charW, charH, bpp, first)
  {
    hide FontPack.Glyphs, FontPack.Level, FontPack.AlphaOf, FontPack.GlyphPixel, FontPack.PixelInside,
         FontPack.BytesPerChar;
    forall c: nat, scale: nat, x: nat, y: nat |
      c < FontPack.Glyphs(im, charW, charH) && scale > 0 && x < Times(charW, scale) && y < Times(charH, scale)
      ensures DrawnRight(font, im, charW, charH, bpp, first, c, scale, x, y)
    {
      Arith.Split(x, charW, scale);
      Arith.Split(y, charH, scale);
      assert FontPack.PixelInside(font.bitmap, charW, charH, bpp, c, Quot(x, scale), Quot(y, scale));
    }
  }

  /** The character in row gr and column gc of the image's cells shows, at any scale, levels that bracket the image's
      own alpha values there. */
  ghost predicate ShowsCell(font: FontRender.GlyphFont, im: FontPack.Image, charW: nat, charH: nat, bpp: nat,
          first: nat, gr: nat, gc: nat, scale: nat, x: nat, y: nat)
    requires im.Valid() && charW > 0 && charH > 0
  {
    var chr := first + Times(gr, Quot(im.width, charW)) + gc;
    && font.Valid() && font.Has(chr) && scale > 0
    && x < Times(font.charW, scale) && y < Times(font.charH, scale)
    && Times(gr, charH) + Quot(y, scale) < im.height && Times(gc, charW) + Quot(x, scale) < im.width
    && FontPack.Brackets(FontRender.LevelAt(font, chr, scale, x, y),
         im.alpha[Times(gr, charH) + Quot(y, scale)][Times(gc, charW) + Quot(x, scale)], bpp)
  }

  ghost predicate ShowsImage(font: FontRender.GlyphFont, im: FontPack.Image, charW: nat, charH: nat, bpp: nat,
          first: nat)
    requires im.Valid() && charW > 0 && charH > 0
  {
    forall gr: nat, gc: nat, scale: nat, x: nat, y: nat ::
      gr < Quot(im.height, charH) && gc < Quot(im.width, charW) && scale > 0
      && x < Times(charW, scale) && y < Times(charH, scale) ==>
        ShowsCell(font, im, charW, charH, bpp, first, gr, gc, scale, x, y)
  }

  lemma FaithfulShows(font: FontRender.GlyphFont, im: FontPack.Image, charW: nat, charH: nat, bpp: nat, first: nat)
    requires im.Valid() && charW > 0 && charH > 0 && FontPack.Depth(bpp)
    requires Faithful(font, im, charW, charH, bpp, first)
    ensures ShowsImage(font, im, charW, charH, bpp, first)
  {
    hide Times, Quot, FontPack.Glyphs, FontPack.Level, FontPack.AlphaOf, FontPack.Brackets, FontRender.LevelAt,
         FontPack.BytesPerChar;
    forall gr: nat, gc: nat, scale: nat, x: nat, y: nat |
      gr < Quot(im.height, charH) && gc < Quot(im.width, charW) && scale > 0
      && x < Times(charW, scale) && y < Times(charH, scale)
      ensures ShowsCell(font, im, charW, charH, bpp, first, gr, gc, scale, x, y)
    {
      Arith.Split(x, charW, scale);
      Arith.Split(y, charH, scale);
      FontPack.AlphaInCell(im, charW, charH, gr, gc, Quot(x, scale), Quot(y, scale));
      var c := Times(gr, FontPack.PerRow(im, charW)) + gc;
      assert DrawnRight(font, im, charW, charH, bpp, first, c, scale, x, y);
      FontPack.LevelBrackets(FontPack.AlphaOf(im, charW, charH, c, Quot(x, scale), Quot(y, scale)), bpp);
    }
  }

  /** The bytes of a name of plain characters. */
  function NameBytes(name: string): (s: seq<byte>)
    requires FontSource.SevenBit(name)
    ensures |s| == |name|
  {
    seq<byte>(|name|, k requires 0 <= k < |name| => name[k] as int)
  }

  /** Printing a font source and compiling it: the directives and the bytes. */
  method CompileSource(h: FontSource.Header, report: FontSource.Report, comments: string, data: seq<byte>)
    returns (read: FontSource.Header, values: seq<nat>)
    requires FontSource.SevenBit(h.name) && '\r' !in h.name && report.low >= ' ' && report.top >= ' '
    requires FontSource.NameSafe(h) && FontSource.Search(h.name, FontSource.OpenHere) == None
    ensures read == h && values == data
  {
    hide FontSource.Search, FontSource.NameSafe, FontSource.FileText, FontSource.Directives, FontSource.Universal;
    hide FontText.Body, FontText.Split, FontText.Strip, FontText.Values;
    var text := FontText.PrintData(data);
    var source := FontSource.FileText(h, report, text, comments);
    FontText.NoBracket(data);
    FontSource.UniversalSame(h.name);
    FontSource.SourceBack(h, report, text, comments);
    read := FontSource.Directives(source);
    var section := FontSource.Search(source, FontSource.DataHere);
    values := FontText.ParseData(section.value);
    FontText.ParsePrint(data);
  }

  /** The whole chain, for any image, cell size, depth and name the formats can carry: the font that is loaded draws
      the image's own quantised alpha. */
  method BuildFont(im: FontPack.Image, charW: nat, charH: nat, bpp: nat, first: nat, name: string,
                   report: FontSource.Report, comments: string)
    returns (font: FontRender.GlyphFont)
    requires im.Valid() && FontPack.Depth(bpp) && 0 < charW < U32 && 0 < charH < U32
    requires var n := FontPack.Glyphs(im, charW, charH);
             && n > 0 && first + n <= 256
             && FontFile.FIXED + FontFile.NAME_LIMIT + 1 + Times(n, FontPack.BytesPerChar(charW, charH, bpp)) < U32
    requires report.low >= ' ' && report.top >= ' '
    requires FontSource.SevenBit(name) && '\r' !in name && FontFile.NameFits(NameBytes(name))
    requires FontSource.NameSafe(HeaderOf(im, charW, charH, bpp, first, name))
    requires FontSource.Search(name, FontSource.OpenHere) == None
    ensures font.charW == charW && font.charH == charH && font.bpp == bpp && font.first == first
    ensures font.last + 1 == first + FontPack.Glyphs(im, charW, charH)
    ensures ShowsImage(font, im, charW, charH, bpp, first)
  {
    hide FontPack.Glyphs, FontPack.GlyphsDone, Faithful, ShowsImage, FontFile.Loaded, FontFile.Written,
         FontFile.NameLength, FontPack.BytesPerChar, ToBytes, FromBytes, Times, FontSource.NameSafe,
         FontSource.Search, NameBytes;
    var output := FontPack.ConvertBitmap(im, charW, charH, bpp);
    OutputLength(output, im, charW, charH, bpp);
    SomeBytes(FontPack.Glyphs(im, charW, charH), charW, charH, bpp);
    var h, values := CompileSource(HeaderOf(im, charW, charH, bpp, first, name), report, comments, ToBytes(output));
    var bitmap: seq<byte> := values;
    var f := FontFile.Font(NameBytes(h.name), h.charW, h.charH, h.first, h.last, h.bpp, bitmap);
    WrittenLength(f);
    FontFile.LoadOfWritten(f);
    var written := FontFile.WriteFont(f);
    var file := written.value;
    var buffer := new byte[|file|](k requires 0 <= k < |file| => file[k]);
    assert buffer[..] == file;
    var loaded := FontFile.FontLoad(buffer);
    SameBytes(output);
    font := Rendered(loaded.value);
    GlyphsDrawnRight(font, im, charW, charH, bpp, first);
    FaithfulShows(font, im, charW, charH, bpp, first);
    FaithfulRange(font, im, charW, charH, bpp, first);
  }

  lemma FaithfulRange(font: FontRender.GlyphFont, im: FontPack.Image, charW: nat, charH: nat, bpp: nat, first: nat)
    requires im.Valid() && charW > 0 && charH > 0 && Faithful(font, im, charW, charH, bpp, first)
    ensures font.charW == charW && font.charH == charH && font.bpp == bpp && font.first == first
    ensures font.last + 1 == first + FontPack.Glyphs(im, charW, charH)
  {
  }

  /** The directives the converter prints for an image. */
  function HeaderOf(im: FontPack.Image, charW: nat, charH: nat, bpp: nat, first: nat, name: string): FontSource.Header
    requires im.Valid() && charW > 0 && charH > 0 && FontPack.Glyphs(im, charW, charH) > 0
  {
    FontSource.Header(name, charW, charH, first, first + FontPack.Glyphs(im, charW, charH) - 1, bpp)
  }

  lemma OutputLength(output: seq<bv8>, im: FontPack.Image, charW: nat, charH: nat, bpp: nat)
    requires im.Valid() && charW > 0 && charH > 0 && FontPack.Depth(bpp)
    requires FontPack.GlyphsDone(output, im, charW, charH, bpp, FontPack.Glyphs(im, charW, charH))
    ensures |output| == Times(FontPack.Glyphs(im, charW, charH), FontPack.BytesPerChar(charW, charH, bpp))
  {
  }

  /** A font of at least one glyph has a bitmap. */
  lemma SomeBytes(n: nat, charW: nat, charH: nat, bpp: nat)
    requires n > 0 && charW > 0 && charH > 0 && FontPack.Depth(bpp)
    ensures Times(n, FontPack.BytesPerChar(charW, charH, bpp)) > 0
  {
    FontPack.ByteOfRow(charW, bpp, 0);
    TimesMono(0, charH, FontPack.BytesPerRow(charW, bpp));
    TimesMono(0, n, FontPack.BytesPerChar(charW, charH, bpp));
  }

  lemma WrittenLength(f: FontFile.Font)
    requires f.Packable()
    ensures |FontFile.Written(f)| == FontFile.FIXED + |f.name| + 1 + |f.bitmap|
  {
  }
}
