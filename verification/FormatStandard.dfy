/** The formatter against the text the C standard prescribes (ISO/IEC 9899:2011, section 7.21.6.1): the directives
    on which the two agree, exactly. */
module FormatStandard {
  import opened Bytes
  import opened Format
  import opened FormatSpelling

  const TWO32 := 0x1_0000_0000

  // ----- The text of the standard

  /** A field of some width: spaces on one side, or zeros between sign and digits. */
  function Justified(left: bool, zero: bool, width: nat, sign: string, body: string): string {
    var room := width - |sign| - |body|;
    if left then sign + body + Repeat(' ', room)
    else if zero then sign + Repeat('0', room) + body
    else Repeat(' ', room) + sign + body
  }

  /** A negative width from a star is a '-' flag and a positive width. */
  function Field(d: Directive, zero: bool, sign: string, body: string): string {
    Justified(d.left || d.width < 0, zero, Abs(d.width), sign, body)
  }

  /** At least as many digits as the precision says; zero with precision 0 has none, and a negative precision
      counts as none given. */
  function StandardDigits(n: nat, base: nat, precision: int): string
    requires base == 10 || base == 16
  {
    if n == 0 && precision == 0 then "" else Filled(Digits(n, base), precision)
  }

  /** The value of an int read as an unsigned int. */
  function Unsigned(n: int): nat
    requires INT_MIN <= n <= INT_MAX
  {
    if n < 0 then n + TWO32 else n
  }

  function UpperChar(c: char): char {
    if 'a' <= c <= 'f' then (c as int - 'a' as int + 'A' as int) as char else c
  }

  function Upper(s: string): (u: string)
    ensures |u| == |s|
    ensures forall k :: 0 <= k < |s| ==> u[k] == UpperChar(s[k])
  {
    if s == [] then [] else [UpperChar(s[0])] + Upper(s[1..])
  }

  /** The zero flag counts only without a precision; `Justified` drops it for left fields. */
  predicate ZeroCounts(d: Directive) {
    d.zero && d.precision < 0
  }

  function StandardTaken(s: string, precision: int): string {
    if 0 <= precision < |s| then s[..precision] else s
  }

  /** The standard gives these directives a text.  It leaves a null string and other conversions undefined. */
  predicate Defined(d: Directive, args: seq<Arg>, a: nat) {
    && d.conv in "dxXsc%"
    && ArgFits(d.conv, args, a)
    && (d.conv == 's' ==> args[a].s.Some?)
  }

  function StandardText(d: Directive, args: seq<Arg>, a: nat): string
    requires Defined(d, args, a)
  {
    match d.conv
    case 'd' => Field(d, ZeroCounts(d), if args[a].n < 0 then "-" else "",
        StandardDigits(Abs(args[a].n), 10, d.precision))
    case 'x' => Field(d, ZeroCounts(d), "", StandardDigits(Unsigned(args[a].n), 16, d.precision))
    case 'X' => Field(d, ZeroCounts(d), "", Upper(StandardDigits(Unsigned(args[a].n), 16, d.precision)))
    case 's' => Field(d, false, "", StandardTaken(args[a].s.value, d.precision))
    case 'c' => Field(d, false, "", [CharOf(args[a].n)])
    case _ => "%"
  }

  // ----- Where the formatter gives that text

  /** The field of a text of `length` characters: a negative width is harmless when there is nothing to pad, and
      zeros are right when they count and no sign stands behind them. */
  predicate FieldAgrees(d: Directive, length: nat, zeroRight: bool) {
    if d.width < 0 then -d.width <= length
    else !d.left && d.zero && d.width > length ==> zeroRight
  }

  function NumberLength(n: nat, base: nat, precision: int): nat
    requires base == 10 || base == 16
  {
    |Filled(Digits(n, base), precision)|
  }

  predicate DecimalAgrees(d: Directive, n: int) {
    && !(n == 0 && d.precision == 0)
    && FieldAgrees(d, (if n < 0 then 1 else 0) + NumberLength(Abs(n), 10, d.precision), n >= 0 && d.precision < 0)
  }

  predicate HexAgrees(d: Directive, n: int) {
    && n >= 0
    && !(n == 0 && d.precision == 0)
    && FieldAgrees(d, NumberLength(n, 16, d.precision), d.precision < 0)
  }

  predicate NoLetters(s: string) {
    forall k :: 0 <= k < |s| ==> !('a' <= s[k] <= 'f')
  }

  predicate TextAgrees(d: Directive, s: string) {
    if d.precision < -1 then
      |s| <= d.width && forall k :: 0 <= k < |s| ==> s[k] == ' '
    else
      d.width < 0 ==> -d.width <= |Taken(s, d.precision)|
  }

  /** The directives on which the formatter keeps to the standard. */
  predicate Agrees(d: Directive, args: seq<Arg>, a: nat)
    requires Defined(d, args, a)
  {
    match d.conv
    case 'd' => DecimalAgrees(d, args[a].n)
    case 'x' => HexAgrees(d, args[a].n)
    case 'X' => HexAgrees(d, args[a].n) && NoLetters(Digits(args[a].n, 16))
    case 's' => TextAgrees(d, args[a].s.value)
    case 'c' => d.width < 0 ==> -d.width <= 1
    case _ => true
  }

  /** Two fields around bodies of one length agree when the bodies do and the padding does. */
  lemma FieldsCompare(d: Directive, zero: bool, sign: string, body: string, body': string)
    requires |body| == |body'| && sign in {"", "-"} && (zero ==> d.zero)
    ensures Padded(d, sign, body) == Field(d, zero, sign, body')
            <==> body == body' && FieldAgrees(d, |sign| + |body|, zero && sign == "")
  {
    var t, u := Padded(d, sign, body), Field(d, zero, sign, body');
    var room := d.width - |sign| - |body|;
    if d.width < 0 {
      Unpadded(d, sign, body);
      if -d.width <= |sign| + |body| {
        assert u == sign + body';
        SameTail(sign, body, body');
      } else {
        assert |u| == -d.width;
      }
    } else if d.left {
      SameTail(sign, body, body');
      SameHead(sign + body, sign + body', Repeat(' ', room));
    } else if room <= 0 {
      Unpadded(d, sign, body);
      assert u == sign + body';
      SameTail(sign, body, body');
    } else if d.zero && !(zero && sign == "") {
      assert t[0] == '0' && u[0] != '0';
    } else {
      var pad := Repeat(if d.zero then '0' else ' ', room);
      assert t == pad + sign + body && u == pad + sign + body';
      SameTail(pad + sign, body, body');
    }
  }

  lemma Unpadded(d: Directive, sign: string, body: string)
    requires d.width <= |sign| + |body|
    ensures Padded(d, sign, body) == sign + body
  {
  }

  lemma SameTail(p: string, s: string, t: string)
    requires |s| == |t|
    ensures p + s == p + t <==> s == t
  {
    assert (p + s)[|p|..] == s && (p + t)[|p|..] == t;
  }

  lemma SameHead(s: string, t: string, q: string)
    requires |s| == |t|
    ensures s + q == t + q <==> s == t
  {
    assert (s + q)[..|s|] == s && (t + q)[..|t|] == t;
  }

  /** A printed zero is not the empty text, in any field. */
  lemma ZeroShows(d: Directive)
    requires d.precision == 0
    ensures Padded(d, "", "0") != Field(d, false, "", "")
  {
    var t, u := Padded(d, "", "0"), Field(d, false, "", "");
    assert forall k :: 0 <= k < |u| ==> u[k] == ' ';
    assert t[if d.left then 0 else |t| - 1] == '0';
  }

  lemma ZeroFilled(base: nat)
    requires base == 10 || base == 16
    ensures Filled(Digits(0, base), 0) == "0"
  {
  }

  lemma DecimalStandard(d: Directive, args: seq<Arg>, a: nat)
    requires Defined(d, args, a) && d.conv == 'd'
    ensures Text(d, args, a) == StandardText(d, args, a) <==> DecimalAgrees(d, args[a].n)
  {
    hide Padded, Field, Digits, FieldAgrees, Filled;
    var n := args[a].n;
    var sign := if n < 0 then "-" else "";
    if n == 0 && d.precision == 0 {
      ZeroFilled(10);
      ZeroShows(d);
    } else {
      var body := Filled(Digits(Abs(n), 10), d.precision);
      FieldsCompare(d, ZeroCounts(d), sign, body, body);
      ZeroRight(d, |sign| + |body|, ZeroCounts(d) && sign == "", n >= 0 && d.precision < 0);
    }
  }

  /** What makes zeros right matters only under the zero flag. */
  lemma ZeroRight(d: Directive, length: nat, z: bool, z': bool)
    requires d.zero ==> z == z'
    ensures FieldAgrees(d, length, z) == FieldAgrees(d, length, z')
  {
  }

  // ----- Hexadecimal

  /** The digits of the standard for x and X. */
  function HexBody(d: Directive, n: int): string
    requires INT_MIN <= n <= INT_MAX
  {
    StandardDigits(Unsigned(n), 16, d.precision)
  }

  /** A negative number prints as zeros and spaces. */
  lemma NegativeBlank(d: Directive, n: int)
    requires n < 0
    ensures forall c :: c in HexText(d, n) ==> c == '0' || c == ' '
  {
    assert Filled(Digits(n, 16), d.precision) == Repeat('0', d.precision);
  }

  /** Every character of the body is in the field. */
  lemma FieldShows(d: Directive, zero: bool, body: string, c: char)
    requires c in body
    ensures c in Field(d, zero, "", body)
  {
  }

  /** Its standard text has a digit that is not zero, in either case. */
  lemma NegativeDigit(d: Directive, n: int)
    requires INT_MIN <= n < 0
    ensures exists c :: c in HexBody(d, n) && IsHexDigit(c) && c != '0'
    ensures exists c :: c in Upper(HexBody(d, n)) && c != '0' && c != ' '
  {
    hide Digits;
    var s, b := Digits(Unsigned(n), 16), HexBody(d, n);
    DigitsMean(Unsigned(n), 16);
    var k := |b| - |s|;
    assert b[k] == s[0] && b[k] in b;
    assert Upper(b)[k] == UpperChar(s[0]) && Upper(b)[k] in Upper(b);
  }

  lemma NegativeDiffers(d: Directive, n: int)
    requires INT_MIN <= n < 0
    ensures HexText(d, n) != Field(d, ZeroCounts(d), "", HexBody(d, n))
    ensures HexText(d, n) != Field(d, ZeroCounts(d), "", Upper(HexBody(d, n)))
  {
    hide HexText, HexBody, Field, Upper;
    NegativeBlank(d, n);
    NegativeDigit(d, n);
    var c :| c in HexBody(d, n) && IsHexDigit(c) && c != '0';
    FieldShows(d, ZeroCounts(d), HexBody(d, n), c);
    var c' :| c' in Upper(HexBody(d, n)) && c' != '0' && c' != ' ';
    FieldShows(d, ZeroCounts(d), Upper(HexBody(d, n)), c');
  }

  /** A number that is not negative, around any digits of the right length. */
  lemma HexCompare(d: Directive, n: nat, body: string)
    requires n <= INT_MAX && !(n == 0 && d.precision == 0)
    requires |body| == NumberLength(n, 16, d.precision)
    ensures HexText(d, n) == Field(d, ZeroCounts(d), "", body)
            <==> Filled(Digits(n, 16), d.precision) == body && FieldAgrees(d, |body|, d.precision < 0)
  {
    hide Padded, Field, Digits, FieldAgrees, Filled;
    DigitsMean(n, 16);
    FieldsCompare(d, ZeroCounts(d), "", Filled(Digits(n, 16), d.precision), body);
    ZeroRight(d, |""| + |body|, ZeroCounts(d), d.precision < 0);
  }

  lemma HexStandard(d: Directive, args: seq<Arg>, a: nat)
    requires Defined(d, args, a) && d.conv == 'x'
    ensures Text(d, args, a) == StandardText(d, args, a) <==> HexAgrees(d, args[a].n)
  {
    hide HexText, Padded, Field, Digits, FieldAgrees, Filled;
    var n := args[a].n;
    if n < 0 {
      NegativeDiffers(d, n);
    } else if n == 0 && d.precision == 0 {
      ZeroHex(d);
    } else {
      HexCompare(d, n, Filled(Digits(n, 16), d.precision));
    }
  }

  lemma ZeroHex(d: Directive)
    requires d.precision == 0
    ensures HexText(d, 0) != Field(d, ZeroCounts(d), "", "")
  {
    hide Padded, Field;
    ZeroFilled(16);
    ZeroShows(d);
  }

  lemma UpperSame(s: string)
    ensures Upper(s) == s <==> NoLetters(s)
  {
    if NoLetters(s) {
      assert Upper(s) == s;
    } else {
      var k :| 0 <= k < |s| && 'a' <= s[k] <= 'f';
      assert Upper(s)[k] == UpperChar(s[k]) && UpperChar(s[k]) < 'a';
    }
  }

  lemma FilledLetters(s: string, precision: int)
    ensures NoLetters(Filled(s, precision)) == NoLetters(s)
  {
    var t := Filled(s, precision);
    var z := |t| - |s|;
    assert t[z..] == s && t[..z] == Repeat('0', precision - |s|);
    if NoLetters(t) {
      forall k | 0 <= k < |s| ensures !('a' <= s[k] <= 'f') {
        assert t[z + k] == s[k];
      }
    }
  }

  lemma UpperHexStandard(d: Directive, args: seq<Arg>, a: nat)
    requires Defined(d, args, a) && d.conv == 'X'
    ensures Text(d, args, a) == StandardText(d, args, a)
            <==> HexAgrees(d, args[a].n) && NoLetters(Digits(args[a].n, 16))
  {
    hide HexText, Padded, Field, Digits, FieldAgrees, Filled, Upper, NoLetters;
    var n := args[a].n;
    if n < 0 {
      NegativeDiffers(d, n);
    } else if n == 0 && d.precision == 0 {
      ZeroHex(d);
    } else {
      var body := Filled(Digits(n, 16), d.precision);
      HexCompare(d, n, Upper(body));
      UpperSame(body);
      FilledLetters(Digits(n, 16), d.precision);
    }
  }

  // ----- Text and characters

  lemma TextStandard(d: Directive, args: seq<Arg>, a: nat)
    requires Defined(d, args, a) && d.conv == 's'
    ensures Text(d, args, a) == StandardText(d, args, a) <==> TextAgrees(d, args[a].s.value)
  {
    var s := args[a].s.value;
    if d.precision < -1 {
      NothingTaken(d, s);
    } else {
      hide Padded, Field;
      var w := Taken(s, d.precision);
      assert w == StandardTaken(s, d.precision);
      FieldsCompare(d.(zero := false), false, "", w, w);
      SameField(d, w);
    }
  }

  lemma SameField(d: Directive, body: string)
    ensures Field(d.(zero := false), false, "", body) == Field(d, false, "", body)
  {
  }

  /** Against a negative precision the formatter prints the padding only. */
  lemma NothingTaken(d: Directive, s: string)
    requires d.precision < -1
    ensures Padded(d.(zero := false), "", Taken(s, d.precision)) == Field(d, false, "", s)
            <==> |s| <= d.width && forall k :: 0 <= k < |s| ==> s[k] == ' '
  {
    var t, u := Padded(d.(zero := false), "", Taken(s, d.precision)), Field(d, false, "", s);
    assert Taken(s, d.precision) == "" && t == Repeat(' ', d.width);
    if |s| <= d.width {
      var j := if d.left then 0 else d.width - |s|;
      assert |u| == d.width && u[j..j + |s|] == s;
      assert forall k :: 0 <= k < |s| ==> s[k] == u[j + k];
      assert forall k :: 0 <= k < |u| && !(j <= k < j + |s|) ==> u[k] == ' ';
      if forall k :: 0 <= k < |s| ==> s[k] == ' ' {
        assert forall k :: j <= k < j + |s| ==> u[k] == s[k - j];
        assert t == u;
      }
    } else {
      assert |u| >= |s|;
      assert |u| != |t|;
    }
  }

  lemma CharacterStandard(d: Directive, args: seq<Arg>, a: nat)
    requires Defined(d, args, a) && d.conv == 'c'
    ensures Text(d, args, a) == StandardText(d, args, a) <==> (d.width < 0 ==> -d.width <= 1)
  {
    hide Padded, Field, CharOf;
    var w := [CharOf(args[a].n)];
    FieldsCompare(d.(zero := false), false, "", w, w);
    SameField(d, w);
  }

  // ----- All directives

  /** The formatter gives a directive the text of the standard exactly under `Agrees`. */
  lemma AgreesMeans(d: Directive, args: seq<Arg>, a: nat)
    requires Defined(d, args, a)
    ensures Text(d, args, a) == StandardText(d, args, a) <==> Agrees(d, args, a)
  {
    hide Text, StandardText, DecimalAgrees, HexAgrees, TextAgrees, NoLetters, Digits;
    match d.conv {
      case 'd' => DecimalStandard(d, args, a);
      case 'x' => HexStandard(d, args, a);
      case 'X' => UpperHexStandard(d, args, a);
      case 's' => TextStandard(d, args, a);
      case 'c' => CharacterStandard(d, args, a);
      case _ => PercentStandard(d, args, a);
    }
  }

  lemma PercentStandard(d: Directive, args: seq<Arg>, a: nat)
    requires Defined(d, args, a) && d.conv !in "dxXsc"
    ensures Text(d, args, a) == StandardText(d, args, a)
  {
    assert d.conv == '%';
  }

  // ----- A whole format

  /** Every directive has a standard text, which the formatter gives it. */
  ghost predicate AllAgree(fmt: string, i: nat, args: seq<Arg>, a: nat)
    requires i <= |fmt| && Renderable(fmt, i, args, a)
    decreases |fmt| - i
  {
    if i == |fmt| then true
    else if fmt[i] != '%' then AllAgree(fmt, i + 1, args, a)
    else
      var r := Parse(fmt, i + 1, args, a).value;
      && Defined(r.d, args, a + r.used) && Agrees(r.d, args, a + r.used)
      && AllAgree(fmt, r.next, args, a + r.used + ArgCount(r.d.conv))
  }

  ghost predicate AllDefined(fmt: string, i: nat, args: seq<Arg>, a: nat)
    requires i <= |fmt| && Renderable(fmt, i, args, a)
    decreases |fmt| - i
  {
    if i == |fmt| then true
    else if fmt[i] != '%' then AllDefined(fmt, i + 1, args, a)
    else
      var r := Parse(fmt, i + 1, args, a).value;
      && Defined(r.d, args, a + r.used)
      && AllDefined(fmt, r.next, args, a + r.used + ArgCount(r.d.conv))
  }

  ghost function StandardRender(fmt: string, i: nat, args: seq<Arg>, a: nat): string
    requires i <= |fmt| && Renderable(fmt, i, args, a) && AllDefined(fmt, i, args, a)
    decreases |fmt| - i
  {
    if i == |fmt| then []
    else if fmt[i] != '%' then [fmt[i]] + StandardRender(fmt, i + 1, args, a)
    else
      var r := Parse(fmt, i + 1, args, a).value;
      StandardText(r.d, args, a + r.used) + StandardRender(fmt, r.next, args, a + r.used + ArgCount(r.d.conv))
  }

  lemma PlainStep(fmt: string, i: nat, args: seq<Arg>, a: nat)
    requires i < |fmt| && fmt[i] != '%' && Renderable(fmt, i, args, a) && AllAgree(fmt, i, args, a)
    ensures Renderable(fmt, i + 1, args, a) && AllAgree(fmt, i + 1, args, a)
    ensures AllDefined(fmt, i + 1, args, a) ==>
              && AllDefined(fmt, i, args, a)
              && Render(fmt, i, args, a) == [fmt[i]] + Render(fmt, i + 1, args, a)
              && StandardRender(fmt, i, args, a) == [fmt[i]] + StandardRender(fmt, i + 1, args, a)
  {
    hide Parse, Text, StandardText, Agrees, Defined, ArgFits, StarsFit;
  }

  lemma DirectiveStep(fmt: string, i: nat, args: seq<Arg>, a: nat) returns (d: Directive, j: nat, b: nat)
    requires i < |fmt| && fmt[i] == '%' && Renderable(fmt, i, args, a) && AllAgree(fmt, i, args, a)
    ensures i < j <= |fmt| && Defined(d, args, b) && Agrees(d, args, b)
    ensures var c := b + ArgCount(d.conv);
            && Renderable(fmt, j, args, c) && AllAgree(fmt, j, args, c)
            && (AllDefined(fmt, j, args, c) ==>
                  && AllDefined(fmt, i, args, a)
                  && Render(fmt, i, args, a) == Text(d, args, b) + Render(fmt, j, args, c)
                  && StandardRender(fmt, i, args, a) == StandardText(d, args, b) + StandardRender(fmt, j, args, c))
  {
    hide Parse, Text, StandardText, Agrees, Defined, ArgFits, StarsFit;
    var r := Parse(fmt, i + 1, args, a).value;
    d, j, b := r.d, r.next, a + r.used;
  }

  /** Any number of directives, each of which agrees. */
  lemma {:induction false} RenderStandard(fmt: string, i: nat, args: seq<Arg>, a: nat)
    requires i <= |fmt| && Renderable(fmt, i, args, a) && AllAgree(fmt, i, args, a)
    ensures AllDefined(fmt, i, args, a) && Render(fmt, i, args, a) == StandardRender(fmt, i, args, a)
    decreases |fmt| - i
  {
    if i < |fmt| {
      hide *;
      if fmt[i] != '%' {
        PlainStep(fmt, i, args, a);
        RenderStandard(fmt, i + 1, args, a);
      } else {
        var d, j, b := DirectiveStep(fmt, i, args, a);
        RenderStandard(fmt, j, args, b + ArgCount(d.conv));
        AgreesMeans(d, args, b);
      }
    }
  }

  // ----- Formats on which the two differ

  lemma FiveIs()
    ensures Digits(5, 10) == "5"
  {
    SmallDigit(5, 10);
  }

  /** "%05d" of -3: zeros in front of the sign. */
  lemma ZerosBeforeSign()
    ensures Renderable("%05d", 0, [IntArg(-3)], 0) && Render("%05d", 0, [IntArg(-3)], 0) == "000-3"
    ensures var r := Parse("%05d", 1, [IntArg(-3)], 0);
            r.Some? && Defined(r.value.d, [IntArg(-3)], 0) && StandardText(r.value.d, [IntArg(-3)], 0) == "-0003"
  {
    hide Parse, Renderable, Render;
    var s := Spelling("0", Given(5), false, Absent, 'd');
    FiveIs();
    assert "%" + SpellOut(s) == "%05d";
    OneDirective(s, [IntArg(-3)]);
    SmallDigit(3, 10);
    Blanks('0');
  }

  /** "%-5d" of 42: the number, then spaces. */
  lemma LeftJustified()
    ensures Renderable("%-5d", 0, [IntArg(42)], 0) && Render("%-5d", 0, [IntArg(42)], 0) == "42   "
  {
    hide Parse, Renderable, Render;
    var s := Spelling("-", Given(5), false, Absent, 'd');
    FiveIs();
    assert "%" + SpellOut(s) == "%-5d";
    OneDirective(s, [IntArg(42)]);
    FortyTwo();
    Blanks(' ');
  }

  lemma OneCharacter()
    ensures Renderable("%c", 0, [IntArg(65)], 0) && Render("%c", 0, [IntArg(65)], 0) == "A"
  {
    hide Parse, Renderable, Render;
    var s := Spelling("", Absent, false, Absent, 'c');
    assert "%" + SpellOut(s) == "%c";
    OneDirective(s, [IntArg(65)]);
  }

  lemma PercentSign()
    ensures Renderable("%%", 0, [], 0) && Render("%%", 0, [], 0) == "%"
  {
    hide Parse, Renderable, Render;
    var s := Spelling("", Absent, false, Absent, '%');
    assert "%" + SpellOut(s) == "%%";
    OneDirective(s, []);
  }

  lemma UnknownConversion()
    ensures Renderable("%q", 0, [], 0) && Render("%q", 0, [], 0) == "%q"
  {
    hide Parse, Renderable, Render;
    var s := Spelling("", Absent, false, Absent, 'q');
    assert "%" + SpellOut(s) == "%q";
    OneDirective(s, []);
  }

  /** A character, a percent sign, a conversion the formatter does not know, and a null string. */
  lemma OtherConversions()
    ensures Renderable("%c", 0, [IntArg(65)], 0) && Render("%c", 0, [IntArg(65)], 0) == "A"
    ensures Renderable("%%", 0, [], 0) && Render("%%", 0, [], 0) == "%"
    ensures Renderable("%q", 0, [], 0) && Render("%q", 0, [], 0) == "%q"
    ensures Renderable("%s", 0, [StrArg(None)], 0) && Render("%s", 0, [StrArg(None)], 0) == "(null)"
  {
    hide *;
    OneCharacter();
    PercentSign();
    UnknownConversion();
    NullText();
  }

  lemma NullText()
    ensures Renderable("%s", 0, [StrArg(None)], 0) && Render("%s", 0, [StrArg(None)], 0) == "(null)"
  {
    hide Parse, Renderable, Render;
    var s := Spelling("", Absent, false, Absent, 's');
    assert "%" + SpellOut(s) == "%s";
    OneDirective(s, [StrArg(None)]);
  }

  lemma FortyTwo()
    ensures Digits(42, 10) == "42"
  {
    hide RevDigits, Rev;
    SmallDigit(4, 10);
    RevNext(42, 10);
    assert Rev(RevDigits(4, 10)) == "4";
  }

  /** "%.0d" of 0: a zero where the standard prints nothing. */
  lemma ZeroPrinted()
    ensures Renderable("%.0d", 0, [IntArg(0)], 0) && Render("%.0d", 0, [IntArg(0)], 0) == "0"
    ensures var r := Parse("%.0d", 1, [IntArg(0)], 0);
            r.Some? && Defined(r.value.d, [IntArg(0)], 0) && StandardText(r.value.d, [IntArg(0)], 0) == ""
  {
    hide Parse, Renderable, Render;
    var s := Spelling("", Absent, true, Given(0), 'd');
    assert "%" + SpellOut(s) == "%.0d";
    OneDirective(s, [IntArg(0)]);
  }

  /** "%x" of -1: no digits. */
  lemma NegativeVanishes()
    ensures Renderable("%x", 0, [IntArg(-1)], 0) && Render("%x", 0, [IntArg(-1)], 0) == ""
    ensures var r := Parse("%x", 1, [IntArg(-1)], 0);
            r.Some? && Defined(r.value.d, [IntArg(-1)], 0) && |StandardText(r.value.d, [IntArg(-1)], 0)| > 0
  {
    hide Parse, Renderable, Render;
    var s := Spelling("", Absent, false, Absent, 'x');
    assert "%" + SpellOut(s) == "%x";
    OneDirective(s, [IntArg(-1)]);
    DigitsMean(0xFFFF_FFFF, 16);
  }

  /** "%X" of 10: a lower-case letter. */
  lemma LowerCase()
    ensures Renderable("%X", 0, [IntArg(10)], 0) && Render("%X", 0, [IntArg(10)], 0) == "a"
    ensures var r := Parse("%X", 1, [IntArg(10)], 0);
            r.Some? && Defined(r.value.d, [IntArg(10)], 0) && StandardText(r.value.d, [IntArg(10)], 0) == "A"
  {
    hide Parse, Renderable, Render;
    var s := Spelling("", Absent, false, Absent, 'X');
    assert "%" + SpellOut(s) == "%X";
    OneDirective(s, [IntArg(10)]);
    SmallDigit(10, 16);
  }

  /** "%.*s" of -2 and "ab": nothing, where the standard ignores the precision. */
  lemma NegativePrecision()
    ensures var args := [IntArg(-2), StrArg(Some("ab"))];
            && Renderable("%.*s", 0, args, 0) && Render("%.*s", 0, args, 0) == ""
            && var r := Parse("%.*s", 1, args, 0);
            && r.Some? && r.value.used == 1 && Defined(r.value.d, args, 1) && StandardText(r.value.d, args, 1) == "ab"
  {
    hide Parse, Renderable, Render;
    var s := Spelling("", Absent, true, Star, 's');
    assert "%" + SpellOut(s) == "%.*s";
    OneDirective(s, [IntArg(-2), StrArg(Some("ab"))]);
  }

  /** "%*d" of -3 and 5: no padding, where the standard pads on the right. */
  lemma NegativeWidth()
    ensures var args := [IntArg(-3), IntArg(5)];
            && Renderable("%*d", 0, args, 0) && Render("%*d", 0, args, 0) == "5"
            && var r := Parse("%*d", 1, args, 0);
            && r.Some? && r.value.used == 1 && Defined(r.value.d, args, 1) && StandardText(r.value.d, args, 1) == "5  "
  {
    hide Parse, Renderable, Render;
    var s := Spelling("", Star, false, Absent, 'd');
    assert "%" + SpellOut(s) == "%*d";
    OneDirective(s, [IntArg(-3), IntArg(5)]);
    FiveIs();
    Blanks(' ');
  }

  lemma Blanks(c: char)
    ensures Repeat(c, 3) == [c, c, c] && Repeat(c, 2) == [c, c]
  {
  }
}
