/** The font source file around its data: the directives the converter prints, and the patterns with which the
    compiler looks for them in the whole text, comments included. */
module FontSource {
  import opened Bytes
  import opened Format
  import FontText

  /** What the directives say. */
  datatype Header = Header(name: string, charW: nat, charH: nat, first: nat, last: nat, bpp: nat)

  // ----- Searching, as re.search does

  predicate Starts(t: string, key: string) {
    |key| <= |t| && t[..|key|] == key
  }

  /** The leftmost place where a pattern matches, and what it gives there. */
  function Search<T>(t: string, here: string -> Option<T>): Option<T> {
    if here(t).Some? then here(t) else if t == [] then None else Search(t[1..], here)
  }

  function TakeDigits(t: string): (d: string)
    ensures |d| <= |t| && d == t[..|d|] && forall k :: 0 <= k < |d| ==> IsDigit(d[k])
    ensures |d| < |t| ==> !IsDigit(t[|d|])
  {
    if t != [] && IsDigit(t[0]) then [t[0]] + TakeDigits(t[1..]) else ""
  }

  /** What stands before the first c. */
  function TakeTo(t: string, c: char): (r: string)
    ensures |r| <= |t| && r == t[..|r|] && c !in r
    ensures |r| < |t| ==> t[|r|] == c
  {
    if t == [] || t[0] == c then "" else [t[0]] + TakeTo(t[1..], c)
  }

  /** KEY\s+(\d+) */
  function FieldHere(t: string, key: string): Option<nat> {
    if !Starts(t, key) then None
    else
      var u := t[|key|..];
      var v := FontText.StripLeft(u);
      if v == u || TakeDigits(v) == "" then None else Some(Number(TakeDigits(v)))
  }

  function Field(key: string): string -> Option<nat> {
    t => FieldHere(t, key)
  }

  /** FONTNAME\s+"([^"]+)" */
  function NameHere(t: string): (r: Option<string>)
    ensures r.Some? ==> r.value != "" && '"' !in r.value
  {
    if !Starts(t, "FONTNAME") then None
    else
      var u := t[8..];
      var v := FontText.StripLeft(u);
      if v == u || v == [] || v[0] != '"' then None
      else
        var n := TakeTo(v[1..], '"');
        if n == "" || |n| == |v| - 1 then None else Some(n)
  }

  /** FONTDATA\s*=\s*\[ and what follows it. */
  function OpenHere(t: string): Option<string> {
    if !Starts(t, "FONTDATA") then None
    else
      var v := FontText.StripLeft(t[8..]);
      if v == [] || v[0] != '=' then None
      else
        var x := FontText.StripLeft(v[1..]);
        if x == [] || x[0] != '[' then None else Some(x[1..])
  }

  /** The data section up to its bracket; white space at its ends is left to the parser of the items. */
  function DataHere(t: string): Option<string> {
    match OpenHere(t)
    case None => None
    case Some(y) => if |TakeTo(y, ']')| == |y| then None else Some(TakeTo(y, ']'))
  }

  function Or<T>(found: Option<T>, default: T): T {
    if found.Some? then found.value else default
  }

  /** The directives compile_font finds, with its defaults for those it does not. */
  function Directives(t: string): Header {
    Header(Or(Search(t, NameHere), "Unknown"), Or(Search(t, Field("CHARW")), 8), Or(Search(t, Field("CHARH")), 16),
           Or(Search(t, Field("FIRST")), 32), Or(Search(t, Field("LAST")), 127), Or(Search(t, Field("BPP")), 1))
  }

  // ----- The printed text

  function Line(key: string, n: nat): string {
    key + " " + Digits(n, 10) + "\n"
  }

  function Lines(h: Header): string {
    Line("CHARW", h.charW) + (Line("CHARH", h.charH) + (Line("FIRST",
        h.first) + (Line("LAST", h.last) + Line("BPP", h.bpp))))
  }

  function AfterLines(data: string, rest: string): string {
    "\nFONTDATA = [" + (data + ("]" + rest))
  }

  function AfterName(h: Header, data: string, rest: string): string {
    "\"\n" + (Lines(h) + AfterLines(data, rest))
  }

  function AfterFirst(h: Header, notes: string, data: string, rest: string): string {
    " font definition\n" + (notes + ("\nFONTNAME \"" + (h.name + AfterName(h, data, rest))))
  }

  /** The text generate_ft_code prints: a first comment with the name, further comments, the directives, the data,
      and comments again. */
  function SourceText(h: Header, notes: string, data: string, rest: string): string {
    "# " + (h.name + AfterFirst(h, notes, data, rest))
  }

  /** The lines of a small source. */
  lemma SmallLines()
    ensures Line("CHARW", 8) == "CHARW 8\n" && Line("CHARH", 9) == "CHARH 9\n"
    ensures Line("FIRST", 1) == "FIRST 1\n" && Line("LAST", 2) == "LAST 2\n" && Line("BPP", 4) == "BPP 4\n"
  {
    SmallDigit(8, 10);
    SmallDigit(9, 10);
    SmallDigit(1, 10);
    SmallDigit(2, 10);
    SmallDigit(4, 10);
  }

  /** The printed text, piece after piece. */
  lemma SourceIs(h: Header, notes: string, data: string, rest: string)
    ensures SourceText(h, notes, data, rest) ==
            "# " + (h.name + (" font definition\n" + (notes + ("\nFONTNAME \"" + (h.name + ("\"\n" + (
            (Line("CHARW", h.charW) + (Line("CHARH", h.charH) + (Line("FIRST", h.first) + (Line("LAST", h.last)
            + Line("BPP", h.bpp))))) + ("\nFONTDATA = [" + (data + ("]" + rest))))))))))
  {
    hide Line;
  }

  /** Reading in text mode: every line end is a newline. */
  function Universal(t: string): string {
    if t == [] then []
    else if t[0] != '\r' then [t[0]] + Universal(t[1..])
    else ['\n'] + Universal(if |t| > 1 && t[1] == '\n' then t[2..] else t[1..])
  }

  // ----- Text that no pattern begins in

  predicate Capital(c: char) {
    'A' <= c <= 'Z'
  }

  /** No two capitals stand together, and the last character is none. */
  ghost predicate Calm(t: string) {
    && (forall i :: 0 <= i < |t| - 1 ==> !(Capital(t[i]) && Capital(t[i + 1])))
    && (t != [] ==> !Capital(t[|t| - 1]))
  }

  /** Every keyword begins with two capitals, and consists of them. */
  ghost predicate Keyword(key: string) {
    |key| >= 2 && forall k :: 0 <= k < |key| ==> Capital(key[k])
  }

  /** At each place in a the text differs from the keyword. */
  ghost predicate Skips(a: string, key: string) {
    forall i: nat :: i < |a| ==> DiffersAt(a, key, i)
  }

  ghost predicate DiffersAt(a: string, key: string, i: nat) {
    exists j: nat :: j < |key| && i + j < |a| && a[i + j] != key[j]
  }

  lemma CalmSkips(a: string, key: string)
    requires Calm(a) && Keyword(key)
    ensures Skips(a, key)
  {
    forall i: nat | i < |a| ensures DiffersAt(a, key, i) {
      if Capital(a[i]) {
        assert a[i + 1] != key[1];
      } else {
        assert a[i + 0] != key[0];
      }
    }
  }

  lemma NotHere(a: string, key: string, b: string, i: nat)
    requires Skips(a, key) && i < |a|
    ensures !Starts(a[i..] + b, key)
  {
    assert DiffersAt(a, key, i);
    var j: nat :| j < |key| && i + j < |a| && a[i + j] != key[j];
    var t := a[i..] + b;
    assert t[j] == a[i + j];
  }

  /** A pattern that matches nowhere in a is found where it is found in what follows. */
  lemma {:induction false} SearchOn<T>(a: string, b: string, here: string -> Option<T>)
    requires forall i :: 0 <= i < |a| ==> here(a[i..] + b) == None
    ensures Search(a + b, here) == Search(b, here)
  {
    if a == [] {
      assert a + b == b;
    } else {
      assert a[0..] + b == a + b && (a + b)[1..] == a[1..] + b;
      forall i | 0 <= i < |a[1..]| ensures here(a[1..][i..] + b) == None {
        assert a[1..][i..] == a[i + 1..];
      }
      SearchOn(a[1..], b, here);
    }
  }

  lemma FieldSkips(a: string, b: string, key: string)
    requires Skips(a, key)
    ensures Search(a + b, Field(key)) == Search(b, Field(key))
  {
    forall i | 0 <= i < |a| ensures Field(key)(a[i..] + b) == None {
      NotHere(a, key, b, i);
    }
    SearchOn(a, b, Field(key));
  }

  lemma NameSkips(a: string, b: string)
    requires Skips(a, "FONTNAME")
    ensures Search(a + b, NameHere) == Search(b, NameHere)
  {
    forall i | 0 <= i < |a| ensures NameHere(a[i..] + b) == None {
      NotHere(a, "FONTNAME", b, i);
    }
    SearchOn(a, b, NameHere);
  }

  lemma DataSkips(a: string, b: string)
    requires Skips(a, "FONTDATA")
    ensures Search(a + b, DataHere) == Search(b, DataHere)
  {
    forall i | 0 <= i < |a| ensures DataHere(a[i..] + b) == None {
      NotHere(a, "FONTDATA", b, i);
    }
    SearchOn(a, b, DataHere);
  }

  // ----- The name, wherever it stands

  /** What follows the name: a space and a letter, or its quotation mark. */
  predicate Guard(b: string) {
    var v := FontText.StripLeft(b);
    b != [] && (b[0] == ' ' || b[0] == '"') && v != [] && (v[0] == 'f' || v[0] == '"')
  }

  lemma {:induction false} StripAppend(r: string, b: string)
    ensures var v := FontText.StripLeft(r); FontText.StripLeft(r + b) == if v == "" then FontText.StripLeft(b)
            else v + b
  {
    if r == [] {
      assert r + b == b;
    } else if FontText.IsSpace(r[0]) {
      assert (r + b)[1..] == r[1..] + b;
      StripAppend(r[1..], b);
    }
  }

  lemma {:induction false} DigitsAppend(v: string, b: string)
    requires b != [] && !IsDigit(b[0])
    ensures TakeDigits(v + b) == TakeDigits(v)
  {
    if v == [] {
      assert v + b == b;
    } else if IsDigit(v[0]) {
      assert (v + b)[1..] == v[1..] + b;
      DigitsAppend(v[1..], b);
    }
  }

  /** A keyword does not reach beyond the name. */
  lemma StartsAppend(t: string, b: string, key: string)
    requires Keyword(key) && b != [] && !Capital(b[0])
    ensures Starts(t + b, key) <==> Starts(t, key)
    ensures Starts(t, key) ==> (t + b)[|key|..] == t[|key|..] + b
  {
    if |t| < |key| <= |t + b| {
      assert (t + b)[..|key|][|t|] == b[0];
    }
    if |t| >= |key| {
      assert (t + b)[..|key|] == t[..|key|];
    }
  }

  lemma FieldAppend(t: string, b: string, key: string)
    requires Keyword(key) && Guard(b)
    ensures FieldHere(t + b, key) == FieldHere(t, key)
  {
    StartsAppend(t, b, key);
    if Starts(t, key) {
      var r := t[|key|..];
      StripAppend(r, b);
      DigitsAppend(FontText.StripLeft(r), b);
      DigitsAppend("", b);
    }
  }

  lemma NoNameInName(t: string, b: string)
    requires Guard(b) && b[0] == ' ' && FontText.StripLeft(b)[0] == 'f' && '"' !in t
    ensures NameHere(t + b) == None
  {
    StartsAppend(t, b, "FONTNAME");
    if Starts(t, "FONTNAME") {
      var r := t[8..];
      StripAppend(r, b);
      StripPart(r);
    }
  }

  lemma {:induction false} StripPart(r: string)
    ensures var v := FontText.StripLeft(r); |v| <= |r| && v == r[|r| - |v|..]
  {
    if r != [] && FontText.IsSpace(r[0]) {
      StripPart(r[1..]);
    }
  }

  lemma NoDataInName(t: string, b: string)
    requires Guard(b) && OpenHere(t) == None
    ensures DataHere(t + b) == None
  {
    StartsAppend(t, b, "FONTDATA");
    if Starts(t, "FONTDATA") {
      var r := t[8..];
      StripAppend(r, b);
      var v := FontText.StripLeft(r);
      if v != "" && v[0] == '=' {
        assert (v + b)[1..] == v[1..] + b;
        StripAppend(v[1..], b);
      }
    }
  }

  /** Searching a name and what follows it, when the pattern sees no further than the name. */
  lemma {:induction false} SearchThrough<T>(a: string, b: string, here: string -> Option<T>)
    requires here("") == None && forall i :: 0 <= i < |a| ==> here(a[i..] + b) == here(a[i..])
    ensures Search(a + b, here) == if Search(a, here).Some? then Search(a, here) else Search(b, here)
  {
    if a == [] {
      assert a + b == b;
    } else {
      assert a[0..] == a && (a + b)[1..] == a[1..] + b;
      forall i | 0 <= i < |a[1..]| ensures here(a[1..][i..] + b) == here(a[1..][i..]) {
        assert a[1..][i..] == a[i + 1..];
      }
      SearchThrough(a[1..], b, here);
    }
  }

  lemma FieldThrough(a: string, b: string, key: string)
    requires Keyword(key) && Guard(b)
    ensures Search(a + b, Field(key))
            == if Search(a, Field(key)).Some? then Search(a, Field(key)) else Search(b, Field(key))
  {
    forall i | 0 <= i < |a| ensures Field(key)(a[i..] + b) == Field(key)(a[i..]) {
      FieldAppend(a[i..], b, key);
    }
    SearchThrough(a, b, Field(key));
  }

  lemma {:induction false} NoneAnywhere<T>(a: string, here: string -> Option<T>, i: nat)
    requires Search(a, here) == None && i <= |a|
    ensures here(a[i..]) == None
  {
    if i == 0 {
      assert a[0..] == a;
    } else {
      NoneAnywhere(a[1..], here, i - 1);
      assert a[1..][i - 1..] == a[i..];
    }
  }

  lemma NameThrough(a: string, b: string)
    requires Guard(b) && b[0] == ' ' && FontText.StripLeft(b)[0] == 'f' && '"' !in a
    ensures Search(a + b, NameHere) == Search(b, NameHere)
  {
    forall i | 0 <= i < |a| ensures NameHere(a[i..] + b) == None {
      NoNameInName(a[i..], b);
    }
    SearchOn(a, b, NameHere);
  }

  lemma DataThrough(a: string, b: string)
    requires Guard(b) && Search(a, OpenHere) == None
    ensures Search(a + b, DataHere) == Search(b, DataHere)
  {
    forall i | 0 <= i < |a| ensures DataHere(a[i..] + b) == None {
      NoneAnywhere(a, OpenHere, i);
      NoDataInName(a[i..], b);
    }
    SearchOn(a, b, DataHere);
  }

  // ----- The directive lines

  predicate AllDigits(s: string) {
    forall k :: 0 <= k < |s| ==> IsDigit(s[k])
  }

  /** A decimal number printed and read. */
  lemma {:induction false} DecimalBack(n: nat)
    ensures AllDigits(Rev(RevDigits(n, 10))) && Number(Rev(RevDigits(n, 10))) == n
  {
    hide DigitChar, Rev, RevDigits, Number, DigitOf;
    if n == 0 {
      NoDigits(10);
      NoNumber();
    } else {
      DecimalBack(n / 10);
      DigitCharMeans(n % 10);
      RevNext(n, 10);
      NumberOn(Rev(RevDigits(n / 10, 10)), DigitChar(n % 10));
      DigitIs(n % 10);
    }
  }

  lemma NoNumber()
    ensures Number("") == 0
  {
  }

  lemma DigitIs(d: nat)
    requires d < 10
    ensures IsDigit(DigitChar(d)) && DigitOf(DigitChar(d)) == d
  {
  }

  lemma NumberOn(s: string, c: char)
    requires IsDigit(c) && AllDigits(s)
    ensures AllDigits(s + [c]) && Number(s + [c]) == 10 * Number(s) + DigitOf(c)
  {
    hide DigitOf;
    assert (s + [c])[..|s|] == s;
  }

  lemma DigitsBack(n: nat)
    ensures Digits(n, 10) != "" && AllDigits(Digits(n, 10)) && Number(Digits(n, 10)) == n
  {
    hide RevDigits, Rev, Number;
    DigitsMean(n, 10);
    if n == 0 {
      NumberOn("", '0');
      NoNumber();
      assert "" + ['0'] == "0";
    } else {
      DecimalBack(n);
    }
  }

  lemma {:induction false} TakeAll(d: string, b: string)
    requires AllDigits(d) && b != [] && !IsDigit(b[0])
    ensures TakeDigits(d + b) == d
  {
    if d == [] {
      assert d + b == b;
    } else {
      assert (d + b)[1..] == d[1..] + b;
      TakeAll(d[1..], b);
      assert [d[0]] + d[1..] == d;
    }
  }

  lemma OneSpace(x: string)
    requires x != "" && !FontText.IsSpace(x[0])
    ensures FontText.StripLeft(" " + x) == x != " " + x
  {
    assert (" " + x)[1..] == x && FontText.StripLeft(x) == x;
    assert |" " + x| != |x|;
  }

  /** A directive line gives its number. */
  lemma LineHit(key: string, n: nat, b: string)
    ensures Search(Line(key, n) + b, Field(key)) == Some(n)
  {
    hide Digits, TakeDigits, Number;
    var d := Digits(n, 10);
    DigitsBack(n);
    var after := "\n" + b;
    var t := Line(key, n) + b;
    assert t == key + (" " + (d + after));
    assert t[..|key|] == key && t[|key|..] == " " + (d + after);
    TakeAll(d, after);
    var u := " " + (d + after);
    OneSpace(d + after);
    assert FieldHere(t, key) == Some(n);
  }

  /** The five keywords of the numbers. */
  predicate NumberKey(key: string) {
    key == "CHARW" || key == "CHARH" || key == "FIRST" || key == "LAST" || key == "BPP"
  }

  /** These and the keyword of the data. */
  predicate AnyKey(key: string) {
    NumberKey(key) || key == "FONTDATA"
  }

  lemma KeysAre(key: string)
    requires AnyKey(key)
    ensures Keyword(key) && key != "FONTNAME" && |key| >= 3
    ensures forall k :: 1 <= k < |key| && key != "FONTDATA" ==> key[k] !in "CFLB"
  {
  }

  /** A line is passed over in search of another keyword. */
  lemma LineSkips(key: string, n: nat, other: string)
    requires NumberKey(key) && AnyKey(other) && key != other
    ensures Skips(Line(key, n), other)
  {
    hide Digits;
    DigitsBack(n);
    KeysAre(key);
    KeysAre(other);
    var a := Line(key, n);
    assert other[0] in "CFLB";
    forall i: nat | i < |a| ensures DiffersAt(a, other, i) {
      if i == 0 {
        HeadDiffers(key, other, a);
      } else {
        assert a[i] !in "CFLB";
        assert a[i + 0] != other[0];
      }
    }
  }

  lemma HeadDiffers(key: string, other: string, a: string)
    requires AnyKey(key) && AnyKey(other) && key != other
    requires |a| > |key| && a[..|key|] == key && a[|key|] == ' '
    ensures DiffersAt(a, other, 0)
  {
    var j := if key[0] != other[0] then 0 else if key[1] != other[1] then 1 else 4;
    assert key[j] != other[j];
    assert a[..|key|][j] == key[j];
    assert a[0 + j] != other[j];
  }

  /** The five lines, searched for one of their keywords. */
  lemma LinesHit(h: Header, key: string, b: string)
    requires NumberKey(key)
    ensures Search(Lines(h) + b, Field(key)) == Some(ValueOf(h, key))
  {
    hide Line, Search, Field;
    var l1, l2, l3, l4, l5 := Line("CHARW", h.charW), Line("CHARH", h.charH), Line("FIRST", h.first),
        Line("LAST", h.last),
        Line("BPP", h.bpp);
    assert Lines(h) + b == l1 + (l2 + (l3 + (l4 + (l5 + b))));
    if key == "CHARW" {
      LineHit(key, h.charW, l2 + (l3 + (l4 + (l5 + b))));
    } else {
      PassLine("CHARW", h.charW, key, l2 + (l3 + (l4 + (l5 + b))));
      if key == "CHARH" {
        LineHit(key, h.charH, l3 + (l4 + (l5 + b)));
      } else {
        PassLine("CHARH", h.charH, key, l3 + (l4 + (l5 + b)));
        if key == "FIRST" {
          LineHit(key, h.first, l4 + (l5 + b));
        } else {
          PassLine("FIRST", h.first, key, l4 + (l5 + b));
          if key == "LAST" {
            LineHit(key, h.last, l5 + b);
          } else {
            PassLine("LAST", h.last, key, l5 + b);
            LineHit(key, h.bpp, b);
          }
        }
      }
    }
  }

  lemma PassLine(key: string, n: nat, other: string, b: string)
    requires NumberKey(key) && AnyKey(other) && key != other
    ensures Search(Line(key, n) + b, Field(other)) == Search(b, Field(other))
  {
    LineSkips(key, n, other);
    FieldSkips(Line(key, n), b, other);
  }

  function ValueOf(h: Header, key: string): nat
    requires NumberKey(key)
  {
    if key == "CHARW" then h.charW else if key == "CHARH" then h.charH else if key == "FIRST" then h.first
    else if key == "LAST" then h.last else h.bpp
  }

  // ----- The whole text

  lemma FixedParts()
    ensures Calm("# ") && Calm(" font definition\n") && Calm("\"\n") && Calm("\n")
  {
  }

  lemma MarkSkips(key: string)
    requires AnyKey(key)
    ensures Skips("\nFONTNAME \"", key)
  {
    KeysAre(key);
    var a := "\nFONTNAME \"";
    forall i: nat | i < |a| ensures DiffersAt(a, key, i) {
      if i == 1 {
        var j := if key == "FONTDATA" then 4 else if key == "FIRST" then 1 else 0;
        assert a[1 + j] != key[j];
      } else {
        assert a[i + 0] != key[0];
      }
    }
  }

  lemma Guards(h: Header, notes: string, data: string, rest: string)
    ensures var b := AfterFirst(h, notes, data, rest);
            Guard(b) && b[0] == ' ' && FontText.StripLeft(b)[0] == 'f'
    ensures Guard(AfterName(h, data, rest))
  {
    var b := AfterFirst(h, notes, data, rest);
    assert b[0] == ' ' && b[1] == 'f';
    assert b[1..][0] == 'f' && FontText.StripLeft(b[1..]) == b[1..];
    var c := AfterName(h, data, rest);
    assert c[0] == '"';
  }

  /** A number comes from its line unless the pattern already matches in the name. */
  lemma FieldBack(h: Header, notes: string, data: string, rest: string, key: string)
    requires Calm(notes) && NumberKey(key)
    ensures Search(SourceText(h, notes, data, rest), Field(key))
            == Some(Or(Search(h.name, Field(key)), ValueOf(h, key)))
  {
    hide Search, Field, Calm, Guard, Skips, Lines, AfterLines;
    KeysAre(key);
    FixedParts();
    Guards(h, notes, data, rest);
    CalmSkips("# ", key);
    CalmSkips(" font definition\n", key);
    CalmSkips(notes, key);
    CalmSkips("\"\n", key);
    MarkSkips(key);
    var named := h.name + AfterName(h, data, rest);
    var marked := "\nFONTNAME \"" + named;
    FieldSkips("# ", h.name + AfterFirst(h, notes, data, rest), key);
    FieldThrough(h.name, AfterFirst(h, notes, data, rest), key);
    FieldSkips(" font definition\n", notes + marked, key);
    FieldSkips(notes, marked, key);
    FieldSkips("\nFONTNAME \"", named, key);
    FieldThrough(h.name, AfterName(h, data, rest), key);
    FieldSkips("\"\n", Lines(h) + AfterLines(data, rest), key);
    LinesHit(h, key, AfterLines(data, rest));
  }

  lemma {:induction false} TakeToAll(a: string, c: char, b: string)
    requires c !in a
    ensures TakeTo(a + [c] + b, c) == a
  {
    if a == [] {
      assert a + [c] + b == [c] + b;
    } else {
      assert (a + [c] + b)[1..] == a[1..] + [c] + b;
      TakeToAll(a[1..], c, b);
      assert [a[0]] + a[1..] == a;
    }
  }

  lemma QuotedName(name: string, b: string, quoted: string)
    requires name != "" && '"' !in name && quoted == "\"" + (name + ("\"" + b))
    ensures quoted != [] && quoted[0] == '"' && |name| < |quoted| - 1 && TakeTo(quoted[1..], '"') == name
    ensures FontText.StripLeft(" " + quoted) == quoted && " " + quoted != quoted
  {
    OneSpace(quoted);
    assert quoted[1..] == name + ['"'] + b;
    TakeToAll(name, '"', b);
  }

  lemma NameHit(name: string, b: string)
    requires name != "" && '"' !in name
    ensures Search("FONTNAME \"" + (name + ("\"" + b)), NameHere) == Some(name)
  {
    hide FontText.StripLeft, TakeTo;
    var t := "FONTNAME \"" + (name + ("\"" + b));
    var quoted := "\"" + (name + ("\"" + b));
    QuotedName(name, b, quoted);
    assert t == "FONTNAME" + (" " + quoted);
    assert t[..8] == "FONTNAME" && t[8..] == " " + quoted;
  }

  lemma KeywordsAre()
    ensures Keyword("FONTNAME") && Keyword("FONTDATA")
  {
  }

  /** The name comes back when the pattern can spell it. */
  lemma NameBack(h: Header, notes: string, data: string, rest: string)
    requires Calm(notes) && h.name != "" && '"' !in h.name
    ensures Search(SourceText(h, notes, data, rest), NameHere) == Some(h.name)
  {
    hide Search, NameHere, Calm, Guard, Skips, Lines, AfterLines;
    KeywordsAre();
    FixedParts();
    Guards(h, notes, data, rest);
    CalmSkips("# ", "FONTNAME");
    CalmSkips(" font definition\n", "FONTNAME");
    CalmSkips(notes, "FONTNAME");
    CalmSkips("\n", "FONTNAME");
    var tail := "\n" + (Lines(h) + AfterLines(data, rest));
    assert AfterName(h, data, rest) == "\"" + tail;
    var marked := "FONTNAME \"" + (h.name + AfterName(h, data, rest));
    assert "\nFONTNAME \"" + (h.name + AfterName(h, data, rest)) == "\n" + marked;
    NameSkips("# ", h.name + AfterFirst(h, notes, data, rest));
    NameThrough(h.name, AfterFirst(h, notes, data, rest));
    NameSkips(" font definition\n", notes + ("\n" + marked));
    NameSkips(notes, "\n" + marked);
    NameSkips("\n", marked);
    NameHit(h.name, tail);
  }

  /** What the pattern gives for a name is never empty and holds no quotation mark. */
  lemma {:induction false} NamesFound(t: string)
    ensures var r := Search(t, NameHere);
            r.Some? ==> r.value != "" && '"' !in r.value && ('\r' !in t ==> '\r' !in r.value)
  {
    if NameHere(t).Some? {
      if '\r' !in t {
        NameInText(t);
      }
    } else if t != [] {
      NamesFound(t[1..]);
    }
  }

  lemma NameInText(t: string)
    requires NameHere(t).Some? && '\r' !in t
    ensures '\r' !in NameHere(t).value
  {
    var u := t[8..];
    StripPart(u);
    var v := FontText.StripLeft(u);
    assert forall c :: c in v ==> c in t;
    assert forall c :: c in v[1..] ==> c in t;
  }

  /** Names that the patterns read as they stand: not empty, without quotation mark, and with nothing in them that
      the search for a number would take for another number. */
  ghost predicate NameSafe(h: Header) {
    && h.name != "" && '"' !in h.name
    && forall key :: NumberKey(key) ==>
         Search(h.name, Field(key)) in {None, Some(ValueOf(h, key))}
  }

  lemma {:induction false} SearchNone<T>(a: string, here: string -> Option<T>)
    requires forall i :: 0 <= i <= |a| ==> here(a[i..]) == None
    ensures Search(a, here) == None
  {
    assert a[0..] == a;
    if a != [] {
      forall i | 0 <= i <= |a[1..]| ensures here(a[1..][i..]) == None {
        assert a[1..][i..] == a[i + 1..];
      }
      SearchNone(a[1..], here);
    }
  }

  /** A name in which no two capitals stand together is safe, and no data section begins in it. */
  lemma QuietNameSafe(h: Header)
    requires h.name != "" && '"' !in h.name
    requires forall i :: 0 <= i < |h.name| - 1 ==> !(Capital(h.name[i]) && Capital(h.name[i + 1]))
    ensures NameSafe(h) && Search(h.name, OpenHere) == None
  {
    hide Search;
    forall key | NumberKey(key) ensures Search(h.name, Field(key)) == None {
      KeysAre(key);
      forall i | 0 <= i <= |h.name| ensures Field(key)(h.name[i..]) == None {
        QuietPlace(h.name, key, i);
      }
      SearchNone(h.name, Field(key));
    }
    KeywordsAre();
    forall i | 0 <= i <= |h.name| ensures OpenHere(h.name[i..]) == None {
      QuietPlace(h.name, "FONTDATA", i);
    }
    SearchNone(h.name, OpenHere);
  }

  lemma QuietPlace(a: string, key: string, i: nat)
    requires Keyword(key) && i <= |a|
    requires forall k :: 0 <= k < |a| - 1 ==> !(Capital(a[k]) && Capital(a[k + 1]))
    ensures !Starts(a[i..], key)
  {
    var t := a[i..];
    if |key| <= |t| {
      assert t[..|key|][0] == a[i] && t[..|key|][1] == a[i + 1];
    }
  }

  /** The directives come back exactly for such names. */
  lemma DirectivesBack(h: Header, notes: string, data: string, rest: string)
    requires Calm(notes)
    ensures Directives(SourceText(h, notes, data, rest)) == h <==> NameSafe(h)
  {
    hide Search, NameHere, Field, Calm, SourceText;
    var t := SourceText(h, notes, data, rest);
    if h.name != "" && '"' !in h.name {
      NameBack(h, notes, data, rest);
    } else {
      NamesFound(t);
    }
    FieldBack(h, notes, data, rest, "CHARW");
    FieldBack(h, notes, data, rest, "CHARH");
    FieldBack(h, notes, data, rest, "FIRST");
    FieldBack(h, notes, data, rest, "LAST");
    FieldBack(h, notes, data, rest, "BPP");
  }

  lemma LinesPass(h: Header, b: string)
    ensures Search(Lines(h) + b, DataHere) == Search(b, DataHere)
  {
    hide Line, Search, DataHere, Skips;
    var l1, l2, l3, l4, l5 := Line("CHARW", h.charW), Line("CHARH", h.charH), Line("FIRST", h.first),
        Line("LAST", h.last),
        Line("BPP", h.bpp);
    assert Lines(h) + b == l1 + (l2 + (l3 + (l4 + (l5 + b))));
    LineSkips("CHARW", h.charW, "FONTDATA");
    LineSkips("CHARH", h.charH, "FONTDATA");
    LineSkips("FIRST", h.first, "FONTDATA");
    LineSkips("LAST", h.last, "FONTDATA");
    LineSkips("BPP", h.bpp, "FONTDATA");
    DataSkips(l1, l2 + (l3 + (l4 + (l5 + b))));
    DataSkips(l2, l3 + (l4 + (l5 + b)));
    DataSkips(l3, l4 + (l5 + b));
    DataSkips(l4, l5 + b);
    DataSkips(l5, b);
  }

  lemma Plain()
    ensures !FontText.IsSpace('=') && !FontText.IsSpace('[')
  {
  }

  lemma DataHit(data: string, rest: string)
    requires ']' !in data
    ensures Search("FONTDATA = [" + (data + ("]" + rest)), DataHere) == Some(data)
  {
    hide TakeTo, FontText.StripLeft, FontText.IsSpace;
    Plain();
    var t := "FONTDATA = [" + (data + ("]" + rest));
    var x := "[" + (data + ("]" + rest));
    assert t == "FONTDATA" + (" " + ("=" + (" " + x)));
    assert t[..8] == "FONTDATA" && t[8..] == " " + ("=" + (" " + x));
    OneSpace("=" + (" " + x));
    assert ("=" + (" " + x))[1..] == " " + x;
    OneSpace(x);
    assert x[1..] == data + [']'] + rest;
    TakeToAll(data, ']', rest);
  }

  /** The data section comes back when no data section begins in the name. */
  lemma DataBack(h: Header, notes: string, data: string, rest: string)
    requires Calm(notes) && Search(h.name, OpenHere) == None && ']' !in data
    ensures Search(SourceText(h, notes, data, rest), DataHere) == Some(data)
  {
    hide Search, DataHere, OpenHere, Calm, Guard, Skips, Lines;
    KeywordsAre();
    FixedParts();
    Guards(h, notes, data, rest);
    CalmSkips("# ", "FONTDATA");
    CalmSkips(" font definition\n", "FONTDATA");
    CalmSkips(notes, "FONTDATA");
    CalmSkips("\"\n", "FONTDATA");
    CalmSkips("\n", "FONTDATA");
    MarkSkips("FONTDATA");
    var named := h.name + AfterName(h, data, rest);
    var marked := "\nFONTNAME \"" + named;
    DataSkips("# ", h.name + AfterFirst(h, notes, data, rest));
    DataThrough(h.name, AfterFirst(h, notes, data, rest));
    DataSkips(" font definition\n", notes + marked);
    DataSkips(notes, marked);
    DataSkips("\nFONTNAME \"", named);
    DataThrough(h.name, AfterName(h, data, rest));
    DataSkips("\"\n", Lines(h) + AfterLines(data, rest));
    LinesPass(h, AfterLines(data, rest));
    var open := "FONTDATA = [" + (data + ("]" + rest));
    assert AfterLines(data, rest) == "\n" + open;
    DataSkips("\n", open);
    DataHit(data, rest);
  }

  // ----- A data section that begins in the name

  lemma OpenAppend(t: string, b: string)
    requires Guard(b) && OpenHere(t).Some?
    ensures OpenHere(t + b) == Some(OpenHere(t).value + b)
  {
    StartsAppend(t, b, "FONTDATA");
    var r := t[8..];
    StripAppend(r, b);
    var v := FontText.StripLeft(r);
    assert (v + b)[1..] == v[1..] + b;
    StripAppend(v[1..], b);
    var x := FontText.StripLeft(v[1..]);
    assert (x + b)[1..] == x[1..] + b;
  }

  /** The section then runs from there to the first bracket that closes one. */
  lemma {:induction false} DataFromName(a: string, b: string)
    requires Guard(b) && ']' in b && Search(a, OpenHere).Some?
    ensures Search(a + b, DataHere) == Some(TakeTo(Search(a, OpenHere).value + b, ']'))
  {
    hide OpenHere, Guard;
    if OpenHere(a).Some? {
      OpenAppend(a, b);
      var y := OpenHere(a).value + b;
      assert ']' in y && y[..|y|] == y;
    } else {
      NoOpen();
      NoDataInName(a, b);
      assert (a + b)[1..] == a[1..] + b;
      DataFromName(a[1..], b);
    }
  }

  lemma NoOpen()
    ensures OpenHere("") == None
  {
  }

  /** No data section begins in the name, or the one that does holds the very data. */
  predicate DataSafe(name: string, data: string) {
    match Search(name, OpenHere)
    case None => true
    case Some(y) => ']' in y && TakeTo(y, ']') == data
  }

  lemma {:induction false} TakeToAppend(y: string, c: char, b: string)
    ensures TakeTo(y + b, c) == if c in y then TakeTo(y, c) else y + TakeTo(b, c)
  {
    if y == [] {
      assert y + b == b;
    } else {
      assert (y + b)[1..] == y[1..] + b;
      if y[0] != c {
        TakeToAppend(y[1..], c, b);
        assert c in y <==> c in y[1..];
      }
    }
  }

  /** The data section comes back exactly for such names; `n` is in no printed data. */
  lemma DataExact(h: Header, notes: string, data: string, rest: string)
    requires Calm(notes) && ']' !in data && 'n' !in data
    ensures Search(SourceText(h, notes, data, rest), DataHere) == Some(data) <==> DataSafe(h.name, data)
  {
    hide Search, DataHere, OpenHere, Calm, Guard, Skips, AfterFirst, TakeTo;
    if Search(h.name, OpenHere).None? {
      DataBack(h, notes, data, rest);
    } else {
      var y, b := Search(h.name, OpenHere).value, AfterFirst(h, notes, data, rest);
      KeywordsAre();
      FixedParts();
      Guards(h, notes, data, rest);
      CalmSkips("# ", "FONTDATA");
      DataSkips("# ", h.name + b);
      Closes(h, notes, data, rest);
      DataFromName(h.name, b);
      TakeToAppend(y, ']', b);
    }
  }

  /** What follows the name closes a section, but only after the word it begins with. */
  lemma Closes(h: Header, notes: string, data: string, rest: string)
    ensures var b := AfterFirst(h, notes, data, rest); ']' in b && 'n' in TakeTo(b, ']')
  {
    hide Lines, TakeTo;
    var b := AfterFirst(h, notes, data, rest);
    var tail := notes + ("\nFONTNAME \"" + (h.name + AfterName(h, data, rest)));
    assert b == " font definition\n" + tail;
    TakeToAppend(" font definition\n", ']', tail);
    Later(']', data, "]" + rest);
    Later(']', "\nFONTDATA = [", data + ("]" + rest));
    Later(']', Lines(h), AfterLines(data, rest));
    Later(']', "\"\n", Lines(h) + AfterLines(data, rest));
    Later(']', h.name, AfterName(h, data, rest));
    Later(']', "\nFONTNAME \"", h.name + AfterName(h, data, rest));
    Later(']', notes, "\nFONTNAME \"" + (h.name + AfterName(h, data, rest)));
    Later(']', " font definition\n", tail);
    FirstWord(TakeTo(tail, ']'));
  }

  lemma Later(c: char, a: string, b: string)
    requires c in b
    ensures c in a + b
  {
  }

  lemma FirstWord(s: string)
    ensures ']' !in " font definition\n" && 'n' in " font definition\n" + s
  {
    assert (" font definition\n" + s)[3] == 'n';
  }

  /** A name that opens a section of its own replaces the data: "FONTDATA=[1]" leaves the item 1. */
  lemma DataMisread(h: Header, notes: string, data: string, rest: string)
    requires Calm(notes) && h.name == "FONTDATA=[1]"
    ensures Search(SourceText(h, notes, data, rest), DataHere) == Some("1")
  {
    hide Calm, Guard, Skips, AfterFirst;
    var b := AfterFirst(h, notes, data, rest);
    KeywordsAre();
    FixedParts();
    Guards(h, notes, data, rest);
    CalmSkips("# ", "FONTDATA");
    DataSkips("# ", h.name + b);
    Closes(h, notes, data, rest);
    OpenInName();
    DataFromName(h.name, b);
    assert "1]" + b == "1" + [']'] + b;
    TakeToAll("1", ']', b);
  }

  lemma OpenInName()
    ensures Search("FONTDATA=[1]", OpenHere) == Some("1]")
  {
    var t := "FONTDATA=[1]";
    assert t[8..] == "=[1]" && "=[1]"[1..] == "[1]" && "[1]"[1..] == "1]";
    assert FontText.StripLeft("=[1]") == "=[1]" && FontText.StripLeft("[1]") == "[1]";
  }

  // ----- The comments

  /** What the further comments report: the image and its cells, the sizes, the range with its characters, and the
      length of the data. */
  datatype Report = Report(wide: nat, high: nat, across: nat, down: nat, low: char, top: char, bytes: nat, perChar: nat)

  function TwoNumbers(a: string, m: nat, b: string, n: nat, c: string): string {
    a + Digits(m, 10) + b + Digits(n, 10) + c
  }

  function Notes(h: Header, r: Report): string {
    TwoNumbers("# Generated from bitmap: ", r.wide, "x", r.high, "\n")
    + TwoNumbers("# Layout: ", r.across, "x", r.down, " characters\n")
    + (TwoNumbers("# Format: ", h.charW, "x", h.charH, ", ") + Digits(h.bpp, 10) + "bpp\n")
    + TwoNumbers("# Character range: ", h.first, " ('" + [r.low] + "') to ", h.last, " ('" + [r.top] + "')\n")
    + TwoNumbers("# Total data: ", r.bytes, " bytes, ", r.perChar, " bytes per character\n")
  }

  /** Calm text put together from pieces that end without a capital. */
  lemma CalmJoin(a: string, b: string)
    requires Calm(a) && Calm(b)
    ensures Calm(a + b)
  {
    var t := a + b;
    forall i | 0 <= i < |t| - 1 ensures !(Capital(t[i]) && Capital(t[i + 1])) {
      if i + 1 < |a| {
        assert t[i] == a[i] && t[i + 1] == a[i + 1];
      } else if i + 1 == |a| {
        assert t[i] == a[|a| - 1];
      } else {
        assert t[i] == b[i - |a|] && t[i + 1] == b[i + 1 - |a|];
      }
    }
  }

  lemma DigitsCalm(n: nat)
    ensures Calm(Digits(n, 10))
  {
    hide Digits;
    DigitsBack(n);
  }

  /** Number, words, number, words. */
  lemma CalmLine(a: string, m: nat, b: string, n: nat, c: string)
    requires Calm(a) && Calm(b) && Calm(c)
    ensures Calm(TwoNumbers(a, m, b, n, c))
  {
    hide Digits, Calm;
    DigitsCalm(m);
    DigitsCalm(n);
    CalmJoin(a, Digits(m, 10));
    CalmJoin(a + Digits(m, 10), b);
    CalmJoin(a + Digits(m, 10) + b, Digits(n, 10));
    CalmJoin(a + Digits(m, 10) + b + Digits(n, 10), c);
  }

  lemma CalmWords()
    ensures Calm("# Generated from bitmap: ") && Calm("x") && Calm("\n") && Calm("# Layout: ") && Calm(" characters\n")
  {
  }

  lemma CalmSizes()
    ensures Calm("# Format: ") && Calm(", ") && Calm("bpp\n") && Calm("# Character range: ")
  {
  }

  lemma CalmQuotes(low: char, top: char)
    ensures Calm(" ('" + [low] + "') to ") && Calm(" ('" + [top] + "')\n")
  {
  }

  lemma CalmTotals()
    ensures Calm("# Total data: ") && Calm(" bytes, ") && Calm(" bytes per character\n")
  {
  }

  /** The converter's comments are calm, whatever the two characters they quote. */
  lemma NotesCalm(h: Header, r: Report)
    ensures Calm(Notes(h, r))
  {
    hide Calm, TwoNumbers, Digits;
    CalmWords();
    CalmSizes();
    CalmQuotes(r.low, r.top);
    CalmTotals();
    var l1, l2 := TwoNumbers("# Generated from bitmap: ", r.wide, "x", r.high, "\n"),
        TwoNumbers("# Layout: ", r.across, "x", r.down, " characters\n");
    var size := TwoNumbers("# Format: ", h.charW, "x", h.charH, ", ");
    var l3 := size + Digits(h.bpp, 10) + "bpp\n";
    var l4 := TwoNumbers("# Character range: ", h.first, " ('" + [r.low] + "') to ", h.last, " ('" + [r.top] + "')\n");
    var l5 := TwoNumbers("# Total data: ", r.bytes, " bytes, ", r.perChar, " bytes per character\n");
    CalmLine("# Generated from bitmap: ", r.wide, "x", r.high, "\n");
    CalmLine("# Layout: ", r.across, "x", r.down, " characters\n");
    CalmLine("# Format: ", h.charW, "x", h.charH, ", ");
    DigitsCalm(h.bpp);
    CalmJoin(size, Digits(h.bpp, 10));
    CalmJoin(size + Digits(h.bpp, 10), "bpp\n");
    CalmLine("# Character range: ", h.first, " ('" + [r.low] + "') to ", h.last, " ('" + [r.top] + "')\n");
    CalmLine("# Total data: ", r.bytes, " bytes, ", r.perChar, " bytes per character\n");
    CalmJoin(l1, l2);
    CalmJoin(l1 + l2, l3);
    CalmJoin(l1 + l2 + l3, l4);
    CalmJoin(l1 + l2 + l3 + l4, l5);
  }

  // ----- The file, read in text mode

  lemma {:induction false} UniversalClean(t: string)
    ensures '\r' !in Universal(t)
    decreases |t|
  {
    if t != [] {
      if t[0] != '\r' {
        UniversalClean(t[1..]);
      } else {
        UniversalClean(if |t| > 1 && t[1] == '\n' then t[2..] else t[1..]);
      }
    }
  }

  lemma {:induction false} UniversalSame(t: string)
    requires '\r' !in t
    ensures Universal(t) == t
  {
    if t != [] {
      UniversalSame(t[1..]);
      assert [t[0]] + t[1..] == t;
    }
  }

  /** How many characters the first line end or other character takes. */
  function Unit(t: string): (n: nat)
    requires t != ""
    ensures 1 <= n <= |t|
  {
    if t[0] == '\r' && |t| > 1 && t[1] == '\n' then 2 else 1
  }

  lemma UniversalUnit(t: string)
    requires t != ""
    ensures Universal(t) == [if t[0] == '\r' then '\n' else t[0]] + Universal(t[Unit(t)..])
  {
  }

  /** Line ends are translated piece by piece, unless one is cut in two. */
  lemma {:induction false} UniversalJoin(a: string, b: string)
    requires b == [] || b[0] != '\n'
    ensures Universal(a + b) == Universal(a) + Universal(b)
    decreases |a|
  {
    hide Universal;
    if a == [] {
      NothingRead();
      assert a + b == b && "" + Universal(b) == Universal(b);
    } else {
      var n := Unit(a);
      assert |a| == 1 && b != [] ==> (a + b)[1] == b[0];
      assert Unit(a + b) == n && (a + b)[n..] == a[n..] + b;
      UniversalUnit(a);
      UniversalUnit(a + b);
      UniversalJoin(a[n..], b);
      var c := [if a[0] == '\r' then '\n' else a[0]];
      assert c + (Universal(a[n..]) + Universal(b)) == (c + Universal(a[n..])) + Universal(b);
    }
  }

  lemma NothingRead()
    ensures Universal("") == ""
  {
  }

  lemma {:induction false} UniversalAfter(a: string, b: string)
    requires '\r' !in a
    ensures Universal(a + b) == a + Universal(b)
  {
    if a == [] {
      assert a + b == b;
    } else {
      assert (a + b)[1..] == a[1..] + b;
      UniversalAfter(a[1..], b);
      assert [a[0]] + (a[1..] + Universal(b)) == a + Universal(b);
    }
  }

  lemma DigitsPlain(n: nat)
    ensures '\r' !in Digits(n, 10)
  {
    hide Digits;
    DigitsBack(n);
  }

  lemma LinePlain(key: string, n: nat)
    requires NumberKey(key)
    ensures '\r' !in Line(key, n)
  {
    hide Digits;
    DigitsPlain(n);
  }

  lemma LinesPlain(h: Header)
    ensures '\r' !in Lines(h)
  {
    hide Line;
    LinePlain("CHARW", h.charW);
    LinePlain("CHARH", h.charH);
    LinePlain("FIRST", h.first);
    LinePlain("LAST", h.last);
    LinePlain("BPP", h.bpp);
  }

  lemma LinePairPlain(a: string, m: nat, b: string, n: nat, c: string)
    requires '\r' !in a && '\r' !in b && '\r' !in c
    ensures '\r' !in TwoNumbers(a, m, b, n, c)
  {
    hide Digits;
    DigitsPlain(m);
    DigitsPlain(n);
  }

  lemma SheetNotesPlain(h: Header, r: Report)
    ensures '\r' !in TwoNumbers("# Generated from bitmap: ", r.wide, "x", r.high, "\n")
    ensures '\r' !in TwoNumbers("# Layout: ", r.across, "x", r.down, " characters\n")
  {
    hide TwoNumbers;
    LinePairPlain("# Generated from bitmap: ", r.wide, "x", r.high, "\n");
    LinePairPlain("# Layout: ", r.across, "x", r.down, " characters\n");
  }

  lemma FormatNotePlain(h: Header)
    ensures '\r' !in TwoNumbers("# Format: ", h.charW, "x", h.charH, ", ") + Digits(h.bpp, 10) + "bpp\n"
  {
    hide TwoNumbers, Digits;
    LinePairPlain("# Format: ", h.charW, "x", h.charH, ", ");
    DigitsPlain(h.bpp);
  }

  lemma RangeNotePlain(h: Header, r: Report)
    requires r.low >= ' ' && r.top >= ' '
    ensures '\r' !in TwoNumbers("# Character range: ", h.first, " ('" + [r.low] + "') to ", h.last,
                       " ('" + [r.top] + "')\n")
  {
    hide TwoNumbers;
    LinePairPlain("# Character range: ", h.first, " ('" + [r.low] + "') to ", h.last, " ('" + [r.top] + "')\n");
  }

  lemma TotalNotePlain(r: Report)
    ensures '\r' !in TwoNumbers("# Total data: ", r.bytes, " bytes, ", r.perChar, " bytes per character\n")
  {
    hide TwoNumbers;
    LinePairPlain("# Total data: ", r.bytes, " bytes, ", r.perChar, " bytes per character\n");
  }

  /** The converter quotes no control character. */
  lemma NotesPlain(h: Header, r: Report)
    requires r.low >= ' ' && r.top >= ' '
    ensures '\r' !in Notes(h, r)
  {
    hide TwoNumbers, Digits;
    SheetNotesPlain(h, r);
    FormatNotePlain(h);
    RangeNotePlain(h, r);
    TotalNotePlain(r);
  }

  /** Only the name and the last comments can hold a carriage return, and no line end is cut in two. */
  lemma SourceRead(h: Header, notes: string, data: string, rest: string)
    requires '\r' !in notes && '\r' !in data
    ensures Universal(SourceText(h, notes, data, rest))
            == SourceText(h.(name := Universal(h.name)), notes, data, Universal(rest))
  {
    hide Universal, Lines;
    var h' := h.(name := Universal(h.name));
    LinesPlain(h);
    assert Lines(h') == Lines(h) by {
      SameLines(h, h');
    }
    UniversalAfter("]", rest);
    UniversalAfter(data, "]" + rest);
    UniversalAfter("\nFONTDATA = [", data + ("]" + rest));
    UniversalAfter(Lines(h), AfterLines(data, rest));
    UniversalAfter("\"\n", Lines(h) + AfterLines(data, rest));
    UniversalJoin(h.name, AfterName(h, data, rest));
    UniversalAfter("\nFONTNAME \"", h.name + AfterName(h, data, rest));
    UniversalAfter(notes, "\nFONTNAME \"" + (h.name + AfterName(h, data, rest)));
    UniversalAfter(" font definition\n", notes + ("\nFONTNAME \"" + (h.name + AfterName(h, data, rest))));
    UniversalJoin(h.name, AfterFirst(h, notes, data, rest));
    UniversalAfter("# ", h.name + AfterFirst(h, notes, data, rest));
  }

  lemma SameLines(h: Header, h': Header)
    requires h' == h.(name := h'.name)
    ensures Lines(h') == Lines(h)
  {
  }

  /** The text the compiler works on: the converter's, read in text mode. */
  function FileText(h: Header, r: Report, data: string, rest: string): string {
    Universal(SourceText(h, Notes(h, r), data, rest))
  }

  lemma FileTextIs(h: Header, r: Report, data: string, rest: string)
    requires r.low >= ' ' && r.top >= ' ' && '\r' !in data
    ensures var h' := h.(name := Universal(h.name));
            FileText(h, r, data, rest) == SourceText(h', Notes(h', r), data, Universal(rest))
  {
    hide SourceText, Universal, Digits;
    NotesPlain(h, r);
    SourceRead(h, Notes(h, r), data, rest);
  }

  /** Characters of 7 bits: beyond them the patterns also take other digits and other white space. */
  predicate SevenBit(name: string) {
    forall k :: 0 <= k < |name| ==> name[k] < 128 as char
  }

  /** The file the converter prints, read by the compiler.  The header comes back exactly for names without
      carriage return that the patterns read as they stand; the data section exactly when none begins in the name, or
      the same. */
  lemma SourceBack(h: Header, r: Report, data: string, rest: string)
    requires SevenBit(h.name) && r.low >= ' ' && r.top >= ' '
    requires ']' !in data && '\r' !in data && 'n' !in data
    ensures Directives(FileText(h, r, data, rest)) == h <==> '\r' !in h.name && NameSafe(h)
    ensures Search(FileText(h, r, data, rest), DataHere) == Some(data) <==> DataSafe(Universal(h.name), data)
  {
    hide Search, SourceText, NameSafe, Notes, Calm, Universal, NameHere, Field, FileText;
    var h' := h.(name := Universal(h.name));
    var t := FileText(h, r, data, rest);
    FileTextIs(h, r, data, rest);
    NotesCalm(h', r);
    DirectivesBack(h', Notes(h', r), data, Universal(rest));
    DataExact(h', Notes(h', r), data, Universal(rest));
    if '\r' in h.name {
      FileClean(h, r, data, rest);
      NamesFound(t);
    } else {
      UniversalSame(h.name);
    }
  }

  lemma FileClean(h: Header, r: Report, data: string, rest: string)
    ensures '\r' !in FileText(h, r, data, rest)
  {
    UniversalClean(SourceText(h, Notes(h, r), data, rest));
  }

  /** A font called "BPP 2" of depth 1 is compiled at depth 2: its own name is taken for the directive. */
  lemma NameMisread(h: Header, r: Report, data: string, rest: string)
    requires h.name == "BPP 2" && h.bpp == 1 && r.low >= ' ' && r.top >= ' ' && '\r' !in data
    ensures Directives(FileText(h, r, data, rest)).bpp == 2
  {
    DepthMisread(h, r, data, rest, ' ');
  }

  /** So it is with any other white space, the unit separator among it. */
  lemma DepthMisread(h: Header, r: Report, data: string, rest: string, space: char)
    requires h.name == "BPP" + [space] + "2" && FontText.IsSpace(space) && space != '\r'
    requires r.low >= ' ' && r.top >= ' ' && '\r' !in data
    ensures Directives(FileText(h, r, data, rest)).bpp == 2
  {
    hide Notes, Calm, SourceText, Digits, Universal, FileText;
    UniversalSame(h.name);
    FileTextIs(h, r, data, rest);
    NotesCalm(h, r);
    FieldBack(h, Notes(h, r), data, Universal(rest), "BPP");
    TwoInName(space);
  }

  lemma TwoInName(space: char)
    requires FontText.IsSpace(space)
    ensures Search("BPP" + [space] + "2", Field("BPP")) == Some(2)
  {
    hide TakeDigits, Number, FontText.IsSpace, FontText.StripLeft;
    NoNumber();
    NumberOn("", '2');
    TakeAll("2", " ");
    DigitsAppend("2", " ");
    var t := "BPP" + [space] + "2";
    assert t[..3] == "BPP" && t[3..] == [space] + "2";
    TwoLeft(space);
    assert "" + ['2'] == "2";
    assert FieldHere(t, "BPP") == Some(2);
  }

  lemma TwoLeft(space: char)
    requires FontText.IsSpace(space)
    ensures FontText.StripLeft([space] + "2") == "2" != [space] + "2"
  {
    assert ([space] + "2")[1..] == "2" && FontText.StripLeft("2") == "2";
    assert |[space] + "2"| == 2;
  }

  /** A carriage return in a name comes back as a newline. */
  lemma ReturnMisread(h: Header, r: Report, data: string, rest: string)
    requires h.name == "a\rb" && r.low >= ' ' && r.top >= ' ' && '\r' !in data
    ensures Directives(FileText(h, r, data, rest)).name == "a\nb"
  {
    hide Notes, Calm, SourceText, FileText, Search, NameHere;
    var h' := h.(name := Universal(h.name));
    assert "a\rb"[1..] == "\rb" && "\rb"[1..] == "b" && "b"[1..] == "";
    assert Universal("b") == "b" && Universal("\rb") == "\nb" && h'.name == "a\nb";
    FileTextIs(h, r, data, rest);
    NotesCalm(h', r);
    NameBack(h', Notes(h', r), data, Universal(rest));
  }
}
