/** The font source text: bitmap bytes printed as hexadecimal items, sixteen to a line, and parsed back by
    splitting at commas. */
module FontText {
  import opened Bytes

  // ----- Items

  function HexDigit(n: nat): char
    requires n < 16
  {
    if n < 10 then ('0' as int + n) as char else ('A' as int + (n - 10)) as char
  }

  function DigitValue(c: char): Option<nat> {
    if '0' <= c <= '9' then Some(c as int - '0' as int)
    else if 'A' <= c <= 'F' then Some(c as int - 'A' as int + 10)
    else if 'a' <= c <= 'f' then Some(c as int - 'a' as int + 10)
    else None
  }

  /** A byte in two upper-case digits, with its prefix. */
  function Item(b: byte): (s: string)
    ensures |s| == 4
  {
    "0x" + [HexDigit(b / 16), HexDigit(b % 16)]
  }

  /** int(s, 16) of digits; None stands for the ValueError. */
  function HexNumber(s: string): (v: Option<nat>)
  {
    if s == [] then None
    else if |s| == 1 then DigitValue(s[0])
    else
      var high, low := HexNumber(s[..|s| - 1]), DigitValue(s[|s| - 1]);
      if high.Some? && low.Some? then Some(16 * high.value + low.value) else None
  }

  /** An item of the data section, prefixed or bare. */
  function ItemValue(s: string): Option<nat> {
    if |s| >= 2 && (s[..2] == "0x" || s[..2] == "0X") then HexNumber(s[2..]) else HexNumber(s)
  }

  lemma DigitBack(n: nat)
    requires n < 16
    ensures DigitValue(HexDigit(n)) == Some(n)
  {
  }

  lemma ItemBack(b: byte)
    ensures ItemValue(Item(b)) == Some(b)
  {
    DigitBack(b / 16);
    DigitBack(b % 16);
    var t := [HexDigit(b / 16), HexDigit(b % 16)];
    assert Item(b)[..2] == "0x" && Item(b)[2..] == t;
    assert t[..1] == [HexDigit(b / 16)];
    assert HexNumber(t[..1]) == Some(b / 16) && DigitValue(t[1]) == Some(b % 16);
  }

  // ----- White space and commas

  /** What Python's strip and its patterns take for white space, among the 7-bit characters. */
  predicate IsSpace(c: char) {
    c == ' ' || '\t' <= c <= '\r' || 0x1C <= c as int <= 0x1F
  }

  function StripLeft(s: string): string {
    if s != [] && IsSpace(s[0]) then StripLeft(s[1..]) else s
  }

  function StripRight(s: string): string {
    if s != [] && IsSpace(s[|s| - 1]) then StripRight(s[..|s| - 1]) else s
  }

  function Strip(s: string): string {
    StripRight(StripLeft(s))
  }

  /** The pieces between commas. */
  function Split(s: string): (p: seq<string>)
    ensures |p| > 0
  {
    if s == [] then [""]
    else if s[0] == ',' then [""] + Split(s[1..])
    else
      var rest := Split(s[1..]);
      [[s[0]] + rest[0]] + rest[1..]
  }

  lemma {:induction false} SplitAtComma(a: string, b: string)
    requires forall k :: 0 <= k < |a| ==> a[k] != ','
    ensures Split(a + "," + b) == [a] + Split(b)
  {
    var s := a + "," + b;
    if a == [] {
      assert s[1..] == b;
    } else {
      SplitAtComma(a[1..], b);
      assert s[1..] == a[1..] + "," + b;
      assert [s[0]] + a[1..] == a;
    }
  }

  lemma {:induction false} SplitWhole(a: string)
    requires forall k :: 0 <= k < |a| ==> a[k] != ','
    ensures Split(a) == [a]
  {
    if a != [] {
      SplitWhole(a[1..]);
      assert [a[0]] + a[1..] == a;
    }
  }

  lemma {:induction false} StripSpaces(ws: string, s: string, after: string)
    requires forall k :: 0 <= k < |ws| ==> IsSpace(ws[k])
    requires forall k :: 0 <= k < |after| ==> IsSpace(after[k])
    requires s != [] && !IsSpace(s[0]) && !IsSpace(s[|s| - 1])
    ensures Strip(ws + s + after) == s
    decreases |ws| + |after|
  {
    var t := ws + s + after;
    if ws != [] {
      StripSpaces(ws[1..], s, after);
      assert t[1..] == ws[1..] + s + after;
    } else if after != [] {
      StripSpaces([], s, after[..|after| - 1]);
      assert t == s + after && t[..|t| - 1] == [] + s + after[..|after| - 1];
    } else {
      assert t == s;
    }
  }

  // ----- The printed data

  const LINE := 16
  const INDENT := "    "

  /** What separates an item from the one before it. */
  function Separator(k: nat): string {
    if k % LINE == 0 then ",\n" + INDENT else ","
  }

  /** The items from k on, separated. */
  function Items(data: seq<byte>, k: nat): (s: string)
    requires k < |data|
    ensures |s| >= 4 && s[0] == '0' && !IsSpace(s[|s| - 1])
    decreases |data| - k
  {
    HexDigits(data[k]);
    if k + 1 == |data| then Item(data[k]) else Item(data[k]) + Separator(k + 1) + Items(data, k + 1)
  }

  lemma PlainDigit(c: char)
    ensures DigitValue(c).Some? ==> c != ',' && !IsSpace(c)
  {
  }

  lemma HexDigits(b: byte)
    ensures var s := Item(b); s[0] == '0' && forall k :: 0 <= k < 4 ==> s[k] != ',' && !IsSpace(s[k])
  {
    hide HexDigit;
    DigitBack(b / 16);
    DigitBack(b % 16);
    PlainDigit(HexDigit(b / 16));
    PlainDigit(HexDigit(b % 16));
    PlainDigit('0');
  }

  /** Everything between the brackets of FONTDATA. */
  function Body(data: seq<byte>): string {
    "\n" + if data == [] then "" else INDENT + Items(data, 0) + "\n"
  }

  /** The body holds no closing bracket, so the section ends where it was closed, no carriage return and no letter n. */
  lemma NoBracket(data: seq<byte>)
    ensures ']' !in Body(data) && '\r' !in Body(data) && 'n' !in Body(data)
  {
    hide Items;
    if data != [] {
      NoBracketInItems(data, 0);
    }
  }

  lemma {:induction false} NoBracketInItems(data: seq<byte>, k: nat)
    requires k < |data|
    ensures var s := Items(data, k); ']' !in s && '\r' !in s && 'n' !in s
    decreases |data| - k
  {
    hide Item, Separator;
    ItemPlain(data[k]);
    if k + 1 < |data| {
      SeparatorPlain(k + 1);
      NoBracketInItems(data, k + 1);
    }
  }

  lemma ItemPlain(b: byte)
    ensures var s := Item(b); ']' !in s && '\r' !in s && 'n' !in s
  {
    hide HexDigit;
    DigitBack(b / 16);
    DigitBack(b % 16);
  }

  lemma SeparatorPlain(k: nat)
    ensures var s := Separator(k); ']' !in s && '\r' !in s && 'n' !in s
  {
  }

  /** ",".join of the items j to end. */
  function Joined(data: seq<byte>, j: nat, end: nat): string
    requires j < end <= |data|
    decreases end - j
  {
    if j + 1 == end then Item(data[j]) else Item(data[j]) + "," + Joined(data, j + 1, end)
  }

  lemma NextItems(data: seq<byte>, k: nat)
    requires k < |data|
    ensures k + 1 < |data| ==> Items(data, k) == Item(data[k]) + (Separator(k + 1) + Items(data, k + 1))
    ensures k + 1 == |data| ==> Items(data, k) == Item(data[k]) + ""
  {
    hide Item, Separator;
    var rest := if k + 1 < |data| then Items(data, k + 1) else "";
    Regroup(Item(data[k]), Separator(k + 1), rest);
  }

  lemma Regroup(a: string, b: string, c: string)
    ensures a + b + c == a + (b + c) && a + "" == a
  {
  }

  lemma Associates(a: string, b: string, c: string, d: string)
    ensures a + (b + (c + d)) == (a + b + c) + d
    ensures a + ((b + c) + d) == a + (b + c + d)
    ensures (a + b) + (c + d) == a + ((b + c) + d)
  {
  }

  /** A line's items, and what follows the line. */
  lemma {:induction false} LineOfItems(data: seq<byte>, j: nat, end: nat)
    requires j < end <= |data| && (end == |data| || end % LINE == 0)
    requires forall m :: j < m < end ==> m % LINE != 0
    ensures Items(data, j) == Joined(data, j, end) + if end < |data| then ",\n" + INDENT + Items(data, end) else ""
    decreases end - j
  {
    hide Item, Items;
    var after := if end < |data| then ",\n" + INDENT + Items(data, end) else "";
    NextItems(data, j);
    if j + 1 < end {
      LineOfItems(data, j + 1, end);
      Associates(Item(data[j]), ",", Joined(data, j + 1, end), after);
    } else if end < |data| {
      Associates(Item(data[j]), ",\n", INDENT, Items(data, end));
    }
  }

  /** Two bytes as they are printed. */
  lemma TwoBytes()
    ensures Body([0xAB, 7]) == "\n    0xAB,0x07\n"
  {
    var data: seq<byte> := [0xAB, 7];
    assert HexDigit(10) == 'A' && HexDigit(11) == 'B' && HexDigit(0) == '0' && HexDigit(7) == '7';
    assert Item(0xAB) == "0xAB" && Item(7) == "0x07";
    assert Items(data, 1) == "0x07" && Separator(1) == ",";
    assert Items(data, 0) == "0xAB,0x07";
  }

  method JoinLine(data: seq<byte>, i: nat, end: nat) returns (line: string)
    requires i < end <= |data|
    ensures line == Joined(data, i, end)
  {
    hide Item;
    line := Item(data[i]);
    var j := i + 1;
    while j < end
      invariant i < j <= end
      invariant Joined(data, i, end) == if j < end then line + "," + Joined(data, j, end) else line
    {
      ghost var before := line;
      line := line + "," + Item(data[j]);
      if j + 1 < end {
        assert before + "," + (Item(data[j]) + "," + Joined(data, j + 1, end)) == line + "," + Joined(data, j + 1, end);
      }
      j := j + 1;
    }
  }

  /** What is printed before line i, and what the rest of the body is. */
  ghost predicate PrintedTo(text: string, data: seq<byte>, i: nat) {
    Body(data) == if i < |data| then text + (INDENT + Items(data, i) + "\n") else text
  }

  lemma PrintedStart(data: seq<byte>)
    ensures PrintedTo("\n", data, 0)
  {
    hide Items;
    assert data == [] ==> "\n" + "" == "\n";
  }

  lemma PrintedNext(text: string, data: seq<byte>, i: nat, end: nat, line: string)
    requires PrintedTo(text, data, i) && i < end <= |data| && i % LINE == 0 && end == if i + LINE < |data| then i + LINE
             else |data|
    requires line == INDENT + Joined(data, i, end) + if end < |data| then "," else ""
    ensures PrintedTo(text + line + "\n", data, end)
  {
    hide Items, Joined, Body;
    LineOfItems(data, i, end);
    if end < |data| {
      PrintedLine(text, Joined(data, i, end), Items(data, end), true);
    } else {
      PrintedLine(text, Joined(data, i, end), "", false);
      Regroup(INDENT + Joined(data, i, end), "", "");
    }
  }

  /** The loop that prints the data: a line for every sixteen values, a comma after every line but the last. */
  method PrintData(data: seq<byte>) returns (text: string)
    ensures text == Body(data)
  {
    hide Items, Joined, PrintedTo;
    text := "\n";
    PrintedStart(data);
    var i := 0;
    while i < |data|
      invariant i % LINE == 0 && PrintedTo(text, data, if i < |data| then i else |data|)
    {
      var end := if i + LINE < |data| then i + LINE else |data|;
      var joined := JoinLine(data, i, end);
      var line := INDENT + joined + if i + LINE < |data| then "," else "";
      PrintedNext(text, data, i, end, line);
      text := text + line + "\n";
      i := i + LINE;
    }
    PrintedAll(text, data);
  }

  lemma PrintedAll(text: string, data: seq<byte>)
    requires PrintedTo(text, data, |data|)
    ensures text == Body(data)
  {
  }

  lemma PrintedLine(text: string, line: string, rest: string, more: bool)
    ensures more ==>
              text + (INDENT + (line + (",\n" + INDENT + rest)) + "\n")
              == text + (INDENT + line + ",") + "\n" + (INDENT + rest + "\n")
    ensures !more ==> text + (INDENT + (line + "") + "\n") == text + (INDENT + line) + "\n"
  {
  }

  // ----- Parsing the data

  /** The values of the items, in order; empty items and those that are no numbers are passed over. */
  function Values(items: seq<string>): seq<nat> {
    if items == [] then []
    else
      var item := Strip(items[0]);
      (if item != "" && ItemValue(item).Some? then [ItemValue(item).value] else []) + Values(items[1..])
  }

  /** compile_font's loop over the data section, which its pattern has stripped of white space at both ends. */
  method ParseData(body: string) returns (bitmap: seq<nat>)
    ensures bitmap == Values(Split(Strip(body)))
  {
    var items := Split(Strip(body));
    bitmap := [];
    for i := 0 to |items|
      invariant bitmap + Values(items[i..]) == Values(items)
    {
      var item := Strip(items[i]);
      assert items[i..][1..] == items[i + 1..];
      if item != "" {
        var v := ItemValue(item);
        if v.Some? {
          bitmap := bitmap + [v.value];
        }
      }
    }
  }

  lemma NoValues()
    ensures Values([]) == []
  {
  }

  lemma ItemInPiece(ws: string, b: byte, rest: seq<string>)
    requires ws == "" || ws == "\n" + INDENT
    ensures Values([ws + Item(b)] + rest) == [b as nat] + Values(rest)
  {
    HexDigits(b);
    ItemBack(b);
    StripSpaces(ws, Item(b), "");
    assert ws + Item(b) + "" == ws + Item(b);
    assert ([ws + Item(b)] + rest)[1..] == rest;
  }

  lemma SeparatorIs(k: nat, ws: string, rest: string)
    requires ws == if k % LINE == 0 then "\n" + INDENT else ""
    ensures Separator(k) + rest == "," + (ws + rest)
  {
  }

  lemma PieceAndRest(ws: string, data: seq<byte>, k: nat, ws': string)
    requires k + 1 < |data| && ws' == if (k + 1) % LINE == 0 then "\n" + INDENT else ""
    ensures ws + Items(data, k) == ws + Item(data[k]) + "," + (ws' + Items(data, k + 1))
  {
    hide Item, Items, Separator;
    var item, rest := Item(data[k]), Items(data, k + 1);
    NextItems(data, k);
    SeparatorIs(k + 1, ws', rest);
    var tail := ws' + rest;
    assert ws + (item + ("," + tail)) == ws + item + "," + tail;
  }

  /** Splitting the printed items and reading each gives the bytes back. */
  lemma {:induction false} ItemsBack(ws: string, data: seq<byte>, k: nat)
    requires k < |data| && (ws == "" || ws == "\n" + INDENT)
    ensures Values(Split(ws + Items(data, k))) == data[k..]
    decreases |data| - k
  {
    hide Item, Items, Separator, Values, Split;
    HexDigits(data[k]);
    var piece := ws + Item(data[k]);
    assert forall j :: 0 <= j < |piece| ==> piece[j] != ',';
    if k + 1 == |data| {
      SplitWhole(piece);
      NextItems(data, k);
      assert Items(data, k) == Item(data[k]);
      ItemInPiece(ws, data[k], []);
      NoValues();
      assert [piece] + [] == [piece];
    } else {
      var ws' := if (k + 1) % LINE == 0 then "\n" + INDENT else "";
      var rest := ws' + Items(data, k + 1);
      PieceAndRest(ws, data, k, ws');
      SplitAtComma(piece, rest);
      ItemInPiece(ws, data[k], Split(rest));
      ItemsBack(ws', data, k + 1);
    }
  }

  /** Printing and parsing are inverse. */
  lemma ParsePrint(data: seq<byte>)
    ensures Values(Split(Strip(Body(data)))) == data
  {
    hide Items;
    if data == [] {
      StripBlank();
    } else {
      StripSpaces("\n" + INDENT, Items(data, 0), "\n");
      assert Body(data) == "\n" + INDENT + Items(data, 0) + "\n";
      ItemsBack("", data, 0);
      assert "" + Items(data, 0) == Items(data, 0);
    }
  }

  lemma StripBlank()
    ensures Values(Split(Strip(Body([])))) == []
  {
    assert Body([]) == "\n" && "\n"[1..] == "";
    assert Strip("\n") == "" && Split("") == [""] && Strip("") == "";
  }
}
