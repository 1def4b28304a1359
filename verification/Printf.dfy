/** The bounded formatter: it parses the format, fills a digit buffer and writes into the caller's array,
    never at or past size, and stops once the array is full. */
module Printf {
  import opened Bytes
  import opened Format

  const NUL: char := 0 as char

  /** The position after writing out with size places. */
  function Reach(out: string, size: nat): nat {
    if |out| < size then |out| else size
  }

  /** The caller's array after out has been written over s0: cut off at size, and untouched from there on. */
  function Image(s0: seq<char>, size: nat, out: string): (s: seq<char>)
    requires size <= |s0|
    ensures |s| == |s0|
  {
    out[..Reach(out, size)] + s0[Reach(out, size)..]
  }

  /** The state between two writes: the array shows out, and pos is where it ends. */
  ghost predicate Written(s: seq<char>, s0: seq<char>, size: nat, pos: nat, out: string) {
    size <= |s0| && pos == Reach(out, size) && s == Image(s0, size, out)
  }

  /** Once the array is full, more text changes nothing. */
  lemma Saturated(s: seq<char>, s0: seq<char>, size: nat, pos: nat, out: string, more: string)
    requires Written(s, s0, size, pos, out) && pos >= size
    ensures Written(s, s0, size, pos, out + more)
  {
    assert (out + more)[..size] == out[..size];
  }

  lemma NothingWritten(s: seq<char>, s0: seq<char>, size: nat, pos: nat, out: string)
    requires Written(s, s0, size, pos, out)
    ensures Written(s, s0, size, pos, out + "")
    ensures pos <= size <= |s|
  {
    assert out + "" == out;
  }

  /** One character, if there is room. */
  method PutChar(str: array<char>, size: nat, pos: nat, c: char, ghost s0: seq<char>,
          ghost out: string) returns (p: nat)
    requires Written(str[..], s0, size, pos, out)
    modifies str
    ensures Written(str[..], s0, size, p, out + [c])
  {
    if pos < size {
      str[pos] := c;
      p := pos + 1;
      assert (out + [c])[..p] == out + [c];
      assert str[..] == Image(s0, size, out + [c]);
    } else {
      p := pos;
      Saturated(str[..], s0, size, pos, out, [c]);
    }
  }

  /** The padding loop. */
  method Pad(str: array<char>, size: nat, pos: nat, c: char, n: int, ghost s0: seq<char>,
          ghost out: string) returns (p: nat)
    requires Written(str[..], s0, size, pos, out)
    modifies str
    ensures Written(str[..], s0, size, p, out + Repeat(c, n))
  {
    hide Written;
    p := pos;
    var j := 0;
    NothingWritten(str[..], s0, size, pos, out);
    while j < n && p < size
      invariant 0 <= j && (j > 0 ==> j <= n)
      invariant Written(str[..], s0, size, p, out + Repeat(c, j))
    {
      p := PutChar(str, size, p, c, s0, out + Repeat(c, j));
      assert out + Repeat(c, j) + [c] == out + Repeat(c, j + 1);
      j := j + 1;
    }
    if j < n {
      Saturated(str[..], s0, size, p, out + Repeat(c, j), Repeat(c, n - j));
      RepeatAdd(c, j, n - j);
      assert out + Repeat(c, j) + Repeat(c, n - j) == out + Repeat(c, n);
    }
  }

  lemma RepeatAdd(c: char, m: nat, n: nat)
    ensures Repeat(c, m) + Repeat(c, n) == Repeat(c, m + n)
  {
  }

  lemma TakeMore(out: string, text: string, j: nat)
    requires j < |text|
    ensures out + text[..j] + [text[j]] == out + text[..j + 1]
  {
  }

  lemma TakeRest(out: string, text: string, j: nat)
    requires j <= |text|
    ensures out + text[..j] + text[j..] == out + text
    ensures j == |text| ==> out + text[..j] == out + text
  {
  }

  /** The loop that copies at most `precision` characters of a string. */
  method PutString(str: array<char>, size: nat, pos: nat, text: string, precision: int, ghost s0: seq<char>,
          ghost out: string)
    returns (p: nat)
    requires Written(str[..], s0, size, pos, out)
    modifies str
    ensures Written(str[..], s0, size, p, out + Taken(text, precision))
  {
    hide Written;
    p := pos;
    ghost var w := Taken(text, precision);
    var j := 0;
    NothingWritten(str[..], s0, size, pos, out);
    while j < |text| && (precision == -1 || j < precision) && p < size
      invariant 0 <= j <= |w|
      invariant Written(str[..], s0, size, p, out + w[..j])
    {
      p := PutChar(str, size, p, text[j], s0, out + w[..j]);
      TakeMore(out, w, j);
      j := j + 1;
    }
    TakeRest(out, w, j);
    if j < |w| {
      Saturated(str[..], s0, size, p, out + w[..j], w[j..]);
    }
  }

  /** The loop that measures what PutString will take. */
  method TakenLength(text: string, precision: int) returns (n: nat)
    ensures n == |Taken(text, precision)|
  {
    n := 0;
    while n < |text| && (precision == -1 || n < precision)
      invariant n <= |Taken(text, precision)|
    {
      n := n + 1;
    }
  }

  lemma {:induction false} RevAt(s: string, k: nat)
    requires k < |s|
    ensures Rev(s)[k] == s[|s| - 1 - k]
  {
    if k < |s| - 1 {
      RevAt(s[1..], k);
    }
  }

  /** The loop that empties the digit buffer from its end. */
  method PutDigits(str: array<char>, size: nat, pos: nat, buffer: array<char>, count: nat, ghost s0: seq<char>,
          ghost out: string)
    returns (p: nat)
    requires Written(str[..], s0, size, pos, out)
    requires count <= buffer.Length && buffer != str
    modifies str
    ensures Written(str[..], s0, size, p, out + Rev(buffer[..count]))
  {
    hide Written;
    p := pos;
    ghost var w := Rev(buffer[..count]);
    var i := count;
    NothingWritten(str[..], s0, size, pos, out);
    while i > 0 && p < size
      invariant 0 <= i <= count
      invariant Written(str[..], s0, size, p, out + w[..count - i])
    {
      RevAt(buffer[..count], count - i);
      p := PutChar(str, size, p, buffer[i - 1], s0, out + w[..count - i]);
      TakeMore(out, w, count - i);
      i := i - 1;
    }
    TakeRest(out, w, count - i);
    if i > 0 {
      Saturated(str[..], s0, size, p, out + w[..count - i], w[count - i..]);
    }
  }

  // ----- Numbers

  /** The digits as the buffer holds them, least significant first. */
  function Buffered(num: int, base: nat): string
    requires base == 10 || base == 16
  {
    if num == 0 then "0" else if num < 0 then "" else RevDigits(num, base)
  }

  /** The digits so far, and those still to come. */
  ghost predicate Filling(digits: string, left: int, num: int, base: nat)
    requires base == 10 || base == 16
  {
    if left > 0 then digits + RevDigits(left, base) == Buffered(num, base) else digits == Buffered(num, base)
  }

  lemma RevStep(left: int, base: nat)
    requires (base == 10 || base == 16) && left > 0
    ensures 0 <= left % base < 16 && left / base >= 0
    ensures RevDigits(left, base) == [DigitChar(left % base)] + RevDigits(left / base, base)
    ensures left / base == 0 ==> RevDigits(left / base, base) == []
  {
    hide DigitChar;
  }

  lemma Appended(digits: string, c: char, rest: string)
    ensures digits + ([c] + rest) == digits + [c] + rest && digits + [c] + [] == digits + [c]
    ensures |digits| < |digits + ([c] + rest)|
  {
  }

  lemma FillingNext(digits: string, left: int, num: int, base: nat)
    requires (base == 10 || base == 16) && left > 0 && Filling(digits, left, num, base)
    ensures Filling(digits + [DigitChar(left % base)], left / base, num, base)
    ensures |digits| < |Buffered(num, base)| && 0 <= left % base < 16
  {
    hide DigitChar, Buffered, RevDigits;
    RevStep(left, base);
    Appended(digits, DigitChar(left % base), RevDigits(left / base, base));
  }

  lemma FillingStart(num: int, base: nat)
    requires (base == 10 || base == 16) && num <= INT_MAX
    ensures num == 0 ==> Filling("0", num, num, base)
    ensures num != 0 ==> Filling("", num, num, base)
    ensures |Buffered(num, base)| <= 10
  {
    if num > 0 {
      DigitsFit(num, base);
      assert "" + RevDigits(num, base) == RevDigits(num, base);
    }
  }

  /** The digit loop. */
  method FillDigits(buffer: array<char>, num: int, base: nat) returns (i: nat)
    requires buffer.Length == BUFFER && (base == 10 || base == 16) && num <= INT_MAX
    modifies buffer
    ensures i == |Buffered(num, base)| <= 10 && buffer[..i] == Buffered(num, base)
  {
    hide Buffered, DigitChar, RevDigits;
    FillingStart(num, base);
    i := 0;
    if num == 0 {
      buffer[i] := '0';
      i := i + 1;
    }
    assert buffer[..i] == if num == 0 then "0" else "";
    var left := num;
    while left > 0
      invariant i <= 10 && Filling(buffer[..i], left, num, base)
    {
      FillingNext(buffer[..i], left, num, base);
      ghost var before := buffer[..i];
      buffer[i] := DigitChar(left % base);
      i := i + 1;
      assert buffer[..i] == before + [DigitChar(left % base)];
      left := left / base;
    }
  }

  /** The loop that fills the buffer with zeros up to the precision. */
  method FillZeros(buffer: array<char>, count: nat, precision: int) returns (i: nat)
    requires buffer.Length == BUFFER && count <= BUFFER && precision <= BUFFER
    modifies buffer
    ensures i == (if precision > count then precision else count)
    ensures Rev(buffer[..i]) == Filled(Rev(old(buffer[..count])), precision)
  {
    i := count;
    ghost var digits := buffer[..count];
    if precision > count {
      var padding := precision - count;
      for j := 0 to padding
        invariant i == count + j && buffer[..i] == digits + Repeat('0', j)
      {
        buffer[i] := '0';
        i := i + 1;
        assert buffer[..i] == digits + Repeat('0', j) + ['0'];
      }
    }
    assert buffer[..i] == digits + Repeat('0', i - count);
    RevZeros(digits, i - count);
  }

  lemma {:induction false} RevZeros(digits: string, n: nat)
    ensures Rev(digits + Repeat('0', n)) == Repeat('0', n) + Rev(digits)
  {
    var s, t := digits + Repeat('0', n), Repeat('0', n) + Rev(digits);
    forall k | 0 <= k < |s| ensures Rev(s)[k] == t[k] {
      RevAt(s, k);
      if k >= n {
        RevAt(digits, k - n);
      }
    }
  }

  lemma BufferedIsDigits(num: int, base: nat)
    requires base == 10 || base == 16
    ensures Rev(Buffered(num, base)) == Digits(num, base)
  {
    if num == 0 {
      assert "0"[1..] == "" && Rev("") == "";
    }
  }

  /** The padding before a field of the given length. */
  method PadLeft(str: array<char>, size: nat, pos: nat, left: bool, c: char, room: int, ghost s0: seq<char>,
          ghost out: string)
    returns (p: nat)
    requires Written(str[..], s0, size, pos, out)
    modifies str
    ensures Written(str[..], s0, size, p, out + if left then "" else Repeat(c, room))
  {
    hide Written;
    p := pos;
    NothingWritten(str[..], s0, size, pos, out);
    if !left && room > 0 {
      p := Pad(str, size, p, c, room, s0, out);
    }
  }

  /** The padding after a field. */
  method PadRight(str: array<char>, size: nat, pos: nat, left: bool, room: int, ghost s0: seq<char>,
          ghost out: string) returns (p: nat)
    requires Written(str[..], s0, size, pos, out)
    modifies str
    ensures Written(str[..], s0, size, p, out + if left then Repeat(' ', room) else "")
  {
    hide Written;
    p := pos;
    NothingWritten(str[..], s0, size, pos, out);
    if left && room > 0 {
      p := Pad(str, size, p, ' ', room, s0, out);
    }
  }

  lemma PaddedParts(out: string, d: Directive, sign: string, body: string)
    ensures var room := d.width - |sign| - |body|;
            out + (if d.left then "" else Repeat(if d.zero then '0' else ' ', room)) + sign + body
              + (if d.left then Repeat(' ', room) else "")
            == out + Padded(d, sign, body)
  {
  }

  /** A number with its sign between left and right padding. */
  method PutNumber(str: array<char>, size: nat, pos: nat, d: Directive, negative: bool, buffer: array<char>, count: nat,
                   ghost s0: seq<char>, ghost out: string)
    returns (p: nat)
    requires Written(str[..], s0, size, pos, out)
    requires count <= buffer.Length && buffer != str
    modifies str
    ensures Written(str[..], s0, size, p, out + Padded(d, if negative then "-" else "", Rev(buffer[..count])))
  {
    hide Written, Rev, Repeat, Padded;
    var room := d.width - count - if negative then 1 else 0;
    var c := if d.zero then '0' else ' ';
    ghost var sign, body := if negative then "-" else "", Rev(buffer[..count]);
    p := PadLeft(str, size, pos, d.left, c, room, s0, out);
    ghost var o := out + if d.left then "" else Repeat(c, room);
    if negative {
      p := PutChar(str, size, p, '-', s0, o);
    }
    NothingWritten(str[..], s0, size, p, if negative then o + "-" else o);
    assert Written(str[..], s0, size, p, o + sign);
    p := PutDigits(str, size, p, buffer, count, s0, o + sign);
    p := PadRight(str, size, p, d.left, room, s0, o + sign + body);
    PaddedParts(out, d, sign, body);
  }

  /** The d conversion. */
  method PutDecimal(str: array<char>, size: nat, pos: nat, d: Directive, n: int, ghost s0: seq<char>,
          ghost out: string) returns (p: nat)
    requires Written(str[..], s0, size, pos, out)
    requires INT_MIN < n <= INT_MAX && d.precision <= BUFFER
    modifies str
    ensures Written(str[..], s0, size, p, out + Padded(d, if n < 0 then "-" else "",
            Filled(Digits(Abs(n), 10), d.precision)))
  {
    hide Written, Rev, Padded, Filled, Buffered, Digits;
    var buffer := new char[BUFFER];
    var negative, num := n < 0, n;
    if num < 0 {
      num := -num;
    }
    var i := FillDigits(buffer, num, 10);
    BufferedIsDigits(num, 10);
    i := FillZeros(buffer, i, d.precision);
    p := PutNumber(str, size, pos, d, negative, buffer, i, s0, out);
  }

  /** The x and X conversions: both print lower case, and a negative number has no digits. */
  method PutHex(str: array<char>, size: nat, pos: nat, d: Directive, n: int, ghost s0: seq<char>,
          ghost out: string) returns (p: nat)
    requires Written(str[..], s0, size, pos, out)
    requires INT_MIN <= n <= INT_MAX && d.precision <= BUFFER
    modifies str
    ensures Written(str[..], s0, size, p, out + HexText(d, n))
  {
    hide Written, Rev, Padded, Filled, Buffered, Digits;
    var buffer := new char[BUFFER];
    var i := FillDigits(buffer, n, 16);
    BufferedIsDigits(n, 16);
    RevLength(buffer[..i]);
    if d.precision == 0 && i == 0 {
      p := Pad(str, size, pos, ' ', d.width, s0, out);
    } else {
      i := FillZeros(buffer, i, d.precision);
      p := PutNumber(str, size, pos, d, false, buffer, i, s0, out);
    }
  }

  lemma RevLength(s: string)
    ensures |s| == 0 <==> Rev(s) == ""
  {
  }

  // ----- Strings and characters

  /** The s conversion. */
  method PutText(str: array<char>, size: nat, pos: nat, d: Directive, s: Option<string>, ghost s0: seq<char>,
          ghost out: string)
    returns (p: nat)
    requires Written(str[..], s0, size, pos, out)
    modifies str
    ensures Written(str[..], s0, size, p, out + Padded(d.(zero := false), "",
            Taken(if s.Some? then s.value else NULL_TEXT, d.precision)))
  {
    hide Written, Padded, Taken, Repeat;
    var text := if s.Some? then s.value else NULL_TEXT;
    var totalLen := TakenLength(text, d.precision);
    var room := d.width - totalLen;
    p := PadLeft(str, size, pos, d.left, ' ', room, s0, out);
    ghost var o, w := out + if d.left then "" else Repeat(' ', room), Taken(text, d.precision);
    assert o + "" == o;
    p := PutString(str, size, p, text, d.precision, s0, o);
    p := PadRight(str, size, p, d.left, room, s0, o + w);
    PaddedParts(out, d.(zero := false), "", w);
  }

  /** The c conversion. */
  method PutCharacter(str: array<char>, size: nat, pos: nat, d: Directive, c: char, ghost s0: seq<char>,
          ghost out: string)
    returns (p: nat)
    requires Written(str[..], s0, size, pos, out)
    modifies str
    ensures Written(str[..], s0, size, p, out + Padded(d.(zero := false), "", [c]))
  {
    hide Written, Padded, Repeat;
    p := PadLeft(str, size, pos, d.left, ' ', d.width - 1, s0, out);
    ghost var o := out + if d.left then "" else Repeat(' ', d.width - 1);
    assert o + "" == o;
    p := PutChar(str, size, p, c, s0, o);
    p := PadRight(str, size, p, d.left, d.width - 1, s0, o + [c]);
    PaddedParts(out, d.(zero := false), "", [c]);
  }

  /** The switch on the conversion character. */
  method PutDirective(str: array<char>, size: nat, pos: nat, d: Directive, args: seq<Arg>, a: nat, ghost s0: seq<char>,
          ghost out: string)
    returns (p: nat)
    requires Written(str[..], s0, size, pos, out)
    requires ArgFits(d.conv, args, a) && (d.conv in "dxX" ==> d.precision <= BUFFER)
    modifies str
    ensures Written(str[..], s0, size, p, out + Text(d, args, a))
  {
    hide Written, Padded, Filled, Digits, HexText, Taken;
    match d.conv {
      case 'd' => p := PutDecimal(str, size, pos, d, args[a].n, s0, out);
      case 's' => p := PutText(str, size, pos, d, args[a].s, s0, out);
      case 'c' => p := PutCharacter(str, size, pos, d, CharOf(args[a].n), s0, out);
      case 'x' => p := PutHex(str, size, pos, d, args[a].n, s0, out);
      case 'X' => p := PutHex(str, size, pos, d, args[a].n, s0, out);
      case '%' => p := PutChar(str, size, pos, '%', s0, out);
      case c =>
        p := PutChar(str, size, pos, '%', s0, out);
        p := PutChar(str, size, p, c, s0, out + ['%']);
        assert out + ['%'] + [c] == out + ['%', c];
    }
  }

  // ----- Reading the format

  method ReadFlags(fmt: string, i: nat) returns (j: nat, left: bool, zero: bool)
    requires i <= |fmt|
    ensures j == SkipFlags(fmt, i) && left == ('-' in fmt[i..j]) && zero == ('0' in fmt[i..j])
  {
    j, left, zero := i, false, false;
    while j < |fmt| && (fmt[j] == '-' || fmt[j] == '0')
      invariant i <= j <= |fmt| && SkipFlags(fmt, j) == SkipFlags(fmt, i)
      invariant left == ('-' in fmt[i..j]) && zero == ('0' in fmt[i..j])
    {
      assert fmt[i..j + 1] == fmt[i..j] + [fmt[j]];
      if fmt[j] == '-' {
        left := true;
      }
      if fmt[j] == '0' {
        zero := true;
      }
      j := j + 1;
    }
  }

  lemma NumberNone()
    ensures Number("") == 0
  {
  }

  lemma NumberNext(s: string, c: char)
    requires IsDigit(c) && forall k :: 0 <= k < |s| ==> IsDigit(s[k])
    ensures Number(s + [c]) == 10 * Number(s) + DigitOf(c)
  {
    assert (s + [c])[..|s|] == s;
  }

  method ReadNumber(fmt: string, i: nat) returns (n: nat, j: nat)
    requires i <= |fmt|
    ensures j == SkipDigits(fmt, i) && n == Number(fmt[i..j])
  {
    hide Number;
    n, j := 0, i;
    NumberNone();
    assert fmt[i..i] == "";
    while j < |fmt| && IsDigit(fmt[j])
      invariant i <= j <= SkipDigits(fmt, i) && SkipDigits(fmt, j) == SkipDigits(fmt, i)
      invariant n == Number(fmt[i..j])
    {
      NumberNext(fmt[i..j], fmt[j]);
      assert fmt[i..j] + [fmt[j]] == fmt[i..j + 1];
      n := n * 10 + DigitOf(fmt[j]);
      j := j + 1;
    }
  }

  method ReadField(fmt: string, i: nat, args: seq<Arg>, a: nat, absent: int) returns (value: int, j: nat, b: nat)
    requires i <= |fmt| && (i < |fmt| && fmt[i] == '*' ==> HasInt(args, a))
    ensures var f := ParseField(fmt, i, args, a, absent); value == f.value && j == f.next && b == a + f.used
  {
    value, j, b := absent, i, a;
    if i < |fmt| && IsDigit(fmt[i]) {
      value, j := ReadNumber(fmt, i);
    } else if i < |fmt| && fmt[i] == '*' {
      value := args[a].n;
      j, b := i + 1, a + 1;
    }
  }

  /** Flags, width, precision and conversion character, in this order. */
  method ReadDirective(fmt: string, i: nat, args: seq<Arg>, a: nat) returns (d: Directive, j: nat, b: nat)
    requires i <= |fmt| && Parse(fmt, i, args, a).Some? && StarsFit(fmt, i, args, a)
    ensures a <= b && Parse(fmt, i, args, a) == Some(Parsed(d, j, b - a)) && i < j <= |fmt|
  {
    hide Number, SkipFlags, SkipDigits;
    var left, zero, width;
    j, left, zero := ReadFlags(fmt, i);
    width, j, b := ReadField(fmt, j, args, a, 0);
    var precision := -1;
    if j < |fmt| && fmt[j] == '.' {
      precision, j, b := ReadField(fmt, j + 1, args, b, 0);
    }
    d := Directive(left, zero, width, precision, fmt[j]);
    j := j + 1;
  }

  // ----- The formatter

  lemma RenderStep(fmt: string, i: nat, args: seq<Arg>, a: nat, out: string)
    requires i < |fmt| && Renderable(fmt, i, args, a)
    ensures fmt[i] != '%' ==>
              && Renderable(fmt, i + 1, args, a)
              && out + Render(fmt, i, args, a) == out + [fmt[i]] + Render(fmt, i + 1, args, a)
    ensures fmt[i] == '%' ==>
              var r := Parse(fmt, i + 1, args, a);
              && r.Some? && StarsFit(fmt, i + 1, args, a)
              && ArgFits(r.value.d.conv, args, a + r.value.used)
              && (r.value.d.conv in "dxX" ==> r.value.d.precision <= BUFFER)
              && Renderable(fmt, r.value.next, args, a + r.value.used + ArgCount(r.value.d.conv))
              && out + Render(fmt, i, args, a)
                 == out + Text(r.value.d, args, a + r.value.used)
                    + Render(fmt, r.value.next, args, a + r.value.used + ArgCount(r.value.d.conv))
  {
    hide Parse, Text, StarsFit;
  }

  /** The array after a call: as much of the text as fits with room for the terminator, the terminator, and
      beyond it what was there.  A call with size 0 changes nothing. */
  function Formatted(s0: seq<char>, size: nat, out: string): (s: seq<char>)
    requires size <= |s0|
    ensures |s| == |s0|
  {
    if size == 0 then s0
    else
      var n := if |out| < size then |out| else size - 1;
      out[..n] + [NUL] + s0[n + 1..]
  }

  /** The terminator goes after the text, or over its last character when the array is full. */
  method Terminate(str: array<char>, size: nat, pos: nat, ghost s0: seq<char>, ghost out: string)
    requires Written(str[..], s0, size, pos, out)
    modifies str
    ensures pos == Reach(out, size)
    ensures str[..] == Formatted(s0, size, out)
  {
    if pos < size {
      str[pos] := NUL;
    } else if size > 0 {
      str[size - 1] := NUL;
    }
    assert str[..] == Formatted(s0, size, out);
  }

  lemma NothingYet(s0: seq<char>, size: nat)
    requires size <= |s0|
    ensures Written(s0, s0, size, 0, "")
  {
  }

  /** vsnprintf_helper refines the unbounded renderer.  It returns how far it got, not how long the text is. */
  method VsnprintfHelper(str: array<char>, size: nat, fmt: string, args: seq<Arg>) returns (pos: nat)
    requires size <= str.Length && Renderable(fmt, 0, args, 0)
    modifies str
    ensures pos == Reach(Render(fmt, 0, args, 0), size)
    ensures str[..] == Formatted(old(str[..]), size, Render(fmt, 0, args, 0))
  {
    hide Written, Reach, Formatted, Parse, Text, Renderable, Render, StarsFit, ArgFits;
    ghost var s0, text := str[..], Render(fmt, 0, args, 0);
    pos := 0;
    var i: nat, a: nat := 0, 0;
    ghost var out := "";
    assert out + text == text;
    NothingYet(s0, size);
    while i < |fmt| && pos < size
      invariant i <= |fmt| && Renderable(fmt, i, args, a) && out + Render(fmt, i, args, a) == text
      invariant Written(str[..], s0, size, pos, out)
    {
      RenderStep(fmt, i, args, a, out);
      if fmt[i] == '%' {
        var d, j, b := ReadDirective(fmt, i + 1, args, a);
        pos := PutDirective(str, size, pos, d, args, b, s0, out);
        out := out + Text(d, args, b);
        i, a := j, b + ArgCount(d.conv);
      } else {
        pos := PutChar(str, size, pos, fmt[i], s0, out);
        out := out + [fmt[i]];
        i := i + 1;
      }
    }
    WholeText(str[..], s0, size, pos, fmt, i, args, a, out);
    Terminate(str, size, pos, s0, text);
  }

  /** The loop ends either with the format used up or with the array full: the text is all there, or all that fits. */
  lemma WholeText(s: seq<char>, s0: seq<char>, size: nat, pos: nat, fmt: string, i: nat, args: seq<Arg>, a: nat,
          out: string)
    requires i <= |fmt| && Renderable(fmt, i, args, a) && Written(s, s0, size, pos, out)
    requires i == |fmt| || pos >= size
    ensures Written(s, s0, size, pos, out + Render(fmt, i, args, a))
  {
    if i == |fmt| {
      assert out + "" == out;
    } else {
      Saturated(s, s0, size, pos, out, Render(fmt, i, args, a));
    }
  }

  /** vsnprintf's first pass runs with size 0 and measures nothing, so the result is the length written: that of
      the whole text if and only if the text has at most `size` characters.  A result below `size` still means that
      the text is complete. */
  method Vsnprintf(str: array?<char>, size: nat, fmt: Option<string>, args: seq<Arg>) returns (n: nat)
    requires str != null ==> size <= str.Length
    requires fmt.Some? ==> Renderable(fmt.value, 0, args, 0)
    modifies str
    ensures str == null || fmt.None? ==> n == 0 && (str != null ==> str[..] == old(str[..]))
    ensures str != null && fmt.Some? ==>
              var text := Render(fmt.value, 0, args, 0);
              && n == Reach(text, size)
              && (n == |text| <==> |text| <= size) && (n < size <==> |text| < size)
              && str[..] == Formatted(old(str[..]), size, text)
  {
    hide Renderable, Render;
    n := 0;
    if str != null && size != 0 && fmt.Some? {
      var none := new char[0];
      var requiredLen := VsnprintfHelper(none, 0, fmt.value, args);
      var written := VsnprintfHelper(str, size, fmt.value, args);
      n := if written < requiredLen then requiredLen else written;
    }
  }

  /** What a larger array shows: everything the smaller one does before its terminator, and the whole text,
      terminated, as soon as there is room for it. */
  lemma LargerSizeExtends(s0: seq<char>, t0: seq<char>, size: nat, size': nat, out: string)
    requires 0 < size <= size' && size <= |s0| && size' <= |t0|
    ensures var s, t := Formatted(s0, size, out), Formatted(t0, size', out);
            var n := if |out| < size then |out| else size - 1;
            && s[..n] == t[..n] == out[..n] && s[n] == NUL
            && (|out| < size ==> s[..n + 1] == t[..n + 1] == out + [NUL])
            && (forall k :: n < k < |s0| ==> s[k] == s0[k])
  {
  }

  /** "abc" into an array of two: the result is 2, and the text has three characters. */
  lemma ShortResult()
    ensures Renderable("abc", 0, [], 0) && Render("abc", 0, [], 0) == "abc"
    ensures Reach(Render("abc", 0, [], 0), 2) == 2 != |Render("abc", 0, [], 0)|
  {
    assert Renderable("abc", 3, [], 0) && Render("abc", 3, [], 0) == "";
    assert Renderable("abc", 2, [], 0) && Render("abc", 2, [], 0) == "c";
    assert Renderable("abc", 1, [], 0) && Render("abc", 1, [], 0) == "bc";
    assert Render("abc", 0, [], 0) == "a" + "bc";
  }
}
