/** What a format string means: the unbounded text it renders to, directive by directive. */
module Format {
  import opened Bytes

  /** A variable argument: an integer, or a string that may be NULL. */
  datatype Arg = IntArg(n: int) | StrArg(s: Option<string>)

  /** A parsed directive.  A precision of -1 means that none was given. */
  datatype Directive = Directive(left: bool, zero: bool, width: int, precision: int, conv: char)

  const INT_MIN := -0x8000_0000
  const INT_MAX := 0x7FFF_FFFF
  const BUFFER := 32

  predicate IsDigit(c: char) {
    '0' <= c <= '9'
  }

  function DigitOf(c: char): nat
    requires IsDigit(c)
  {
    c as int - '0' as int
  }

  // ----- Parsing, by position in the format

  function SkipFlags(fmt: string, i: nat): (j: nat)
    requires i <= |fmt|
    ensures i <= j <= |fmt|
    ensures forall k :: i <= k < j ==> fmt[k] == '-' || fmt[k] == '0'
    ensures j < |fmt| ==> fmt[j] != '-' && fmt[j] != '0'
    decreases |fmt| - i
  {
    if i < |fmt| && (fmt[i] == '-' || fmt[i] == '0') then SkipFlags(fmt, i + 1) else i
  }

  function SkipDigits(fmt: string, i: nat): (j: nat)
    requires i <= |fmt|
    ensures i <= j <= |fmt|
    ensures forall k :: i <= k < j ==> IsDigit(fmt[k])
    ensures j < |fmt| ==> !IsDigit(fmt[j])
    decreases |fmt| - i
  {
    if i < |fmt| && IsDigit(fmt[i]) then SkipDigits(fmt, i + 1) else i
  }

  /** The number a run of digits denotes. */
  function Number(digits: string): nat
    requires forall k :: 0 <= k < |digits| ==> IsDigit(digits[k])
  {
    if digits == [] then 0
    else 10 * Number(digits[..|digits| - 1]) + DigitOf(digits[|digits| - 1])
  }

  /** A number written in the format or taken from the arguments: its value, where it ends, and how many
      arguments it used. */
  datatype Field = Field(value: int, next: nat, used: nat)

  predicate HasInt(args: seq<Arg>, a: nat) {
    a < |args| && args[a].IntArg?
  }

  predicate HasStr(args: seq<Arg>, a: nat) {
    a < |args| && args[a].StrArg?
  }

  /** `absent` is the value when neither digits nor a star are there. */
  function ParseField(fmt: string, i: nat, args: seq<Arg>, a: nat, absent: int): (f: Field)
    requires i <= |fmt|
    ensures i <= f.next <= |fmt|
  {
    if i < |fmt| && IsDigit(fmt[i]) then
      Field(Number(fmt[i..SkipDigits(fmt, i)]), SkipDigits(fmt, i), 0)
    else if i < |fmt| && fmt[i] == '*' && HasInt(args, a) then
      Field(args[a].n, i + 1, 1)
    else
      Field(absent, i, 0)
  }

  /** The directive after a percent sign: what it says, where it ends, and how many arguments its numbers
      used.  It is None when the format ends inside the directive. */
  datatype Parsed = Parsed(d: Directive, next: nat, used: nat)

  function Parse(fmt: string, i: nat, args: seq<Arg>, a: nat): (r: Option<Parsed>)
    requires i <= |fmt|
    ensures r.Some? ==> i < r.value.next <= |fmt|
  {
    var j := SkipFlags(fmt, i);
    var w := ParseField(fmt, j, args, a, 0);
    var dot := w.next < |fmt| && fmt[w.next] == '.';
    var p := if dot then ParseField(fmt, w.next + 1, args, a + w.used, 0) else Field(-1, w.next, 0);
    if p.next >= |fmt| then None
    else Some(Parsed(Directive('-' in fmt[i..j], '0' in fmt[i..j], w.value, p.value, fmt[p.next]), p.next + 1,
        w.used + p.used))
  }

  // ----- The text of one directive

  function Repeat(c: char, n: int): (s: string)
    ensures |s| == if n > 0 then n else 0
    ensures forall k :: 0 <= k < |s| ==> s[k] == c
  {
    if n <= 0 then [] else Repeat(c, n - 1) + [c]
  }

  function DigitChar(d: nat): char
    requires d < 16
  {
    if d < 10 then ('0' as int + d) as char else ('a' as int + (d - 10)) as char
  }

  /** The digits of n, least significant first; none for zero. */
  function RevDigits(n: nat, base: nat): string
    requires base == 10 || base == 16
    decreases n
  {
    if n == 0 then [] else [DigitChar(n % base)] + RevDigits(n / base, base)
  }

  function Rev(s: string): (r: string)
    ensures |r| == |s|
  {
    if s == [] then [] else Rev(s[1..]) + [s[0]]
  }

  /** The digits of a number as printed, most significant first.  A negative number has none here. */
  function Digits(n: int, base: nat): string
    requires base == 10 || base == 16
  {
    if n == 0 then "0" else if n < 0 then "" else Rev(RevDigits(n, base))
  }

  function Abs(n: int): nat {
    if n < 0 then -n else n
  }

  /** The body between left and right padding. */
  function Padded(d: Directive, sign: string, body: string): string {
    var room := d.width - |sign| - |body|;
    if d.left then sign + body + Repeat(' ', room)
    else Repeat(if d.zero then '0' else ' ', room) + sign + body
  }

  /** Digits filled up with zeros to the precision. */
  function Filled(digits: string, precision: int): string {
    Repeat('0', precision - |digits|) + digits
  }

  /** The part of a string a %s takes.  A negative precision other than "none" takes nothing. */
  function Taken(s: string, precision: int): string {
    if precision == -1 || precision >= |s| then s else if precision < 0 then "" else s[..precision]
  }

  const NULL_TEXT := "(null)"

  /** How many arguments the conversion itself uses. */
  function ArgCount(conv: char): nat {
    if conv == 'd' || conv == 's' || conv == 'c' || conv == 'x' || conv == 'X' then 1 else 0
  }

  predicate ArgFits(conv: char, args: seq<Arg>, a: nat) {
    match conv
    case 'd' => HasInt(args, a) && INT_MIN < args[a].n <= INT_MAX
    case 'x' => HasInt(args, a) && INT_MIN <= args[a].n <= INT_MAX
    case 'X' => HasInt(args, a) && INT_MIN <= args[a].n <= INT_MAX
    case 'c' => HasInt(args, a)
    case 's' => HasStr(args, a)
    case _ => true
  }

  function Text(d: Directive, args: seq<Arg>, a: nat): string
    requires ArgFits(d.conv, args, a)
  {
    match d.conv
    case 'd' => Padded(d, if args[a].n < 0 then "-" else "", Filled(Digits(Abs(args[a].n), 10), d.precision))
    case 'x' => HexText(d, args[a].n)
    case 'X' => HexText(d, args[a].n)
    case 's' => Padded(d.(zero := false), "", Taken(if args[a].s.Some? then args[a].s.value else NULL_TEXT,
        d.precision))
    case 'c' => Padded(d.(zero := false), "", [CharOf(args[a].n)])
    case '%' => "%"
    case c => ['%', c]
  }

  function HexText(d: Directive, n: int): string {
    if d.precision == 0 && Digits(n, 16) == "" then Repeat(' ', d.width)
    else Padded(d, "", Filled(Digits(n, 16), d.precision))
  }

  /** A C char from an int. */
  function CharOf(n: int): char {
    (n % 256) as char
  }

  // ----- The whole format

  /** Every directive is complete, finds the arguments it needs, and has numbers the formatter can hold. */
  ghost predicate Renderable(fmt: string, i: nat, args: seq<Arg>, a: nat)
    requires i <= |fmt|
    decreases |fmt| - i
  {
    if i == |fmt| then true
    else if fmt[i] != '%' then Renderable(fmt, i + 1, args, a)
    else
      var r := Parse(fmt, i + 1, args, a);
      && r.Some?
      && ArgFits(r.value.d.conv, args, a + r.value.used)
      && (r.value.d.conv in "dxX" ==> r.value.d.precision <= BUFFER)
      && r.value.d.precision <= INT_MAX && r.value.d.width <= INT_MAX
      && StarsFit(fmt, i + 1, args, a)
      && Renderable(fmt, r.value.next, args, a + r.value.used + ArgCount(r.value.d.conv))
  }

  /** Each star has an integer to take. */
  ghost predicate StarsFit(fmt: string, i: nat, args: seq<Arg>, a: nat)
    requires i <= |fmt|
  {
    var j := SkipFlags(fmt, i);
    var w := ParseField(fmt, j, args, a, 0);
    && (j < |fmt| && fmt[j] == '*' ==> HasInt(args, a))
    && (w.next + 1 < |fmt| && fmt[w.next] == '.' && fmt[w.next + 1] == '*' ==> HasInt(args, a + w.used))
  }

  /** The text the format stands for, from position i on. */
  ghost function Render(fmt: string, i: nat, args: seq<Arg>, a: nat): string
    requires i <= |fmt| && Renderable(fmt, i, args, a)
    decreases |fmt| - i
  {
    if i == |fmt| then []
    else if fmt[i] != '%' then [fmt[i]] + Render(fmt, i + 1, args, a)
    else
      var r := Parse(fmt, i + 1, args, a).value;
      Text(r.d, args, a + r.used) + Render(fmt, r.next, args, a + r.used + ArgCount(r.d.conv))
  }

  // ----- Digits mean the number they print

  /** A digit of either base, lower case. */
  predicate IsHexDigit(c: char) {
    IsDigit(c) || 'a' <= c <= 'f'
  }

  predicate AllHex(s: string) {
    forall k :: 0 <= k < |s| ==> IsHexDigit(s[k])
  }

  function Value(s: string, base: nat): nat
    requires AllHex(s)
  {
    if s == [] then 0
    else base * Value(s[..|s| - 1], base) + DigitValue(s[|s| - 1])
  }

  function DigitValue(c: char): nat
    requires IsHexDigit(c)
  {
    if IsDigit(c) then c as int - '0' as int else c as int - 'a' as int + 10
  }

  lemma DigitCharMeans(d: nat)
    requires d < 16
    ensures var c := DigitChar(d);
            IsHexDigit(c) && DigitValue(c) == d && (d < 10 ==> IsDigit(c)) && (d > 0 ==> c != '0')
  {
  }

  /** A number one digit longer. */
  lemma ValueNext(t: string, c: char, base: nat)
    requires AllHex(t) && IsHexDigit(c)
    ensures AllHex(t + [c]) && Value(t + [c], base) == base * Value(t, base) + DigitValue(c)
  {
    hide IsHexDigit, DigitValue;
    assert (t + [c])[..|t|] == t;
  }

  lemma RevNext(n: nat, base: nat)
    requires (base == 10 || base == 16) && n > 0
    ensures Rev(RevDigits(n, base)) == Rev(RevDigits(n / base, base)) + [DigitChar(n % base)]
  {
    hide DigitChar;
    assert RevDigits(n, base)[1..] == RevDigits(n / base, base);
  }

  lemma {:induction false} RevDigitsMean(n: nat, base: nat)
    requires base == 10 || base == 16
    ensures var s := Rev(RevDigits(n, base));
            AllHex(s) && Value(s, base) == n && (n > 0 ==> s != [] && s[0] != '0')
  {
    hide DigitChar, DigitValue, IsHexDigit, Rev, RevDigits, AllHex, Value;
    if n > 0 {
      RevDigitsMean(n / base, base);
      DigitCharMeans(n % base);
      RevNext(n, base);
      ValueNext(Rev(RevDigits(n / base, base)), DigitChar(n % base), base);
      Divided(n, base);
      if n / base == 0 {
        NoDigits(base);
      }
    } else {
      NoDigits(base);
      NoValue(base);
    }
  }

  lemma Divided(n: nat, base: nat)
    requires base == 10 || base == 16
    ensures base * (n / base) + n % base == n && n % base < base && (n > 0 && n / base == 0 ==> n % base > 0)
  {
  }

  lemma NoDigits(base: nat)
    requires base == 10 || base == 16
    ensures Rev(RevDigits(0, base)) == ""
  {
  }

  lemma NoValue(base: nat)
    ensures AllHex("") && Value("", base) == 0
  {
  }

  /** The printed digits of a number, read back in the same base, give the number; there are no leading
      zeros but for zero itself. */
  lemma DigitsMean(n: nat, base: nat)
    requires base == 10 || base == 16
    ensures var s := Digits(n, base);
            && s != [] && AllHex(s)
            && Value(s, base) == n
            && (n > 0 ==> s[0] != '0')
  {
    if n == 0 {
      NoValue(base);
      ValueNext("", '0', base);
      assert "" + ['0'] == "0" && base * 0 == 0;
    } else {
      RevDigitsMean(n, base);
    }
  }

  /** Zeros in front, from a precision, do not change the number. */
  lemma {:induction false} FilledMeans(s: string, base: nat, n: nat)
    requires AllHex(s)
    ensures AllHex(Repeat('0', n) + s) && Value(Repeat('0', n) + s, base) == Value(s, base)
    decreases |s|, n
  {
    var t := Repeat('0', n) + s;
    if s != [] {
      assert t[..|t| - 1] == Repeat('0', n) + s[..|s| - 1];
      FilledMeans(s[..|s| - 1], base, n);
    } else if n > 0 {
      assert t == Repeat('0', n - 1) + s + ['0'];
      FilledMeans(s, base, n - 1);
      ValueNext(Repeat('0', n - 1) + s, '0', base);
      assert base * 0 == 0;
    } else {
      assert t == s;
    }
  }

  /** A number below the base is one digit. */
  lemma SmallDigit(n: nat, base: nat)
    requires (base == 10 || base == 16) && 0 < n < base
    ensures Digits(n, base) == [DigitChar(n)]
  {
    hide RevDigits, Rev, DigitChar;
    BelowBase(n, base);
    RevNext(n, base);
    NoDigits(base);
    assert "" + [DigitChar(n)] == [DigitChar(n)];
  }

  lemma BelowBase(n: nat, base: nat)
    requires n < base
    ensures n / base == 0 && n % base == n
  {
  }

  function Pow(base: nat, k: nat): nat {
    if k == 0 then 1 else base * Pow(base, k - 1)
  }

  /** A number below the k-th power of the base has at most k digits. */
  lemma {:induction false} RevDigitsShort(n: nat, base: nat, k: nat)
    requires (base == 10 || base == 16) && n < Pow(base, k)
    ensures |RevDigits(n, base)| <= k
  {
    if n > 0 {
      QuotientBelow(n, base, Pow(base, k - 1));
      RevDigitsShort(n / base, base, k - 1);
    }
  }

  lemma QuotientBelow(n: nat, base: nat, m: nat)
    requires base > 0 && n < base * m
    ensures n / base < m
  {
  }

  /** Every number the formatter prints fits its 32-character buffer. */
  lemma DigitsFit(n: nat, base: nat)
    requires n <= INT_MAX && (base == 10 || base == 16)
    ensures |RevDigits(n, base)| <= 10
  {
    assert Pow(10, 10) == 100_0000_0000 by {
      assert Pow(10, 5) == 10_0000;
      assert Pow(10, 10) == 10 * (10 * (10 * (10 * (10 * Pow(10, 5)))));
    }
    assert Pow(16, 8) == 0x1_0000_0000 by {
      assert Pow(16, 4) == 0x1_0000;
      assert Pow(16, 8) == 16 * (16 * (16 * (16 * Pow(16, 4))));
    }
    RevDigitsShort(n, base, if base == 10 then 10 else 8);
  }
}
