/** Reading a directive undoes spelling it. */
module FormatSpelling {
  import opened Bytes
  import opened Format

  /** A number in a directive: left out, written in digits, or a star that takes an argument. */
  datatype Num = Absent | Given(n: nat) | Star

  /** A directive as it stands after the percent sign. */
  datatype Spelling = Spelling(flags: string, width: Num, dot: bool, precision: Num, conv: char)

  function Spell(x: Num): string {
    match x
    case Absent => ""
    case Given(n) => Digits(n, 10)
    case Star => "*"
  }

  function SpellOut(s: Spelling): (t: string)
    ensures t != []
  {
    s.flags + Spell(s.width) + (if s.dot then "." + Spell(s.precision) else "") + [s.conv]
  }

  /** Only flags among the flags, no width 0, which would be one, no precision without a dot, and a conversion
      character that is no part of the rest. */
  predicate Sound(s: Spelling) {
    && (forall k :: 0 <= k < |s.flags| ==> s.flags[k] == '-' || s.flags[k] == '0')
    && s.width != Given(0) && (!s.dot ==> s.precision == Absent)
    && !IsDigit(s.conv) && s.conv != '-' && s.conv != '*' && s.conv != '.'
  }

  function Stars(x: Num): nat {
    if x.Star? then 1 else 0
  }

  predicate Supplied(x: Num, args: seq<Arg>, a: nat) {
    x.Star? ==> HasInt(args, a)
  }

  /** Stars take their arguments in order, the width's first. */
  predicate StarsSupplied(s: Spelling, args: seq<Arg>, a: nat) {
    Supplied(s.width, args, a) && Supplied(s.precision, args, a + Stars(s.width))
  }

  function Meant(x: Num, args: seq<Arg>, a: nat): int
    requires Supplied(x, args, a)
  {
    match x
    case Absent => 0
    case Given(n) => n
    case Star => args[a].n
  }

  /** The directive a spelling stands for: no dot is precision -1, a bare dot precision 0. */
  function Spelt(s: Spelling, args: seq<Arg>, a: nat): Directive
    requires StarsSupplied(s, args, a)
  {
    Directive('-' in s.flags, '0' in s.flags, Meant(s.width, args, a),
              if s.dot then Meant(s.precision, args, a + Stars(s.width)) else -1, s.conv)
  }

  // ----- The pieces

  lemma {:induction false} FlagsEnd(fmt: string, i: nat, j: nat)
    requires i <= j < |fmt| && forall k :: i <= k < j ==> fmt[k] == '-' || fmt[k] == '0'
    requires fmt[j] != '-' && fmt[j] != '0'
    ensures SkipFlags(fmt, i) == j
    decreases j - i
  {
    if i < j {
      FlagsEnd(fmt, i + 1, j);
    }
  }

  lemma {:induction false} DigitsEnd(fmt: string, i: nat, j: nat)
    requires i <= j < |fmt| && (forall k :: i <= k < j ==> IsDigit(fmt[k])) && !IsDigit(fmt[j])
    ensures SkipDigits(fmt, i) == j
    decreases j - i
  {
    if i < j {
      DigitsEnd(fmt, i + 1, j);
    }
  }

  lemma {:induction false} NumberIsValue(s: string)
    requires forall k :: 0 <= k < |s| ==> IsDigit(s[k])
    ensures AllHex(s) && Number(s) == Value(s, 10)
  {
    if s != [] {
      NumberIsValue(s[..|s| - 1]);
    }
  }

  lemma {:induction false} RevDecimal(n: nat)
    ensures forall k :: 0 <= k < |Rev(RevDigits(n, 10))| ==> IsDigit(Rev(RevDigits(n, 10))[k])
  {
    hide DigitChar, Rev, RevDigits;
    if n > 0 {
      RevDecimal(n / 10);
      RevNext(n, 10);
      DigitCharMeans(n % 10);
    } else {
      NoDigits(10);
    }
  }

  /** The decimal digits of a number denote it. */
  lemma DigitsDenote(n: nat)
    ensures var s := Digits(n, 10);
            && s != [] && (forall k :: 0 <= k < |s| ==> IsDigit(s[k]))
            && Number(s) == n && (n > 0 ==> s[0] != '0')
  {
    RevDecimal(n);
    DigitsMean(n, 10);
    NumberIsValue(Digits(n, 10));
  }

  /** A number field at i, with what follows it. */
  lemma FieldEnds(fmt: string, i: nat, x: Num, args: seq<Arg>, a: nat)
    requires Supplied(x, args, a) && i + |Spell(x)| < |fmt| && fmt[i..i + |Spell(x)|] == Spell(x)
    requires !IsDigit(fmt[i + |Spell(x)|]) && (x.Absent? ==> fmt[i] != '*')
    ensures ParseField(fmt, i, args, a, 0) == Format.Field(Meant(x, args, a), i + |Spell(x)|, Stars(x))
  {
    hide Digits, Number;
    var t, j := Spell(x), i + |Spell(x)|;
    if x.Given? {
      DigitsDenote(x.n);
      forall k | i <= k < j ensures IsDigit(fmt[k]) {
        assert fmt[i..j][k - i] == fmt[k];
      }
      DigitsEnd(fmt, i, j);
    } else if x.Star? {
      assert fmt[i..j][0] == fmt[i];
    }
  }

  /** Where a number field is the first thing after the flags, no flag stands. */
  lemma NoFlag(fmt: string, i: nat, x: Num)
    requires i + |Spell(x)| < |fmt| && fmt[i..i + |Spell(x)|] == Spell(x) && x != Given(0)
    requires x.Absent? ==> fmt[i] != '-' && fmt[i] != '0'
    ensures fmt[i] != '-' && fmt[i] != '0'
  {
    hide Digits;
    if x.Given? {
      DigitsDenote(x.n);
    }
    if !x.Absent? {
      assert fmt[i..i + |Spell(x)|][0] == fmt[i];
    }
  }

  lemma FlagsAre(fmt: string, i: nat, j: nat, flags: string)
    requires i <= j <= |fmt| && fmt[i..j] == flags
    requires forall k :: 0 <= k < |flags| ==> flags[k] == '-' || flags[k] == '0'
    ensures forall k :: i <= k < j ==> fmt[k] == '-' || fmt[k] == '0'
  {
    forall k | i <= k < j ensures fmt[k] == flags[k - i] {
    }
  }

  /** An absent number begins with what follows it. */
  lemma Starts(fmt: string, i: nat, x: Num, next: char)
    requires i + |Spell(x)| < |fmt| && fmt[i + |Spell(x)|] == next
    ensures x.Absent? ==> fmt[i] == next
  {
  }

  lemma StarAt(fmt: string, i: nat, x: Num)
    requires i + |Spell(x)| < |fmt| && fmt[i..i + |Spell(x)|] == Spell(x) && (x.Absent? ==> fmt[i] != '*')
    ensures fmt[i] == '*' ==> x.Star?
  {
    hide Digits;
    if x.Given? {
      DigitsDenote(x.n);
      assert fmt[i..i + |Spell(x)|][0] == fmt[i];
    }
  }

  /** The spelling stands in the format at i: its flags, its width, and the rest behind them. */
  ghost predicate Stands(fmt: string, i: nat, s: Spelling) {
    var j := i + |s.flags|;
    var k := j + |Spell(s.width)|;
    var q := k + 1 + |Spell(s.precision)|;
    && k < |fmt| && fmt[i..j] == s.flags && fmt[j..k] == Spell(s.width)
    && if s.dot then q < |fmt| && fmt[k] == '.' && fmt[k + 1..q] == Spell(s.precision) && fmt[q] == s.conv
       else fmt[k] == s.conv
  }

  lemma SpellingStands(before: string, s: Spelling, after: string)
    requires Sound(s)
    ensures Stands(before + SpellOut(s) + after, |before|, s)
  {
    hide Spell;
    var fmt, i := before + SpellOut(s) + after, |before|;
    var w, p := Spell(s.width), Spell(s.precision);
    var j := i + |s.flags|;
    assert fmt[i..j] == s.flags && fmt[j..j + |w|] == w;
    if s.dot {
      var k := j + |w|;
      assert fmt[k] == '.' && fmt[k + 1..k + 1 + |p|] == p && fmt[k + 1 + |p|] == s.conv;
    }
  }

  lemma WidthStands(fmt: string, i: nat, s: Spelling, args: seq<Arg>, a: nat)
    requires Sound(s) && Supplied(s.width, args, a) && Stands(fmt, i, s)
    ensures var j := i + |s.flags|;
            && SkipFlags(fmt, i) == j && (fmt[j] == '*' ==> HasInt(args, a))
            && ParseField(fmt, j, args, a, 0)
               == Format.Field(Meant(s.width, args, a), j + |Spell(s.width)|, Stars(s.width))
  {
    hide ParseField, SkipFlags, Spell;
    var j := i + |s.flags|;
    Starts(fmt, j, s.width, if s.dot then '.' else s.conv);
    NoFlag(fmt, j, s.width);
    FlagsAre(fmt, i, j, s.flags);
    FlagsEnd(fmt, i, j);
    FieldEnds(fmt, j, s.width, args, a);
    StarAt(fmt, j, s.width);
  }

  lemma PrecisionStands(fmt: string, i: nat, s: Spelling, args: seq<Arg>, a: nat)
    requires Sound(s) && s.dot && Supplied(s.precision, args, a) && Stands(fmt, i, s)
    ensures var k := i + |s.flags| + |Spell(s.width)|;
            && (fmt[k + 1] == '*' ==> HasInt(args, a))
            && ParseField(fmt, k + 1, args, a, 0)
               == Format.Field(Meant(s.precision, args, a), k + 1 + |Spell(s.precision)|, Stars(s.precision))
  {
    hide ParseField, Spell;
    var k := i + |s.flags| + |Spell(s.width)|;
    Starts(fmt, k + 1, s.precision, s.conv);
    FieldEnds(fmt, k + 1, s.precision, args, a);
    StarAt(fmt, k + 1, s.precision);
  }

  /** Parsing any spelling, wherever it stands, gives its directive and ends behind it. */
  lemma ParseSpelled(before: string, s: Spelling, after: string, args: seq<Arg>, a: nat)
    requires Sound(s) && StarsSupplied(s, args, a)
    ensures var fmt, i := before + SpellOut(s) + after, |before|;
            && Parse(fmt, i, args, a)
               == Some(Parsed(Spelt(s, args, a), i + |SpellOut(s)|, Stars(s.width) + Stars(s.precision)))
            && StarsFit(fmt, i, args, a)
  {
    hide ParseField, SkipFlags, Spell;
    var fmt, i := before + SpellOut(s) + after, |before|;
    SpellingStands(before, s, after);
    WidthStands(fmt, i, s, args, a);
    if s.dot {
      PrecisionStands(fmt, i, s, args, a + Stars(s.width));
    }
  }

  // ----- Rendering what was spelled

  /** The numbers and the argument of the directive are such as the formatter can print. */
  predicate Printable(s: Spelling, args: seq<Arg>, a: nat) {
    && Sound(s) && StarsSupplied(s, args, a)
    && var d := Spelt(s, args, a);
    && ArgFits(d.conv, args, a + Stars(s.width) + Stars(s.precision))
    && (d.conv in "dxX" ==> d.precision <= BUFFER)
    && d.precision <= INT_MAX && d.width <= INT_MAX
  }

  lemma CharacterStep(fmt: string, i: nat, args: seq<Arg>, a: nat)
    requires i < |fmt| && fmt[i] != '%' && Renderable(fmt, i + 1, args, a)
    ensures Renderable(fmt, i, args, a) && Render(fmt, i, args, a) == [fmt[i]] + Render(fmt, i + 1, args, a)
  {
    hide Parse, Text, StarsFit, ArgFits;
  }

  lemma PercentStep(fmt: string, i: nat, args: seq<Arg>, a: nat, d: Directive, next: nat, used: nat)
    requires i < |fmt| && fmt[i] == '%' && i + 1 < next <= |fmt|
    requires Parse(fmt, i + 1, args, a) == Some(Parsed(d, next, used)) && StarsFit(fmt, i + 1, args, a)
    requires ArgFits(d.conv, args, a + used) && (d.conv in "dxX" ==> d.precision <= BUFFER)
    requires d.precision <= INT_MAX && d.width <= INT_MAX
    requires Renderable(fmt, next, args, a + used + ArgCount(d.conv))
    ensures Renderable(fmt, i, args, a)
    ensures Render(fmt, i, args, a) == Text(d, args, a + used) + Render(fmt, next, args, a + used + ArgCount(d.conv))
  {
    hide Parse, Text, StarsFit, ArgFits;
  }

  /** A directive in a format renders to its text, and the rest follows with the arguments that are left. */
  lemma DirectiveRenders(before: string, s: Spelling, after: string, args: seq<Arg>, a: nat)
    requires Printable(s, args, a)
    ensures var fmt := before + "%" + SpellOut(s) + after;
            var b, next := a + Stars(s.width) + Stars(s.precision), |before| + 1 + |SpellOut(s)|;
            Renderable(fmt, next, args, b + ArgCount(s.conv)) ==>
              && Renderable(fmt, |before|, args, a)
              && Render(fmt, |before|, args, a)
                 == Text(Spelt(s, args, a), args, b) + Render(fmt, next, args, b + ArgCount(s.conv))
  {
    hide Parse, Text, StarsFit, Spell, ArgFits, Renderable, Render, SpellOut, Sound;
    var fmt, used := before + "%" + SpellOut(s) + after, Stars(s.width) + Stars(s.precision);
    var next := |before| + 1 + |SpellOut(s)|;
    ParseSpelled(before + "%", s, after, args, a);
    if Renderable(fmt, next, args, a + used + ArgCount(s.conv)) {
      PercentStep(fmt, |before|, args, a, Spelt(s, args, a), next, used);
    }
  }

  /** Text without a percent sign renders to itself. */
  lemma {:induction false} PlainRenders(fmt: string, i: nat, j: nat, args: seq<Arg>, a: nat)
    requires i <= j <= |fmt| && (forall k :: i <= k < j ==> fmt[k] != '%') && Renderable(fmt, j, args, a)
    ensures Renderable(fmt, i, args, a) && Render(fmt, i, args, a) == fmt[i..j] + Render(fmt, j, args, a)
    decreases j - i
  {
    hide Renderable, Render;
    if i < j {
      PlainRenders(fmt, i + 1, j, args, a);
      CharacterStep(fmt, i, args, a);
      Onward(fmt, i, j, Render(fmt, j, args, a));
    } else {
      assert fmt[i..j] == "" && "" + Render(fmt, j, args, a) == Render(fmt, j, args, a);
    }
  }

  lemma Onward(fmt: string, i: nat, j: nat, rest: string)
    requires i < j <= |fmt|
    ensures [fmt[i]] + (fmt[i + 1..j] + rest) == fmt[i..j] + rest
  {
    assert fmt[i..j] == [fmt[i]] + fmt[i + 1..j];
  }

  /** A format that is one directive. */
  lemma OneDirective(s: Spelling, args: seq<Arg>)
    requires Printable(s, args, 0)
    ensures var fmt, b := "%" + SpellOut(s), Stars(s.width) + Stars(s.precision);
            && Renderable(fmt, 0, args, 0) && Render(fmt, 0, args, 0) == Text(Spelt(s, args, 0), args, b)
            && Parse(fmt, 1, args, 0) == Some(Parsed(Spelt(s, args, 0), |fmt|, b))
  {
    hide Parse, Text, ArgFits, SpellOut;
    var fmt, b := "%" + SpellOut(s), Stars(s.width) + Stars(s.precision);
    assert "" + "%" + SpellOut(s) + "" == fmt && "%" + SpellOut(s) + "" == fmt;
    ParseSpelled("%", s, "", args, 0);
    DirectiveRenders("", s, "", args, 0);
    var text := Text(Spelt(s, args, 0), args, b);
    assert text + "" == text;
  }
}
