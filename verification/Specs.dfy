/** Formats of a single directive, built from the parts of its grammar, and what they print. */
module Specs {
  import opened CString
  import opened Numerals
  import opened Format
  import opened Buffer
  import opened Directives

  /** A width or precision: none, a number, or a star that takes an int argument. */
  datatype Size = Unsized | Number(n: nat) | Star(word: Uint32)

  /** The parts of a directive; `point` tells whether there is a point, with or without a precision. */
  datatype Spec = Spec(flags: string, width: Size, point: bool, precision: Size, longs: nat, conv: char)

  predicate CanBeWritten(z: Size) {
    z.Number? ==> 0 < z.n < 0x8000_0000
  }

  /** Any flags in any order; numbers are not zero, because a zero is taken for a flag. */
  ghost predicate IsSpec(spec: Spec) {
    && |spec.flags| < 0x8000_0000 && spec.longs < 0x8000_0000
    && (forall k | 0 <= k < |spec.flags| :: spec.flags[k] in "-0#")
    && CanBeWritten(spec.width) && CanBeWritten(spec.precision) && (spec.precision != Unsized ==> spec.point)
    && spec.conv in "cesduopx"
  }

  // ----- The format as a string -----

  function Fill(c: char, n: int): (s: string)
    ensures |s| == if n < 0 then 0 else n
    ensures forall k | 0 <= k < |s| :: s[k] == c
  {
    if n <= 0 then "" else Fill(c, n - 1) + [c]
  }

  function SizeText(z: Size): string {
    match z
    case Unsized => ""
    case Number(n) => Digits(n, 10)
    case Star(_) => "*"
  }

  function PointText(spec: Spec): string {
    if spec.point then "." + SizeText(spec.precision) else ""
  }

  /** "%", flags, width, point and precision, any number of 'l', and the conversion. */
  function FormatOf(spec: Spec): string {
    "%" + (spec.flags + (SizeText(spec.width) + (PointText(spec) + (Fill('l', spec.longs) + [spec.conv, '\0']))))
  }

  function SizeArgs(z: Size): seq<Arg> {
    if z.Star? then [IntArg(z.word)] else []
  }

  /** The arguments of the stars, and then the one to print. */
  function ArgsOf(spec: Spec, a: Arg): seq<Arg> {
    SizeArgs(spec.width) + (SizeArgs(spec.precision) + [a])
  }

  // ----- What it means -----

  /** The characters that numbers and strings may be padded with: the last of the flags for that, else a space. */
  type Pad = c: char | c == ' ' || c == '0' || c == '-' witness ' '

  function PadOf(flags: string): Pad {
    if flags == "" then ' '
    else
      var last := flags[|flags| - 1];
      if last == '-' || last == '0' then last else PadOf(flags[..|flags| - 1])
  }

  lemma {:induction false} PadIs(flags: string)
    ensures PadOf(flags) == ' ' <==> '-' !in flags && '0' !in flags
    ensures forall k | 0 <= k < |flags| && flags[k] in "-0" :: (forall j | k < j < |flags| :: flags[j] == '#')
              ==> PadOf(flags) == flags[k]
  {
    if flags != "" {
      var rest, last := flags[..|flags| - 1], flags[|flags| - 1];
      PadIs(rest);
      assert flags == rest + [last];
      forall k | 0 <= k < |flags| && flags[k] in "-0" && forall j | k < j < |flags| :: flags[j] == '#'
        ensures PadOf(flags) == flags[k]
      {
        if k < |rest| {
          assert rest[k] == flags[k] && flags[|rest|] == '#';
          assert forall j | k < j < |rest| :: rest[j] == flags[j];
        }
      }
    }
  }

  function SizeValue(z: Size): Option<int> {
    match z
    case Unsized => None
    case Number(n) => Some(n)
    case Star(word) => Some(Int32(word))
  }

  function WidthOf(spec: Spec): int {
    var w := SizeValue(spec.width);
    if spec.point then (if w.None? || w.value < 0 then 0 else w.value) else if w.None? then -1 else w.value
  }

  function PrecisionOf(spec: Spec): int {
    var p := SizeValue(spec.precision);
    if p.None? then -1 else p.value
  }

  function FlagsOf(spec: Spec): Flags {
    Flags(PadOf(spec.flags), WidthOf(spec), PrecisionOf(spec), spec.longs, '#' in spec.flags)
  }

  /** A number is taken as it stands, a star by the int it finds.  Negative means none; only a point
      turns a negative width into zero, which makes no difference to what is printed. */
  lemma {:induction false} SizesMean(spec: Spec)
    requires IsSpec(spec)
    ensures match spec.width
      case Unsized => WidthOf(spec) <= 0
      case Number(n) => WidthOf(spec) == n
      case Star(word) => if word < 0x8000_0000 then WidthOf(spec) == word else WidthOf(spec) <= 0
    ensures match spec.precision
      case Unsized => PrecisionOf(spec) < 0
      case Number(n) => PrecisionOf(spec) == n
      case Star(word) => if word < 0x8000_0000 then PrecisionOf(spec) == word else PrecisionOf(spec) < 0
  {
  }

  // ----- The parts in the format -----

  /** What a string is made of, part after part. */
  lemma {:induction false} Peel(f: string, i: nat, p: string, rest: string)
    requires i <= |f| && f[i..] == p + rest
    ensures i + |p| <= |f| && f[i..i + |p|] == p && f[i + |p|..] == rest
  {
    var t := f[i..];
    assert t[..|p|] == p && t[|p|..] == rest;
    assert f[i..i + |p|] == t[..|p|] && f[i + |p|..] == t[|p|..];
  }

  function LayoutOf(spec: Spec): Layout {
    var w := 1 + |spec.flags|;
    var p := w + |SizeText(spec.width)|;
    var l := p + |PointText(spec)|;
    Layout(1, w, p, l, l + spec.longs)
  }

  lemma {:induction false} FormatParts(spec: Spec)
    ensures var f, at := FormatOf(spec), LayoutOf(spec);
      && |f| == at.conv + 2 && f[0] == '%' && f[at.flags..at.width] == spec.flags
      && f[at.width..at.precision] == SizeText(spec.width) && f[at.precision..at.longs] == PointText(spec)
      && f[at.longs..at.conv] == Fill('l', spec.longs) && f[at.conv] == spec.conv && f[at.conv + 1] == '\0'
  {
    var f, at := FormatOf(spec), LayoutOf(spec);
    SixParts(f, spec.flags, SizeText(spec.width), PointText(spec), Fill('l', spec.longs), [spec.conv, '\0']);
    assert f[at.conv..][0] == spec.conv && f[at.conv..][1] == '\0';
  }

  lemma {:induction false} SixParts(f: string, a: string, b: string, c: string, d: string, e: string)
    requires f == "%" + (a + (b + (c + (d + e))))
    ensures |f| == 1 + |a| + |b| + |c| + |d| + |e| && f[0] == '%'
    ensures var i := 1 + |a|; f[1..i] == a && f[i..i + |b|] == b
    ensures var j := 1 + |a| + |b|; f[j..j + |c|] == c && f[j + |c|..j + |c| + |d|] == d && f[j + |c| + |d|..] == e
  {
    assert f[0..] == f;
    Peel(f, 0, "%", a + (b + (c + (d + e))));
    ThreeParts(f, 1, a, b, c + (d + e));
    ThreeParts(f, 1 + |a| + |b|, c, d, e);
  }

  lemma {:induction false} ThreeParts(f: string, i: nat, p: string, q: string, rest: string)
    requires i <= |f| && f[i..] == p + (q + rest)
    ensures i + |p| + |q| <= |f| && f[i..i + |p|] == p && f[i + |p|..i + |p| + |q|] == q && f[i + |p| + |q|..] == rest
  {
    Peel(f, i, p, q + rest);
    Peel(f, i + |p|, q, rest);
  }

  /** Characters that can be in a string in memory before its terminator. */
  ghost predicate Safe(s: string) {
    forall k | 0 <= k < |s| :: s[k] != '\0' && s[k] as int < 256
  }

  lemma {:induction false} SafePart(f: string, i: nat, j: nat, p: string)
    requires i <= j <= |f| && f[i..j] == p && Safe(p)
    ensures forall k | i <= k < j :: f[k] != '\0' && f[k] as int < 256
  {
    assert forall k | i <= k < j :: f[k] == p[k - i];
  }

  lemma {:induction false} DigitsShort(n: nat)
    ensures |Digits(n, 10)| <= n + 1
  {
    if n >= 10 {
      DigitsShort(n / 10);
    }
  }

  lemma {:induction false} SizeTextIs(z: Size)
    requires CanBeWritten(z)
    ensures |SizeText(z)| <= 0x8000_0000 && forall k | 0 <= k < |SizeText(z)| :: SizeText(z)[k] in "0123456789*"
    ensures z.Number? ==>
      && |SizeText(z)| > 0 && SizeText(z)[0] != '0' && Value(SizeText(z), 10) == z.n
      && forall k | 0 <= k < |SizeText(z)| :: IsDecimal(SizeText(z)[k])
  {
    if z.Number? {
      DigitsDenote(z.n, 10);
      DigitsShort(z.n);
      forall k | 0 <= k < |SizeText(z)|
        ensures IsDecimal(SizeText(z)[k]) && SizeText(z)[k] in "0123456789*"
      {
        var v := DigitOf(SizeText(z)[k], 10);
        DigitCharacters(v);
      }
    }
  }

  lemma {:induction false} FormatIsCString(spec: Spec)
    requires IsSpec(spec)
    ensures IsCString(FormatOf(spec))
  {
    FormatParts(spec);
    PartsAreSafe(spec);
    PartsMakeCString(FormatOf(spec), LayoutOf(spec), spec.flags, SizeText(spec.width), PointText(spec),
                     Fill('l', spec.longs));
  }

  lemma {:induction false} PartsAreSafe(spec: Spec)
    requires IsSpec(spec)
    ensures Safe(spec.flags) && Safe(SizeText(spec.width)) && Safe(PointText(spec)) && Safe(Fill('l', spec.longs))
    ensures Safe([spec.conv]) && |FormatOf(spec)| < TWO63
  {
    SizeTextIs(spec.width);
    SizeTextIs(spec.precision);
  }

  lemma {:induction false} PartsMakeCString(f: string, at: Layout, a: string, b: string, c: string, d: string)
    requires 1 == at.flags <= at.width <= at.precision <= at.longs <= at.conv && |f| == at.conv + 2 < TWO63
    requires f[0] == '%' && f[at.flags..at.width] == a && f[at.width..at.precision] == b
    requires f[at.precision..at.longs] == c && f[at.longs..at.conv] == d && f[at.conv + 1] == '\0'
    requires Safe(a) && Safe(b) && Safe(c) && Safe(d) && Safe([f[at.conv]])
    ensures IsCString(f)
  {
    SafePart(f, at.flags, at.width, a);
    SafePart(f, at.width, at.precision, b);
    SafePart(f, at.precision, at.longs, c);
    SafePart(f, at.longs, at.conv, d);
    SafePart(f, at.conv, at.conv + 1, [f[at.conv]]);
  }

  // ----- The machine reads it as it is meant -----

  lemma {:induction false} SizeIsTaken(f: CStr, i: nat, j: nat, z: Size, args: seq<Arg>)
    requires i <= j < |f| && f[i..j] == SizeText(z) && CanBeWritten(z)
    ensures IsSize(f, i, j) && Take(f, i, j, SizeArgs(z) + args) == Taken(SizeValue(z), args)
  {
    SizeTextIs(z);
    var w := SizeText(z);
    assert forall k | i <= k < j :: f[k] == w[k - i];
    assert SizeArgs(Star(0)) == [IntArg(0)];
    if z.Star? {
      assert (SizeArgs(z) + args)[1..] == args;
    } else {
      assert SizeArgs(z) + args == args;
    }
  }

  lemma {:induction false} PadFlagIs(f: CStr, i: nat, j: nat, flags: string)
    requires i <= j < |f| && f[i..j] == flags
    ensures PadFlag(f, i, j) == PadOf(flags)
  {
    if i < j {
      assert f[i..j - 1] == flags[..|flags| - 1] && f[j - 1] == flags[|flags| - 1];
      PadFlagIs(f, i, j - 1, flags[..|flags| - 1]);
    }
  }

  lemma {:induction false} FlagsAreFlags(f: string, i: nat, j: nat, flags: string)
    requires i <= j <= |f| && f[i..j] == flags && forall k | 0 <= k < |flags| :: flags[k] in "-0#"
    ensures forall k | i <= k < j :: IsFlag(f[k])
  {
    assert forall k | i <= k < j :: f[k] == flags[k - i];
  }

  lemma {:induction false} EllsAreElls(f: string, i: nat, j: nat, n: nat)
    requires i <= j <= |f| && f[i..j] == Fill('l', n)
    ensures forall k | i <= k < j :: f[k] == 'l'
  {
    assert forall k | i <= k < j :: f[k] == Fill('l', n)[k - i];
  }

  lemma {:induction false} FlagsInFormat(spec: Spec)
    requires IsSpec(spec)
    ensures var f, at := FormatOf(spec), LayoutOf(spec);
      |f| == at.conv + 2 && f[at.conv] == spec.conv && forall k | at.flags <= k < at.width :: IsFlag(f[k])
  {
    FormatParts(spec);
    FlagsAreFlags(FormatOf(spec), 1, 1 + |spec.flags|, spec.flags);
  }

  lemma {:induction false} WidthInFormat(spec: Spec)
    requires IsSpec(spec) && IsCString(FormatOf(spec))
    ensures var f, at := FormatOf(spec), LayoutOf(spec); |f| == at.conv + 2 && IsSize(f, at.width, at.precision)
  {
    FormatParts(spec);
    SizeIsTaken(FormatOf(spec), LayoutOf(spec).width, LayoutOf(spec).precision, spec.width, []);
  }

  lemma {:induction false} PointInFormat(spec: Spec)
    requires IsSpec(spec) && IsCString(FormatOf(spec))
    ensures var f, at := FormatOf(spec), LayoutOf(spec);
      |f| == at.conv + 2 && (at.precision < at.longs ==> f[at.precision] == '.' && IsSize(f, at.precision + 1, at.longs))
  {
    FormatParts(spec);
    PrecisionIsSize(FormatOf(spec), LayoutOf(spec).precision, LayoutOf(spec).longs, spec);
  }

  lemma {:induction false} EllsInFormat(spec: Spec)
    requires IsSpec(spec)
    ensures var f, at := FormatOf(spec), LayoutOf(spec);
      |f| == at.conv + 2 && forall k | at.longs <= k < at.conv :: f[k] == 'l'
  {
    FormatParts(spec);
    EllsAreElls(FormatOf(spec), LayoutOf(spec).longs, LayoutOf(spec).conv, spec.longs);
  }

  lemma {:induction false} FormatIsDirective(spec: Spec)
    requires IsSpec(spec)
    ensures IsCString(FormatOf(spec)) && IsDirective(FormatOf(spec), LayoutOf(spec))
  {
    FormatIsCString(spec);
    FlagsInFormat(spec);
    WidthInFormat(spec);
    PointInFormat(spec);
    EllsInFormat(spec);
  }

  lemma {:induction false} PrecisionIsTaken(f: CStr, i: nat, j: nat, spec: Spec, args: seq<Arg>)
    requires spec.point && CanBeWritten(spec.precision) && i <= j < |f| && f[i..j] == PointText(spec)
    ensures i < j && f[i] == '.' && IsSize(f, i + 1, j)
    ensures Take(f, i + 1, j, SizeArgs(spec.precision) + args) == Taken(SizeValue(spec.precision), args)
  {
    assert f[i] == PointText(spec)[0];
    assert f[i + 1..j] == f[i..j][1..] == SizeText(spec.precision);
    SizeIsTaken(f, i + 1, j, spec.precision, args);
  }

  lemma {:induction false} PrecisionIsSize(f: CStr, i: nat, j: nat, spec: Spec)
    requires IsSpec(spec) && i <= j < |f| && f[i..j] == PointText(spec)
    ensures i < j ==> f[i] == '.' && IsSize(f, i + 1, j)
  {
    if spec.point {
      PrecisionIsTaken(f, i, j, spec, []);
    }
  }

  lemma {:induction false} FormatMeaning(spec: Spec, a: Arg)
    requires IsSpec(spec)
    ensures IsCString(FormatOf(spec))
    ensures var f, at := FormatOf(spec), LayoutOf(spec);
      IsDirective(f, at) && Meaning(f, at, ArgsOf(spec, a)) == Ends(at.conv, FlagsOf(spec), [a])
  {
    FormatIsDirective(spec);
    FormatParts(spec);
    PartsMean(FormatOf(spec), LayoutOf(spec), spec, a);
  }

  lemma {:induction false} PartsMean(f: CStr, at: Layout, spec: Spec, a: Arg)
    requires IsSpec(spec) && IsDirective(f, at) && at.conv - at.longs == spec.longs
    requires f[at.flags..at.width] == spec.flags && f[at.width..at.precision] == SizeText(spec.width)
    requires f[at.precision..at.longs] == PointText(spec)
    ensures Meaning(f, at, ArgsOf(spec, a)) == Ends(at.conv, FlagsOf(spec), [a])
  {
    SizeIsTaken(f, at.width, at.precision, spec.width, SizeArgs(spec.precision) + [a]);
    PrecisionTaken(f, at, spec, [a]);
    ParametersAre(f, at, spec);
  }

  lemma {:induction false} PrecisionTaken(f: CStr, at: Layout, spec: Spec, args: seq<Arg>)
    requires IsSpec(spec) && at.precision <= at.longs < |f| && f[at.precision..at.longs] == PointText(spec)
    ensures spec.point <==> at.precision < at.longs
    ensures TakePrecision(f, at, SizeArgs(spec.precision) + args) == Taken(SizeValue(spec.precision), args)
  {
    assert |f[at.precision..at.longs]| == at.longs - at.precision;
    if spec.point {
      PrecisionIsTaken(f, at.precision, at.longs, spec, args);
    } else {
      assert SizeArgs(spec.precision) + args == args;
    }
  }

  lemma {:induction false} ParametersAre(f: CStr, at: Layout, spec: Spec)
    requires IsDirective(f, at) && at.conv - at.longs == spec.longs && f[at.flags..at.width] == spec.flags
    requires spec.point <==> at.precision < at.longs
    ensures Parameters(f, at, SizeValue(spec.width), SizeValue(spec.precision)) == FlagsOf(spec)
  {
    PadFlagIs(f, at.flags, at.width, spec.flags);
    AltFlagIs(f, at.flags, at.width, spec.flags);
  }

  lemma {:induction false} AltFlagIs(f: CStr, i: nat, j: nat, flags: string)
    requires i <= j < |f| && f[i..j] == flags
    ensures AltFlag(f, i, j) <==> '#' in flags
  {
    if '#' in flags {
      var k :| 0 <= k < |flags| && flags[k] == '#';
      assert f[i + k] == '#';
    }
    if AltFlag(f, i, j) {
      var k :| i <= k < j && f[k] == '#';
      assert flags[k - i] == '#';
    }
  }

  /** Every such format prints its last argument, converted with the parameters its parts say. */
  lemma {:induction false} FormatMeans(spec: Spec, a: Arg)
    requires IsSpec(spec)
    ensures IsCString(FormatOf(spec)) && TakesArgument(spec.conv)
    ensures Render(FormatOf(spec), 0, ArgsOf(spec, a)) == Converted(spec.conv, FlagsOf(spec), a)
  {
    FormatMeaning(spec, a);
    FormatParts(spec);
    SoleDirective(FormatOf(spec), LayoutOf(spec), FlagsOf(spec), ArgsOf(spec, a), a);
  }

  /** A format of one directive and nothing else prints the converted argument. */
  lemma {:induction false} SoleDirective(f: CStr, at: Layout, fl: Flags, args: seq<Arg>, a: Arg)
    requires at.flags == 1 && IsDirective(f, at) && f[0] == '%' && Meaning(f, at, args) == Ends(at.conv, fl, [a])
    requires |f| == at.conv + 2 && f[at.conv + 1] == '\0'
    ensures Render(f, 0, args) == Converted(f[at.conv], fl, a)
  {
    DirectivePrints(f, 0, at, args);
    LastConversion(f, at.conv, fl, a);
  }

  lemma {:induction false} LastConversion(f: CStr, at: nat, fl: Flags, a: Arg)
    requires |f| == at + 2 && f[at + 1] == '\0' && TakesArgument(f[at])
    ensures Conversion(f, Ends(at, fl, [a])) == Converted(f[at], fl, a)
  {
    assert Render(f, at + 1, [a][1..]) == Some([]);
    NothingBehind(Converted(f[at], fl, a));
  }

  lemma {:induction false} NothingBehind(t: Option<seq<int>>)
    ensures t.Some? ==> Before(t.value, Some([])) == t
  {
    if t.Some? {
      assert t.value + [] == t.value;
    }
  }

  /** What the format prints for one argument, as it stands in a buffer. */
  ghost predicate Prints(spec: Spec, a: Arg, text: string) {
    IsSpec(spec) && IsCString(FormatOf(spec)) &&
    match Render(FormatOf(spec), 0, ArgsOf(spec, a))
    case None => false
    case Some(t) => Chars(t) == text
  }

  // ----- The conversions that print no number -----

  /** %c prints the low byte of its int, whatever the flags and sizes. */
  lemma {:induction false} CharPrints(x: Uint32, spec: Spec, text: string)
    requires spec.conv == 'c' && Prints(spec, IntArg(x), text)
    ensures |text| == 1 && text[0] as int == x % 256
  {
    FormatMeans(spec, IntArg(x));
    CharsAt([Int32(x)], 0);
    LowByte(x);
  }

  lemma {:induction false} LowByte(x: Uint32)
    ensures Int32(x) % 256 == x % 256
  {
    assert Int32(x) == x || Int32(x) == x - 256 * 0x100_0000;
  }

  /** The characters of a shown string, one by one: pad, the string's own or '?', and pad. */
  function ShownAt(s: CStr, fl: Flags, i: nat): char {
    var n := if 0 <= fl.precision < |s| - 1 then fl.precision else |s| - 1;
    var first := if fl.padc == '-' || fl.width <= n then 0 else fl.width - n;
    if i < first then fl.padc
    else if i >= first + n then ' '
    else if fl.altflag && (s[i - first] < ' ' || s[i - first] > '~') then '?' else s[i - first]
  }

  lemma {:induction false} StringTextAt(s: CStr, fl: Flags, i: nat)
    requires i < |StringText(s, fl)|
    ensures StringText(s, fl)[i] == ShownAt(s, fl, i) as int
  {
    StringTextShape(s, fl);
  }

  lemma {:induction false} StringCharAt(s: CStr, fl: Flags, i: nat)
    requires i < |StringText(s, fl)| && fl.padc as int < 256
    ensures Chars(StringText(s, fl))[i] == ShownAt(s, fl, i)
  {
    StringTextAt(s, fl, i);
    CharsAt(StringText(s, fl), i);
    ShownIsByte(s, fl, i);
  }

  lemma {:induction false} ShownIsByte(s: CStr, fl: Flags, i: nat)
    requires fl.padc as int < 256
    ensures ShownAt(s, fl, i) as int < 256
  {
  }

  lemma {:induction false} StringIsConverted(str: Option<CStr>, s: CStr, spec: Spec, text: string)
    requires spec.conv == 's' && Prints(spec, StrArg(str), text)
    requires s == if str.None? then "(null)\0" else str.value
    ensures text == Chars(StringText(s, FlagsOf(spec)))
  {
    FormatMeans(spec, StrArg(str));
  }

  /** A string cut by a precision and padded to a width. */
  ghost predicate IsShown(text: string, s: CStr, padc: char, width: int, precision: int, altflag: bool) {
    var n := if 0 <= precision < |s| - 1 then precision else |s| - 1;
    var pad := if width > n then width - n else 0;
    var first := if padc == '-' then 0 else pad;
    && |text| == n + pad
    && (forall i | 0 <= i < first :: text[i] == padc)
    && (forall i | first <= i < first + n :: text[i] ==
          var c := s[i - first]; if altflag && (c < ' ' || c > '~') then '?' else c)
    && (forall i | first + n <= i < |text| :: text[i] == ' ')
  }

  lemma {:induction false} IsShownIff(text: string, s: CStr, fl: Flags)
    requires var n := if 0 <= fl.precision < |s| - 1 then fl.precision else |s| - 1;
      |text| == n + if fl.width > n then fl.width - n else 0
    requires forall i | 0 <= i < |text| :: text[i] == ShownAt(s, fl, i)
    ensures IsShown(text, s, fl.padc, fl.width, fl.precision, fl.altflag)
  {
  }

  lemma {:induction false} StringChars(s: CStr, fl: Flags)
    requires fl.padc as int < 256
    ensures IsShown(Chars(StringText(s, fl)), s, fl.padc, fl.width, fl.precision, fl.altflag)
  {
    var text := Chars(StringText(s, fl));
    assert |text| == |StringText(s, fl)|;
    StringTextShape(s, fl);
    forall i | 0 <= i < |text|
      ensures text[i] == ShownAt(s, fl, i)
    {
      StringCharAt(s, fl, i);
    }
    IsShownIff(text, s, fl);
  }

  /** %s prints its string, or "(null)", cut by the precision and padded to the width: with the '-' flag
      by spaces behind it, else by pad characters before it. */
  lemma {:induction false} StringPrints(str: Option<CStr>, s: CStr, spec: Spec, text: string)
    requires spec.conv == 's' && Prints(spec, StrArg(str), text)
    requires s == if str.None? then "(null)\0" else str.value
    ensures IsShown(text, s, PadOf(spec.flags), WidthOf(spec), PrecisionOf(spec), '#' in spec.flags)
  {
    StringIsConverted(str, s, spec, text);
    StringChars(s, FlagsOf(spec));
  }

  /** %e prints the name of an error, or its number, alike for both signs, whatever the flags and sizes. */
  lemma {:induction false} ErrorPrints(x: Uint32, spec: Spec, text: string)
    requires spec.conv == 'e' && Prints(spec, IntArg(x), text)
    ensures var k := if x < 0x8000_0000 then x else 0x1_0000_0000 - x;
      text == ErrorLine(k)
  {
    ErrorIsConverted(x, spec, text);
    IntMagnitude(x);
    ErrorChars(Int32(x), if x < 0x8000_0000 then x else 0x1_0000_0000 - x);
  }

  lemma {:induction false} IntMagnitude(x: Uint32)
    ensures (if Int32(x) < 0 then -Int32(x) else Int32(x)) == if x < 0x8000_0000 then x else 0x1_0000_0000 - x
  {
  }

  lemma {:induction false} ErrorIsConverted(x: Uint32, spec: Spec, text: string)
    requires spec.conv == 'e' && Prints(spec, IntArg(x), text)
    ensures text == Chars(ErrorText(Int32(x)))
  {
    FormatMeans(spec, IntArg(x));
  }

  lemma {:induction false} ErrorChars(code: int, k: nat)
    requires k == if code < 0 then -code else code
    ensures Chars(ErrorText(code)) == ErrorLine(k)
  {
    ErrorTextIs(code);
    ErrorLineIsBytes(k);
    CharsOfCodes(ErrorLine(k));
  }

  lemma {:induction false} ErrorLineIsBytes(k: nat)
    ensures forall i | 0 <= i < |ErrorLine(k)| :: ErrorLine(k)[i] as int < 256
  {
    if k > MAXERROR || ErrorString(k) == "" {
      NumberIsBytes("error ", k);
    } else {
      ErrorStringIsPlain(k);
      PlainIsBytes(ErrorString(k));
    }
  }

  lemma {:induction false} PlainIsBytes(s: string)
    requires forall c | c in s :: c <= '~'
    ensures forall i | 0 <= i < |s| :: s[i] as int < 256
  {
    assert forall i | 0 <= i < |s| :: s[i] in s;
  }

  lemma {:induction false} NumberIsBytes(lead: string, k: nat)
    requires Safe(lead)
    ensures forall i | 0 <= i < |lead + Digits(k, 10)| :: (lead + Digits(k, 10))[i] as int < 256
  {
    DigitsDenote(k, 10);
    forall i | |lead| <= i < |lead + Digits(k, 10)|
      ensures (lead + Digits(k, 10))[i] as int < 256
    {
      var v := DigitOf(Digits(k, 10)[i - |lead|], 10);
      DigitCharacters(v);
    }
  }
}
