/** Numbers printed by the formatter and read back by strtol. */
module RoundTrip {
  import opened Arith
  import opened CString
  import opened Numerals
  import opened Format
  import opened Buffer
  import opened Specs
  import opened Strtol
  import opened Snprintf

  // ----- Printed numbers as strings -----

  function Padding(num: nat, base: nat, width: int, pad: Pad): string
    requires 2 <= base <= 16
  {
    Fill(pad, width - |Digits(num, base)|)
  }

  lemma {:induction false} RepeatIsFill(c: char, n: int)
    ensures Repeat(c, n) == Codes(Fill(c, n))
  {
    if n > 0 {
      RepeatIsFill(c, n - 1);
      CodesSnoc(Fill(c, n - 1), c);
    }
  }

  /** What printnum prints, as a string. */
  lemma {:induction false} NumTextIs(num: nat, base: nat, width: int, pad: Pad)
    requires 2 <= base <= 16
    ensures NumText(num, base, width, pad) == Codes(Padding(num, base, width, pad) + Digits(num, base))
  {
    RepeatIsFill(pad, width - |Digits(num, base)|);
    CodesConcat(Padding(num, base, width, pad), Digits(num, base));
  }

  // ----- Reading a padded numeral -----

  lemma {:induction false} ZerosDoNotCount(n: int, s: string, base: int)
    ensures Value(Fill('0', n) + s, base) == Value(s, base)
  {
    if s == [] {
      assert Fill('0', n) + s == Fill('0', n);
      ZeroValue(n, base);
      assert Value([], base) == 0;
    } else {
      var t, c := s[..|s| - 1], s[|s| - 1];
      assert Fill('0', n) + s == (Fill('0', n) + t) + [c] && s == t + [c];
      ZerosDoNotCount(n, t, base);
      LastDigit(Fill('0', n) + t, c, base);
    }
  }

  lemma {:induction false} ZeroValue(n: int, base: int)
    ensures Value(Fill('0', n), base) == 0
  {
    if n > 0 {
      ZeroValue(n - 1, base);
      LastDigit(Fill('0', n - 1), '0', base);
    }
  }

  /** No letter of a numeral is an x, a blank or a sign. */
  lemma {:induction false} DigitCharactersOnly(num: nat, base: nat, k: nat)
    requires 2 <= base <= 16 && k < |Digits(num, base)|
    ensures var c := Digits(num, base)[k];
      IsDigit(c, base) && !IsBlank(c) && !IsSign(c) && c != 'x' && c != '\0' && c as int < 256
  {
    DigitsDenote(num, base);
    var c := Digits(num, base)[k];
    var v := DigitOf(c, base);
    DigitCharacters(v);
  }

  /** Digits of the base that cannot be taken for blanks, a sign or a prefix. */
  ghost predicate Plain(d: string, base: int) {
    |d| > 0 && forall k | 0 <= k < |d| :: IsDigit(d[k], base) && !IsBlank(d[k]) && !IsSign(d[k]) && d[k] != 'x'
  }

  lemma {:induction false} ZerosAndDigits(zeros: nat, num: nat, base: nat)
    requires 2 <= base <= 16
    ensures var d := Fill('0', zeros) + Digits(num, base);
      Plain(d, base) && Value(d, base) == num
  {
    var d := Fill('0', zeros) + Digits(num, base);
    forall k | 0 <= k < |d|
      ensures IsDigit(d[k], base) && !IsBlank(d[k]) && !IsSign(d[k]) && d[k] != 'x'
    {
      if k >= zeros {
        DigitCharactersOnly(num, base, k - zeros);
      }
    }
    ZerosDoNotCount(zeros, Digits(num, base), base);
    DigitsDenote(num, base);
  }

  lemma {:induction false} Behind(s: string, lead: string, d: string)
    requires s == lead + d + "\0" && |d| > 0
    ensures s[|lead|..|s| - 1] == d && |s| == |lead| + |d| + 1 && s[|s| - 1] == '\0'
    ensures forall k | |lead| <= k < |s| - 1 :: s[k] == d[k - |lead|]
    ensures forall k | 0 <= k < |lead| :: s[k] == lead[k]
  {
  }

  /** What stands behind a lead, when it is a numeral: its digits, and no sign, blank or prefix. */
  lemma {:induction false} NumeralBehind(s: string, lead: string, d: string, base: int)
    requires s == lead + d + "\0" && Plain(d, base)
    ensures s[|lead|..|s| - 1] == d && |lead| < |s| - 1 && !IsBlank(s[|lead|]) && !IsSign(s[|lead|])
    ensures s[|lead| + 1] != 'x' && s[|s| - 1] == '\0'
    ensures forall k | |lead| <= k < |s| - 1 :: IsDigit(s[k], base)
    ensures forall k | 0 <= k < |lead| :: s[k] == lead[k]
  {
    Behind(s, lead, d);
    assert s[|lead|] == d[0];
    assert |d| > 1 ==> s[|lead| + 1] == d[1];
    forall k | |lead| <= k < |s| - 1
      ensures IsDigit(s[k], base)
    {
      assert s[k] == d[k - |lead|];
    }
  }

  /** A sign or none and digits: all of it is read, for a base given explicitly. */
  lemma {:induction false} ReadsSigned(s: CStr, neg: bool, d: string, base: int)
    requires base != 0 && Plain(d, base) && s == (if neg then "-" else "") + d + "\0"
    ensures var first := if neg then 1 else 0;
      var r := Reading(0, first, base, first, |s| - 1);
      Reads(s, base, false, r) && Result(s, r) == Int64(if neg then -Value(d, base) else Value(d, base))
  {
    NumeralBehind(s, if neg then "-" else "", d, base);
  }

  /** Spaces first are skipped. */
  lemma {:induction false} ReadsAfterSpaces(s: CStr, spaces: nat, d: string, base: int)
    requires base != 0 && Plain(d, base) && s == Fill(' ', spaces) + d + "\0"
    ensures var r := Reading(spaces, spaces, base, spaces, |s| - 1);
      Reads(s, base, false, r) && Result(s, r) == Int64(Value(d, base))
  {
    NumeralBehind(s, Fill(' ', spaces), d, base);
  }

  /** Behind a hexadecimal prefix digits are read in base 16, whether that base is given or not. */
  lemma {:induction false} ReadsPrefixed(s: CStr, d: string, base: int)
    requires (base == 0 || base == 16) && Plain(d, 16) && s == "0x" + d + "\0"
    ensures var r := Reading(0, 0, 16, 2, |s| - 1);
      Reads(s, base, false, r) && Result(s, r) == Int64(Value(d, 16))
  {
    NumeralBehind(s, "0x", d, 16);
    assert s[0] == '0' && s[1] == 'x';
  }

  /** A space or a second '-' behind the sign ends the numeral before it has begun. */
  lemma {:induction false} PadAfterSign(s: CStr, pad: Pad, n: nat, d: string, base: int)
    requires pad != '0' && n > 0 && |d| > 0 && base != 0 && s == "-" + (Fill(pad, n) + d) + "\0"
    ensures var r := Reading(0, 1, base, 1, 1);
      Reads(s, base, false, r) && Result(s, r) == 0
  {
    Behind(s, "-", Fill(pad, n) + d);
    assert s[1] == pad && DigitValue(pad) == -1;
    assert s[1..1] == [];
    assert Value([], base) == 0;
  }

  /** And so does one behind a prefix. */
  lemma {:induction false} PadAfterPrefix(s: CStr, base: int, pad: Pad, n: nat, d: string)
    requires pad != '0' && n > 0 && |d| > 0
    requires (base == 0 || base == 16) && s == "0x" + (Fill(pad, n) + d) + "\0"
    ensures var r := Reading(0, 0, 16, 2, 2);
      Reads(s, base, false, r) && Result(s, r) == 0
  {
    Behind(s, "0x", Fill(pad, n) + d);
    assert s[2] == pad && DigitValue(pad) == -1;
    assert s[2..2] == [];
    assert Value([], 16) == 0;
  }

  // ----- The printed texts -----

  lemma {:induction false} DigitsFitBits(n: nat, base: nat, k: nat)
    requires 2 <= base <= 16 && k >= 1 && n < Pow2(k)
    ensures |Digits(n, base)| <= k
  {
    if n >= base {
      Shrinks(n, base);
      Recompose(n, base);
      HalfOrLess(n, base);
      assert k > 1 by { assert Pow2(1) == 2 * Pow2(0) == 2; }
      DigitsFitBits(n / base, base, k - 1);
    }
  }

  lemma {:induction false} HalfOrLess(n: nat, base: nat)
    requires base >= 2
    ensures 2 * (n / base) <= n
  {
    Recompose(n, base);
    var q := n / base;
    assert q * base == q * (base - 2) + 2 * q && q * (base - 2) >= 0;
  }

  lemma {:induction false} WordDigits(n: Uint64, base: nat)
    requires 2 <= base <= 16
    ensures |Digits(n, base)| <= 64
  {
    Pow2Of64();
    DigitsFitBits(n, base, 64);
  }

  /** A short lead, the padding and the digits. */
  function NumberText(lead: string, num: nat, base: nat, width: nat, pad: Pad): string
    requires 2 <= base <= 16
  {
    lead + (Padding(num, base, width, pad) + Digits(num, base))
  }

  lemma {:induction false} NumberTextIsCString(lead: string, num: Uint64, base: nat, width: nat, pad: Pad)
    requires 2 <= base <= 16 && width < TWO31 && lead in {"", "-", "0x"}
    ensures IsCString(NumberText(lead, num, base, width, pad) + "\0")
  {
    WordDigits(num, base);
    var p, d, t := Padding(num, base, width, pad), Digits(num, base), NumberText(lead, num, base, width, pad);
    forall k | 0 <= k < |t|
      ensures (t + "\0")[k] as int < 256 && (t + "\0")[k] != '\0'
    {
      if k >= |lead| + |p| {
        DigitCharactersOnly(num, base, k - |lead| - |p|);
        assert t[k] == d[k - |lead| - |p|];
      } else if k >= |lead| {
        assert t[k] == p[k - |lead|];
      }
    }
  }

  /** The columns that a width stands for: none if it is negative. */
  function Columns(width: int): nat {
    if width < 0 then 0 else width
  }

  /** The number is printed behind its lead, as bytes. */
  lemma {:induction false} PrintedText(lead: string, num: Uint64, base: nat, width: int, pad: Pad)
    requires 2 <= base <= 16 && width < TWO31 && lead in {"", "-", "0x"}
    ensures Chars(Codes(lead) + NumText(num, base, width, pad)) == NumberText(lead, num, base, Columns(width), pad)
  {
    var w := Columns(width);
    assert NumText(num, base, width, pad) == NumText(num, base, w, pad);
    NumTextIs(num, base, w, pad);
    CodesConcat(lead, Padding(num, base, w, pad) + Digits(num, base));
    NumberTextIsCString(lead, num, base, w, pad);
    var t := NumberText(lead, num, base, w, pad);
    assert forall k | 0 <= k < |t| :: t[k] == (t + "\0")[k];
    CharsOfCodes(t);
  }

  // ----- The round trips -----

  /** strtol reads the whole text and returns `v`. */
  ghost predicate ReadsBack(text: string, base: int, v: int) {
    IsCString(text + "\0") &&
    exists r :: Reads(text + "\0", base, false, r) && r.end == |text| && Result(text + "\0", r) == v
  }

  lemma {:induction false} IsReadAs(text: string, base: int, r: Reading, v: int)
    requires IsCString(text + "\0") && Reads(text + "\0", base, false, r)
    ensures ReadsBack(text, base, v) <==> r.end == |text| && Result(text + "\0", r) == v
  {
    forall r' | Reads(text + "\0", base, false, r')
      ensures r' == r
    {
      ReadingIsUnique(text + "\0", base, false, r, r');
    }
  }

  function Signed(neg: bool, num: int): int {
    if neg then -num else num
  }

  /** The padding adds nothing but zeros. */
  ghost predicate OnlyZeros(num: nat, base: nat, width: nat, pad: Pad)
    requires 2 <= base <= 16
  {
    pad == '0' || width <= |Digits(num, base)|
  }

  lemma {:induction false} ZerosPrinted(num: nat, base: nat, width: nat, pad: Pad)
    requires 2 <= base <= 16 && OnlyZeros(num, base, width, pad)
    ensures var d := Padding(num, base, width, pad) + Digits(num, base);
      Plain(d, base) && Value(d, base) == num
  {
    var n := width - |Digits(num, base)|;
    assert Padding(num, base, width, pad) == Fill('0', if n < 0 then 0 else n);
    ZerosAndDigits(if n < 0 then 0 else n, num, base);
  }

  lemma {:induction false} PadsPrinted(num: nat, base: nat, width: nat, pad: Pad)
    requires 2 <= base <= 16 && !OnlyZeros(num, base, width, pad)
    ensures Padding(num, base, width, pad) == Fill(pad, width - |Digits(num, base)|)
    ensures Plain(Digits(num, base), base) && Value(Digits(num, base), base) == num
  {
    ZerosAndDigits(0, num, base);
    assert Fill('0', 0) + Digits(num, base) == Digits(num, base);
  }

  lemma {:induction false} WholeIsRead(neg: bool, d: string, base: int)
    requires base != 0 && Plain(d, base) && IsCString((if neg then "-" else "") + d + "\0")
    ensures ReadsBack((if neg then "-" else "") + d, base, Int64(Signed(neg, Value(d, base))))
  {
    var first, text := if neg then 1 else 0, (if neg then "-" else "") + d;
    ReadsSigned(text + "\0", neg, d, base);
    IsReadAs(text, base, Reading(0, first, base, first, |text|), Int64(Signed(neg, Value(d, base))));
  }

  lemma {:induction false} ZeroPaddedReadsBack(neg: bool, num: Uint64, base: nat, width: nat, pad: Pad)
    requires 2 <= base <= 16 && width < TWO31 && OnlyZeros(num, base, width, pad)
    ensures ReadsBack(NumberText(if neg then "-" else "", num, base, width, pad), base, Int64(Signed(neg, num)))
  {
    NumberTextIsCString(if neg then "-" else "", num, base, width, pad);
    ZerosPrinted(num, base, width, pad);
    WholeIsRead(neg, Padding(num, base, width, pad) + Digits(num, base), base);
  }

  lemma {:induction false} SpacePaddedReadsBack(num: Uint64, base: nat, width: nat)
    requires 2 <= base <= 16 && width < TWO31 && !OnlyZeros(num, base, width, ' ')
    ensures ReadsBack(NumberText("", num, base, width, ' '), base, Int64(num))
  {
    var d := Digits(num, base);
    var n := width - |d|;
    var text := NumberText("", num, base, width, ' ');
    NumberTextIsCString("", num, base, width, ' ');
    PadsPrinted(num, base, width, ' ');
    assert text == Fill(' ', n) + d;
    ReadsAfterSpaces(text + "\0", n, d, base);
    IsReadAs(text, base, Reading(n, n, base, n, |text|), Int64(num));
  }

  /** Only 0 and 2^63 are their own negations modulo 2^64. */
  lemma {:induction false} OwnNegation(num: int)
    requires 0 <= num < TWO64
    ensures Int64(-num) == Int64(num) <==> num == 0 || num == TWO63
  {
  }

  /** A numeral behind a '-' that was only padding is read as its negation. */
  lemma {:induction false} SignOfPadding(text: string, d: string, num: Uint64, base: int)
    requires base != 0 && text == "-" + d && IsCString(text + "\0") && Plain(d, base) && Value(d, base) == num
    ensures ReadsBack(text, base, Int64(num)) <==> num == 0 || num == TWO63
  {
    ReadsSigned(text + "\0", true, d, base);
    IsReadAs(text, base, Reading(0, 1, base, 1, |text|), Int64(num));
    OwnNegation(num);
  }

  lemma {:induction false} PadAfterSignIsLost(text: string, pad: Pad, n: nat, d: string, base: int, v: int)
    requires pad != '0' && n > 0 && |d| > 0 && base != 0
    requires text == "-" + (Fill(pad, n) + d) && IsCString(text + "\0")
    ensures !ReadsBack(text, base, v)
  {
    PadAfterSign(text + "\0", pad, n, d, base);
    IsReadAs(text, base, Reading(0, 1, base, 1, 1), v);
  }

  lemma {:induction false} DashFirst(n: nat, d: string)
    requires n > 0
    ensures Fill('-', n) + d == "-" + (Fill('-', n - 1) + d)
    ensures n == 1 ==> Fill('-', n) + d == "-" + d
  {
    assert Fill('-', n) == "-" + Fill('-', n - 1);
  }

  /** A number padded with '-' is read as negative, if it is read at all. */
  lemma {:induction false} DashPaddedReadsBackIff(num: Uint64, base: nat, width: nat)
    requires 2 <= base <= 16 && width < TWO31 && !OnlyZeros(num, base, width, '-')
    ensures ReadsBack(NumberText("", num, base, width, '-'), base, Int64(num))
       <==> width == |Digits(num, base)| + 1 && (num == 0 || num == TWO63)
  {
    var d, text := Digits(num, base), NumberText("", num, base, width, '-');
    var n := width - |d|;
    NumberTextIsCString("", num, base, width, '-');
    PadsPrinted(num, base, width, '-');
    DashFirst(n, d);
    NoLeadText(Fill('-', n) + d);
    if n == 1 {
      SignOfPadding(text, d, num, base);
    } else {
      PadAfterSignIsLost(text, '-', n - 1, d, base, Int64(num));
    }
  }

  lemma {:induction false} NoLeadText(s: string)
    ensures "" + s == s
  {
  }

  lemma {:induction false} PaddedNegativeIsLost(num: Uint64, width: nat, pad: Pad, v: int)
    requires width < TWO31 && !OnlyZeros(num, 10, width, pad)
    ensures !ReadsBack(NumberText("-", num, 10, width, pad), 10, v)
  {
    NumberTextIsCString("-", num, 10, width, pad);
    PadsPrinted(num, 10, width, pad);
    PadAfterSignIsLost(NumberText("-", num, 10, width, pad), pad, width - |Digits(num, 10)|, Digits(num, 10), 10, v);
  }

  lemma {:induction false} PrefixedReadsBackIff(num: Uint64, base: nat, width: nat, pad: Pad)
    requires (base == 0 || base == 16) && width < TWO31
    ensures ReadsBack(NumberText("0x", num, 16, width, pad), base, Int64(num)) <==> OnlyZeros(num, 16, width, pad)
  {
    var text := NumberText("0x", num, 16, width, pad);
    NumberTextIsCString("0x", num, 16, width, pad);
    if OnlyZeros(num, 16, width, pad) {
      ZerosPrinted(num, 16, width, pad);
      ReadsPrefixed(text + "\0", Padding(num, 16, width, pad) + Digits(num, 16), base);
      IsReadAs(text, base, Reading(0, 0, 16, 2, |text|), Int64(num));
    } else {
      PadsPrinted(num, 16, width, pad);
      PadAfterPrefix(text + "\0", base, pad, width - |Digits(num, 16)|, Digits(num, 16));
      IsReadAs(text, base, Reading(0, 0, 16, 2, 2), Int64(num));
    }
  }

  lemma {:induction false} SignedReadsBackIff(neg: bool, num: Uint64, width: nat, pad: Pad)
    requires width < TWO31 && (neg ==> num > 0) && Int64(Signed(neg, num)) == Signed(neg, num)
    ensures ReadsBack(NumberText(if neg then "-" else "", num, 10, width, pad), 10, Signed(neg, num))
       <==> OnlyZeros(num, 10, width, pad) || (if pad == ' ' then !neg else num == 0 && width == 2)
  {
    if OnlyZeros(num, 10, width, pad) {
      ZeroPaddedReadsBack(neg, num, 10, width, pad);
    } else if neg {
      PaddedNegativeIsLost(num, width, pad, Signed(neg, num));
    } else if pad == ' ' {
      SpacePaddedReadsBack(num, 10, width);
    } else {
      DashPaddedReadsBackIff(num, 10, width);
    }
  }

  lemma {:induction false} UnsignedReadsBackIff(num: Uint64, base: nat, width: nat, pad: Pad)
    requires base == 8 || base == 10 || base == 16
    requires width < TWO31
    ensures ReadsBack(NumberText("", num, base, width, pad), base, Int64(num))
       <==> OnlyZeros(num, base, width, pad) || pad == ' '
            || (width == |Digits(num, base)| + 1 && (num == 0 || num == TWO63))
  {
    if OnlyZeros(num, base, width, pad) {
      ZeroPaddedReadsBack(false, num, base, width, pad);
    } else if pad == ' ' {
      SpacePaddedReadsBack(num, base, width);
    } else {
      DashPaddedReadsBackIff(num, base, width);
    }
  }

  // ----- Through the formatter -----

  lemma {:induction false} WidthFits(spec: Spec)
    requires IsSpec(spec)
    ensures WidthOf(spec) < TWO31
  {
  }

  lemma {:induction false} PrintsSigned(a: Arg, neg: bool, num: Uint64, spec: Spec)
    requires IsSpec(spec) && spec.conv == 'd' && SignedArg(a, spec.longs) == Some(Signed(neg, num)) && (neg ==> num > 0)
    ensures Prints(spec, a, NumberText(if neg then "-" else "", num, 10, Columns(WidthOf(spec)), PadOf(spec.flags)))
  {
    var w, pad := WidthOf(spec), PadOf(spec.flags);
    WidthFits(spec);
    FormatMeans(spec, a);
    assert Converted('d', FlagsOf(spec), a) == Some(SignedText(Signed(neg, num), w, pad));
    PrintedText(if neg then "-" else "", num, 10, w, pad);
    SignText(neg, num, w, pad);
  }

  lemma {:induction false} SignText(neg: bool, num: nat, width: int, padc: char)
    requires neg ==> num > 0
    ensures SignedText(Signed(neg, num), width, padc)
         == Codes(if neg then "-" else "") + NumText(num, 10, width, padc)
  {
    assert Codes("") == [];
  }

  /** The base of an unsigned conversion. */
  predicate ConvertsTo(conv: char, base: nat) {
    (conv == 'u' && base == 10) || (conv == 'o' && base == 8) || (conv == 'x' && base == 16)
  }

  lemma {:induction false} PrintsUnsigned(a: Arg, num: Uint64, base: nat, spec: Spec)
    requires IsSpec(spec) && ConvertsTo(spec.conv, base) && UnsignedArg(a, spec.longs) == Some(num)
    ensures Prints(spec, a, NumberText("", num, base, Columns(WidthOf(spec)), PadOf(spec.flags)))
  {
    var w, pad := WidthOf(spec), PadOf(spec.flags);
    WidthFits(spec);
    FormatMeans(spec, a);
    assert Converted(spec.conv, FlagsOf(spec), a) == Some(NumText(num, base, w, pad));
    PrintedText("", num, base, w, pad);
    NoLead(NumText(num, base, w, pad));
  }

  lemma {:induction false} NoLead(t: seq<int>)
    ensures Codes("") + t == t
  {
  }

  lemma {:induction false} PrintsPointer(x: Uint64, spec: Spec)
    requires IsSpec(spec) && spec.conv == 'p'
    ensures Prints(spec, PtrArg(x), NumberText("0x", x, 16, Columns(WidthOf(spec)), PadOf(spec.flags)))
  {
    WidthFits(spec);
    FormatMeans(spec, PtrArg(x));
    PrintedText("0x", x, 16, WidthOf(spec), PadOf(spec.flags));
  }

  function Magnitude(v: int): nat {
    if v < 0 then -v else v
  }

  lemma {:induction false} LongOf(x: Uint64)
    ensures -TWO63 <= Int64(x) < TWO63 && Int64(Int64(x)) == Int64(x)
    ensures Int64(x) == 0 <==> x == 0
  {
  }

  /** %ld, padded to any width, then strtol in base 10: every long comes back, and the whole text is
      read, exactly unless pad characters other than zeros stand where they hurt.  Spaces hurt
      between a minus sign and the digits; with the '-' flag, '-' always does, except in "-0". */
  lemma {:induction false} DecimalRoundTrip(x: Uint64, spec: Spec, text: string)
    requires spec.conv == 'd' && spec.longs > 0 && Prints(spec, LongArg(x), text)
    ensures var width, pad := WidthOf(spec), PadOf(spec.flags);
      ReadsBack(text, 10, Int64(x)) <==>
            || pad == '0' || width <= |Digits(Magnitude(Int64(x)), 10)|
            || (pad == ' ' && Int64(x) >= 0) || (pad == '-' && x == 0 && width == 2)
  {
    LongOf(x);
    SignedRoundTrip(LongArg(x), Int64(x), spec, text);
  }

  /** %d, for an int: the same, and what comes back is the int with its sign. */
  lemma {:induction false} IntRoundTrip(x: Uint32, spec: Spec, text: string)
    requires spec.conv == 'd' && spec.longs == 0 && Prints(spec, IntArg(x), text)
    ensures var v := if x < 0x8000_0000 then x else x - 0x1_0000_0000;
      var width, pad := WidthOf(spec), PadOf(spec.flags);
      ReadsBack(text, 10, v) <==>
            || pad == '0' || width <= |Digits(Magnitude(v), 10)|
            || (pad == ' ' && v >= 0) || (pad == '-' && v == 0 && width == 2)
  {
    IntOf(x);
    SignedRoundTrip(IntArg(x), Int32(x), spec, text);
  }

  lemma {:induction false} IntOf(x: Uint32)
    ensures Int32(x) == if x < 0x8000_0000 then x else x - 0x1_0000_0000
  {
  }

  lemma {:induction false} SignedRoundTrip(a: Arg, v: int, spec: Spec, text: string)
    requires spec.conv == 'd' && Prints(spec, a, text) && SignedArg(a, spec.longs) == Some(v) && -TWO63 <= v < TWO63
    ensures var width, pad := WidthOf(spec), PadOf(spec.flags);
      ReadsBack(text, 10, v) <==>
            || pad == '0' || width <= |Digits(Magnitude(v), 10)|
            || (pad == ' ' && v >= 0) || (pad == '-' && v == 0 && width == 2)
  {
    SignedTextIs(a, v, spec, text);
    WidthFits(spec);
    SignedReadsBack(v, WidthOf(spec), PadOf(spec.flags));
  }

  lemma {:induction false} SignedReadsBack(v: int, width: int, pad: Pad)
    requires width < TWO31 && -TWO63 <= v < TWO63
    ensures ReadsBack(NumberText(if v < 0 then "-" else "", Magnitude(v), 10, Columns(width), pad), 10, v) <==>
            || pad == '0' || width <= |Digits(Magnitude(v), 10)|
            || (pad == ' ' && v >= 0) || (pad == '-' && v == 0 && width == 2)
  {
    SignedReadsBackIff(v < 0, Magnitude(v), Columns(width), pad);
  }

  lemma {:induction false} NumberTextIs(lead: string, num: nat, base: nat, width: int, pad: Pad)
    requires 2 <= base <= 16
    ensures var d := Digits(num, base);
      NumberText(lead, num, base, Columns(width), pad) == lead + (Fill(pad, width - |d|) + d)
  {
    assert Padding(num, base, Columns(width), pad) == Fill(pad, width - |Digits(num, base)|);
  }

  lemma {:induction false} SignedTextIs(a: Arg, v: int, spec: Spec, text: string)
    requires spec.conv == 'd' && Prints(spec, a, text) && SignedArg(a, spec.longs) == Some(v) && -TWO63 <= v < TWO63
    ensures text == NumberText(if v < 0 then "-" else "", Magnitude(v), 10, Columns(WidthOf(spec)), PadOf(spec.flags))
  {
    PrintsSigned(a, v < 0, Magnitude(v), spec);
  }

  /** A sign or none, then the padding, then the digits: as many columns as the width, not counting the sign. */
  ghost predicate IsDecimalText(text: string, v: int, width: int, pad: Pad) {
    var d := Digits(if v < 0 then -v else v, 10);
    text == (if v < 0 then "-" else "") + (Fill(pad, width - |d|) + d)
  }

  lemma {:induction false} SignedNumberText(v: int, width: int, pad: Pad)
    ensures IsDecimalText(NumberText(if v < 0 then "-" else "", Magnitude(v), 10, Columns(width), pad), v, width, pad)
  {
    NumberTextIs(if v < 0 then "-" else "", Magnitude(v), 10, width, pad);
  }

  /** What %d and %ld print: a minus sign for a negative number, then the padding, then the digits. */
  lemma {:induction false} DecimalPrints(a: Arg, v: int, spec: Spec, text: string)
    requires spec.conv == 'd' && Prints(spec, a, text) && SignedArg(a, spec.longs) == Some(v) && -TWO63 <= v < TWO63
    ensures IsDecimalText(text, v, WidthOf(spec), PadOf(spec.flags))
  {
    SignedTextIs(a, v, spec, text);
    SignedNumberText(v, WidthOf(spec), PadOf(spec.flags));
  }

  lemma {:induction false} UnsignedTextIs(a: Arg, num: Uint64, base: nat, spec: Spec, text: string)
    requires ConvertsTo(spec.conv, base) && Prints(spec, a, text) && UnsignedArg(a, spec.longs) == Some(num)
    ensures text == NumberText("", num, base, Columns(WidthOf(spec)), PadOf(spec.flags))
  {
    PrintsUnsigned(a, num, base, spec);
  }

  /** %lu, %lo and %lx, then strtol in the same base: padded with spaces or zeros, every unsigned long
      comes back modulo 2^64, as a long.  With the '-' flag a single '-' is read as a sign, which
      changes all but 0 and 2^63, and more of them end the numeral. */
  lemma {:induction false} UnsignedRoundTrip(x: Uint64, base: nat, spec: Spec, text: string)
    requires (spec.conv == 'u' && base == 10) || (spec.conv == 'o' && base == 8) || (spec.conv == 'x' && base == 16)
    requires spec.longs > 0 && Prints(spec, LongArg(x), text)
    ensures var width, pad := WidthOf(spec), PadOf(spec.flags);
      ReadsBack(text, base, Int64(x)) <==>
            || pad == '0' || pad == ' ' || width <= |Digits(x, base)|
            || (width == |Digits(x, base)| + 1 && (x == 0 || x == TWO63))
  {
    WidthFits(spec);
    UnsignedTextIs(LongArg(x), x, base, spec, text);
    UnsignedReadsBack(x, base, WidthOf(spec), PadOf(spec.flags));
  }

  /** %u, %o and %x of an int are read back as the unsigned number its bits stand for. */
  lemma {:induction false} UnsignedIntRoundTrip(x: Uint32, base: nat, spec: Spec, text: string)
    requires (spec.conv == 'u' && base == 10) || (spec.conv == 'o' && base == 8) || (spec.conv == 'x' && base == 16)
    requires spec.longs == 0 && Prints(spec, IntArg(x), text)
    ensures var width, pad := WidthOf(spec), PadOf(spec.flags);
      ReadsBack(text, base, x) <==>
            || pad == '0' || pad == ' ' || width <= |Digits(x, base)|
            || (width == |Digits(x, base)| + 1 && x == 0)
  {
    WidthFits(spec);
    UnsignedTextIs(IntArg(x), x, base, spec, text);
    IntIsLong(x);
    UnsignedReadsBack(x, base, WidthOf(spec), PadOf(spec.flags));
  }

  lemma {:induction false} UnsignedReadsBack(num: Uint64, base: nat, width: int, pad: Pad)
    requires base == 8 || base == 10 || base == 16
    requires width < TWO31
    ensures ReadsBack(NumberText("", num, base, Columns(width), pad), base, Int64(num)) <==>
            || pad == '0' || pad == ' ' || width <= |Digits(num, base)|
            || (width == |Digits(num, base)| + 1 && (num == 0 || num == TWO63))
  {
    UnsignedReadsBackIff(num, base, Columns(width), pad);
  }

  lemma {:induction false} IntIsLong(x: Uint32)
    ensures Int64(x) == x && x != TWO63
  {
  }

  /** %p, then strtol in base 0 or 16: every address comes back exactly unless something other than
      zeros comes between the prefix and the digits. */
  lemma {:induction false} PointerRoundTrip(x: Uint64, base: nat, spec: Spec, text: string)
    requires (base == 0 || base == 16) && spec.conv == 'p' && Prints(spec, PtrArg(x), text)
    ensures ReadsBack(text, base, Int64(x)) <==> PadOf(spec.flags) == '0' || WidthOf(spec) <= |Digits(x, 16)|
  {
    WidthFits(spec);
    PrintsPointer(x, spec);
    PrefixedReadsBackIff(x, base, Columns(WidthOf(spec)), PadOf(spec.flags));
  }

  // ----- Base zero -----

  /** Where no zero comes first, base 0 is base 10. */
  lemma {:induction false} BaseZeroIsTen(text: string, r: Reading, v: int)
    requires IsCString(text + "\0") && Reads(text + "\0", 10, false, r) && (text + "\0")[r.prefix] != '0'
    ensures ReadsBack(text, 0, v) <==> ReadsBack(text, 10, v)
  {
    assert Reads(text + "\0", 0, false, r);
    IsReadAs(text, 0, r, v);
    IsReadAs(text, 10, r, v);
  }

  /** Behind a leading zero octal digits are read, as far as they go. */
  lemma {:induction false} ZeroMeansOctal(s: CStr, r: Reading)
    requires Reads(s, 10, false, r) && s[r.prefix] == '0' && s[r.prefix + 1] != 'x'
    requires forall k | r.prefix < k < r.end :: IsDigit(s[k], 8)
    ensures Reads(s, 0, false, Reading(r.sign, r.prefix, 8, r.prefix + 1, r.end))
  {
    assert IsDigit(s[r.prefix], 10);
  }

  /** Octal digits are worth less than decimal ones, except for a single one. */
  lemma {:induction false} OctalIsLess(d: string)
    requires Canonical(d, 10) && forall k | 0 <= k < |d| :: IsDigit(d[k], 8)
    ensures 0 <= Value(d, 8) <= Value(d, 10) && (Value(d, 8) == Value(d, 10) <==> |d| == 1)
    ensures |d| == 1 ==> Value(d, 10) < 8
    ensures |d| > 1 ==> Value(d, 10) >= 8
  {
    var t, c := d[..|d| - 1], d[|d| - 1];
    assert d == t + [c];
    LastDigit(t, c, 8);
    LastDigit(t, c, 10);
    if t == "" {
      assert Value("", 8) == 0 == Value("", 10);
    } else {
      assert t[0] == d[0] && Canonical(t, 10);
      OctalIsLess(t);
      DigitsAreUnique(t, 10);
    }
  }

  lemma {:induction false} OneOctalDigit(m: nat)
    ensures m < 8 ==> |Digits(m, 10)| == 1 && IsDigit(Digits(m, 10)[0], 8) && Value(Digits(m, 10), 8) == m
  {
    if m < 8 {
      DigitCharacters(m);
      LastDigit("", DIGITS[m], 8);
      assert Value("", 8) == 0 && "" + [DIGITS[m]] == Digits(m, 10);
    }
  }

  /** So zeros and a decimal numeral, taken as octal, keep their value exactly below eight. */
  lemma {:induction false} OctalValue(n: nat, m: nat)
    requires forall k | 0 <= k < |Digits(m, 10)| :: IsDigit(Digits(m, 10)[k], 8)
    ensures var v := Value(Fill('0', n) + Digits(m, 10), 8); 0 <= v <= m && (v == m <==> m < 8)
  {
    ZerosDoNotCount(n, Digits(m, 10), 8);
    DigitsDenote(m, 10);
    OctalIsLess(Digits(m, 10));
  }

  lemma {:induction false} ZerosText(text: string, lead: string, n: nat, m: nat)
    requires n > 0 && text == lead + (Fill('0', n) + Digits(m, 10))
    ensures var first := |lead|;
      && |text| == first + n + |Digits(m, 10)| && text[first] == '0' && (text + "\0")[first + 1] != 'x'
      && text[first + 1..] == Fill('0', n - 1) + Digits(m, 10)
      && (forall k | first < k < first + n :: text[k] == '0')
      && (forall k | first + n <= k < |text| :: text[k] == Digits(m, 10)[k - first - n])
  {
    DigitCharactersOnly(m, 10, 0);
    var tail := Fill('0', n) + Digits(m, 10);
    assert tail[1..] == Fill('0', n - 1) + Digits(m, 10);
    assert text[|lead| + 1..] == tail[1..];
    assert text[|lead| + 1] == tail[1];
  }

  /** A numeral with zeros in front is read in base 0 as octal: right exactly below eight. */
  lemma {:induction false} ZerosMakeOctal(neg: bool, m: Uint64, n: nat, text: string)
    requires n > 0 && (neg ==> m > 0) && m <= TWO63
    requires text == (if neg then "-" else "") + (Fill('0', n) + Digits(m, 10)) && IsCString(text + "\0")
    ensures ReadsBack(text, 0, Signed(neg, m)) <==> m < 8
  {
    var first := if neg then 1 else 0;
    ZerosReadInTen(neg, m, n, text);
    ZerosText(text, if neg then "-" else "", n, m);
    if k :| first < k < |text| && !IsDigit(text[k], 8) {
      StopsAtNoOctal(text, first, k, Signed(neg, m));
      NoOctalDigit(text, first, n, m, k);
    } else {
      assert text[0] == '-' <==> neg;
      OctalIsRead(text, neg, first, n, m);
    }
  }

  lemma {:induction false} ZerosReadInTen(neg: bool, m: nat, n: nat, text: string)
    requires text == (if neg then "-" else "") + (Fill('0', n) + Digits(m, 10)) && IsCString(text + "\0")
    ensures var first := if neg then 1 else 0; Reads(text + "\0", 10, false, Reading(0, first, 10, first, |text|))
  {
    ZerosAndDigits(n, m, 10);
    ReadsSigned(text + "\0", neg, Fill('0', n) + Digits(m, 10), 10);
  }

  lemma {:induction false} NoOctalDigit(text: string, first: nat, n: nat, m: nat, k: nat)
    requires first < k < |text| == first + n + |Digits(m, 10)| && !IsDigit(text[k], 8)
    requires forall k | first < k < first + n :: text[k] == '0'
    requires forall k | first + n <= k < |text| :: text[k] == Digits(m, 10)[k - first - n]
    ensures m >= 8
  {
    OneOctalDigit(m);
  }

  lemma {:induction false} StopsAtNoOctal(text: string, first: nat, k: nat, v: int)
    requires IsCString(text + "\0") && Reads(text + "\0", 10, false, Reading(0, first, 10, first, |text|))
    requires first < k < |text| && text[first] == '0' && (text + "\0")[first + 1] != 'x' && !IsDigit(text[k], 8)
    ensures !ReadsBack(text, 0, v)
  {
    var s := text + "\0";
    forall r | Reads(s, 0, false, r)
      ensures r.end <= k
    {
      assert r.sign == 0 && r.prefix == first && r.base == 8 && s[k] == text[k];
    }
  }

  lemma {:induction false} OctalIsRead(text: string, neg: bool, first: nat, n: nat, m: Uint64)
    requires IsCString(text + "\0") && Reads(text + "\0", 10, false, Reading(0, first, 10, first, |text|))
    requires n > 0 && first < |text| && m <= TWO63 && (text[0] == '-' <==> neg)
    requires text[first] == '0' && (text + "\0")[first + 1] != 'x'
    requires text[first + 1..] == Fill('0', n - 1) + Digits(m, 10)
    requires forall k | first < k < |text| :: IsDigit(text[k], 8)
    ensures ReadsBack(text, 0, Signed(neg, m)) <==> m < 8
  {
    var r := Reading(0, first, 8, first + 1, |text|);
    OctalReading(text, neg, first);
    TailIsOctal(text, first, n, m);
    OctalValue(n - 1, m);
    SmallerLong(neg, Value(text[first + 1..], 8), m);
    IsReadAs(text, 0, r, Signed(neg, m));
  }

  lemma {:induction false} OctalReading(text: string, neg: bool, first: nat)
    requires IsCString(text + "\0") && Reads(text + "\0", 10, false, Reading(0, first, 10, first, |text|))
    requires first < |text| && (text[0] == '-' <==> neg)
    requires text[first] == '0' && (text + "\0")[first + 1] != 'x'
    requires forall k | first < k < |text| :: IsDigit(text[k], 8)
    ensures var s, r := text + "\0", Reading(0, first, 8, first + 1, |text|);
      Reads(s, 0, false, r) && Result(s, r) == Int64(Signed(neg, Value(text[first + 1..], 8)))
  {
    var s := text + "\0";
    assert forall k | first < k < |text| :: s[k] == text[k];
    ZeroMeansOctal(s, Reading(0, first, 10, first, |text|));
    assert s[first + 1..|text|] == text[first + 1..];
  }

  lemma {:induction false} TailIsOctal(text: string, first: nat, n: nat, m: nat)
    requires n > 0 && first < |text| && text[first + 1..] == Fill('0', n - 1) + Digits(m, 10)
    requires forall k | first < k < |text| :: IsDigit(text[k], 8)
    ensures forall k | 0 <= k < |Digits(m, 10)| :: IsDigit(Digits(m, 10)[k], 8)
  {
    var tail, d := text[first + 1..], Digits(m, 10);
    forall k | 0 <= k < |d|
      ensures IsDigit(d[k], 8)
    {
      assert d[k] == tail[n - 1 + k];
      assert tail[n - 1 + k] == text[first + n + k];
    }
  }

  lemma {:induction false} SmallerLong(neg: bool, v: int, m: int)
    requires 0 <= v <= m <= TWO63 && (v == m <==> m < 8)
    ensures Int64(Signed(neg, v)) == Signed(neg, m) <==> m < 8
  {
  }

  /** %d and %ld, then strtol with the base left open: zeros for padding make the text octal. */
  lemma {:induction false} DecimalInBaseZero(a: Arg, v: int, spec: Spec, text: string)
    requires spec.conv == 'd' && Prints(spec, a, text) && SignedArg(a, spec.longs) == Some(v) && -TWO63 <= v < TWO63
    ensures var width, pad := WidthOf(spec), PadOf(spec.flags);
      ReadsBack(text, 0, v) <==>
            || width <= |Digits(Magnitude(v), 10)| || (pad == '0' && Magnitude(v) < 8)
            || (pad == ' ' && v >= 0) || (pad == '-' && v == 0 && width == 2)
  {
    SignedTextIs(a, v, spec, text);
    WidthFits(spec);
    SignedInBaseZero(v, WidthOf(spec), PadOf(spec.flags));
  }

  lemma {:induction false} SignedInBaseZero(v: int, width: int, pad: Pad)
    requires width < TWO31 && -TWO63 <= v < TWO63
    ensures ReadsBack(NumberText(if v < 0 then "-" else "", Magnitude(v), 10, Columns(width), pad), 0, v) <==>
            || width <= |Digits(Magnitude(v), 10)| || (pad == '0' && Magnitude(v) < 8)
            || (pad == ' ' && v >= 0) || (pad == '-' && v == 0 && width == 2)
  {
    var neg, m, w := v < 0, Magnitude(v), Columns(width);
    var text := NumberText(if neg then "-" else "", m, 10, w, pad);
    NumberTextIsCString(if neg then "-" else "", m, 10, w, pad);
    if pad == '0' && width > |Digits(m, 10)| {
      ZerosMakeOctal(neg, m, width - |Digits(m, 10)|, text);
    } else if m != 0 {
      var r := StartsNoZero(neg, m, w, pad);
      BaseZeroIsTen(text, r, v);
      SignedReadsBack(v, width, pad);
    } else {
      ZeroInBaseZero(w, pad);
    }
  }

  lemma {:induction false} StartsNoZero(neg: bool, m: Uint64, width: nat, pad: Pad) returns (r: Reading)
    requires width < TWO31 && m != 0 && (pad == '0' ==> width <= |Digits(m, 10)|)
    requires IsCString(NumberText(if neg then "-" else "", m, 10, width, pad) + "\0")
    ensures var s := NumberText(if neg then "-" else "", m, 10, width, pad) + "\0";
      Reads(s, 10, false, r) && s[r.prefix] != '0'
  {
    var d, n := Digits(m, 10), width - |Digits(m, 10)|;
    var s := NumberText(if neg then "-" else "", m, 10, width, pad) + "\0";
    PlainDigits(m);
    if n <= 0 {
      assert Padding(m, 10, width, pad) + d == d;
      r := DigitsStartNoZero(s, neg, d);
    } else {
      r := PaddedStartsNoZero(s, neg, pad, n, d);
    }
  }

  lemma {:induction false} PlainDigits(m: nat)
    ensures Plain(Digits(m, 10), 10) && (Digits(m, 10)[0] == '0' <==> m == 0)
  {
    DigitsDenote(m, 10);
    ZerosAndDigits(0, m, 10);
    assert Fill('0', 0) + Digits(m, 10) == Digits(m, 10);
  }

  lemma {:induction false} DigitsStartNoZero(s: CStr, neg: bool, d: string) returns (r: Reading)
    requires Plain(d, 10) && d[0] != '0' && s == (if neg then "-" else "") + d + "\0"
    ensures Reads(s, 10, false, r) && s[r.prefix] != '0'
  {
    var first := if neg then 1 else 0;
    ReadsSigned(s, neg, d, 10);
    r := Reading(0, first, 10, first, |s| - 1);
    assert s[first] == d[0];
  }

  lemma {:induction false} PaddedStartsNoZero(s: CStr, neg: bool, pad: Pad, n: nat, d: string) returns (r: Reading)
    requires n > 0 && pad != '0' && Plain(d, 10) && d[0] != '0'
    requires s == (if neg then "-" else "") + (Fill(pad, n) + d) + "\0"
    ensures Reads(s, 10, false, r) && s[r.prefix] != '0'
  {
    if neg {
      PadAfterSign(s, pad, n, d, 10);
      r := Reading(0, 1, 10, 1, 1);
      assert s[1] == Fill(pad, n)[0];
    } else if pad == ' ' {
      NoLeadText(Fill(' ', n) + d);
      ReadsAfterSpaces(s, n, d, 10);
      r := Reading(n, n, 10, n, |s| - 1);
      assert s[n] == d[0];
    } else {
      r := DashedStartsNoZero(s, n, d);
    }
  }

  lemma {:induction false} DashedStartsNoZero(s: CStr, n: nat, d: string) returns (r: Reading)
    requires n > 0 && Plain(d, 10) && d[0] != '0' && s == "" + (Fill('-', n) + d) + "\0"
    ensures Reads(s, 10, false, r) && s[r.prefix] != '0'
  {
    NoLeadText(Fill('-', n) + d);
    DashFirst(n, d);
    if n == 1 {
      ReadsSigned(s, true, d, 10);
      r := Reading(0, 1, 10, 1, |s| - 1);
      assert s[1] == d[0];
    } else {
      PadAfterSign(s, '-', n - 1, d, 10);
      r := Reading(0, 1, 10, 1, 1);
      assert s[1] == '-';
    }
  }

  lemma {:induction false} ZeroInBaseZero(width: nat, pad: Pad)
    requires width < TWO31 && (pad == '0' ==> width <= 1)
    ensures |Digits(0, 10)| == 1
    ensures ReadsBack(NumberText("", 0, 10, width, pad), 0, 0) <==> width <= 1 || pad == ' ' || (pad == '-' && width == 2)
  {
    var n := width - 1;
    var text := NumberText("", 0, 10, width, pad);
    NumberTextIsCString("", 0, 10, width, pad);
    assert Digits(0, 10) == "0";
    assert text == Fill(pad, n) + "0";
    var s := text + "\0";
    assert DigitValue('\0') == -1;
    if n <= 0 {
      assert s == "0\0";
      ZeroRead(text, Reading(0, 0, 8, 1, 1));
    } else if pad == ' ' {
      assert s[n] == '0' && s[n + 1] == '\0';
      ZeroRead(text, Reading(n, n, 8, n + 1, n + 1));
    } else if n == 1 {
      assert s[0] == '-' && s[1] == '0' && s[2] == '\0';
      ZeroRead(text, Reading(0, 1, 8, 2, 2));
    } else {
      assert s[0] == '-' && s[1] == '-';
      IsReadAs(text, 0, Reading(0, 1, 10, 1, 1), 0);
    }
  }

  lemma {:induction false} ZeroRead(text: string, r: Reading)
    requires IsCString(text + "\0") && Reads(text + "\0", 0, false, r) && r.first == r.end == |text|
    ensures ReadsBack(text, 0, 0)
  {
    assert (text + "\0")[r.first..r.end] == "" && Value("", r.base) == 0;
    IsReadAs(text, 0, r, 0);
  }

  // ----- End to end -----

  const LONG_FORMAT: CStr := "%ld\0"

  const LONG: Spec := Spec("", Unsized, false, Unsized, 1, 'd')

  lemma {:induction false} DecimalFormat()
    ensures IsSpec(LONG) && FormatOf(LONG) == LONG_FORMAT && forall a :: ArgsOf(LONG, a) == [a]
  {
    assert Fill('l', 1) == "l";
  }

  lemma {:induction false} DecimalPrinted(x: Uint64) returns (t: seq<int>)
    ensures Render(LONG_FORMAT, 0, [LongArg(x)]) == Some(t) && |t| <= 65
    ensures IsCString(Chars(t) + "\0") && ReadsBack(Chars(t), 10, Int64(x))
  {
    var neg, num := Int64(x) < 0, Magnitude(Int64(x));
    LongOf(x);
    DecimalFormat();
    PrintsSigned(LongArg(x), neg, num, LONG);
    t := Render(LONG_FORMAT, 0, [LongArg(x)]).value;
    DecimalRoundTrip(x, LONG, Chars(t));
    WordDigits(num, 10);
  }

  lemma {:induction false} BufferHolds(was: string, size: nat, t: seq<int>)
    requires |t| < size <= |was| && |t| <= 65
    ensures Filled(was, 0, size, t)[..|t| + 1] == Chars(t) + "\0" && Int32(|t|) == |t|
  {
    assert Fitting(t, size) == t;
  }

  lemma {:induction false} ReadsBackAs(text: string, base: int, v: int, r: Reading)
    requires ReadsBack(text, base, v) && Reads(text + "\0", base, false, r)
    ensures r.end == |text| && Result(text + "\0", r) == v
  {
    IsReadAs(text, base, r, v);
  }

  method PrintLong(mem: array<char>, x: Uint64) returns (n: int, ghost text: string)
    requires mem.Length > 65
    modifies mem
    ensures n == |text| < mem.Length && mem[..n + 1] == text + "\0"
    ensures ReadsBack(text, 10, Int64(x))
  {
    ghost var t := DecimalPrinted(x);
    BufferHolds(mem[..], mem.Length, t);
    n := Vsnprintf(mem, Some(0), mem.Length, LONG_FORMAT, [LongArg(x)]);
    text := Chars(t);
    assert mem[..n + 1] == mem[..][..n + 1];
  }

  /** snprintf of a long with "%ld" and strtol of the buffer in base 10 give the long back and the
      end of what was printed. */
  method PrintThenParse(mem: array<char>, x: Uint64) returns (v: int, end: nat, n: int)
    requires mem.Length > 65
    modifies mem
    ensures v == Int64(x) && end == n
  {
    ghost var text, r;
    n, text := PrintLong(mem, x);
    v, end, r := Strtol.Strtol(mem[..n + 1], 10);
    ReadsBackAs(text, 10, Int64(x), r);
  }
}
