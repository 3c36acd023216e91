/** What the directive machine makes of a format, told from the format's grammar instead. */
module Directives {
  import opened CString
  import opened Numerals
  import opened Format

  // ----- What is no directive -----

  function Stars(s: string): nat {
    if s == [] then 0 else (if s[0] == '*' then 1 else 0) + Stars(s[1..])
  }

  ghost predicate StartsWithInts(args: seq<Arg>, n: nat) {
    n <= |args| && forall k | 0 <= k < n :: args[k].IntArg?
  }

  /** One step of the machine over something that takes no argument. */
  lemma {:induction false} CollectOne(fmt: CStr, i: nat, j: nat, fl: Flags, args: seq<Arg>)
    returns (m: nat, fl': Flags)
    requires i < j < |fmt| && !Collects(fmt[j]) && Collects(fmt[i]) && fmt[i] != '*'
    ensures i < m <= j && Scan(fmt, i, fl, args) == Scan(fmt, m, fl', args)
    ensures Stars(fmt[i..j]) == Stars(fmt[m..j])
  {
    var ch := fmt[i];
    if IsDecimal(ch) && ch != '0' {
      NumberEndsBefore(fmt, i + 1, j);
      m := NumberEnd(fmt, i + 1);
      fl' := WithNumber(fl, Value(fmt[i..m], 10));
      NoStars(fmt, i, m, j);
    } else {
      m := i + 1;
      fl' := if ch == '-' || ch == '0' then fl.(padc := ch)
             else if ch == '.' then WithDot(fl)
             else if ch == '#' then fl.(altflag := true)
             else fl.(lflag := fl.lflag + 1);
      assert fmt[i..j][1..] == fmt[m..j];
    }
  }

  lemma {:induction false} StarFirst(args: seq<Arg>, n: nat)
    requires args != [] && args[0].IntArg?
    ensures StartsWithInts(args, n + 1) <==> StartsWithInts(args[1..], n)
    ensures n + 1 <= |args| ==> args[1..][n..] == args[n + 1..]
  {
    assert forall k | 0 <= k < |args| - 1 :: args[1..][k] == args[k + 1];
    if StartsWithInts(args[1..], n) {
      forall k | 0 <= k < n + 1
        ensures args[k].IntArg?
      {
        if k > 0 { assert args[1..][k - 1].IntArg?; }
      }
    }
  }

  /** The machine collects everything up to `j`, taking one int for each '*'. */
  lemma {:induction false} CollectsUpTo(fmt: CStr, i: nat, j: nat, fl: Flags, args: seq<Arg>)
    returns (fl': Flags)
    requires i <= j < |fmt| && !Collects(fmt[j])
    requires forall k | i <= k < j :: Collects(fmt[k])
    ensures Scan(fmt, i, fl, args) ==
            if StartsWithInts(args, Stars(fmt[i..j])) then Scan(fmt, j, fl', args[Stars(fmt[i..j])..])
            else Undefined
    decreases j - i
  {
    fl' := fl;
    if i == j {
    } else if fmt[i] != '*' {
      var m, fl1 := CollectOne(fmt, i, j, fl, args);
      fl' := CollectsUpTo(fmt, m, j, fl1, args);
    } else {
      assert fmt[i..j][1..] == fmt[i + 1..j];
      if args != [] && args[0].IntArg? {
        fl' := CollectsUpTo(fmt, i + 1, j, WithNumber(fl, Int32(args[0].word)), args[1..]);
        StarFirst(args, Stars(fmt[i + 1..j]));
      }
    }
  }

  lemma {:induction false} NumberEndsBefore(fmt: CStr, i: nat, j: nat)
    requires i <= j < |fmt| && !IsDecimal(fmt[j])
    ensures NumberEnd(fmt, i) <= j
    ensures forall k | i <= k < NumberEnd(fmt, i) :: IsDecimal(fmt[k])
    decreases j - i
  {
    if IsDecimal(fmt[i]) {
      NumberEndsBefore(fmt, i + 1, j);
    }
  }

  lemma {:induction false} NoStars(fmt: CStr, i: nat, m: nat, j: nat)
    requires i <= m <= j < |fmt| && forall k | i <= k < m :: IsDecimal(fmt[k])
    ensures Stars(fmt[i..j]) == Stars(fmt[m..j])
    decreases m - i
  {
    if i < m {
      assert fmt[i..j][1..] == fmt[i + 1..j];
      NoStars(fmt, i + 1, m, j);
    }
  }

  /** The characters of directives, by name. */
  lemma {:induction false} CharacterKinds(c: char)
    ensures Collects(c) <==> c in "-0123456789*.#l"
    ensures TakesArgument(c) <==> c in "cesduopx"
  {
  }

  lemma {:induction false} CollectsNamed(fmt: CStr, i: nat, j: nat)
    requires i <= j < |fmt| && forall k | i <= k < j :: fmt[k] in "-0123456789*.#l"
    ensures forall k | i <= k < j :: Collects(fmt[k])
  {
    forall k | i <= k < j
      ensures Collects(fmt[k])
    {
      CharacterKinds(fmt[k]);
    }
  }

  lemma {:induction false} EndsNamed(c: char)
    requires c !in "-0123456789*.#lcesduopx%"
    ensures !Collects(c) && !TakesArgument(c) && c != '%'
  {
    CharacterKinds(c);
  }

  /** A '%' after which no conversion comes, be it the last character, is printed as it stands with
      everything up to the character that made it one; only the arguments its stars took are gone. */
  lemma {:induction false} UnknownIsVerbatim(fmt: CStr, i: nat, j: nat, args: seq<Arg>)
    requires i < j < |fmt| && fmt[i] == '%'
    requires forall k | i < k < j :: fmt[k] in "-0123456789*.#l"
    requires fmt[j] !in "-0123456789*.#lcesduopx%"
    ensures Render(fmt, i, args) ==
            if StartsWithInts(args, Stars(fmt[i + 1..j]))
            then Before(Codes(fmt[i..j]), Render(fmt, j, args[Stars(fmt[i + 1..j])..]))
            else None
  {
    CollectsNamed(fmt, i + 1, j);
    EndsNamed(fmt[j]);
    UnknownPrinted(fmt, i, j, args);
  }

  lemma {:induction false} UnknownPrinted(fmt: CStr, i: nat, j: nat, args: seq<Arg>)
    requires i < j < |fmt| && fmt[i] == '%'
    requires forall k | i < k < j :: Collects(fmt[k])
    requires !Collects(fmt[j]) && !TakesArgument(fmt[j]) && fmt[j] != '%'
    ensures Render(fmt, i, args) ==
            if StartsWithInts(args, Stars(fmt[i + 1..j]))
            then Before(Codes(fmt[i..j]), Render(fmt, j, args[Stars(fmt[i + 1..j])..]))
            else None
  {
    var n := Stars(fmt[i + 1..j]);
    var fl := CollectsUpTo(fmt, i + 1, j, PLAIN, args);
    if StartsWithInts(args, n) {
      RenderPlain(fmt, i + 1, j, args[n..]);
      assert fmt[i..j] == ['%'] + fmt[i + 1..j];
      CodesCons('%', fmt[i + 1..j]);
      PercentThen(Codes(fmt[i + 1..j]), Render(fmt, j, args[n..]));
    }
  }

  /** A '%' that comes where a conversion might, be it after flags, sizes or stars, is printed as one '%'. */
  lemma {:induction false} PercentIsOne(fmt: CStr, i: nat, j: nat, args: seq<Arg>)
    requires i < j < |fmt| && fmt[i] == '%' && fmt[j] == '%'
    requires forall k | i < k < j :: fmt[k] in "-0123456789*.#l"
    ensures Render(fmt, i, args) ==
            if StartsWithInts(args, Stars(fmt[i + 1..j]))
            then Before(['%' as int], Render(fmt, j + 1, args[Stars(fmt[i + 1..j])..]))
            else None
  {
    CollectsNamed(fmt, i + 1, j);
    PercentPrinted(fmt, i, j, args);
  }

  lemma {:induction false} PercentPrinted(fmt: CStr, i: nat, j: nat, args: seq<Arg>)
    requires i < j < |fmt| && fmt[i] == '%' && fmt[j] == '%'
    requires forall k | i < k < j :: Collects(fmt[k])
    ensures Render(fmt, i, args) ==
            if StartsWithInts(args, Stars(fmt[i + 1..j]))
            then Before(['%' as int], Render(fmt, j + 1, args[Stars(fmt[i + 1..j])..]))
            else None
  {
    var fl := CollectsUpTo(fmt, i + 1, j, PLAIN, args);
    assert Codes("%") == ['%' as int];
  }

  lemma {:induction false} PercentThen(t: seq<int>, rest: Option<seq<int>>)
    ensures Before(Codes("%"), Before(t, rest)) == Before(['%' as int] + t, rest)
  {
    assert Codes("%") == ['%' as int];
    BeforeBefore(['%' as int], t, rest);
  }

  // ----- Well-formed directives, told from their grammar -----

  /** Where the parts of a directive begin: flags, width, precision, length modifiers, conversion. */
  datatype Layout = Layout(flags: nat, width: nat, precision: nat, longs: nat, conv: nat)

  predicate IsFlag(c: char) {
    c == '-' || c == '0' || c == '#'
  }

  /** A width or precision: nothing, a star, or a number that does not start with a zero. */
  ghost predicate IsSize(fmt: CStr, i: nat, j: nat)
    requires i <= j < |fmt|
  {
    || i == j
    || (j == i + 1 && fmt[i] == '*')
    || (fmt[i] != '0' && forall k | i <= k < j :: IsDecimal(fmt[k]))
  }

  /** Flags, width, a dot with a precision, any number of 'l', and a conversion character. */
  ghost predicate IsDirective(fmt: CStr, at: Layout) {
    && at.flags <= at.width <= at.precision <= at.longs <= at.conv < |fmt|
    && (forall k | at.flags <= k < at.width :: IsFlag(fmt[k]))
    && IsSize(fmt, at.width, at.precision)
    && (at.precision < at.longs ==> fmt[at.precision] == '.' && IsSize(fmt, at.precision + 1, at.longs))
    && (forall k | at.longs <= k < at.conv :: fmt[k] == 'l')
    && TakesArgument(fmt[at.conv])
  }

  // ----- And what they mean -----

  /** The last of the pad flags counts. */
  function PadFlag(fmt: CStr, i: nat, j: nat): char
    requires i <= j < |fmt|
  {
    if i == j then ' '
    else if fmt[j - 1] == '-' || fmt[j - 1] == '0' then fmt[j - 1]
    else PadFlag(fmt, i, j - 1)
  }

  ghost predicate AltFlag(fmt: CStr, i: nat, j: nat)
    requires i <= j < |fmt|
  {
    exists k :: i <= k < j && fmt[k] == '#'
  }

  /** A size, if one is given, and the arguments left; NotTaken without an int for the star. */
  datatype Taken = NotTaken | Taken(size: Option<int>, args: seq<Arg>)

  function Take(fmt: CStr, i: nat, j: nat, args: seq<Arg>): Taken
    requires i <= j < |fmt|
  {
    if i == j then Taken(None, args)
    else if fmt[i] != '*' then Taken(Some(Value(fmt[i..j], 10)), args)
    else if args == [] || !args[0].IntArg? then NotTaken
    else Taken(Some(Int32(args[0].word)), args[1..])
  }

  function TakePrecision(fmt: CStr, at: Layout, args: seq<Arg>): Taken
    requires at.precision <= at.longs < |fmt|
  {
    if at.precision == at.longs then Taken(None, args) else Take(fmt, at.precision + 1, at.longs, args)
  }

  /** -1 stands for no width and no precision; a dot forces a width, zero if need be. */
  ghost function Parameters(fmt: CStr, at: Layout, width: Option<int>, precision: Option<int>): Flags
    requires IsDirective(fmt, at)
  {
    Flags(
      PadFlag(fmt, at.flags, at.width),
      if at.precision == at.longs then (if width.None? then -1 else width.value)
      else if width.None? || width.value < 0 then 0 else width.value,
      if precision.None? then -1 else precision.value,
      at.conv - at.longs,
      AltFlag(fmt, at.flags, at.width))
  }

  /** The whole directive: its arguments are taken for the width, the precision and the conversion, in this order. */
  ghost function Meaning(fmt: CStr, at: Layout, args: seq<Arg>): Scanned
    requires IsDirective(fmt, at)
  {
    match Take(fmt, at.width, at.precision, args)
    case NotTaken => Undefined
    case Taken(w, more) =>
      match TakePrecision(fmt, at, more)
      case NotTaken => Undefined
      case Taken(q, rest) => Ends(at.conv, Parameters(fmt, at, w, q), rest)
  }

  // ----- The machine reads every well-formed directive as it is meant -----

  ghost function FlagsRead(fmt: CStr, i: nat, j: nat): Flags
    requires i <= j < |fmt|
  {
    PLAIN.(padc := PadFlag(fmt, i, j), altflag := AltFlag(fmt, i, j))
  }

  lemma {:induction false} OneMoreFlag(fmt: CStr, i: nat, j: nat)
    requires i < j < |fmt| && IsFlag(fmt[j - 1])
    ensures FlagsRead(fmt, i, j)
         == if fmt[j - 1] == '#' then FlagsRead(fmt, i, j - 1).(altflag := true)
            else FlagsRead(fmt, i, j - 1).(padc := fmt[j - 1])
  {
    assert AltFlag(fmt, i, j) <==> AltFlag(fmt, i, j - 1) || fmt[j - 1] == '#';
  }

  lemma {:induction false} FlagRun(fmt: CStr, i: nat, j: nat, args: seq<Arg>)
    requires i <= j < |fmt| && forall k | i <= k < j :: IsFlag(fmt[k])
    ensures Scan(fmt, i, PLAIN, args) == Scan(fmt, j, FlagsRead(fmt, i, j), args)
    decreases j
  {
    if i < j {
      FlagRun(fmt, i, j - 1, args);
      OneMoreFlag(fmt, i, j);
    }
  }

  lemma {:induction false} NumberEndIs(fmt: CStr, i: nat, j: nat)
    requires i <= j < |fmt| && !IsDecimal(fmt[j]) && forall k | i <= k < j :: IsDecimal(fmt[k])
    ensures NumberEnd(fmt, i) == j
    decreases j - i
  {
    if i < j {
      NumberEndIs(fmt, i + 1, j);
    }
  }

  lemma {:induction false} SizeRun(fmt: CStr, i: nat, j: nat, fl: Flags, args: seq<Arg>)
    requires i <= j < |fmt| && IsSize(fmt, i, j) && !IsDecimal(fmt[j])
    ensures Scan(fmt, i, fl, args) ==
            match Take(fmt, i, j, args)
            case NotTaken => Undefined
            case Taken(None, rest) => Scan(fmt, j, fl, rest)
            case Taken(Some(n), rest) => Scan(fmt, j, WithNumber(fl, n), rest)
  {
    if i < j && fmt[i] != '*' {
      NumberEndIs(fmt, i + 1, j);
    }
  }

  lemma {:induction false} EllRun(fmt: CStr, i: nat, j: nat, fl: Flags, args: seq<Arg>)
    requires i <= j < |fmt| && forall k | i <= k < j :: fmt[k] == 'l'
    ensures Scan(fmt, i, fl, args) == Scan(fmt, j, fl.(lflag := fl.lflag + (j - i)), args)
    decreases j - i
  {
    if i < j {
      EllRun(fmt, i + 1, j, fl.(lflag := fl.lflag + 1), args);
    }
  }

  lemma {:induction false} DotRun(fmt: CStr, i: nat, j: nat, fl: Flags, args: seq<Arg>)
    requires i < j < |fmt| && fmt[i] == '.' && IsSize(fmt, i + 1, j) && !IsDecimal(fmt[j])
    ensures Scan(fmt, i, fl, args) ==
            match Take(fmt, i + 1, j, args)
            case NotTaken => Undefined
            case Taken(None, rest) => Scan(fmt, j, WithDot(fl), rest)
            case Taken(Some(n), rest) => Scan(fmt, j, WithDot(fl).(precision := n), rest)
  {
    SizeRun(fmt, i + 1, j, WithDot(fl), args);
  }

  /** The machine arrives at the conversion of a well-formed directive with the parameters meant. */
  lemma {:induction false} ScanIsMeaning(fmt: CStr, at: Layout, args: seq<Arg>)
    requires IsDirective(fmt, at)
    ensures Scan(fmt, at.flags, PLAIN, args) == Meaning(fmt, at, args)
  {
    var fl := FlagsRead(fmt, at.flags, at.width);
    FlagRun(fmt, at.flags, at.width, args);
    SizeRun(fmt, at.width, at.precision, fl, args);
    match Take(fmt, at.width, at.precision, args)
    case NotTaken =>
    case Taken(w, more) =>
      assert WidthRead(fmt, at, w) == if w.None? then fl else WithNumber(fl, w.value);
      RestIsMeaning(fmt, at, w, more);
  }

  ghost function WidthRead(fmt: CStr, at: Layout, w: Option<int>): Flags
    requires at.flags <= at.width < |fmt|
  {
    var fl := FlagsRead(fmt, at.flags, at.width);
    if w.None? then fl else WithNumber(fl, w.value)
  }

  lemma {:induction false} RestIsMeaning(fmt: CStr, at: Layout, w: Option<int>, args: seq<Arg>)
    requires IsDirective(fmt, at)
    ensures Scan(fmt, at.precision, WidthRead(fmt, at, w), args) ==
      match TakePrecision(fmt, at, args)
      case NotTaken => Undefined
      case Taken(q, rest) => Ends(at.conv, Parameters(fmt, at, w, q), rest)
  {
    var fl := WidthRead(fmt, at, w);
    if at.precision == at.longs {
      EllRun(fmt, at.longs, at.conv, fl, args);
    } else {
      DotRun(fmt, at.precision, at.longs, fl, args);
      var taken := Take(fmt, at.precision + 1, at.longs, args);
      if taken.Taken? {
        LastRun(fmt, at, w, taken.size, taken.args);
      }
    }
  }

  lemma {:induction false} LastRun(fmt: CStr, at: Layout, w: Option<int>, q: Option<int>, args: seq<Arg>)
    requires IsDirective(fmt, at) && at.precision < at.longs
    ensures var fl := WithDot(WidthRead(fmt, at, w));
      Scan(fmt, at.longs, if q.None? then fl else fl.(precision := q.value), args)
      == Ends(at.conv, Parameters(fmt, at, w, q), args)
  {
    var fl := WithDot(WidthRead(fmt, at, w));
    EllRun(fmt, at.longs, at.conv, if q.None? then fl else fl.(precision := q.value), args);
  }

  /** The argument, converted with the parameters collected, and then the rest of the format with the
      arguments left. */
  ghost function Conversion(fmt: CStr, m: Scanned): Option<seq<int>>
    requires m.Ends? ==> m.at < |fmt| && TakesArgument(fmt[m.at])
  {
    match m
    case Undefined => None
    case Ends(at, fl, rest) =>
      if rest == [] then None
      else
        var t := Converted(fmt[at], fl, rest[0]);
        if t.None? then None else Before(t.value, Render(fmt, at + 1, rest[1..]))
  }

  lemma {:induction false} ConversionPrints(fmt: CStr, i: nat, args: seq<Arg>, m: Scanned)
    requires i + 1 < |fmt| && fmt[i] == '%' && m == Scan(fmt, i + 1, PLAIN, args)
    requires m.Ends? ==> m.at < |fmt| && TakesArgument(fmt[m.at])
    ensures Render(fmt, i, args) == Conversion(fmt, m)
  {
  }

  /** A well-formed directive prints its argument, converted with the parameters meant; then the
      rest of the format follows with the arguments left. */
  lemma {:induction false} DirectivePrints(fmt: CStr, i: nat, at: Layout, args: seq<Arg>)
    requires i < |fmt| && fmt[i] == '%' && at.flags == i + 1 && IsDirective(fmt, at)
    ensures Meaning(fmt, at, args).Ends? ==> Meaning(fmt, at, args).at == at.conv
    ensures Render(fmt, i, args) == Conversion(fmt, Meaning(fmt, at, args))
  {
    ScanIsMeaning(fmt, at, args);
    ConversionPrints(fmt, i, args, Meaning(fmt, at, args));
  }
}
