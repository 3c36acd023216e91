/** What formatted printing writes: the characters handed to the output callback, in order.

    `Render` follows the directive machine of vprintfmt over the format and the arguments.  It
    is undefined (None) where C leaves the call undefined: an argument missing or of another
    type than the directive takes. */
module Format {
  import opened CString
  import opened Numerals

  datatype Option<+T> = None | Some(value: T)

  /** One variable argument, by the type it is passed with; integers by their bits. */
  datatype Arg =
    | IntArg(word: Uint32)
    | LongArg(dword: Uint64)
    | StrArg(str: Option<CStr>)
    | PtrArg(address: Uint64)

  /** Characters as the callback receives them: as ints. */
  function Codes(s: string): (t: seq<int>)
    ensures |t| == |s|
  {
    if s == [] then [] else Codes(s[..|s| - 1]) + [s[|s| - 1] as int]
  }

  function Repeat(c: char, n: int): (t: seq<int>)
    ensures |t| == if n < 0 then 0 else n
  {
    if n <= 0 then [] else Repeat(c, n - 1) + [c as int]
  }

  lemma {:induction false} CodesSnoc(s: string, c: char)
    ensures Codes(s + [c]) == Codes(s) + [c as int]
  {
    assert (s + [c])[..|s|] == s;
  }

  lemma {:induction false} CodesConcat(s: string, t: string)
    ensures Codes(s + t) == Codes(s) + Codes(t)
  {
    if t == [] {
      assert s + t == s;
    } else {
      var t', c := t[..|t| - 1], t[|t| - 1];
      assert s + t == (s + t') + [c] && t == t' + [c];
      CodesConcat(s, t');
      CodesSnoc(s + t', c);
      CodesSnoc(t', c);
    }
  }

  lemma {:induction false} CodesCons(c: char, s: string)
    ensures Codes([c] + s) == [c as int] + Codes(s)
  {
    CodesConcat([c], s);
    assert [c][..0] == [];
  }

  lemma {:induction false} RepeatFirst(c: char, n: int)
    requires n > 0
    ensures Repeat(c, n) == [c as int] + Repeat(c, n - 1)
  {
    if n > 1 {
      RepeatFirst(c, n - 1);
    }
  }

  // ----- The conversions -----

  /** The parameters a directive collects before its conversion character. */
  datatype Flags = Flags(padc: char, width: int, precision: int, lflag: nat, altflag: bool)

  const PLAIN := Flags(' ', -1, -1, 0, false)

  /** A number in its base, padded on the left up to the width. */
  function NumText(num: nat, base: nat, width: int, padc: char): seq<int>
    requires 2 <= base <= 16
  {
    var d := Digits(num, base);
    Repeat(padc, width - |d|) + Codes(d)
  }

  /** The sign comes before the padding and outside the width. */
  function SignedText(v: int, width: int, padc: char): seq<int> {
    if v < 0 then Codes("-") + NumText(-v, 10, width, padc) else NumText(v, 10, width, padc)
  }

  /** The characters before the terminator, at most `precision` of them unless that is negative. */
  function Shown(s: CStr, precision: int): string {
    if 0 <= precision < |s| - 1 then s[..precision] else s[..|s| - 1]
  }

  function Printable(c: char, altflag: bool): char {
    if altflag && (c < ' ' || c > '~') then '?' else c
  }

  function Masked(s: string, altflag: bool): (t: string)
    ensures |t| == |s|
  {
    if s == [] then [] else Masked(s[..|s| - 1], altflag) + [Printable(s[|s| - 1], altflag)]
  }

  /** The columns of the width that the characters shown leave over. */
  function Gap(s: CStr, fl: Flags): int {
    if fl.width > 0 then fl.width - |Shown(s, fl.precision)| else 0
  }

  function LeftPad(s: CStr, fl: Flags): seq<int> {
    if fl.padc != '-' then Repeat(fl.padc, Gap(s, fl)) else []
  }

  function RightPad(s: CStr, fl: Flags): seq<int> {
    if fl.padc == '-' then Repeat(' ', Gap(s, fl)) else []
  }

  /** A string is padded with the pad character on the left, or for '-' with spaces on the right. */
  function StringText(s: CStr, fl: Flags): seq<int> {
    LeftPad(s, fl) + Codes(Masked(Shown(s, fl.precision), fl.altflag)) + RightPad(s, fl)
  }

  const MAXERROR := 24

  /** The table of error strings; the empty string stands for a null entry. */
  function ErrorString(err: nat): string
    requires err <= MAXERROR
  {
    match err
    case 1 => "unspecified error"
    case 2 => "bad process"
    case 3 => "invalid parameter"
    case 4 => "out of memory"
    case 5 => "out of processes"
    case 6 => "segmentation fault"
    case 8 => "invalid elf file"
    case 9 => "process is killed"
    case 10 => "panic failure"
    case _ => ""
  }

  /** Positive and negative error codes print alike. */
  function ErrorText(code: int): seq<int> {
    var err := if code < 0 then -code else code;
    if err > MAXERROR || ErrorString(err) == "" then Codes("error ") + NumText(err, 10, -1, ' ')
    else Codes(ErrorString(err))
  }

  function SignedArg(a: Arg, lflag: nat): Option<int> {
    if lflag == 0 && a.IntArg? then Some(Int32(a.word))
    else if lflag > 0 && a.LongArg? then Some(Int64(a.dword))
    else None
  }

  function UnsignedArg(a: Arg, lflag: nat): Option<Uint64> {
    if lflag == 0 && a.IntArg? then Some(a.word)
    else if lflag > 0 && a.LongArg? then Some(a.dword)
    else None
  }

  function UnsignedText(a: Arg, base: nat, fl: Flags): Option<seq<int>>
    requires 2 <= base <= 16
  {
    var num := UnsignedArg(a, fl.lflag);
    if num.None? then None else Some(NumText(num.value, base, fl.width, fl.padc))
  }

  const NULL_TEXT: CStr := "(null)\0"

  predicate TakesArgument(conv: char) {
    match conv
    case 'c' | 'e' | 's' | 'd' | 'u' | 'o' | 'p' | 'x' => true
    case _ => false
  }

  /** What the conversion `conv` prints for its argument. */
  function Converted(conv: char, fl: Flags, a: Arg): Option<seq<int>>
    requires TakesArgument(conv)
  {
    match conv
    case 'c' => if a.IntArg? then Some([Int32(a.word)]) else None
    case 'e' => if a.IntArg? && Int32(a.word) != -TWO31 then Some(ErrorText(Int32(a.word))) else None
    case 's' => if a.StrArg? then Some(StringText(if a.str.None? then NULL_TEXT else a.str.value, fl)) else None
    case 'd' =>
      var v := SignedArg(a, fl.lflag);
      if v.None? then None else Some(SignedText(v.value, fl.width, fl.padc))
    case 'u' => UnsignedText(a, 10, fl)
    case 'o' => UnsignedText(a, 8, fl)
    case 'x' => UnsignedText(a, 16, fl)
    case _ => if a.PtrArg? then Some(Codes("0x") + NumText(a.address, 16, fl.width, fl.padc)) else None
  }

  // ----- The directive machine -----

  predicate IsDecimal(c: char) {
    '0' <= c <= '9'
  }

  /** The characters after which the machine looks for more of the same directive. */
  predicate Collects(c: char) {
    c == '-' || c == '*' || c == '.' || c == '#' || c == 'l' || IsDecimal(c)
  }

  /** Where the run of decimal digits that starts at `i` ends. */
  ghost function NumberEnd(fmt: CStr, i: nat): (j: nat)
    requires i < |fmt|
    ensures i <= j < |fmt|
    decreases |fmt| - i
  {
    if IsDecimal(fmt[i]) then NumberEnd(fmt, i + 1) else i
  }

  /** A number or '*' is the width if there is none yet, else the precision. */
  function WithNumber(fl: Flags, n: int): Flags {
    if fl.width < 0 then fl.(width := n, precision := -1) else fl.(precision := n)
  }

  function WithDot(fl: Flags): Flags {
    if fl.width < 0 then fl.(width := 0) else fl
  }

  function Before(t: seq<int>, rest: Option<seq<int>>): Option<seq<int>> {
    if rest.None? then None else Some(t + rest.value)
  }

  /** Where a directive ends, with the parameters collected and the arguments left; Undefined
      when a '*' finds no int. */
  datatype Scanned = Undefined | Ends(at: nat, fl: Flags, args: seq<Arg>)

  /** Collects the parameters of a directive from position `i` on. */
  ghost function Scan(fmt: CStr, i: nat, fl: Flags, args: seq<Arg>): (s: Scanned)
    requires i < |fmt|
    ensures s.Ends? ==> i <= s.at < |fmt| && !Collects(fmt[s.at])
    decreases |fmt| - i
  {
    var ch := fmt[i];
    if !Collects(ch) then Ends(i, fl, args)
    else if ch == '-' then Scan(fmt, i + 1, fl.(padc := '-'), args)
    else if ch == '0' then Scan(fmt, i + 1, fl.(padc := '0'), args)
    else if IsDecimal(ch) then
      var j := NumberEnd(fmt, i + 1);
      Scan(fmt, j, WithNumber(fl, Value(fmt[i..j], 10)), args)
    else if ch == '*' then
      if args == [] || !args[0].IntArg? then Undefined
      else Scan(fmt, i + 1, WithNumber(fl, Int32(args[0].word)), args[1..])
    else if ch == '.' then Scan(fmt, i + 1, WithDot(fl), args)
    else if ch == '#' then Scan(fmt, i + 1, fl.(altflag := true), args)
    else Scan(fmt, i + 1, fl.(lflag := fl.lflag + 1), args)
  }

  /** The text printed from position `i` of the format on.  What is no directive prints its '%'
      and is then read again, from just behind it, as ordinary text. */
  ghost function Render(fmt: CStr, i: nat, args: seq<Arg>): Option<seq<int>>
    requires i < |fmt|
    decreases |fmt| - i
  {
    if fmt[i] == '\0' then Some([])
    else if fmt[i] != '%' then Before([fmt[i] as int], Render(fmt, i + 1, args))
    else
      match Scan(fmt, i + 1, PLAIN, args)
      case Undefined => None
      case Ends(at, fl, rest) =>
        var ch := fmt[at];
        if TakesArgument(ch) then
          if rest == [] then None
          else
            var t := Converted(ch, fl, rest[0]);
            if t.None? then None else Before(t.value, Render(fmt, at + 1, rest[1..]))
        else Before(Codes("%"), Render(fmt, if ch == '%' then at + 1 else i + 1, rest))
  }

  // ----- Ordinary text -----

  lemma {:induction false} BeforeBefore(a: seq<int>, b: seq<int>, rest: Option<seq<int>>)
    ensures Before(a, Before(b, rest)) == Before(a + b, rest)
  {
    if rest.Some? {
      assert a + (b + rest.value) == (a + b) + rest.value;
    }
  }

  /** A part of the format without '%' prints as it stands. */
  lemma {:induction false} RenderPlain(fmt: CStr, i: nat, j: nat, args: seq<Arg>)
    requires i <= j < |fmt| && forall k | i <= k < j :: fmt[k] != '%'
    ensures Render(fmt, i, args) == Before(Codes(fmt[i..j]), Render(fmt, j, args))
    decreases j - i
  {
    var rest := Render(fmt, j, args);
    if i == j {
      NothingBefore(rest);
    } else {
      RenderPlain(fmt, i + 1, j, args);
      assert fmt[i..j] == [fmt[i]] + fmt[i + 1..j];
      CodesCons(fmt[i], fmt[i + 1..j]);
      BeforeBefore([fmt[i] as int], Codes(fmt[i + 1..j]), rest);
    }
  }

  lemma {:induction false} NothingBefore(rest: Option<seq<int>>)
    ensures Before([], rest) == rest
  {
    if rest.Some? {
      assert [] + rest.value == rest.value;
    }
  }

  // ----- The shape of a printed number -----

  /** A number takes the larger of its width and its number of digits: pad characters first, as many
      as are missing, then its one canonical numeral. */
  lemma {:induction false} NumTextShape(num: nat, base: nat, width: int, padc: char)
    requires 2 <= base <= 16
    ensures var d, t := Digits(num, base), NumText(num, base, width, padc);
      && |t| == (if width > |d| then width else |d|)
      && (forall i | 0 <= i < |t| - |d| :: t[i] == padc as int)
      && t[|t| - |d|..] == Codes(d)
      && Canonical(d, base) && Value(d, base) == num
      && (forall k | k >= 1 :: |d| <= k <==> num < Power(base, k))
  {
    DigitsDenote(num, base);
    forall k | k >= 1
      ensures |Digits(num, base)| <= k <==> num < Power(base, k)
    {
      DigitCount(num, base, k);
    }
    RepeatAt(padc, width - |Digits(num, base)|);
  }

  lemma {:induction false} RepeatAt(c: char, n: int)
    ensures forall i | 0 <= i < n :: Repeat(c, n)[i] == c as int
  {
    if n > 0 {
      RepeatAt(c, n - 1);
    }
  }

  // ----- The shape of a printed string -----

  lemma {:induction false} CodesAt(s: string, i: nat)
    requires i < |s|
    ensures Codes(s)[i] == s[i] as int
  {
    if i < |s| - 1 {
      CodesAt(s[..|s| - 1], i);
    }
  }

  lemma {:induction false} MaskedAt(s: string, altflag: bool, i: nat)
    requires i < |s|
    ensures Masked(s, altflag)[i] == if altflag && (s[i] < ' ' || s[i] > '~') then '?' else s[i]
  {
    if i < |s| - 1 {
      MaskedAt(s[..|s| - 1], altflag, i);
    }
  }

  /** A string is cut by a precision and takes the larger of its width and what is left of it: with the
      '-' flag spaces come behind it, else pad characters before it.  With the '#' flag '?' stands for
      every character outside ' ' to '~'. */
  lemma {:induction false} StringTextShape(s: CStr, fl: Flags)
    ensures var t, n := StringText(s, fl), if 0 <= fl.precision < |s| - 1 then fl.precision else |s| - 1;
      var pad := if fl.width > n then fl.width - n else 0;
      var first := if fl.padc == '-' then 0 else pad;
      && |t| == n + pad
      && (forall i | first <= i < first + n :: t[i] ==
            var c := s[i - first]; if fl.altflag && (c < ' ' || c > '~') then '?' as int else c as int)
      && (forall i | 0 <= i < first :: t[i] == fl.padc as int)
      && (forall i | first + n <= i < |t| :: t[i] == ' ' as int)
  {
    var shown := Shown(s, fl.precision);
    var n, masked := |shown|, Masked(shown, fl.altflag);
    var pad := if fl.width > n then fl.width - n else 0;
    var first := if fl.padc == '-' then 0 else pad;
    RepeatAt(fl.padc, Gap(s, fl));
    RepeatAt(' ', Gap(s, fl));
    forall i | first <= i < first + n
      ensures StringText(s, fl)[i] ==
        var c := s[i - first]; if fl.altflag && (c < ' ' || c > '~') then '?' as int else c as int
    {
      CodesAt(masked, i - first);
      MaskedAt(shown, fl.altflag, i - first);
      assert shown[i - first] == s[i - first];
    }
  }

  lemma {:induction false} ErrorStringIsPlain(err: nat)
    requires err <= MAXERROR
    ensures |ErrorString(err)| <= 20 && forall c | c in ErrorString(err) :: ' ' <= c <= '~'
  {
    if err <= 4 {
    } else {
    }
  }

  /** What %e prints, as a string. */
  function ErrorLine(k: nat): string {
    if k > MAXERROR || ErrorString(k) == "" then "error " + Digits(k, 10) else ErrorString(k)
  }

  lemma {:induction false} ErrorTextIs(code: int)
    ensures ErrorText(code) == Codes(ErrorLine(if code < 0 then -code else code))
  {
    var k := if code < 0 then -code else code;
    if k > MAXERROR || ErrorString(k) == "" {
      CodesConcat("error ", Digits(k, 10));
      assert NumText(k, 10, -1, ' ') == Codes(Digits(k, 10));
    }
  }

  /** The errors that have names, and how all others print. */
  lemma {:induction false} ErrorNames(k: nat)
    ensures ErrorLine(k) ==
      if k == 1 then "unspecified error"
      else if k == 2 then "bad process"
      else if k == 3 then "invalid parameter"
      else if k == 4 then "out of memory"
      else if k == 5 then "out of processes"
      else if k == 6 then "segmentation fault"
      else if k == 8 then "invalid elf file"
      else if k == 9 then "process is killed"
      else if k == 10 then "panic failure"
      else "error " + Digits(k, 10)
  {
  }
}
