/** The formatter itself: a machine that walks the format and hands characters to an output
    callback, here the one that fills a bounded buffer. */
module Printer {
  import opened CString
  import opened Numerals
  import opened Format
  import opened Buffer

  /** A buffer inside a memory of characters, and the record of every character handed over. */
  class Sink {
    const mem: array<char>
    const start: nat
    const ebuf: nat
    var buf: nat
    var cnt: int
    ghost var text: seq<int>
    ghost const before: seq<char>

    /** Memory, position and count are what handing over the text has made of them. */
    ghost predicate Valid()
      reads this, mem
    {
      State(mem[..], buf, cnt) == StateAfter(before, start, ebuf, text)
    }

    constructor (mem: array<char>, start: nat, ebuf: nat)
      requires start <= ebuf < mem.Length
      ensures Valid() && text == [] && this.mem == mem && this.start == start && this.ebuf == ebuf
      ensures before == mem[..]
    {
      this.mem, this.start, this.ebuf := mem, start, ebuf;
      buf, cnt, text, before := start, 0, [], mem[..];
    }

    /** sprintputch */
    method Putch(ch: int)
      requires Valid()
      modifies this, mem
      ensures Valid() && text == old(text) + [ch]
    {
      PutNext(before, start, ebuf, text, ch);
      BufferEnds(before, start, ebuf, text);
      cnt := Int32(cnt + 1);
      if buf < ebuf {
        mem[buf] := ToChar(ch);
        buf := buf + 1;
      }
      text := text + [ch];
    }

    /** Puts the terminator behind what has been written and reports the count. */
    method Terminate() returns (r: int)
      requires Valid() && start <= ebuf < |before|
      modifies mem
      ensures mem[..] == Filled(before, start, ebuf + 1 - start, text)
      ensures r == Int32(|text|)
    {
      Terminated(before, start, ebuf, text);
      StateIs(before, start, ebuf, text);
      mem[buf] := '\0';
      r := cnt;
    }

    /** The padding loops: one character as long as the width lasts. */
    method Pad(padc: char, width: int) returns (w: int)
      requires Valid()
      modifies this, mem
      ensures Valid() && text == old(text) + Repeat(padc, width)
      ensures w == if width > 0 then 0 else width
    {
      w := width;
      while w > 0
        invariant Valid() && text + Repeat(padc, w) == old(text) + Repeat(padc, width)
        invariant w == width || 0 <= w < width
        decreases w
      {
        RepeatFirst(padc, w);
        Putch(padc as int);
        w := w - 1;
      }
    }

    // ----- printnum -----

    /** Recurses towards the most significant digit, counting the width down, pads there, and
        writes the digits on the way back. */
    method PrintNum(num: Uint64, base: nat, width: int, padc: char)
      requires Valid() && 2 <= base <= 16
      modifies this, mem
      ensures Valid() && text == old(text) + NumText(num, base, width, padc)
      decreases num
    {
      var result, mod := num / base, num % base;
      if num >= base {
        NumTextLonger(num, base, width, padc);
        PrintNum(result, base, width - 1, padc);
      } else {
        NumTextSingle(num, base, width, padc);
        var _ := Pad(padc, width - 1);
      }
      Putch(DIGITS[mod] as int);
    }

    // ----- %s -----

    method PrintString(s: CStr, fl: Flags)
      requires Valid() && fl.precision >= -TWO31
      modifies this, mem
      ensures Valid() && text == old(text) + StringText(s, fl)
    {
      var width := PadBefore(s, fl);
      width := PutShown(s, width, fl.precision, fl.altflag);
      StringParts(old(text), s, fl, width);
      width := Pad(' ', width);
    }

    method PadBefore(s: CStr, fl: Flags) returns (width: int)
      requires Valid() && fl.precision >= -TWO31
      modifies this, mem
      ensures Valid() && text == old(text) + LeftPad(s, fl)
      ensures if fl.padc == '-' then width == fl.width else width <= |Shown(s, fl.precision)|
      ensures fl.width <= 0 ==> width <= 0
    {
      width := fl.width;
      if width > 0 && fl.padc != '-' {
        var len := Strnlen(s, SizeT(fl.precision));
        width := Pad(fl.padc, width - len);
      }
    }

    /** The characters up to the terminator or until the precision runs out, counted off the width. */
    method PutShown(s: CStr, width: int, precision: int, altflag: bool) returns (w: int)
      requires Valid()
      modifies this, mem
      ensures Valid() && text == old(text) + Codes(Masked(Shown(s, precision), altflag))
      ensures w == width - |Shown(s, precision)|
    {
      ghost var i;
      w, i := PutCharacters(s, width, precision, altflag);
      ShownUpTo(s, i, precision);
    }

    /** The loop over the characters; it stops in front of position `stop`. */
    method PutCharacters(s: CStr, width: int, precision: int, altflag: bool) returns (w: int, ghost stop: nat)
      requires Valid()
      modifies this, mem
      ensures Valid() && stop < |s| && text == old(text) + Codes(Masked(s[..stop], altflag))
      ensures precision == stop || (s[stop] == '\0' && (precision < 0 || stop <= precision))
      ensures w == width - stop
    {
      ghost var was := text;
      var p, i := precision, 0;
      w := width;
      while true
        invariant Valid() && 0 <= i < |s| && text == was + Codes(Masked(s[..i], altflag))
        invariant w == width - i
        invariant if precision < 0 then p == precision else 0 <= p == precision - i
        decreases |s| - i
      {
        if s[i] == '\0' { break; }
        if p >= 0 {
          p := p - 1;
          if p < 0 { break; }
        }
        PutOne(s, i, altflag, was);
        i := i + 1;
        w := w - 1;
      }
      stop := i;
    }

    /** One character of a string, with '?' in place of one that cannot be shown. */
    method PutOne(s: CStr, i: nat, altflag: bool, ghost was: seq<int>)
      requires Valid() && i < |s| && text == was + Codes(Masked(s[..i], altflag))
      modifies this, mem
      ensures Valid() && text == was + Codes(Masked(s[..i + 1], altflag))
    {
      OneMoreShown(was, s, i, altflag);
      Putch(Printable(s[i], altflag) as int);
    }

    // ----- vprintfmt -----

    /** The numbers: %d takes its sign off first, in 64 bits that wrap. */
    method PrintSigned(v: int, width: int, padc: char)
      requires Valid() && -TWO63 <= v < TWO63
      modifies this, mem
      ensures Valid() && text == old(text) + SignedText(v, width, padc)
    {
      var num := Bits64(v);
      if num >= TWO63 {
        Putch('-' as int);
        num := Negated(num);
      }
      SignedParts(old(text), v, num, width, padc);
      PrintNum(num, 10, width, padc);
    }

    /** %e: a known code by its name, another by its number, through the formatter itself. */
    method PrintError(code: int, ghost nesting: nat)
      requires Valid() && -TWO31 < code < TWO31 && nesting > 0
      modifies this, mem
      ensures Valid() && text == old(text) + ErrorText(code)
      decreases nesting, 0
    {
      var err := if code < 0 then -code else code;
      if err > MAXERROR || ErrorString(err) == "" {
        RenderErrorFormat(err);
        VPrintFmt(ERROR_FORMAT, [IntArg(err)]);
      } else {
        ErrorStringIsCString(err);
        var name: CStr := ErrorString(err) + "\0";
        RenderStringFormat(name);
        VPrintFmt(STRING_FORMAT, [StrArg(Some(name))]);
      }
    }

    method Convert(conv: char, fl: Flags, a: Arg, ghost nesting: nat)
      requires Valid() && fl.precision >= -TWO31
      requires TakesArgument(conv) && Converted(conv, fl, a).Some? && (conv == 'e' ==> nesting > 0)
      modifies this, mem
      ensures Valid() && text == old(text) + Converted(conv, fl, a).value
      decreases nesting, 1
    {
      match conv
      case 'c' => Putch(Int32(a.word));
      case 'e' => PrintError(Int32(a.word), nesting);
      case 's' => PrintString(if a.str.None? then NULL_TEXT else a.str.value, fl);
      case 'd' => PrintSigned(SignedArg(a, fl.lflag).value, fl.width, fl.padc);
      case 'u' => PrintNum(UnsignedArg(a, fl.lflag).value, 10, fl.width, fl.padc);
      case 'o' => PrintNum(UnsignedArg(a, fl.lflag).value, 8, fl.width, fl.padc);
      case 'x' => PrintNum(UnsignedArg(a, fl.lflag).value, 16, fl.width, fl.padc);
      case _ =>
        PointerParts(text, NumText(a.address, 16, fl.width, fl.padc));
        Putch('0' as int);
        Putch('x' as int);
        PrintNum(a.address, 16, fl.width, fl.padc);
    }

    /** One directive, from behind its '%'.  What turns out to be none is given back: its '%' is
        printed and the format is wound back to just behind it. */
    method FormatDirective(fmt: CStr, start: nat, args: seq<Arg>, ghost goal: seq<int>)
      returns (i: nat, ap: seq<Arg>)
      requires Valid() && 0 < start < |fmt| && fmt[start - 1] == '%'
      requires LeftToPrint(text, fmt, start - 1, args, goal)
      modifies this, mem
      ensures Valid() && start <= i < |fmt| && LeftToPrint(text, fmt, i, ap, goal)
      decreases Nesting(fmt), 3
    {
      var at, fl;
      at, fl, ap := CollectAll(fmt, start, args);
      ghost var t, next, rest := EndParts(fmt, start, at, fl, args, ap);
      Glue(text, t, Render(fmt, next, rest).value);
      i, ap := EndDirective(fmt, start, at, fl, ap, t);
    }

    /** The character that ends a directive: a conversion, a second '%', or anything else. */
    method EndDirective(fmt: CStr, ghost start: nat, at: nat, fl: Flags, args: seq<Arg>, ghost t: seq<int>)
      returns (i: nat, ap: seq<Arg>)
      requires Valid() && fl.precision >= -TWO31
      requires 0 < start <= at < |fmt| && fmt[start - 1] == '%' && forall k | start <= k < at :: fmt[k] != '%'
      requires if TakesArgument(fmt[at]) then args != [] && Converted(fmt[at], fl, args[0]) == Some(t)
               else t == ['%' as int]
      modifies this, mem
      ensures Valid() && text == old(text) + t
      ensures i == (if TakesArgument(fmt[at]) || fmt[at] == '%' then at + 1 else start)
      ensures ap == if TakesArgument(fmt[at]) then args[1..] else args
      decreases Nesting(fmt), 2
    {
      var ch := fmt[at];
      ap := args;
      if TakesArgument(ch) {
        assert ch == 'e' ==> Nesting(fmt) > 0 by { ErrorDirectiveIsOuter(fmt, start, at); }
        Convert(ch, fl, ap[0], Nesting(fmt));
        i, ap := at + 1, ap[1..];
      } else if ch == '%' {
        Putch(ch as int);
        i := at + 1;
      } else {
        Putch('%' as int);
        i := WindBack(fmt, start, at);
      }
    }

    method VPrintFmt(fmt: CStr, args: seq<Arg>)
      requires Valid() && Render(fmt, 0, args).Some?
      modifies this, mem
      ensures Valid() && text == old(text) + Render(fmt, 0, args).value
      decreases Nesting(fmt), 4
    {
      var i, ap, ended := 0, args, false;
      ghost var goal := text + Render(fmt, 0, args).value;
      while true
        invariant i < |fmt| && Valid() && LeftToPrint(text, fmt, i, ap, goal)
        decreases |fmt| - i
      {
        i, ended := PutPlain(fmt, i, ap, goal);
        if ended { return; }
        i, ap := FormatDirective(fmt, i, ap, goal);
      }
    }

    /** Text up to the next '%', or up to the end of the format. */
    method PutPlain(fmt: CStr, start: nat, ghost args: seq<Arg>, ghost goal: seq<int>)
      returns (i: nat, ended: bool)
      requires Valid() && start < |fmt| && LeftToPrint(text, fmt, start, args, goal)
      modifies this, mem
      ensures Valid() && (ended ==> text == goal)
      ensures !ended ==> start < i < |fmt| && fmt[i - 1] == '%' && LeftToPrint(text, fmt, i - 1, args, goal)
    {
      var ch := fmt[start];
      i := start + 1;
      while ch != '%'
        invariant start < i <= |fmt| && ch == fmt[i - 1] && Valid() && LeftToPrint(text, fmt, i - 1, args, goal)
        decreases |fmt| - i
      {
        if ch == '\0' {
          NothingLeft(text, fmt, i - 1, args, goal);
          return i, true;
        }
        PlainPart(text, fmt, i - 1, args, goal);
        Putch(ch as int);
        ch := fmt[i];
        i := i + 1;
      }
      ended := false;
    }
  }

  lemma {:induction false} SignedParts(t: seq<int>, v: int, num: nat, width: int, padc: char)
    requires num == if v < 0 then -v else v
    ensures t + SignedText(v, width, padc) == (if v < 0 then t + ['-' as int] else t) + NumText(num, 10, width, padc)
  {
    assert Codes("-") == ['-' as int];
  }

  lemma {:induction false} PointerParts(t: seq<int>, num: seq<int>)
    ensures t + (Codes("0x") + num) == t + ['0' as int] + ['x' as int] + num
  {
    assert Codes("0x") == ['0' as int, 'x' as int];
  }

  lemma {:induction false} Glue(a: seq<int>, b: seq<int>, c: seq<int>)
    ensures (a + b) + c == a + (b + c)
  {
  }

  /** The text of a directive that ends at `at`, and where and with what arguments to go on. */
  lemma {:induction false} EndParts(fmt: CStr, start: nat, at: nat, fl: Flags, args: seq<Arg>, ap: seq<Arg>)
    returns (t: seq<int>, next: nat, rest: seq<Arg>)
    requires 0 < start < |fmt| && fmt[start - 1] == '%' && Render(fmt, start - 1, args).Some?
    requires Scan(fmt, start, PLAIN, args) == Ends(at, fl, ap)
    ensures next < |fmt| && Render(fmt, next, rest).Some?
    ensures Render(fmt, start - 1, args).value == t + Render(fmt, next, rest).value
    ensures if TakesArgument(fmt[at])
            then ap != [] && Converted(fmt[at], fl, ap[0]) == Some(t) && next == at + 1 && rest == ap[1..]
            else t == ['%' as int] && next == (if fmt[at] == '%' then at + 1 else start) && rest == ap
  {
    if TakesArgument(fmt[at]) {
      t, next, rest := Converted(fmt[at], fl, ap[0]).value, at + 1, ap[1..];
    } else {
      assert Codes("%") == ['%' as int];
      t, next, rest := ['%' as int], if fmt[at] == '%' then at + 1 else start, ap;
    }
  }

  /** With `t` printed, what the format prints from position `i` on completes `goal`. */
  ghost predicate LeftToPrint(t: seq<int>, fmt: CStr, i: nat, args: seq<Arg>, goal: seq<int>)
    requires i < |fmt|
  {
    Render(fmt, i, args).Some? && t + Render(fmt, i, args).value == goal
  }

  lemma {:induction false} PlainPart(t: seq<int>, fmt: CStr, i: nat, args: seq<Arg>, goal: seq<int>)
    requires i < |fmt| && fmt[i] != '%' && fmt[i] != '\0' && LeftToPrint(t, fmt, i, args, goal)
    ensures LeftToPrint(t + [fmt[i] as int], fmt, i + 1, args, goal)
  {
    Glue(t, [fmt[i] as int], Render(fmt, i + 1, args).value);
  }

  lemma {:induction false} NothingLeft(t: seq<int>, fmt: CStr, i: nat, args: seq<Arg>, goal: seq<int>)
    requires i < |fmt| && fmt[i] == '\0' && LeftToPrint(t, fmt, i, args, goal)
    ensures t == goal
  {
    assert t + [] == t;
  }

  /** A long as an unsigned long, and the negation of one, both modulo 2^64. */
  function Bits64(v: int): Uint64
    requires -TWO63 <= v < TWO63
  {
    if v < 0 then v + TWO64 else v
  }

  function Negated(n: Uint64): Uint64 {
    if n == 0 then 0 else TWO64 - n
  }

  /** The loop behind "reswitch": everything up to the character that ends the directive. */
  method CollectAll(fmt: CStr, start: nat, args: seq<Arg>) returns (i: nat, fl: Flags, ap: seq<Arg>)
    requires start < |fmt| && Scan(fmt, start, PLAIN, args).Ends?
    ensures start <= i < |fmt| && fl.precision >= -TWO31
    ensures Scan(fmt, start, PLAIN, args) == Ends(i, fl, ap)
    ensures forall k | start <= k < i :: fmt[k] != '%'
  {
    i, fl, ap := start, PLAIN, args;
    while Collects(fmt[i])
      invariant start <= i < |fmt| && fl.precision >= -TWO31
      invariant Scan(fmt, i, fl, ap) == Scan(fmt, start, PLAIN, args)
      invariant forall k | start <= k < i :: fmt[k] != '%'
      decreases |fmt| - i
    {
      i, fl, ap := Collect(fmt, i, fl, ap);
    }
  }

  /** One character that does not yet end the directive, or a whole number. */
  method Collect(fmt: CStr, i: nat, fl: Flags, ap: seq<Arg>)
    returns (j: nat, fl': Flags, ap': seq<Arg>)
    requires i < |fmt| && fl.precision >= -TWO31 && Collects(fmt[i]) && Scan(fmt, i, fl, ap).Ends?
    ensures i < j < |fmt| && fl'.precision >= -TWO31
    ensures Scan(fmt, j, fl', ap') == Scan(fmt, i, fl, ap)
    ensures forall k | i <= k < j :: fmt[k] != '%'
  {
    var ch := fmt[i];
    j, fl', ap' := i + 1, fl, ap;
    if ch == '-' {
      fl' := fl.(padc := '-');
    } else if ch == '0' {
      fl' := fl.(padc := '0');
    } else if IsDecimal(ch) {
      var n;
      n, j := ScanNumber(fmt, i);
      fl' := WithNumber(fl, n);
    } else if ch == '*' {
      fl' := WithNumber(fl, Int32(ap[0].word));
      ap' := ap[1..];
    } else if ch == '.' {
      fl' := WithDot(fl);
    } else if ch == '#' {
      fl' := fl.(altflag := true);
    } else {
      fl' := fl.(lflag := fl.lflag + 1);
    }
  }

  /** Steps back to just behind the '%' of a directive. */
  method WindBack(fmt: CStr, ghost start: nat, from: nat) returns (i: nat)
    requires 0 < start <= from < |fmt| && fmt[start - 1] == '%'
    requires forall k | start <= k < from :: fmt[k] != '%'
    ensures i == start
  {
    i := from;
    while fmt[i - 1] != '%'
      invariant start <= i <= from
      decreases i
    {
      i := i - 1;
    }
  }

  /** The width or precision loop: stops in front of the first character that is no digit. */
  method ScanNumber(fmt: CStr, i: nat) returns (n: nat, j: nat)
    requires i < |fmt| && IsDecimal(fmt[i])
    ensures j == NumberEnd(fmt, i + 1) && n == Value(fmt[i..j], 10)
    ensures i < j < |fmt| && forall k | i <= k < j :: IsDecimal(fmt[k])
  {
    n, j := 0, i;
    var ch := fmt[i];
    while IsDecimal(ch)
      invariant i <= j < |fmt| && ch == fmt[j]
      invariant n == Value(fmt[i..j], 10) >= 0
      invariant forall k | i <= k < j :: IsDecimal(fmt[k])
      invariant NumberEnd(fmt, j) == NumberEnd(fmt, i)
      decreases |fmt| - j
    {
      OneMoreDigit(fmt, i, j);
      n := n * 10 + (ch as int - '0' as int);
      j := j + 1;
      ch := fmt[j];
    }
  }

  lemma {:induction false} OneMoreDigit(s: string, i: nat, j: nat)
    requires i <= j < |s| && IsDecimal(s[j])
    ensures Value(s[i..j + 1], 10) == Value(s[i..j], 10) * 10 + (s[j] as int - '0' as int)
  {
    assert s[i..j + 1] == s[i..j] + [s[j]];
    LastDigit(s[i..j], s[j], 10);
  }

  // ----- The two formats that %e itself uses -----

  const ERROR_FORMAT: CStr := "error %d\0"
  const STRING_FORMAT: CStr := "%s\0"

  /** The formatter calls itself for %e only, with formats in which there is no %e. */
  function Nesting(fmt: string): nat {
    if fmt == ERROR_FORMAT || fmt == STRING_FORMAT then 0 else 1
  }

  lemma {:induction false} ErrorDirectiveIsOuter(fmt: CStr, start: nat, i: nat)
    requires 0 < start <= i < |fmt| && fmt[start - 1] == '%'
    ensures fmt[i] == 'e' ==> Nesting(fmt) > 0
  {
  }

  lemma {:induction false} ErrorStringIsCString(err: nat)
    requires err <= MAXERROR
    ensures IsCString(ErrorString(err) + "\0")
  {
    ErrorStringIsPlain(err);
    PlainIsCString(ErrorString(err));
  }

  lemma {:induction false} PlainIsCString(s: string)
    requires |s| <= 20 && forall c | c in s :: ' ' <= c <= '~'
    ensures IsCString(s + "\0")
  {
    assert forall i | 0 <= i < |s| :: (s + "\0")[i] == s[i] && s[i] in s;
  }

  lemma {:induction false} Unmasked(s: string)
    ensures Masked(s, false) == s
  {
    if s != [] {
      Unmasked(s[..|s| - 1]);
    }
  }

  lemma {:induction false} RenderStringFormat(s: CStr)
    ensures Render(STRING_FORMAT, 0, [StrArg(Some(s))]) == Some(Codes(s[..|s| - 1]))
  {
    var f, a := STRING_FORMAT, [StrArg(Some(s))];
    var t := Codes(s[..|s| - 1]);
    assert f[0] == '%' && f[1] == 's' && f[2] == '\0';
    Unmasked(s[..|s| - 1]);
    assert StringText(s, PLAIN) == t;
    assert Render(f, 2, a[1..]) == Some([]);
    assert t + [] == t;
    assert Scan(f, 1, PLAIN, a) == Ends(1, PLAIN, a);
  }

  lemma {:induction false} RenderErrorFormat(err: nat)
    requires err < TWO31
    ensures Render(ERROR_FORMAT, 0, [IntArg(err)]) == Some(Codes("error ") + NumText(err, 10, -1, ' '))
  {
    var f, a := ERROR_FORMAT, [IntArg(err)];
    var t := NumText(err, 10, -1, ' ');
    assert f[6] == '%' && f[7] == 'd' && f[8] == '\0';
    assert Int32(err) == err;
    assert Render(f, 8, a[1..]) == Some([]);
    assert t + [] == t;
    assert Scan(f, 7, PLAIN, a) == Ends(7, PLAIN, a);
    assert Render(f, 6, a) == Some(t);
    RenderPlain(f, 0, 6, a);
    assert f[0..6] == "error ";
  }

  lemma {:induction false} StringParts(t: seq<int>, s: CStr, fl: Flags, width: int)
    requires fl.padc == '-' ==> width == fl.width - |Shown(s, fl.precision)|
    requires fl.padc != '-' || fl.width <= 0 ==> width <= 0
    ensures t + StringText(s, fl)
         == t + LeftPad(s, fl) + Codes(Masked(Shown(s, fl.precision), fl.altflag)) + Repeat(' ', width)
  {
    assert Repeat(' ', width) == RightPad(s, fl);
  }

  /** The conversion of an int to size_t. */
  function SizeT(n: int): nat
    requires n >= -TWO31
  {
    if n < 0 then n + TWO64 else n
  }

  /** The distance to the first NUL if that is below `len`, else `len`.  Looks at no more than `len`
      characters, so a block of that many need not hold a NUL. */
  method Strnlen(s: string, len: nat) returns (cnt: nat)
    requires len <= |s| || '\0' in s
    ensures cnt <= len && cnt <= |s| && forall i | 0 <= i < cnt :: s[i] != '\0'
    ensures cnt == len || (cnt < |s| && s[cnt] == '\0')
  {
    cnt := 0;
    while cnt < len && s[cnt] != '\0'
      invariant cnt <= len && cnt <= |s| && forall i | 0 <= i < cnt :: s[i] != '\0'
      invariant len <= |s| || '\0' in s[cnt..]
    {
      cnt := cnt + 1;
    }
  }

  lemma {:induction false} ShownUpTo(s: CStr, i: nat, precision: int)
    requires i < |s|
    requires precision == i || (s[i] == '\0' && (precision < 0 || i <= precision))
    ensures s[..i] == Shown(s, precision)
  {
  }

  lemma {:induction false} OneMoreShown(t: seq<int>, s: string, i: nat, altflag: bool)
    requires i < |s|
    ensures t + Codes(Masked(s[..i + 1], altflag))
         == t + Codes(Masked(s[..i], altflag)) + [Printable(s[i], altflag) as int]
  {
    assert s[..i + 1][..i] == s[..i];
    CodesSnoc(Masked(s[..i], altflag), Printable(s[i], altflag));
  }

  /** The last digit apart, a number is padded like its leading digits in one column less. */
  lemma {:induction false} NumTextLonger(num: nat, base: nat, width: int, padc: char)
    requires 2 <= base <= 16 && num >= base
    ensures 0 <= num / base < num
    ensures NumText(num, base, width, padc)
         == NumText(num / base, base, width - 1, padc) + [DIGITS[num % base] as int]
  {
    Shrinks(num, base);
    PadSnoc(Digits(num / base, base), DIGITS[num % base], width, padc);
  }

  lemma {:induction false} NumTextSingle(num: nat, base: nat, width: int, padc: char)
    requires 2 <= base <= 16 && num < base
    ensures num % base == num
    ensures NumText(num, base, width, padc) == Repeat(padc, width - 1) + [DIGITS[num] as int]
  {
    SmallRemainder(num, base);
    PadSnoc([], DIGITS[num], width, padc);
    assert [] + [DIGITS[num]] == [DIGITS[num]];
  }

  lemma {:induction false} SmallRemainder(num: nat, base: nat)
    requires num < base
    ensures num % base == num
  {
  }

  lemma {:induction false} PadSnoc(d: string, last: char, width: int, padc: char)
    ensures Repeat(padc, width - |d + [last]|) + Codes(d + [last])
         == Repeat(padc, width - 1 - |d|) + Codes(d) + [last as int]
  {
    CodesSnoc(d, last);
    assert width - |d + [last]| == width - 1 - |d|;
  }

}
