/** Formatting into a buffer of limited size. */
module Snprintf {
  import opened CString
  import opened Format
  import opened Buffer
  import opened Printer

  const E_INVAL := 3

  /** vsnprintf into the `size` characters at `str`; None is the null pointer.  Without room for
      the terminator nothing is written, and neither format nor arguments matter.  Otherwise the
      buffer receives as much of the text as fits and a terminator, no other character changes,
      and the result is the length of the whole text, as an int. */
  method Vsnprintf(mem: array<char>, str: Option<nat>, size: nat, fmt: CStr, args: seq<Arg>) returns (r: int)
    requires str.Some? && size > 0 ==> Render(fmt, 0, args).Some? && str.value + size <= mem.Length
    modifies mem
    ensures str.None? || size == 0 ==> r == -3 && mem[..] == old(mem[..])
    ensures str.Some? && size > 0 ==>
              && r == Int32(|Render(fmt, 0, args).value|)
              && mem[..] == Filled(old(mem[..]), str.value, size, Render(fmt, 0, args).value)
  {
    if str.None? || size == 0 {
      return -E_INVAL;
    }
    r := FormatInto(mem, str.value, size, fmt, args);
  }

  method FormatInto(mem: array<char>, p: nat, size: nat, fmt: CStr, args: seq<Arg>) returns (r: int)
    requires Render(fmt, 0, args).Some? && size > 0 && p + size <= mem.Length
    modifies mem
    ensures r == Int32(|Render(fmt, 0, args).value|)
    ensures mem[..] == Filled(old(mem[..]), p, size, Render(fmt, 0, args).value)
  {
    var b := new Sink(mem, p, p + size - 1);
    b.VPrintFmt(fmt, args);
    NothingBefore(Render(fmt, 0, args).value);
    r := b.Terminate();
  }

  lemma {:induction false} NothingBefore(t: seq<int>)
    ensures [] + t == t
  {
  }
}
