/** Reading a number back from text. */
module Strtol {
  import opened CString
  import opened Numerals

  predicate IsBlank(c: char) {
    c == ' ' || c == '\t'
  }

  /** White space as C has it: the space, and tab, newline, vertical tab, form feed and return. */
  predicate IsSpace(c: char) {
    c == ' ' || '\t' <= c <= '\r'
  }

  /** What is skipped in front of a numeral: by the code, and by its comment. */
  predicate Skipped(c: char, documented: bool) {
    if documented then IsSpace(c) else IsBlank(c)
  }

  predicate IsSign(c: char) {
    c == '+' || c == '-'
  }

  /** The parts of a numeral in a string: where the sign would be, where the prefix would be, the
      base in force, and the run of digits. */
  datatype Reading = Reading(sign: nat, prefix: nat, base: int, first: nat, end: nat)

  /** A hexadecimal prefix: a zero and an x, in lower case only or in either case. */
  predicate HexPrefix(s: CStr, i: nat, anyCase: bool)
    requires i < |s|
  {
    s[i] == '0' && i + 1 < |s| && (s[i + 1] == 'x' || (anyCase && s[i + 1] == 'X'))
  }

  /** `r` divides `s` into skipped characters, at most one sign, a prefix that the base allows, the
      longest run of digits of the base in force, and the rest: as the code does it or as the comment
      on strtol documents it.  The two differ in what is skipped, and in that the comment allows an
      upper-case prefix in base 16.  A prefix counts as read even if no digit follows. */
  ghost predicate Reads(s: CStr, base: int, documented: bool, r: Reading) {
    && r.sign <= r.prefix <= r.first <= r.end < |s|
    && (forall k | 0 <= k < r.sign :: Skipped(s[k], documented)) && !Skipped(s[r.sign], documented)
    && r.prefix == r.sign + (if IsSign(s[r.sign]) then 1 else 0)
    && (if (base == 0 || base == 16) && HexPrefix(s, r.prefix, documented && base == 16)
        then r.base == 16 && r.first == r.prefix + 2
        else if base == 0 && s[r.prefix] == '0' then r.base == 8 && r.first == r.prefix + 1
        else r.base == (if base == 0 then 10 else base) && r.first == r.prefix)
    && (forall k | r.first <= k < r.end :: IsDigit(s[k], r.base)) && !IsDigit(s[r.end], r.base)
  }

  /** The signed value of the digits. */
  function Denoted(s: CStr, r: Reading): int
    requires r.sign < |s| && r.first <= r.end <= |s|
  {
    var v := Value(s[r.first..r.end], r.base);
    if s[r.sign] == '-' then -v else v
  }

  /** That value as a long, which keeps it modulo 2^64. */
  function Result(s: CStr, r: Reading): int
    requires r.sign < |s| && r.first <= r.end <= |s|
  {
    Int64(Denoted(s, r))
  }

  /** strtol: returns the value and the position of the first character not used. */
  method Strtol(s: CStr, base: int) returns (val: int, end: nat, ghost r: Reading)
    ensures Reads(s, base, false, r) && end == r.end && val == Result(s, r)
  {
    var i, neg, b := 0, false, base;
    while IsBlank(s[i])
      invariant i < |s| && forall k | 0 <= k < i :: IsBlank(s[k])
      decreases |s| - i
    {
      i := i + 1;
    }
    ghost var sign := i;
    if s[i] == '+' {
      i := i + 1;
    } else if s[i] == '-' {
      i, neg := i + 1, true;
    }
    ghost var prefix := i;
    if (b == 0 || b == 16) && s[i] == '0' && s[i + 1] == 'x' {
      i, b := i + 2, 16;
    } else if b == 0 && s[i] == '0' {
      i, b := i + 1, 8;
    } else if b == 0 {
      b := 10;
    }
    ghost var first := i;
    val, end := ReadDigits(s, i, b);
    r := Reading(sign, prefix, b, first, end);
    if neg {
      Int64Negates(Value(s[first..end], b));
      val := Int64(-val);
    }
  }

  /** The digit loop, accumulating in a long that wraps. */
  method ReadDigits(s: CStr, first: nat, base: int) returns (val: int, i: nat)
    requires first < |s|
    ensures first <= i < |s| && !IsDigit(s[i], base) && forall k | first <= k < i :: IsDigit(s[k], base)
    ensures val == Int64(Value(s[first..i], base))
  {
    val, i := 0, first;
    while true
      invariant first <= i < |s| && forall k | first <= k < i :: IsDigit(s[k], base)
      invariant val == Int64(Value(s[first..i], base))
      decreases |s| - i
    {
      var dig;
      if '0' <= s[i] <= '9' {
        dig := s[i] as int - '0' as int;
      } else if 'a' <= s[i] <= 'z' {
        dig := s[i] as int - 'a' as int + 10;
      } else if 'A' <= s[i] <= 'Z' {
        dig := s[i] as int - 'A' as int + 10;
      } else {
        break;
      }
      if dig >= base {
        break;
      }
      OneMoreDigit(s, first, i, base);
      i, val := i + 1, Int64(val * base + dig);
    }
  }

  lemma {:induction false} OneMoreDigit(s: string, i: nat, j: nat, base: int)
    requires i <= j < |s|
    ensures Int64(Value(s[i..j + 1], base)) == Int64(Int64(Value(s[i..j], base)) * base + DigitValue(s[j]))
  {
    assert s[i..j + 1] == s[i..j] + [s[j]];
    LastDigit(s[i..j], s[j], base);
    Int64Accumulates(Value(s[i..j], base), base, DigitValue(s[j]));
  }

  /** A string can be read in one way only. */
  lemma {:induction false} ReadingIsUnique(s: CStr, base: int, documented: bool, r: Reading, r': Reading)
    requires Reads(s, base, documented, r) && Reads(s, base, documented, r')
    ensures r == r'
  {
  }

  /** What a reading is, told by the texts it divides the string into: spaces and tabs (as documented also
      newline, vertical tab, form feed and return), a plus or minus sign or none, "0x" in base 0 or 16
      (as documented also "0X" in base 16) or "0" in base 0 or nothing, and digits of the base in force,
      each part as long as it can be. */
  lemma {:induction false} ReadsIff(s: CStr, base: int, documented: bool, r: Reading)
    requires r.sign <= r.prefix <= r.first <= r.end < |s|
    ensures Reads(s, base, documented, r) <==>
      var sign, prefix, digits, rest := s[r.sign..r.prefix], s[r.prefix..r.first], s[r.first..r.end], s[r.prefix..];
      && (forall k | 0 <= k < r.sign :: s[k] in " \t" || (documented && 10 <= s[k] as int <= 13))
      && !(s[r.sign] in " \t" || (documented && 10 <= s[r.sign] as int <= 13))
      && (sign == "+" || sign == "-" || (sign == "" && s[r.sign] !in "+-"))
      && (if (base == 0 || base == 16) && ("0x" <= rest || (documented && base == 16 && "0X" <= rest))
          then r.base == 16 && |prefix| == 2
          else if base == 0 && "0" <= rest then r.base == 8 && |prefix| == 1
          else r.base == (if base == 0 then 10 else base) && |prefix| == 0)
      && (forall k | 0 <= k < |digits| :: IsDigit(digits[k], r.base)) && !IsDigit(s[r.end], r.base)
  {
    SignIs(s, r.sign, r.prefix);
    PrefixIs(s, r.prefix);
    var digits := s[r.first..r.end];
    assert forall k | 0 <= k < |digits| :: digits[k] == s[r.first + k];
    assert forall k | r.first <= k < r.end :: s[k] == digits[k - r.first];
  }

  lemma {:induction false} SignIs(s: string, i: nat, j: nat)
    requires i <= j < |s|
    ensures var sign := s[i..j];
      (sign == "+" || sign == "-" || (sign == "" && s[i] !in "+-")) <==> j == i + if s[i] in "+-" then 1 else 0
  {
    var sign := s[i..j];
    if j == i + 1 {
      assert sign == [s[i]];
    }
  }

  lemma {:induction false} PrefixIs(s: CStr, i: nat)
    requires i < |s|
    ensures "0x" <= s[i..] <==> HexPrefix(s, i, false)
    ensures "0x" <= s[i..] || "0X" <= s[i..] <==> HexPrefix(s, i, true)
    ensures "0" <= s[i..] <==> s[i] == '0'
  {
    var rest := s[i..];
    assert rest[0] == s[i] && (|rest| > 1 ==> rest[1] == s[i + 1]);
  }

  /** And its result is the value of the digits, negated for a minus sign, as a long. */
  lemma {:induction false} ResultIs(s: CStr, base: int, documented: bool, r: Reading)
    requires Reads(s, base, documented, r)
    ensures var sign, digits := s[r.sign..r.prefix], s[r.first..r.end];
      Result(s, r) == Int64(if sign == "-" then -Value(digits, r.base) else Value(digits, r.base))
  {
    var sign := s[r.sign..r.prefix];
    assert |sign| == 1 ==> sign == [s[r.sign]];
    assert sign == "-" <==> s[r.sign] == '-';
  }

  // ----- Case -----

  /** The same character, or the same letter in the other case. */
  predicate SameButCase(c: char, d: char) {
    || c == d
    || ('a' <= c <= 'z' && d as int == c as int - 'a' as int + 'A' as int)
    || ('A' <= c <= 'Z' && d as int == c as int - 'A' as int + 'a' as int)
  }

  lemma {:induction false} ValueButCase(d: string, e: string, base: int)
    requires |d| == |e| && forall k | 0 <= k < |d| :: SameButCase(d[k], e[k])
    ensures Value(d, base) == Value(e, base)
  {
    if d != "" {
      var n := |d| - 1;
      ValueButCase(d[..n], e[..n], base);
      assert DigitValue(d[n]) == DigitValue(e[n]);
    }
  }

  /** Changing the case of letters among the digits changes neither the end nor the result. */
  lemma {:induction false} CaseDoesNotMatter(s: CStr, t: CStr, base: int, r: Reading)
    requires Reads(s, base, false, r) && |s| == |t|
    requires forall k | 0 <= k < |s| :: if r.first <= k < r.end then SameButCase(s[k], t[k]) else s[k] == t[k]
    ensures Reads(t, base, false, r) && Result(t, r) == Result(s, r)
  {
    forall k | r.first <= k < r.end
      ensures IsDigit(t[k], r.base)
    {
      assert SameButCase(s[k], t[k]) && DigitValue(s[k]) == DigitValue(t[k]);
    }
    ValueButCase(s[r.first..r.end], t[r.first..r.end], r.base);
  }

  // ----- Code and comment -----

  predicate UpperPrefix(s: CStr, i: nat) {
    i + 1 < |s| && s[i] == '0' && s[i + 1] == 'X'
  }

  /** The outcome is the documented one exactly unless the blanks are followed by other white space, or
      the base is 16 and "0X" stands where the prefix may.  The value is the documented one, and not
      only modulo 2^64, exactly if a long can also hold it. */
  lemma {:induction false} DocumentedIff(s: CStr, base: int, r: Reading, doc: Reading)
    requires Reads(s, base, false, r) && Reads(s, base, true, doc)
    ensures (r.end == doc.end && Result(s, r) == Result(s, doc)) <==>
            !IsSpace(s[r.sign]) && !(base == 16 && UpperPrefix(s, r.prefix))
    ensures (r.end == doc.end && Result(s, r) == Denoted(s, doc)) <==>
            && !IsSpace(s[r.sign]) && !(base == 16 && UpperPrefix(s, r.prefix))
            && -TWO63 <= Denoted(s, doc) < TWO63
  {
    if IsSpace(s[r.sign]) {
      SkipsLess(s, base, r, doc);
    } else if base == 16 && UpperPrefix(s, r.prefix) {
      StopsAtX(s, r, doc);
    } else {
      assert Reads(s, base, true, r);
      ReadingIsUnique(s, base, true, r, doc);
    }
  }

  /** White space that is no blank ends the numeral before it has begun. */
  lemma {:induction false} SkipsLess(s: CStr, base: int, r: Reading, doc: Reading)
    requires Reads(s, base, false, r) && Reads(s, base, true, doc) && IsSpace(s[r.sign])
    ensures r.end == r.sign < doc.sign <= doc.end
  {
    assert DigitValue(s[r.sign]) == -1;
  }

  /** An upper-case prefix is read as a zero. */
  lemma {:induction false} StopsAtX(s: CStr, r: Reading, doc: Reading)
    requires Reads(s, 16, false, r) && Reads(s, 16, true, doc)
    requires !IsSpace(s[r.sign]) && UpperPrefix(s, r.prefix)
    ensures r.end <= r.prefix + 1 < doc.end
  {
    assert r.sign == doc.sign;
    assert DigitValue('X') == 33;
    if r.end > r.prefix + 1 {
      assert false;
    }
  }

  lemma {:induction false} OneDigitValue(s: string, i: nat, base: int)
    requires i < |s|
    ensures Value(s[i..i + 1], base) == DigitValue(s[i])
  {
    assert Value([], base) == 0;
    LastDigit([], s[i], base);
    assert s[i..i + 1] == [] + [s[i]];
  }

  lemma {:induction false} TwoDigitValue(s: string, i: nat, base: int)
    requires i + 1 < |s|
    ensures Value(s[i..i + 2], base) == DigitValue(s[i]) * base + DigitValue(s[i + 1])
  {
    OneDigitValue(s, i, base);
    LastDigit(s[i..i + 1], s[i + 1], base);
    assert s[i..i + 2] == s[i..i + 1] + [s[i + 1]];
  }

  const UPPER: CStr := "0X1f\0"

  /** For instance, "0X1f" in base 16 is read as 0 where 31 is documented. */
  lemma {:induction false} UpperPrefixExample()
    ensures var r := Reading(0, 0, 16, 0, 1); Reads(UPPER, 16, false, r) && Result(UPPER, r) == 0
    ensures var doc := Reading(0, 0, 16, 2, 4); Reads(UPPER, 16, true, doc) && Result(UPPER, doc) == 31
  {
    var s := UPPER;
    assert s[0] == '0' && s[1] == 'X' && s[2] == '1' && s[3] == 'f' && s[4] == '\0';
    OneDigitValue(s, 0, 16);
    TwoDigitValue(s, 2, 16);
  }

  /** In base 0 the comment names "0x" only, and "0X1f" is the octal 0 for code and comment alike. */
  lemma {:induction false} UpperPrefixInBaseZero()
    ensures var r := Reading(0, 0, 8, 1, 1);
      Reads(UPPER, 0, false, r) && Reads(UPPER, 0, true, r) && Result(UPPER, r) == 0
  {
    var s := UPPER;
    assert s[0] == '0' && s[1] == 'X';
    assert Value([], 8) == 0 && s[1..1] == [];
  }

  const NEWLINE: CStr := "\n42\0"

  /** A newline and 42, in base 10, are read as 0 up to the newline, where 42 is documented. */
  lemma {:induction false} NewlineExample()
    ensures var r := Reading(0, 0, 10, 0, 0); Reads(NEWLINE, 10, false, r) && Result(NEWLINE, r) == 0
    ensures var doc := Reading(1, 1, 10, 1, 3); Reads(NEWLINE, 10, true, doc) && Result(NEWLINE, doc) == 42
  {
    var s := NEWLINE;
    assert s[0] == '\n' && s[1] == '4' && s[2] == '2' && s[3] == '\0';
    assert s[0..0] == [] && Value([], 10) == 0;
    TwoDigitValue(s, 1, 10);
  }
}
