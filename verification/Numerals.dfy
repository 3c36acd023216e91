/** Positional numerals: the digits that printnum writes and that strtol reads. */
module Numerals {

  const DIGITS: string := "0123456789abcdef"

  function Digits(num: nat, base: nat): (s: string)
    requires 2 <= base <= 16
    ensures |s| > 0
  {
    if num < base then [DIGITS[num]]
    else
      Shrinks(num, base);
      Digits(num / base, base) + [DIGITS[num % base]]
  }

  /** The value of a character as a digit, letters of either case counting from ten; -1 for no digit. */
  function DigitValue(c: char): int {
    if '0' <= c <= '9' then c as int - '0' as int
    else if 'a' <= c <= 'z' then c as int - 'a' as int + 10
    else if 'A' <= c <= 'Z' then c as int - 'A' as int + 10
    else -1
  }

  /** In ASCII the digits and the letters of either case follow one another. */
  lemma {:induction false} Alphabet(v: nat)
    requires v < 36
    ensures var lower, upper := "0123456789abcdefghijklmnopqrstuvwxyz"[v], "0123456789ABCDEFGHIJKLMNOPQRSTUVWXYZ"[v];
      && lower as int == (if v < 10 then '0' as int + v else 'a' as int + v - 10)
      && upper as int == (if v < 10 then '0' as int + v else 'A' as int + v - 10)
  {
  }

  /** Digit v is character v of the digits and letters, in either case. */
  lemma {:induction false} DigitNames(c: char, v: nat)
    requires v < 36
    ensures DigitValue(c) == v <==>
            || c == "0123456789abcdefghijklmnopqrstuvwxyz"[v]
            || c == "0123456789ABCDEFGHIJKLMNOPQRSTUVWXYZ"[v]
  {
    Alphabet(v);
  }

  /** And no other character is a digit. */
  lemma {:induction false} NoDigits(c: char)
    ensures -1 <= DigitValue(c) < 36
    ensures DigitValue(c) == -1 <==>
            c !in "0123456789abcdefghijklmnopqrstuvwxyz" && c !in "0123456789ABCDEFGHIJKLMNOPQRSTUVWXYZ"
  {
    var d := DigitValue(c);
    if d >= 0 {
      DigitNames(c, d);
    }
    if c in "0123456789abcdefghijklmnopqrstuvwxyz" {
      var i :| 0 <= i < 36 && "0123456789abcdefghijklmnopqrstuvwxyz"[i] == c;
      DigitNames(c, i);
    }
    if c in "0123456789ABCDEFGHIJKLMNOPQRSTUVWXYZ" {
      var i :| 0 <= i < 36 && "0123456789ABCDEFGHIJKLMNOPQRSTUVWXYZ"[i] == c;
      DigitNames(c, i);
    }
  }

  predicate IsDigit(c: char, base: int) {
    0 <= DigitValue(c) < base
  }

  /** The positional value of a string of digits, the most significant first. */
  function Value(s: string, base: int): int {
    if s == [] then 0 else Value(s[..|s| - 1], base) * base + DigitValue(s[|s| - 1])
  }

  lemma {:induction false} DigitCharacters(d: nat)
    requires d < 16
    ensures DigitValue(DIGITS[d]) == d && (DIGITS[d] == '0' <==> d == 0)
    ensures '0' <= DIGITS[d] <= '9' || 'a' <= DIGITS[d] <= 'f'
    ensures d < 10 ==> '0' <= DIGITS[d] <= '9'
  {
  }

  function Power(base: nat, k: nat): nat {
    if k == 0 then 1 else base * Power(base, k - 1)
  }

  // ----- What the digits of a number are -----

  /** Digits of the base, without a superfluous leading zero. */
  ghost predicate Canonical(s: string, base: nat) {
    && |s| > 0
    && (forall i | 0 <= i < |s| :: s[i] in DIGITS && IsDigit(s[i], base))
    && (s[0] == '0' ==> |s| == 1)
  }

  lemma {:induction false} LastDigit(s: string, c: char, base: int)
    ensures Value(s + [c], base) == Value(s, base) * base + DigitValue(c)
  {
    assert (s + [c])[..|s|] == s;
  }

  lemma {:induction false} OneDigit(d: nat, base: nat)
    requires d < base <= 16
    ensures Canonical([DIGITS[d]], base) && Value([DIGITS[d]], base) == d
  {
    DigitCharacters(d);
    LastDigit([], DIGITS[d], base);
    assert [] + [DIGITS[d]] == [DIGITS[d]];
  }

  lemma {:induction false} MoreDigits(s: string, d: nat, base: nat)
    requires d < base <= 16 && Canonical(s, base) && s[0] != '0'
    ensures Canonical(s + [DIGITS[d]], base)
  {
    DigitCharacters(d);
    var t := s + [DIGITS[d]];
    forall i | 0 <= i < |t|
      ensures t[i] in DIGITS && IsDigit(t[i], base)
    {
      if i < |s| { assert t[i] == s[i]; }
    }
  }

  /** The digits of a number are a canonical numeral of it. */
  lemma {:induction false} DigitsDenote(num: nat, base: nat)
    requires 2 <= base <= 16
    ensures Canonical(Digits(num, base), base)
    ensures Value(Digits(num, base), base) == num
    ensures Digits(num, base)[0] == '0' <==> num == 0
  {
    if num < base {
      DigitCharacters(num);
      OneDigit(num, base);
    } else {
      Shrinks(num, base);
      DigitsDenote(num / base, base);
      OneDigitMore(num, base, num / base, num % base);
    }
  }

  lemma {:induction false} OneDigitMore(num: nat, base: nat, q: nat, d: nat)
    requires 2 <= base <= 16 && num >= base && q == num / base && d == num % base
    requires Canonical(Digits(q, base), base) && Value(Digits(q, base), base) == q
    requires Digits(q, base)[0] == '0' <==> q == 0
    ensures Canonical(Digits(num, base), base) && Value(Digits(num, base), base) == num
    ensures Digits(num, base)[0] != '0'
  {
    Recompose(num, base);
    var s := Digits(q, base);
    assert Digits(num, base) == s + [DIGITS[d]];
    DigitCharacters(d);
    MoreDigits(s, d, base);
    LastDigit(s, DIGITS[d], base);
  }

  /** There is only one canonical numeral of a number. */
  lemma {:induction false} DigitsAreUnique(s: string, base: nat)
    requires 2 <= base <= 16 && Canonical(s, base)
    ensures Value(s, base) >= 0 && s == Digits(Value(s, base), base)
    ensures s[0] != '0' ==> Value(s, base) > 0
  {
    var t, c := s[..|s| - 1], s[|s| - 1];
    var d := DigitOf(c, base);
    assert s == t + [c];
    if t == [] {
      assert Value([], base) == 0;
      assert Value(s, base) == d;
      DigitCharacters(d);
    } else {
      assert Canonical(t, base) by { assert forall i | 0 <= i < |t| :: t[i] == s[i]; }
      DigitsAreUnique(t, base);
      Append(t, base, d);
    }
  }

  lemma {:induction false} Append(t: string, base: nat, d: nat)
    requires 2 <= base <= 16 && d < base && Value(t, base) > 0 && t == Digits(Value(t, base), base)
    ensures Value(t + [DIGITS[d]], base) > 0
    ensures t + [DIGITS[d]] == Digits(Value(t + [DIGITS[d]], base), base)
  {
    var v := Value(t, base);
    DigitCharacters(d);
    LastDigit(t, DIGITS[d], base);
    QuotientRemainder(v, base, d);
  }

  lemma {:induction false} DigitOf(c: char, base: nat) returns (d: nat)
    requires c in DIGITS && IsDigit(c, base) && base <= 16
    ensures d == DigitValue(c) && d < base && c == DIGITS[d]
  {
    d := DigitValue(c);
    var i :| 0 <= i < 16 && DIGITS[i] == c;
    DigitCharacters(i);
  }

  lemma {:induction false} QuotientRemainder(v: nat, base: nat, d: nat)
    requires v > 0 && base > 0 && d < base
    ensures v * base + d >= base
    ensures (v * base + d) / base == v && (v * base + d) % base == d
  {
    var x := v * base + d;
    Recompose(x, base);
    var q := x / base;
    assert (v - q) * base == x % base - d;
    if v > q { AtLeast(base, v - q); }
    if v < q { AtLeast(base, q - v); }
    AtLeast(base, v);
  }

  /** How numerals grow: one digit for a number below the base, and one digit more for a number times the
      base and that digit.  Letters are lower case. */
  lemma {:induction false} DigitsGrow(num: nat, base: nat, d: nat)
    requires 2 <= base <= 16 && d < base
    ensures Digits(d, base) == ["0123456789abcdef"[d]]
    ensures num > 0 ==> Digits(num * base + d, base) == Digits(num, base) + ["0123456789abcdef"[d]]
  {
    if num > 0 {
      QuotientRemainder(num, base, d);
    }
  }

  /** k digits suffice exactly for the numbers below base^k. */
  lemma {:induction false} DigitCount(num: nat, base: nat, k: nat)
    requires 2 <= base <= 16 && k >= 1
    ensures |Digits(num, base)| <= k <==> num < Power(base, k)
  {
    if num < base {
      PowerAtLeast(base, k);
    } else if k == 1 {
      assert Power(base, 1) == base * Power(base, 0) == base;
    } else {
      Recompose(num, base);
      DivLess(num, base, Power(base, k - 1));
      DigitCount(num / base, base, k - 1);
    }
  }

  lemma {:induction false} PowerAtLeast(base: nat, k: nat)
    requires base >= 1 && k >= 1
    ensures Power(base, k) >= base
  {
    PowerPositive(base, k - 1);
    AtLeast(base, Power(base, k - 1));
  }

  lemma {:induction false} PowerPositive(base: nat, k: nat)
    requires base >= 1
    ensures Power(base, k) >= 1
  {
    if k > 0 {
      PowerPositive(base, k - 1);
      AtLeast(base, Power(base, k - 1));
    }
  }

  // ----- Division -----

  lemma {:induction false} Recompose(num: nat, base: nat)
    requires base > 0
    ensures num / base >= 0 && num == num / base * base + num % base
    ensures num >= base ==> num / base > 0
  {
  }

  lemma {:induction false} AtLeast(b: int, k: int)
    requires b > 0 && k >= 1
    ensures k * b >= b
  {
  }

  lemma {:induction false} DivLess(x: nat, b: nat, p: nat)
    requires b > 0
    ensures x / b < p <==> x < b * p
  {
    var q := x / b;
    Recompose(x, b);
    if q < p {
      assert (p - q) * b == p * b - q * b;
      AtLeast(b, p - q);
    } else {
      assert (q - p) * b == q * b - p * b && (q - p) * b >= 0;
    }
  }

  lemma {:induction false} Shrinks(num: nat, base: nat)
    requires 2 <= base <= num
    ensures 0 <= num / base < num
  {
    Recompose(num, base);
    AtLeast(num, base - 1);
    assert base * num == (base - 1) * num + num;
    DivLess(num, base, num);
  }
}
