/** Strings as C keeps them, and the machine's fixed-width integers. */
module CString {

  /** The bytes (characters below 256) of a string in memory, up to and including the first NUL.
      No object in a 64-bit address space is larger than 2^63 bytes. */
  ghost predicate IsCString(s: string) {
    && EndsInNul(s) && |s| <= TWO63
    && (forall i | 0 <= i < |s| :: s[i] as int < 256)
  }

  /** The last character, and no other, is NUL. */
  ghost predicate EndsInNul(s: string) {
    && 0 < |s| && s[|s| - 1] == '\0'
    && (forall i | 0 <= i < |s| - 1 :: s[i] != '\0')
  }

  type CStr = s: string | IsCString(s) witness "\0"

  const TWO31: int := 0x8000_0000
  const TWO32: int := 0x1_0000_0000
  const TWO63: int := 0x8000_0000_0000_0000
  const TWO64: int := 0x1_0000_0000_0000_0000

  type Uint32 = x: int | 0 <= x < TWO32
  type Uint64 = x: int | 0 <= x < TWO64

  /** The value that the low 32 bits of `x` have as an int. */
  function Int32(x: int): int {
    (x + TWO31) % TWO32 - TWO31
  }

  /** The value that the low 64 bits of `x` have as a long. */
  function Int64(x: int): int {
    (x + TWO63) % TWO64 - TWO63
  }

  lemma {:induction false} Int32Next(x: int)
    ensures Int32(Int32(x) + 1) == Int32(x + 1)
  {
    var q := (x + TWO31) / TWO32;
    assert Int32(x) == x - TWO32 * q;
    assert Int32(x) + 1 + TWO31 == (x + 1 + TWO31) - TWO32 * q;
    Shift32(x + 1 + TWO31, q);
  }

  lemma {:induction false} Shift32(x: int, q: int)
    ensures (x - TWO32 * q) % TWO32 == x % TWO32
  {
    assert x - TWO32 * q == TWO32 * (x / TWO32 - q) + x % TWO32;
  }

  lemma {:induction false} Shift64(x: int, q: int)
    ensures (x - TWO64 * q) % TWO64 == x % TWO64
  {
    assert x - TWO64 * q == TWO64 * (x / TWO64 - q) + x % TWO64;
  }

  lemma {:induction false} Int64Is(x: int) returns (q: int)
    ensures Int64(x) == x - TWO64 * q
  {
    q := (x + TWO63) / TWO64;
  }

  lemma {:induction false} Int64Shift(x: int, q: int)
    ensures Int64(x - TWO64 * q) == Int64(x)
  {
    Shift64(x + TWO63, q);
  }

  /** Wrapping at every step of an accumulation is wrapping once. */
  lemma {:induction false} Int64Accumulates(x: int, b: int, d: int)
    ensures Int64(Int64(x) * b + d) == Int64(x * b + d)
  {
    var q := Int64Is(x);
    assert Int64(x) * b + d == (x * b + d) - TWO64 * (q * b);
    Int64Shift(x * b + d, q * b);
  }

  lemma {:induction false} Int64Negates(x: int)
    ensures Int64(-Int64(x)) == Int64(-x)
  {
    var q := Int64Is(x);
    Int64Shift(-x, -q);
  }

  /** An int is the one value of its range that agrees with a number modulo 2^32. */
  lemma {:induction false} IntValue(x: int, v: int)
    ensures Int32(x) == v <==> -0x8000_0000 <= v < 0x8000_0000 && (v - x) % 0x1_0000_0000 == 0
  {
  }

  /** And a long the one of its range that agrees modulo 2^64. */
  lemma {:induction false} LongValue(x: int, v: int)
    ensures Int64(x) == v <==>
            -0x8000_0000_0000_0000 <= v < 0x8000_0000_0000_0000 && (v - x) % 0x1_0000_0000_0000_0000 == 0
  {
  }
}
