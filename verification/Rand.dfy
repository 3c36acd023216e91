/** The pseudo-random generator: one step of a linear congruential generator on 48 bits. */
module Rand {
  const MULTIPLIER: nat := 0x5DEECE66D
  const INCREMENT: nat := 0xB
  const STATES: nat := 0x1_0000_0000_0000 // 2^48
  const WORD: nat := 0x1_0000_0000_0000_0000 // 2^64
  const RAND_MAX: nat := 2147483647

  /** The transition, in unbounded arithmetic. */
  function Next(s: int): int {
    (s * MULTIPLIER + INCREMENT) % STATES
  }

  /** What a call returns once the state is `s`.  The divisor of do_div is not parenthesised
      by the macro, so the one in "RAND_MAX + 1" is added to the remainder. */
  function Output(s: int): int {
    s / 0x1000 % RAND_MAX + 1
  }

  lemma {:induction false} ModOfMod(x: int)
    ensures x % WORD % STATES == x % STATES
  {
    var q, r := x / WORD, x % WORD;
    assert x == STATES * (0x1_0000 * q) + r;
    AddMultiple(r, 0x1_0000 * q);
  }

  lemma {:induction false} AddMultiple(x: int, q: int)
    ensures (x + STATES * q) % STATES == x % STATES
  {
    assert x + STATES * q == STATES * (x / STATES + q) + x % STATES;
  }

  /** Wrapping at 64 bits never shows in the 48 bits that are kept. */
  lemma {:induction false} WrapIsHarmless(s: nat)
    ensures (s * MULTIPLIER % WORD + INCREMENT) % WORD % STATES == Next(s)
  {
    var x := s * MULTIPLIER;
    ModOfMod(x % WORD + INCREMENT);
    var q := x / WORD;
    assert x + INCREMENT == x % WORD + INCREMENT + STATES * (0x1_0000 * q);
    AddMultiple(x % WORD + INCREMENT, 0x1_0000 * q);
  }

  // ----- Which generator it is -----

  /** The step from 0 is 11, and every step from a state is the multiplier further, round the 2^48
      states, than the step from the state before: there is only one transition like that. */
  lemma {:induction false} NextIsDetermined(s: int)
    ensures Next(0) == 11 && 0 <= Next(s) < 281474976710656
    ensures (Next(s + 1) - Next(s)) % 281474976710656 == 25214903917
  {
    var x, y := s * MULTIPLIER + INCREMENT, (s + 1) * MULTIPLIER + INCREMENT;
    assert y == x + MULTIPLIER;
    var q := x / STATES - y / STATES;
    assert Next(s + 1) - Next(s) == MULTIPLIER + STATES * q;
    AddMultiple(MULTIPLIER, q);
  }

  /** The output is in the range that the macro's expansion gives, and congruent to the high 36 bits
      of the state plus one. */
  lemma {:induction false} OutputIsDetermined(s: int)
    ensures 1 <= Output(s) <= 2147483647
    ensures (Output(s) - 1 - s / 4096) % 2147483647 == 0
  {
    var y := s / 4096;
    assert Output(s) - 1 - y == RAND_MAX * -(y / RAND_MAX);
    ZeroRemainder(-(y / RAND_MAX));
  }

  lemma {:induction false} ZeroRemainder(q: int)
    ensures (RAND_MAX * q) % RAND_MAX == 0
  {
  }

  class Generator {
    var next: nat

    constructor ()
      ensures next == 1
    {
      next := 1;
    }

    /** rand, in 64-bit words that wrap. */
    method Rand() returns (r: int)
      requires next < WORD
      modifies this
      ensures next == Next(old(next)) < STATES
      ensures r == Output(next) && 1 <= r <= RAND_MAX
    {
      WrapIsHarmless(next);
      next := (next * MULTIPLIER % WORD + INCREMENT) % WORD % STATES;
      var result := next / 0x1000;
      r := result % RAND_MAX + 1;
    }

    /** srand takes an unsigned int. */
    method Srand(seed: nat)
      requires seed < 0x1_0000_0000
      modifies this
      ensures next == seed < STATES
    {
      next := seed;
    }
  }

  /** The first call on a new generator. */
  method FirstCall() returns (g: Generator, r: int)
    ensures fresh(g) && g.next == 25214903928 && r == 6155983
  {
    g := new Generator();
    r := g.Rand();
  }
}
