/** The generator has full period: the first return to a state is after 2^48 calls, and the
    outputs themselves have no shorter period. */
module RandPeriod {
  import opened Arith
  import opened Rand

  function Iterate(s: int, n: nat): int {
    if n == 0 then s else Next(Iterate(s, n - 1))
  }

  function OutputAt(s: int, n: nat): int {
    Output(Iterate(s, n))
  }

  ghost predicate IsState(s: int) {
    0 <= s < STATES
  }

  lemma {:induction false} IterateIsState(s: int, n: nat)
    requires IsState(s)
    ensures IsState(Iterate(s, n))
  {
  }

  lemma {:induction false} IterateAdds(s: int, m: nat, n: nat)
    ensures Iterate(s, m + n) == Iterate(Iterate(s, m), n)
  {
    if n > 0 {
      IterateAdds(s, m, n - 1);
    }
  }

  // ----- n calls at once: s becomes (Mul(n) * s + Inc(n)) mod 2^48 -----

  function Mul(n: nat): int {
    if n == 0 then 1 else MULTIPLIER * Mul(n - 1)
  }

  function Inc(n: nat): int {
    if n == 0 then 0 else MULTIPLIER * Inc(n - 1) + INCREMENT
  }

  lemma {:induction false} NextOfMod(x: int)
    ensures Next(x % STATES) == Next(x)
  {
    var q := x / STATES;
    assert x * MULTIPLIER + INCREMENT == (x % STATES) * MULTIPLIER + INCREMENT + STATES * (q * MULTIPLIER);
    AddMultiple((x % STATES) * MULTIPLIER + INCREMENT, q * MULTIPLIER);
  }

  lemma {:induction false} IterateIsAffine(s: int, n: nat)
    requires IsState(s)
    ensures Iterate(s, n) == (Mul(n) * s + Inc(n)) % STATES
  {
    if n > 0 {
      IterateIsAffine(s, n - 1);
      NextOfMod(Mul(n - 1) * s + Inc(n - 1));
      Regroup(MULTIPLIER, Mul(n - 1), s);
    }
  }

  lemma {:induction false} Regroup(m: int, a: int, b: int)
    ensures m * (a * b) == (m * a) * b == a * (m * b)
  {
  }

  lemma {:induction false} Compose(m: nat, n: nat)
    ensures Mul(m + n) == Mul(m) * Mul(n)
    ensures Inc(m + n) == Mul(n) * Inc(m) + Inc(n)
  {
    if n > 0 {
      Compose(m, n - 1);
      Regroup(MULTIPLIER, Mul(m), Mul(n - 1));
      Regroup(MULTIPLIER, Mul(n - 1), Inc(m));
    }
  }

  // ----- Runs of 2^k calls -----

  /** `n` calls multiply by one more than a multiple of 4p and add an odd or even multiple of p. */
  ghost predicate Jumps(n: nat, p: int, u: int, w: int) {
    Mul(n) == 1 + 4 * p * u && Inc(n) == p * w
  }

  lemma {:induction false} ComposeJumps(m: nat, n: nat, p: int, u: int, w: int, u': int, w': int)
    returns (u'': int, w'': int)
    requires Jumps(m, p, u, w) && Jumps(n, p, u', w')
    ensures Jumps(m + n, p, u'', w'') && w'' % 2 == (w + w') % 2
  {
    Compose(m, n);
    u'' := u + u' + 4 * p * u * u';
    w'' := w + w' + 2 * (2 * p * u' * w);
    ProductOfOnes(p, u, u');
    Factor(p, u', w, w');
    AddEven(w + w', 2 * p * u' * w);
  }

  lemma {:induction false} AddEven(x: int, y: int)
    ensures (x + 2 * y) % 2 == x % 2
  {
  }

  lemma {:induction false} ProductOfOnes(p: int, u: int, u': int)
    ensures (1 + 4 * p * u) * (1 + 4 * p * u') == 1 + 4 * p * (u + u' + 4 * p * u * u')
  {
    var x, y := p * u, p * u';
    assert (1 + 4 * x) * (1 + 4 * y) == 1 + 4 * x + 4 * y + 16 * (x * y);
    assert p * (4 * p * u * u') == 4 * (x * y);
  }

  lemma {:induction false} Factor(p: int, u: int, w: int, w': int)
    ensures (1 + 4 * p * u) * (p * w) + p * w' == p * (w + w' + 2 * (2 * p * u * w))
  {
    var x := p * u * w;
    assert (1 + 4 * p * u) * (p * w) == p * w + 4 * (p * x);
    assert p * (w + w' + 4 * x) == p * w + p * w' + 4 * (p * x);
  }

  lemma {:induction false} DoubleJump(n: nat, p: int, u: int, w: int) returns (u': int, w': int)
    requires Jumps(n, p, u, w)
    ensures Jumps(2 * n, 2 * p, u', w') && w' % 2 == w % 2
  {
    u' := u + 2 * p * u * u;
    w' := w + 2 * (p * u * w);
    AddEven(w, p * u * w);
    Compose(n, n);
    assert n + n == 2 * n;
    ProductOfOnes(p, u, u);
    Halves(p, u, w);
  }

  lemma {:induction false} OneCall()
    ensures Jumps(1, 1, (MULTIPLIER - 1) / 4, INCREMENT)
  {
    assert Mul(0) == 1 && Inc(0) == 0;
    assert Mul(1) == MULTIPLIER && Inc(1) == INCREMENT;
  }

  /** 2^k calls add an odd multiple of 2^k. */
  lemma {:induction false} PowerJump(k: nat) returns (u: int, w: int)
    ensures Jumps(Pow2(k), Pow2(k), u, w) && w % 2 == 1
  {
    if k == 0 {
      OneCall();
      u, w := (MULTIPLIER - 1) / 4, INCREMENT;
    } else {
      var p := Pow2(k - 1);
      var u0, w0 := PowerJump(k - 1);
      u, w := DoubleJump(p, p, u0, w0);
    }
  }

  lemma {:induction false} Halves(p: int, u: int, w: int)
    ensures 4 * p * (u + u + 4 * p * u * u) == 4 * (2 * p) * (u + 2 * p * u * u)
    ensures (1 + 4 * p * u) * (p * w) + p * w == (2 * p) * (w + 2 * (p * u * w))
  {
    Factor(p, u, w, w);
    var x := p * u * u;
    assert p * (u + u + 4 * x) == 2 * (p * (u + 2 * x));
    var y := w + 2 * (p * u * w);
    assert p * (w + w + 2 * (2 * p * u * w)) == 2 * (p * y);
  }

  function Times(p: nat, q: nat): (n: nat)
    ensures n == p * q
  {
    if q == 0 then 0 else p + Times(p, q - 1)
  }

  lemma {:induction false} NoCalls(p: int)
    ensures Jumps(0, p, 0, 0)
  {
    assert Mul(0) == 1 && Inc(0) == 0;
  }

  lemma {:induction false} OddEven(x: int, y: int, q: int)
    requires x % 2 == (q - 1) % 2 && y % 2 == 1
    ensures (x + y) % 2 == q % 2
  {
  }

  lemma {:induction false} MultipleJump(p: nat, u1: int, w1: int, q: nat) returns (u: int, w: int)
    requires Jumps(p, p, u1, w1) && w1 % 2 == 1
    ensures Jumps(Times(p, q), p, u, w) && w % 2 == q % 2
  {
    if q == 0 {
      u, w := 0, 0;
      NoCalls(p);
    } else {
      var u0, w0 := MultipleJump(p, u1, w1, q - 1);
      var m := Times(p, q - 1);
      u, w := ComposeJumps(m, p, p, u0, w0, u1, w1);
      assert m + p == Times(p, q);
      OddEven(w0, w1, q);
    }
  }

  lemma {:induction false} Gather(p: int, u: int, s: int, w: int)
    ensures (1 + 4 * p * u) * s + p * w == s + p * (w + 2 * (2 * (u * s)))
  {
    var x := u * s;
    assert (4 * p * u) * s == 4 * (p * x);
    assert p * (w + 4 * x) == 4 * (p * x) + p * w;
  }

  /** 2^k * q calls shift every state by a multiple of 2^k that is odd exactly when `q` is. */
  lemma {:induction false} Shift(s: int, k: nat, q: nat) returns (w: int)
    requires IsState(s)
    ensures Iterate(s, Pow2(k) * q) == (s + Pow2(k) * w) % STATES
    ensures w % 2 == q % 2
  {
    var p := Pow2(k);
    var u1, w1 := PowerJump(k);
    var u, w0 := MultipleJump(p, u1, w1, q);
    IterateIsAffine(s, Times(p, q));
    w := w0 + 2 * (2 * (u * s));
    Gather(p, u, s, w0);
    AddEven(w0, 2 * (u * s));
  }

  // ----- The period of the states -----

  lemma {:induction false} StatesIsPow2()
    ensures Pow2(48) == STATES && Pow2(47) == STATES / 2
  {
    Pow2Of48();
    assert Pow2(48) == 2 * Pow2(47);
  }

  lemma {:induction false} TwoAdic(n: nat) returns (k: nat, q: nat)
    requires n > 0
    ensures n == Pow2(k) * q && q % 2 == 1
  {
    if n % 2 == 1 {
      k, q := 0, n;
    } else {
      var k0, q0 := TwoAdic(n / 2);
      k, q := k0 + 1, q0;
      assert Pow2(k) * q == 2 * (Pow2(k0) * q0);
    }
  }

  /** What is not a multiple of 2^48 is 2^k times an odd number for some k < 48. */
  lemma {:induction false} TwoAdicBelow(n: nat) returns (k: nat, q: nat)
    requires n % STATES != 0
    ensures n == Pow2(k) * q && q % 2 == 1 && k < 48
  {
    k, q := TwoAdic(n);
    if k >= 48 {
      StatesIsPow2();
      Pow2Sum(48, k - 48);
      Regroup(STATES, Pow2(k - 48), q);
      AddMultiple(0, Pow2(k - 48) * q);
    }
  }

  lemma {:induction false} OddShiftMoves(s: int, k: nat, w: int)
    requires IsState(s) && k < 48 && w % 2 == 1
    ensures (s + Pow2(k) * w) % STATES != s
  {
    var p, h := Pow2(k), Pow2(47 - k);
    assert STATES == p * (2 * h) by {
      StatesIsPow2();
      Pow2Sum(k, 48 - k);
    }
    if (s + p * w) % STATES == s {
      var t := (s + p * w) / STATES;
      assert p * w == STATES * t;
      EvenMultiple(p, h, t);
      CancelFactor(p, w, 2 * (h * t));
    }
  }

  lemma {:induction false} EvenMultiple(p: int, h: int, t: int)
    ensures (p * (2 * h)) * t == p * (2 * (h * t))
  {
  }

  lemma {:induction false} CancelFactor(p: int, x: int, y: int)
    requires p > 0 && p * x == p * y
    ensures x == y
  {
    assert p * (x - y) == 0;
  }

  /** A state recurs after `n` calls exactly when `n` is a multiple of 2^48. */
  lemma {:induction false} StatePeriod(s: int, n: nat)
    requires IsState(s)
    ensures Iterate(s, n) == s <==> n % STATES == 0
  {
    if n % STATES == 0 {
      StatesIsPow2();
      var w := Shift(s, 48, n / STATES);
      AddMultiple(s, w);
    } else {
      var k, q := TwoAdicBelow(n);
      var w := Shift(s, k, q);
      OddShiftMoves(s, k, w);
    }
  }

  // ----- The period of the outputs -----

  ghost predicate RepeatsAt(s: int, n: nat, p: nat) {
    OutputAt(s, n + p) == OutputAt(s, n)
  }

  /** The outputs of the calls from state `s`, the first call being number 1, repeat after `p`. */
  ghost predicate OutputsRepeat(s: int, p: nat) {
    forall n: nat {:trigger RepeatsAt(s, n, p)} | n >= 1 :: RepeatsAt(s, n, p)
  }

  lemma {:induction false} OutputsRepeatMultiple(s: int, p: nat, t: nat, n: nat)
    requires OutputsRepeat(s, p) && n >= 1
    ensures OutputAt(s, n + p * t) == OutputAt(s, n)
  {
    if t > 0 {
      OutputsRepeatMultiple(s, p, t - 1, n);
      assert n + p * t == n + p * (t - 1) + p;
      assert RepeatsAt(s, n + p * (t - 1), p);
    }
  }

  /** Half a period away `next >> 12` differs by 2^35, which is 16 modulo 2^31 - 1. */
  lemma {:induction false} HalfTurnChangesOutput(s: int)
    requires IsState(s)
    ensures Output((s + STATES / 2) % STATES) != Output(s)
  {
    var y := s / 0x1000;
    var y' := (s + STATES / 2) % STATES / 0x1000;
    assert y' == y + 0x8_0000_0000 || y' == y - 0x8_0000_0000;
    assert 0x8_0000_0000 == 16 * RAND_MAX + 16;
  }

  lemma {:induction false} HalfTurn(s: int, q: nat)
    requires IsState(s) && q % 2 == 1
    ensures Iterate(s, Pow2(47) * q) == (s + STATES / 2) % STATES
  {
    StatesIsPow2();
    var w := Shift(s, 47, q);
    assert Pow2(47) * w == STATES / 2 + STATES * (w / 2);
    AddMultiple(s + STATES / 2, w / 2);
  }

  /** The outputs repeat after `p` calls exactly when `p` is a multiple of 2^48. */
  lemma {:induction false} OutputPeriod(s: int, p: nat)
    requires IsState(s)
    ensures OutputsRepeat(s, p) <==> p % STATES == 0
  {
    if p % STATES == 0 {
      forall n: nat | n >= 1
        ensures RepeatsAt(s, n, p)
      {
        IterateIsState(s, n);
        IterateAdds(s, n, p);
        StatePeriod(Iterate(s, n), p);
      }
    } else if OutputsRepeat(s, p) {
      var k, q := TwoAdicBelow(p);
      var n := ToHalfTurn(k, q);
      OutputsRepeatMultiple(s, p, Pow2(47 - k), 1);
      var x := Iterate(s, 1);
      IterateIsState(s, 1);
      IterateAdds(s, 1, n);
      HalfTurn(x, q);
      HalfTurnChangesOutput(x);
    }
  }

  lemma {:induction false} ToHalfTurn(k: nat, q: nat) returns (n: nat)
    requires k <= 47
    ensures n == Pow2(47) * q == Pow2(k) * q * Pow2(47 - k)
  {
    Pow2Sum(k, 47 - k);
    SwapFactors(Pow2(k), q, Pow2(47 - k));
    n := Times(Pow2(47), q);
  }

  lemma {:induction false} SwapFactors(a: int, b: int, c: int)
    ensures (a * b) * c == (a * c) * b
  {
  }
}
