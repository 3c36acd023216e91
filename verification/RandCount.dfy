/** How often each value is returned during one full period. */
module RandCount {
  import opened Counting
  import opened Rand
  import opened RandPeriod

  // ----- One period visits every state once -----

  lemma {:induction false} VisitsAreDistinct(s: int, m: nat, n: nat)
    requires IsState(s) && 1 <= m <= n <= STATES && Iterate(s, m) == Iterate(s, n)
    ensures m == n
  {
    IterateIsState(s, m);
    IterateAdds(s, m, n - m);
    StatePeriod(Iterate(s, m), n - m);
  }

  /** The state after call number `i + 1`. */
  function Visit(s: int, i: int): int {
    if i < 0 then -1 else Iterate(s, i + 1)
  }

  /** Every state is reached by exactly one of the calls 1 .. 2^48. */
  lemma {:induction false} EveryStateIsVisited(s: int, x: int) returns (n: nat)
    requires IsState(s) && IsState(x)
    ensures 1 <= n <= STATES && Iterate(s, n) == x
    ensures forall m: nat | 1 <= m <= STATES && Iterate(s, m) == x :: m == n
  {
    var f := i => Visit(s, i);
    forall i, j | 0 <= i < STATES && 0 <= j < STATES && f(i) == f(j)
      ensures i == j
    {
      if i <= j { VisitsAreDistinct(s, i + 1, j + 1); } else { VisitsAreDistinct(s, j + 1, i + 1); }
    }
    forall i | 0 <= i < STATES
      ensures 0 <= f(i) < STATES
    {
      IterateIsState(s, i + 1);
    }
    InjectionIsOnto(f, STATES);
    assert x in Image(f, STATES);
    var i :| 0 <= i < STATES && f(i) == x;
    n := i + 1;
    forall m: nat | 1 <= m <= STATES && Iterate(s, m) == x
      ensures m == n
    {
      if m <= n { VisitsAreDistinct(s, m, n); } else { VisitsAreDistinct(s, n, m); }
    }
  }

  lemma {:induction false} StateIsVisited(s: int, x: int)
    requires IsState(s) && IsState(x)
    ensures exists n: nat :: 1 <= n <= STATES && Iterate(s, n) == x
  {
    var n := EveryStateIsVisited(s, x);
  }

  ghost function CallReaching(s: int, x: int): (n: nat)
    requires IsState(s) && IsState(x)
    ensures 1 <= n <= STATES && Iterate(s, n) == x
  {
    StateIsVisited(s, x);
    var n: nat :| 1 <= n <= STATES && Iterate(s, n) == x;
    n
  }

  // ----- The states that return v -----

  /** 2^36 is 32 * (2^31 - 1) + 32, so the residues 0 .. 31 have one representative more. */
  function Blocks(v: int): nat {
    if v <= 32 then 33 else 32
  }

  /** Lists the states with output `v`: 4096 consecutive ones in each block. */
  function StateWithOutput(v: int, t: int): int {
    (v - 1 + t / 0x1000 * RAND_MAX) * 0x1000 + t % 0x1000
  }

  lemma {:induction false} ListedStatesReturn(v: int, t: int)
    requires 1 <= v <= RAND_MAX && 0 <= t < Blocks(v) * 0x1000
    ensures IsState(StateWithOutput(v, t)) && Output(StateWithOutput(v, t)) == v
  {
    var b := t / 0x1000;
    var y := v - 1 + b * RAND_MAX;
    assert 0 <= b < Blocks(v);
    assert StateWithOutput(v, t) / 0x1000 == y;
    assert y % RAND_MAX == v - 1 by { Residue(v - 1, b); }
  }

  lemma {:induction false} Residue(r: int, q: int)
    requires 0 <= r < RAND_MAX
    ensures (r + q * RAND_MAX) % RAND_MAX == r && (r + q * RAND_MAX) / RAND_MAX == q
  {
  }

  lemma {:induction false} ReturningStatesAreListed(v: int, x: int) returns (t: int)
    requires IsState(x) && Output(x) == v
    ensures 0 <= t < Blocks(v) * 0x1000 && StateWithOutput(v, t) == x
  {
    var y := x / 0x1000;
    var b := y / RAND_MAX;
    t := b * 0x1000 + x % 0x1000;
    assert t / 0x1000 == b && t % 0x1000 == x % 0x1000;
    assert y == v - 1 + b * RAND_MAX;
    assert 0 <= b < Blocks(v);
  }

  lemma {:induction false} ListIsInjective(v: int, t: int, t': int)
    requires StateWithOutput(v, t) == StateWithOutput(v, t')
    ensures t == t'
  {
    assert StateWithOutput(v, t) % 0x1000 == t % 0x1000;
    assert StateWithOutput(v, t') % 0x1000 == t' % 0x1000;
  }

  // ----- Counting -----

  /** The calls of one period, numbered from 1, that return `v`. */
  ghost function CallsReturning(s: int, v: int): set<nat> {
    set n: nat | 1 <= n <= STATES && OutputAt(s, n) == v
  }

  ghost function NthCallReturning(s: int, v: int, t: int): int
    requires IsState(s) && 1 <= v <= RAND_MAX
  {
    if 0 <= t < Blocks(v) * 0x1000 then
      ListedStatesReturn(v, t);
      CallReaching(s, StateWithOutput(v, t))
    else -1
  }

  /** From any state, one period returns each of 1 .. 32 exactly 33 * 2^12 times, every other
      value up to RAND_MAX exactly 32 * 2^12 times, and nothing else. */
  lemma {:induction false} OutputCounts(s: int, v: int)
    requires IsState(s)
    ensures |CallsReturning(s, v)| ==
            if 1 <= v <= 32 then 33 * 0x1000
            else if 32 < v <= RAND_MAX then 32 * 0x1000
            else 0
  {
    if !(1 <= v <= RAND_MAX) {
      assert forall n: nat :: 1 <= OutputAt(s, n) <= RAND_MAX;
      assert CallsReturning(s, v) == {};
    } else {
      var f := t requires true => NthCallReturning(s, v, t);
      var size := Blocks(v) * 0x1000;
      forall t, t' | 0 <= t < size && 0 <= t' < size && f(t) == f(t')
        ensures t == t'
      {
        ListedStatesReturn(v, t);
        ListedStatesReturn(v, t');
        ListIsInjective(v, t, t');
      }
      ImageSize(f, size);
      CallsAreListed(s, v, f);
    }
  }

  lemma {:induction false} CallsAreListed(s: int, v: int, f: int -> int)
    requires IsState(s) && 1 <= v <= RAND_MAX
    requires forall t :: f(t) == NthCallReturning(s, v, t)
    ensures Image(f, Blocks(v) * 0x1000) == CallsReturning(s, v)
  {
    var size := Blocks(v) * 0x1000;
    forall n | n in Image(f, size)
      ensures n in CallsReturning(s, v)
    {
      var t :| 0 <= t < size && f(t) == n;
      ListedStatesReturn(v, t);
    }
    forall n | n in CallsReturning(s, v)
      ensures n in Image(f, size)
    {
      var x := Iterate(s, n);
      IterateIsState(s, n);
      var t := ReturningStatesAreListed(v, x);
      var m := EveryStateIsVisited(s, x);
      assert f(t) == n;
    }
  }
}
