/** The stride scheduler's use of the skew heap: a comparison of 32-bit strides that wrap around. */
module Stride {
  import opened CString
  import opened SkewTree

  const BIG_STRIDE: int := 100000

  /** proc_stride_comp_f: the sign of the difference of two unsigned words, read as an int. */
  function CompareStrides(x: int, y: int): int {
    var c := Int32(x - y);
    if c > 0 then 1 else if c == 0 then 0 else -1
  }

  /** What it answers, told by how far the first is ahead of the second, going up and round. */
  lemma {:induction false} StrideAnswers(x: int, y: int)
    ensures var d := (x - y) % 0x1_0000_0000;
      CompareStrides(x, y) == if d == 0 then 0 else if d < 0x8000_0000 then 1 else -1
  {
  }

  // ----- On which strides it is an order -----

  /** How far `x` is ahead of `base`, going up and round. */
  function Ahead(x: int, base: int): int {
    (x - base) % TWO32
  }

  /** All of `s` lies in the half circle that starts at `base`. */
  ghost predicate InHalfCircle(s: set<int>, base: int) {
    forall x | x in s :: Ahead(x, base) < TWO31
  }

  lemma {:induction false} PrecedesIffNear(x: int, y: int)
    ensures MayPrecede(CompareStrides, x, y) <==> Ahead(y, x) < TWO31
  {
  }

  lemma {:induction false} AheadFromBase(x: int, y: int, base: int)
    requires Ahead(x, base) < TWO31 && Ahead(y, base) < TWO31
    ensures Ahead(y, x) < TWO31 <==> Ahead(x, base) <= Ahead(y, base)
  {
    var a, b := Ahead(x, base), Ahead(y, base);
    var q := (y - base) / TWO32 - (x - base) / TWO32;
    assert y - x == b - a - TWO32 * -q;
    Shift32(b - a, -q);
  }

  lemma {:induction false} HalfCircleIsOrdered(s: set<int>, base: int)
    requires InHalfCircle(s, base)
    ensures StrictWeak(CompareStrides, s)
    ensures forall x, y | x in s && y in s :: MayPrecede(CompareStrides, x, y) <==> Ahead(x, base) <= Ahead(y, base)
  {
    forall x, y | x in s && y in s
      ensures MayPrecede(CompareStrides, x, y) <==> Ahead(x, base) <= Ahead(y, base)
    {
      PrecedesIffNear(x, y);
      AheadFromBase(x, y, base);
    }
  }

  /** Of finitely many entries one may precede all. */
  lemma {:induction false} SomeLeast<T>(comp: Compare<T>, s: set<T>) returns (m: T)
    requires s != {} && StrictWeak(comp, s)
    ensures m in s && forall y | y in s :: MayPrecede(comp, m, y)
    decreases |s|
  {
    var x :| x in s;
    m := x;
    assert comp(x, x) == -1 ==> MayPrecede(comp, x, x);
    var rest := s - {x};
    if rest != {} {
      var least := SomeLeast(comp, rest);
      assert comp(least, x) == -1 ==> MayPrecede(comp, least, x);
      if !MayPrecede(comp, x, least) {
        m := least;
      }
      forall y | y in s
        ensures MayPrecede(comp, m, y)
      {
        assert y == x || MayPrecede(comp, least, y);
        assert Chains(comp, x, least, y);
      }
    }
  }

  /** The comparison orders a set of strides exactly when they all fit into half the circle. */
  lemma {:induction false} OrderedIffHalfCircle(s: set<int>)
    ensures StrictWeak(CompareStrides, s) <==> exists base :: InHalfCircle(s, base)
  {
    if StrictWeak(CompareStrides, s) {
      var base := 0;
      if s != {} {
        base := SomeLeast(CompareStrides, s);
      }
      forall x | x in s
        ensures Ahead(x, base) < TWO31
      {
        PrecedesIffNear(base, x);
      }
      assert InHalfCircle(s, base);
    }
    if base :| InHalfCircle(s, base) {
      HalfCircleIsOrdered(s, base);
    }
  }

  /** So merging keeps all heaps of these strides in order exactly then. */
  lemma {:induction false} MergeKeepsStridesIff(s: set<int>)
    ensures (forall a, b :: KeepsOrder(a, b, CompareStrides, s)) <==> exists base :: InHalfCircle(s, base)
  {
    MergeKeepsOrderIff(CompareStrides, s);
    OrderedIffHalfCircle(s);
  }

  /** Of two strides half the circle apart each is put before the other. */
  lemma {:induction false} HalfWayRound()
    ensures CompareStrides(0, TWO31) == -1 == CompareStrides(TWO31, 0)
    ensures !exists base :: InHalfCircle({0, TWO31}, base)
  {
    var s := {0, TWO31};
    assert CompareStrides(0, TWO31) == -1 == CompareStrides(TWO31, 0);
    assert 0 in s && TWO31 in s && !MayPrecede(CompareStrides, 0, TWO31);
    OrderedIffHalfCircle(s);
  }

  // ----- The scheduler's runs -----

  /** A process and the sum of all it has been charged; the stride it stores is that sum as a word. */
  datatype Proc = Proc(pid: nat, total: int)

  function CompareProcs(p: Proc, q: Proc): int {
    CompareStrides(p.total % TWO32, q.total % TWO32)
  }

  /** A turn: the root of the pool is picked, charged by its priority, taken out and put back later.
      Between turns processes come and go; one that does not come back from its turn at once leaves
      and arrives. */
  datatype Event = Turn(priority: nat) | Arrive(p: Proc) | Leave(p: Proc)

  ghost predicate CanHappen(e: Event, pool: Tree<Proc>) {
    match e
    case Turn(priority) => pool.Node? && priority > 0
    case Arrive(_) => true
    case Leave(p) => p in Elems(pool)
  }

  /** A higher priority is charged less. */
  function Charged(p: Proc, priority: nat): Proc
    requires priority > 0
  {
    p.(total := p.total + BIG_STRIDE / priority)
  }

  /** The stride stored is charged in 32 bits that wrap. */
  lemma {:induction false} ChargedWord(p: Proc, priority: nat)
    requires priority > 0
    ensures Charged(p, priority).total % TWO32 == (p.total % TWO32 + BIG_STRIDE / priority) % TWO32
  {
    var q := p.total / TWO32;
    assert p.total % TWO32 + BIG_STRIDE / priority == Charged(p, priority).total - TWO32 * q;
    Shift32(Charged(p, priority).total, q);
  }

  lemma {:induction false} ChargeIsBounded(priority: nat)
    requires priority > 0
    ensures 0 <= BIG_STRIDE / priority <= BIG_STRIDE
  {
  }

  /** What the pool is while the picked process runs. */
  function Others(pool: Tree<Proc>): Tree<Proc>
    requires pool.Node?
  {
    Merge(pool.left, pool.right, CompareProcs)
  }

  ghost function Step(e: Event, pool: Tree<Proc>): Tree<Proc>
    requires CanHappen(e, pool)
  {
    match e
    case Turn(priority) => Insert(Others(pool), Charged(pool.elem, priority), CompareProcs)
    case Arrive(p) => Insert(pool, p, CompareProcs)
    case Leave(p) => Remove(pool, p, CompareProcs)
  }

  ghost predicate CanRun(events: seq<Event>, pool: Tree<Proc>) {
    events == [] || (CanHappen(events[0], pool) && CanRun(events[1..], Step(events[0], pool)))
  }

  ghost function After(events: seq<Event>, pool: Tree<Proc>): Tree<Proc>
    requires CanRun(events, pool)
  {
    if events == [] then pool else After(events[1..], Step(events[0], pool))
  }

  /** The two have been charged amounts at most `w` apart. */
  ghost predicate Close(p: Proc, q: Proc, w: int) {
    -w <= p.total - q.total <= w
  }

  /** Who arrives has been charged about as much as everybody waiting. */
  ghost predicate ArrivesNear(e: Event, pool: Tree<Proc>, w: int) {
    e.Arrive? ==> forall q | q in Elems(pool) :: Close(e.p, q, w)
  }

  ghost predicate AllArriveNear(events: seq<Event>, pool: Tree<Proc>, w: int)
    requires CanRun(events, pool)
  {
    events == [] || (ArrivesNear(events[0], pool, w) && AllArriveNear(events[1..], Step(events[0], pool), w))
  }

  ghost predicate LeastAtRoot(pool: Tree<Proc>) {
    pool.Node? ==> forall q | q in Elems(pool) :: pool.elem.total <= q.total
  }

  /** No two processes have been charged amounts further apart than `w`, and the heap is in the order
      of those amounts: the root has been charged least. */
  ghost predicate Fair(pool: Tree<Proc>, w: int) {
    && HeapOrdered(pool, CompareProcs) && LeastAtRoot(pool)
    && forall p, q | p in Elems(pool) && q in Elems(pool) :: Close(p, q, w)
  }

  lemma {:induction false} CloseProcsCompare(p: Proc, q: Proc)
    requires -TWO31 < p.total - q.total < TWO31
    ensures MayPrecede(CompareProcs, p, q) <==> p.total <= q.total
  {
    var x, y := p.total % TWO32, q.total % TWO32;
    var k := q.total / TWO32 - p.total / TWO32;
    assert y - x == (q.total - p.total) - TWO32 * k;
    assert y - x + TWO31 == (q.total - p.total + TWO31) - TWO32 * k;
    Shift32(q.total - p.total + TWO31, k);
    assert Int32(y - x) == q.total - p.total;
  }

  /** Processes charged about the same are compared as their unbounded totals would be. */
  lemma {:induction false} CloseProcsAreOrdered(s: set<Proc>, w: int)
    requires w < TWO31 && forall p, q | p in s && q in s :: Close(p, q, w)
    ensures StrictWeak(CompareProcs, s)
    ensures forall p, q | p in s && q in s :: MayPrecede(CompareProcs, p, q) <==> p.total <= q.total
  {
    forall p, q | p in s && q in s
      ensures MayPrecede(CompareProcs, p, q) <==> p.total <= q.total
    {
      CloseProcsCompare(p, q);
    }
  }

  /** An ordered heap of close processes has the least charged at its root. */
  lemma {:induction false} CloseHeapIsFair(pool: Tree<Proc>, s: set<Proc>, w: int)
    requires HeapOrdered(pool, CompareProcs) && Within(pool, s)
    requires w < TWO31 && forall p, q | p in s && q in s :: Close(p, q, w)
    ensures Fair(pool, w)
  {
    CloseProcsAreOrdered(s, w);
    if pool.Node? {
      RootIsMinimum(pool, CompareProcs, s);
      assert pool.elem in Elems(pool);
    }
  }

  lemma {:induction false} InsertIsFair(pool: Tree<Proc>, p: Proc, w: int)
    requires 0 <= w < TWO31 && HeapOrdered(pool, CompareProcs)
    requires forall q, r | q in Elems(pool) && r in Elems(pool) :: Close(q, r, w)
    requires forall q | q in Elems(pool) :: Close(p, q, w)
    ensures Fair(Insert(pool, p, CompareProcs), w)
    ensures Elems(Insert(pool, p, CompareProcs)) == Elems(pool) + multiset{p}
  {
    var s := (set q | q in Elems(pool)) + {p};
    forall q, r | q in s && r in s
      ensures Close(q, r, w)
    {
      assert q == p || q in Elems(pool);
      assert r == p || r in Elems(pool);
      assert r != p ==> Close(p, r, w);
    }
    CloseProcsAreOrdered(s, w);
    SingleIsHeap(p, CompareProcs, s);
    MergeHeapOrdered(pool, Single(p), CompareProcs, s);
    MergeElems(pool, Single(p), CompareProcs);
    CloseHeapIsFair(Insert(pool, p, CompareProcs), s, w);
  }

  lemma {:induction false} OthersAreOrdered(pool: Tree<Proc>, w: int)
    requires pool.Node? && Fair(pool, w) && w < TWO31
    ensures HeapOrdered(Others(pool), CompareProcs) && Elems(Others(pool)) + multiset{pool.elem} == Elems(pool)
  {
    var s := set q | q in Elems(pool);
    CloseProcsAreOrdered(s, w);
    WithinParts(pool, s);
    MergeHeapOrdered(pool.left, pool.right, CompareProcs, s);
    MergeElems(pool.left, pool.right, CompareProcs);
  }

  lemma {:induction false} StaysClose(p: Proc, q: Proc, priority: nat, w: int)
    requires Close(p, q, w) && p.total <= q.total && priority > 0 && w >= BIG_STRIDE
    ensures Close(Charged(p, priority), q, w)
  {
    ChargeIsBounded(priority);
  }

  /** Charging the one charged least keeps it close to all. */
  lemma {:induction false} TurnIsFair(pool: Tree<Proc>, priority: nat, w: int)
    requires pool.Node? && Fair(pool, w) && priority > 0 && BIG_STRIDE <= w < TWO31
    ensures Fair(Step(Turn(priority), pool), w)
    ensures Elems(Step(Turn(priority), pool)) + multiset{pool.elem}
         == Elems(pool) + multiset{Charged(pool.elem, priority)}
  {
    var rest, p := Others(pool), Charged(pool.elem, priority);
    OthersAreOrdered(pool, w);
    assert pool.elem in Elems(pool) && forall q | q in Elems(rest) :: q in Elems(pool);
    forall q | q in Elems(rest)
      ensures Close(p, q, w)
    {
      StaysClose(pool.elem, q, priority, w);
    }
    InsertIsFair(rest, p, w);
  }

  lemma {:induction false} LeaveIsFair(pool: Tree<Proc>, p: Proc, w: int)
    requires Fair(pool, w) && p in Elems(pool) && w < TWO31
    ensures Fair(Remove(pool, p, CompareProcs), w)
  {
    var s := set q | q in Elems(pool);
    CloseProcsAreOrdered(s, w);
    RemoveHeapOrdered(pool, p, CompareProcs, s);
    RemoveElems(pool, p, CompareProcs);
    assert forall q | q in Elems(Remove(pool, p, CompareProcs)) :: q in Elems(pool);
    CloseHeapIsFair(Remove(pool, p, CompareProcs), s, w);
  }

  /** However often the strides wrap around: if whoever arrives has been charged within `w` of those
      who wait, then over every run the process picked is one charged least, and the charges never
      spread by more than `w`. */
  lemma {:induction false} RunStaysFair(events: seq<Event>, pool: Tree<Proc>, w: int)
    requires BIG_STRIDE <= w < TWO31 && Fair(pool, w) && CanRun(events, pool) && AllArriveNear(events, pool, w)
    ensures Fair(After(events, pool), w)
    decreases |events|
  {
    if events != [] {
      match events[0] {
        case Turn(priority) => TurnIsFair(pool, priority, w);
        case Arrive(p) => InsertIsFair(pool, p, w);
        case Leave(p) => LeaveIsFair(pool, p, w);
      }
      RunStaysFair(events[1..], Step(events[0], pool), w);
    }
  }

  // ----- How far apart arrivals may be -----

  ghost predicate KeepsFair(events: seq<Event>, pool: Tree<Proc>, w: int) {
    Fair(pool, w) && CanRun(events, pool) && AllArriveNear(events, pool, w) ==> Fair(After(events, pool), w)
  }

  ghost predicate KeepsLeastAtRoot(events: seq<Event>, pool: Tree<Proc>, w: int) {
    Fair(pool, w) && CanRun(events, pool) && AllArriveNear(events, pool, w) ==> LeastAtRoot(After(events, pool))
  }

  /** What is near stays near under a wider bound. */
  lemma {:induction false} NearWider(events: seq<Event>, pool: Tree<Proc>, w: int, w': int)
    requires w <= w' && CanRun(events, pool) && AllArriveNear(events, pool, w)
    ensures AllArriveNear(events, pool, w')
    decreases |events|
  {
    if events != [] {
      NearWider(events[1..], Step(events[0], pool), w, w');
    }
  }

  lemma {:induction false} TwoEvents(e: Event, e': Event, pool: Tree<Proc>, w: int)
    requires CanHappen(e, pool) && CanHappen(e', Step(e, pool))
    ensures CanRun([e, e'], pool) && After([e, e'], pool) == Step(e', Step(e, pool))
    ensures AllArriveNear([e, e'], pool, w) <==> ArrivesNear(e, pool, w) && ArrivesNear(e', Step(e, pool), w)
  {
    var events, rest := [e, e'], [e'];
    assert events[1..] == rest && rest[1..] == [];
    assert CanRun(rest, Step(e, pool));
    assert After(rest, Step(e, pool)) == Step(e', Step(e, pool));
    assert AllArriveNear(rest, Step(e, pool), w) <==> ArrivesNear(e', Step(e, pool), w);
  }

  /** A run in which the root is not charged least: from an empty pool, two arrive half the circle
      apart, and each is put before the other. */
  lemma {:induction false} HalfWayRoundIsTooFar(w: int)
    requires w >= TWO31
    ensures var events := [Arrive(Proc(0, TWO31)), Arrive(Proc(1, 0))];
      && CanRun(events, Leaf) && AllArriveNear(events, Leaf, w) && Fair(Leaf, w)
      && After(events, Leaf) == Node(Single(Proc(1, 0)), Proc(0, TWO31), Leaf)
      && !LeastAtRoot(After(events, Leaf))
  {
    var p, q := Proc(0, TWO31), Proc(1, 0);
    assert CompareProcs(p, q) == -1;
    SingleIsHeap(p, CompareProcs, {});
    SingleIsHeap(q, CompareProcs, {});
    TwoEvents(Arrive(p), Arrive(q), Leaf, w);
    assert Merge(Leaf, Single(q), CompareProcs) == Single(q);
    assert Step(Arrive(q), Single(p)) == Node(Single(q), p, Leaf);
    assert q in Elems(Single(q));
    assert q in Elems(Node(Single(q), p, Leaf));
  }

  /** Of two charged alike, one full charge takes the picked one out of any smaller bound. */
  lemma {:induction false} ChargeIsTooFar(w: int)
    requires 0 <= w < BIG_STRIDE
    ensures var pool := Node(Single(Proc(1, 0)), Proc(0, 0), Leaf);
      Fair(pool, w) && CanRun([Turn(1)], pool) && AllArriveNear([Turn(1)], pool, w)
      && !Fair(After([Turn(1)], pool), w)
  {
    var p, q := Proc(0, 0), Proc(1, 0);
    var pool, p' := Node(Single(q), p, Leaf), Charged(p, 1);
    SingleIsHeap(q, CompareProcs, {});
    assert Elems(pool) == multiset{p, q};
    assert p'.total == BIG_STRIDE && !Close(p', q, w);
    assert Others(pool) == Single(q);
    MergeElems(Single(q), Single(p'), CompareProcs);
    SingleIsHeap(p', CompareProcs, {});
    var pool' := Step(Turn(1), pool);
    assert p' in Elems(pool') && q in Elems(pool');
    assert [Turn(1)][1..] == [];
    assert After([Turn(1)], pool) == After([], pool');
  }

  /** The least charged is at the root after every run in which arrivals are within `w` of those who
      wait, exactly if `w` is below half the circle. */
  lemma {:induction false} RunsKeepLeastAtRootIff(w: int)
    ensures (forall events, pool :: KeepsLeastAtRoot(events, pool, w)) <==> w < TWO31
  {
    if w < TWO31 {
      var w' := if w < BIG_STRIDE then BIG_STRIDE else w;
      forall events, pool
        ensures KeepsLeastAtRoot(events, pool, w)
      {
        if Fair(pool, w) && CanRun(events, pool) && AllArriveNear(events, pool, w) {
          assert forall p, q | p in Elems(pool) && q in Elems(pool) :: Close(p, q, w) ==> Close(p, q, w');
          NearWider(events, pool, w, w');
          RunStaysFair(events, pool, w');
        }
      }
    } else {
      HalfWayRoundIsTooFar(w);
      assert !KeepsLeastAtRoot([Arrive(Proc(0, TWO31)), Arrive(Proc(1, 0))], Leaf, w);
    }
  }

  lemma {:induction false} NothingIsNear(w: int)
    requires w < 0
    ensures Fair(Leaf, w) && CanRun([Arrive(Proc(0, 0))], Leaf) && AllArriveNear([Arrive(Proc(0, 0))], Leaf, w)
    ensures !Fair(After([Arrive(Proc(0, 0))], Leaf), w)
  {
    var p := Proc(0, 0);
    assert [Arrive(p)][1..] == [];
    assert After([Arrive(p)], Leaf) == After([], Single(p));
    SingleIsHeap(p, CompareProcs, {});
    assert p in Elems(Single(p)) && !Close(p, p, w);
  }

  lemma {:induction false} SomeRunIsUnfair(w: int) returns (events: seq<Event>, pool: Tree<Proc>)
    requires w < BIG_STRIDE || w >= TWO31
    ensures !KeepsFair(events, pool, w)
  {
    if w >= TWO31 {
      HalfWayRoundIsTooFar(w);
      events, pool := [Arrive(Proc(0, TWO31)), Arrive(Proc(1, 0))], Leaf;
    } else if w >= 0 {
      ChargeIsTooFar(w);
      events, pool := [Turn(1)], Node(Single(Proc(1, 0)), Proc(0, 0), Leaf);
    } else {
      NothingIsNear(w);
      events, pool := [Arrive(Proc(0, 0))], Leaf;
    }
  }

  /** And no run spreads the charges further than `w` exactly if `w` also is at least one full charge. */
  lemma {:induction false} RunsKeepFairIff(w: int)
    ensures (forall events, pool :: KeepsFair(events, pool, w)) <==> BIG_STRIDE <= w < TWO31
  {
    if BIG_STRIDE <= w < TWO31 {
      forall events, pool
        ensures KeepsFair(events, pool, w)
      {
        if Fair(pool, w) && CanRun(events, pool) && AllArriveNear(events, pool, w) {
          RunStaysFair(events, pool, w);
        }
      }
    } else {
      var events, pool := SomeRunIsUnfair(w);
    }
  }
}
