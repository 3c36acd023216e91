/** What skew heap operations cost, counted in calls of merge.

    The potential of a tree is the number of its nodes whose right subtree is the larger. */
module SkewCost {
  import opened Arith
  import opened SkewTree

  function RightHeavy<T>(t: Tree<T>): nat
    requires t.Node?
  {
    if Size(t.right) > Size(t.left) then 1 else 0
  }

  function Potential<T>(t: Tree<T>): nat {
    if t.Leaf? then 0
    else RightHeavy(t) + Potential(t.left) + Potential(t.right)
  }

  /** The number of calls one merge makes, itself included. */
  function MergeCalls<T>(a: Tree<T>, b: Tree<T>, comp: Compare<T>): nat
    decreases Size(a) + Size(b)
  {
    if a.Leaf? || b.Leaf? then 1
    else if comp(a.elem, b.elem) == -1 then 1 + MergeCalls(a.right, b, comp)
    else 1 + MergeCalls(a, b.right, comp)
  }

  // ----- Spines -----

  function RightSpine<T>(t: Tree<T>): nat {
    if t.Leaf? then 0 else 1 + RightSpine(t.right)
  }

  /** Each call but the last takes one entry off a right spine, and the last finds one of them used up. */
  lemma {:induction false} CallsFollowSpines<T>(a: Tree<T>, b: Tree<T>, comp: Compare<T>)
    ensures var j, k := RightSpine(a), RightSpine(b);
      (if j < k then j else k) + 1 <= MergeCalls(a, b, comp) <= j + k + 1
    decreases Size(a) + Size(b)
  {
    if a.Leaf? || b.Leaf? {
    } else if comp(a.elem, b.elem) == -1 {
      CallsFollowSpines(a.right, b, comp);
    } else {
      CallsFollowSpines(a, b.right, comp);
    }
  }

  /** Nodes on the right spine that are not right-heavy. */
  function LightOnRightSpine<T>(t: Tree<T>): nat {
    if t.Leaf? then 0 else 1 - RightHeavy(t) + LightOnRightSpine(t.right)
  }

  function HeavyOnLeftSpine<T>(t: Tree<T>): nat {
    if t.Leaf? then 0 else RightHeavy(t) + HeavyOnLeftSpine(t.left)
  }

  lemma {:induction false} LightHalves<T>(t: Tree<T>)
    ensures Pow2(LightOnRightSpine(t)) <= Size(t) + 1
  {
    if t.Node? {
      LightHalves(t.right);
    }
  }

  lemma {:induction false} LightIsLogarithmic<T>(t: Tree<T>)
    ensures LightOnRightSpine(t) <= Log2(Size(t) + 1)
  {
    LightHalves(t);
    Log2Largest(LightOnRightSpine(t), Size(t) + 1);
  }

  lemma {:induction false} HeavyHalves<T>(t: Tree<T>)
    ensures Pow2(HeavyOnLeftSpine(t)) <= Size(t) + 1
  {
    if t.Node? {
      HeavyHalves(t.left);
    }
  }

  lemma {:induction false} HeavyIsLogarithmic<T>(t: Tree<T>)
    ensures HeavyOnLeftSpine(t) <= Log2(Size(t) + 1)
  {
    HeavyHalves(t);
    Log2Largest(HeavyOnLeftSpine(t), Size(t) + 1);
  }

  // ----- One merge -----

  lemma {:induction false} MergeAccounts<T>(a: Tree<T>, b: Tree<T>, comp: Compare<T>)
    ensures var m := Merge(a, b, comp);
      MergeCalls(a, b, comp) + Potential(m)
      <= Potential(a) + Potential(b) + LightOnRightSpine(a) + LightOnRightSpine(b) + HeavyOnLeftSpine(m) + 1
    decreases Size(a) + Size(b)
  {
    if a.Leaf? || b.Leaf? {
    } else if comp(a.elem, b.elem) == -1 {
      MergeSize(a.right, b, comp);
      MergeAccounts(a.right, b, comp);
    } else {
      MergeSize(a, b.right, comp);
      MergeAccounts(a, b.right, comp);
    }
  }

  /** The amortised cost of one merge is logarithmic in the sizes merged. */
  lemma {:induction false} MergeAmortised<T>(a: Tree<T>, b: Tree<T>, comp: Compare<T>)
    ensures MergeCalls(a, b, comp) + Potential(Merge(a, b, comp)) - (Potential(a) + Potential(b))
         <= Log2(Size(a) + 1) + Log2(Size(b) + 1) + Log2(Size(a) + Size(b) + 1) + 1
  {
    var m := Merge(a, b, comp);
    MergeAccounts(a, b, comp);
    LightIsLogarithmic(a);
    LightIsLogarithmic(b);
    assert HeavyOnLeftSpine(m) <= Log2(Size(a) + Size(b) + 1) by {
      MergeSize(a, b, comp);
      HeavyIsLogarithmic(m);
    }
  }

  // ----- Removing any entry -----

  /** The merge a removal makes is that of the removed entry's two subtrees. */
  ghost function RemoveCalls<T>(t: Tree<T>, x: T, comp: Compare<T>): nat
    requires x in Elems(t)
  {
    if t.elem == x then MergeCalls(t.left, t.right, comp)
    else if x in Elems(t.left) then RemoveCalls(t.left, x, comp)
    else RemoveCalls(t.right, x, comp)
  }

  lemma {:induction false} RemoveSize<T>(t: Tree<T>, x: T, comp: Compare<T>)
    requires x in Elems(t)
    ensures Size(Remove(t, x, comp)) == Size(t) - 1
  {
    RemoveElems(t, x, comp);
    SizeIsCount(t);
    SizeIsCount(Remove(t, x, comp));
    assert |Elems(Remove(t, x, comp)) + multiset{x}| == |Elems(t)|;
  }

  /** Ancestors of `x` that become right-heavy because `x` leaves their left subtree:
      the two subtrees were of equal size. */
  ghost function Tipped<T>(t: Tree<T>, x: T): nat
    requires x in Elems(t)
  {
    if t.elem == x then 0
    else if x in Elems(t.left) then (if Size(t.left) == Size(t.right) then 1 else 0) + Tipped(t.left, x)
    else Tipped(t.right, x)
  }

  lemma {:induction false} TippedHalves<T>(t: Tree<T>, x: T)
    requires x in Elems(t)
    ensures Pow2(Tipped(t, x)) <= Size(t) + 1
  {
    if t.elem == x {
      assert Tipped(t, x) == 0;
    } else if x in Elems(t.left) {
      TippedHalves(t.left, x);
      var k := Tipped(t.left, x);
      assert Tipped(t, x) == if Size(t.left) == Size(t.right) then 1 + k else k;
      assert Pow2(1 + k) == 2 * Pow2(k);
    } else {
      TippedHalves(t.right, x);
      assert Tipped(t, x) == Tipped(t.right, x);
    }
  }

  lemma {:induction false} TippedIsLogarithmic<T>(t: Tree<T>, x: T)
    requires x in Elems(t)
    ensures Tipped(t, x) <= Log2(Size(t) + 1)
  {
    TippedHalves(t, x);
    Log2Largest(Tipped(t, x), Size(t) + 1);
  }

  /** The cost bound of every merge of trees that together hold at most `n - 1` entries. */
  function MergeBound(n: nat): nat {
    3 * Log2(n + 1) + 1
  }

  /** The cost bound of one queue operation while at most `n` entries are held. */
  function StepBound(n: nat): nat {
    4 * Log2(n + 1) + 1
  }

  lemma {:induction false} SpinesWithin<T>(t: Tree<T>, n: nat)
    requires Size(t) <= n
    ensures LightOnRightSpine(t) <= Log2(n + 1) && HeavyOnLeftSpine(t) <= Log2(n + 1)
  {
    LightIsLogarithmic(t);
    HeavyIsLogarithmic(t);
    Log2Monotone(Size(t) + 1, n + 1);
  }

  lemma {:induction false} ThreeLogs(x: int, y: int, z: int, n: nat)
    requires x <= Log2(n + 1) && y <= Log2(n + 1) && z <= Log2(n + 1)
    ensures x + y + z + 1 <= MergeBound(n)
  {
  }

  lemma {:induction false} MergeWithin<T>(a: Tree<T>, b: Tree<T>, comp: Compare<T>, n: nat)
    requires Size(a) + Size(b) <= n
    ensures MergeCalls(a, b, comp) + Potential(Merge(a, b, comp)) <= Potential(a) + Potential(b) + MergeBound(n)
  {
    var m := Merge(a, b, comp);
    MergeSize(a, b, comp);
    SpinesWithin(a, n);
    SpinesWithin(b, n);
    SpinesWithin(m, n);
    ThreeLogs(LightOnRightSpine(a), LightOnRightSpine(b), HeavyOnLeftSpine(m), n);
    MergeAccounts(a, b, comp);
  }

  lemma {:induction false} RemoveAccounts<T>(t: Tree<T>, x: T, comp: Compare<T>, n: nat)
    requires x in Elems(t) && Size(t) <= n
    ensures RemoveCalls(t, x, comp) + Potential(Remove(t, x, comp))
         <= Potential(t) + Tipped(t, x) + MergeBound(n)
  {
    if t.elem == x {
      MergeWithin(t.left, t.right, comp, n);
    } else if x in Elems(t.left) {
      RemoveSize(t.left, x, comp);
      RemoveAccounts(t.left, x, comp, n);
    } else {
      RemoveSize(t.right, x, comp);
      RemoveAccounts(t.right, x, comp, n);
    }
  }

  /** The merge, and as much again for the ancestors that tip, make one step. */
  lemma {:induction false} OneMoreLog(k: nat, m: nat, n: nat)
    requires m <= n && k <= Log2(m + 1)
    ensures MergeBound(n) + k <= StepBound(n)
  {
    Log2Monotone(m + 1, n + 1);
  }

  /** Removing an arbitrary entry, root or not, also costs a logarithmic amortised amount. */
  lemma {:induction false} RemoveAmortised<T>(t: Tree<T>, x: T, comp: Compare<T>, n: nat)
    requires x in Elems(t) && Size(t) <= n
    ensures RemoveCalls(t, x, comp) + Potential(Remove(t, x, comp)) - Potential(t)
         <= 4 * Log2(n + 1) + 1
  {
    RemoveAccounts(t, x, comp, n);
    TippedIsLogarithmic(t, x);
    OneMoreLog(Tipped(t, x), Size(t), n);
  }

  // ----- Whole runs -----

  ghost function StepCalls<T>(op: Op<T>, t: Tree<T>, comp: Compare<T>): nat
    requires Enabled(op, Elems(t))
  {
    match op
    case Add(x) => MergeCalls(t, Node(Leaf, x, Leaf), comp)
    case Take(x) => RemoveCalls(t, x, comp)
  }

  ghost function RunCalls<T>(ops: seq<Op<T>>, t: Tree<T>, comp: Compare<T>): nat
    requires Legal(ops, Elems(t))
    decreases |ops|
  {
    if ops == [] then 0
    else
      StepRefinesQueue(ops[0], t, comp);
      StepCalls(ops[0], t, comp) + RunCalls(ops[1..], HeapStep(ops[0], t, comp), comp)
  }

  /** A run one operation longer does that operation last, and makes its calls of merge as well. */
  lemma {:induction false} OneMoreStep<T>(ops: seq<Op<T>>, op: Op<T>, t: Tree<T>, comp: Compare<T>)
    requires Legal(ops + [op], Elems(t))
    ensures Legal(ops, Elems(t)) && Enabled(op, Elems(HeapAfter(ops, t, comp)))
    ensures var t', longer := HeapAfter(ops, t, comp), ops + [op];
      && HeapAfter(longer, t, comp) == HeapStep(op, t', comp)
      && RunCalls(longer, t, comp) == RunCalls(ops, t, comp) +
           match op
           case Add(x) => MergeCalls(t', Node(Leaf, x, Leaf), comp)
           case Take(x) => RemoveCalls(t', x, comp)
    decreases |ops|
  {
    var longer := ops + [op];
    if ops == [] {
      assert longer == [op] && longer[1..] == [];
      StepRefinesQueue(op, t, comp);
      assert HeapAfter(longer, t, comp) == HeapAfter([], HeapStep(op, t, comp), comp);
      assert RunCalls(longer, t, comp) == StepCalls(op, t, comp) + RunCalls([], HeapStep(op, t, comp), comp);
    } else {
      assert longer[0] == ops[0] && longer[1..] == ops[1..] + [op];
      StepRefinesQueue(ops[0], t, comp);
      OneMoreStep(ops[1..], op, HeapStep(ops[0], t, comp), comp);
    }
  }

  /** The queue never holds more than `n` entries. */
  ghost predicate NeverExceeds<T>(ops: seq<Op<T>>, q: multiset<T>, n: nat) {
    |q| <= n && (ops == [] || NeverExceeds(ops[1..], QueueStep(ops[0], q), n))
  }

  lemma {:induction false} StepAmortised<T>(op: Op<T>, t: Tree<T>, comp: Compare<T>, n: nat)
    requires Enabled(op, Elems(t)) && |Elems(t)| <= n && |QueueStep(op, Elems(t))| <= n
    ensures StepCalls(op, t, comp) + Potential(HeapStep(op, t, comp)) <= Potential(t) + StepBound(n)
  {
    SizeIsCount(t);
    match op
    case Add(x) =>
      assert Size(Node(Leaf, x, Leaf)) == 1 && Potential(Node(Leaf, x, Leaf)) == 0;
      MergeWithin(t, Node(Leaf, x, Leaf), comp, n);
    case Take(x) => RemoveAmortised(t, x, comp, n);
  }

  /** The bound of `m` operations, one after the other. */
  function Budget(m: nat, n: nat): nat {
    if m == 0 then 0 else StepBound(n) + Budget(m - 1, n)
  }

  lemma {:induction false} BudgetIs(m: nat, n: nat)
    ensures Budget(m, n) == m * StepBound(n)
  {
    if m > 0 {
      BudgetIs(m - 1, n);
      Distribute(m, StepBound(n));
    }
  }

  lemma {:induction false} Distribute(m: int, c: int)
    ensures c + (m - 1) * c == m * c
  {
  }

  /** One more operation in front of a run whose bound is known. */
  lemma {:induction false} StepThenRun<T>(ops: seq<Op<T>>, t: Tree<T>, t': Tree<T>, comp: Compare<T>, n: nat)
    requires ops != [] && Legal(ops, Elems(t)) && t' == HeapStep(ops[0], t, comp) && Legal(ops[1..], Elems(t'))
    requires StepCalls(ops[0], t, comp) + Potential(t') <= Potential(t) + StepBound(n)
    requires RunCalls(ops[1..], t', comp) + Potential(HeapAfter(ops[1..], t', comp))
          <= Potential(t') + Budget(|ops[1..]|, n)
    ensures RunCalls(ops, t, comp) + Potential(HeapAfter(ops, t, comp)) <= Potential(t) + Budget(|ops|, n)
  {
    assert RunCalls(ops, t, comp) == StepCalls(ops[0], t, comp) + RunCalls(ops[1..], t', comp);
    assert HeapAfter(ops, t, comp) == HeapAfter(ops[1..], t', comp);
    assert Budget(|ops|, n) == StepBound(n) + Budget(|ops[1..]|, n);
  }

  lemma {:induction false} RunAccounts<T>(ops: seq<Op<T>>, t: Tree<T>, comp: Compare<T>, n: nat)
    requires Legal(ops, Elems(t)) && NeverExceeds(ops, Elems(t), n)
    ensures RunCalls(ops, t, comp) + Potential(HeapAfter(ops, t, comp)) <= Potential(t) + Budget(|ops|, n)
    decreases |ops|
  {
    if ops != [] {
      StepRefinesQueue(ops[0], t, comp);
      StepAmortised(ops[0], t, comp, n);
      var t' := HeapStep(ops[0], t, comp);
      RunAccounts(ops[1..], t', comp, n);
      StepThenRun(ops, t, t', comp, n);
    }
  }

  /** From empty, m insertions and removals of any entries, never holding more than n, make O(m log n) calls. */
  lemma {:induction false} RunCost<T>(ops: seq<Op<T>>, comp: Compare<T>, n: nat)
    requires Legal(ops, multiset{}) && NeverExceeds(ops, multiset{}, n)
    ensures RunCalls(ops, Leaf, comp) <= |ops| * (4 * Log2(n + 1) + 1)
  {
    RunAccounts(ops, Leaf, comp, n);
    BudgetIs(|ops|, n);
  }
}
