/** The shapes a skew heap takes, as values.

    `Merge`, `Insert` and `Remove` are the specification functions against which the
    in-place operations of `SkewHeap` are proved; everything here is about what those
    functions mean: heap order, which entries are kept, and the queue they implement. */
module SkewTree {

  datatype Tree<T> = Leaf | Node(left: Tree<T>, elem: T, right: Tree<T>)

  /** The comparison callback.  Only the answer -1 is ever looked at. */
  type Compare<!T> = (T, T) -> int

  function Size<T>(t: Tree<T>): nat {
    match t
    case Leaf => 0
    case Node(l, _, r) => 1 + Size(l) + Size(r)
  }

  ghost function Elems<T>(t: Tree<T>): multiset<T> {
    match t
    case Leaf => multiset{}
    case Node(l, x, r) => Elems(l) + multiset{x} + Elems(r)
  }

  /** Every entry of `t` is one of `s`. */
  ghost predicate Within<T>(t: Tree<T>, s: set<T>) {
    forall x | x in Elems(t) :: x in s
  }

  // ----- What the callback owes its callers -----

  /** `x` may stand above `y`: the callback does not put `y` strictly first. */
  predicate MayPrecede<T>(comp: Compare<T>, x: T, y: T) {
    comp(y, x) != -1
  }

  predicate Chains<T>(comp: Compare<T>, x: T, y: T, z: T) {
    MayPrecede(comp, x, y) && MayPrecede(comp, y, z) ==> MayPrecede(comp, x, z)
  }

  /** On the entries of `s`, "answers -1" is a strict weak order. */
  ghost predicate StrictWeak<T>(comp: Compare<T>, s: set<T>) {
    && (forall x, y {:trigger comp(x, y)} | x in s && y in s :: comp(x, y) == -1 ==> MayPrecede(comp, x, y))
    && (forall x, y, z {:trigger Chains(comp, x, y, z)} | x in s && y in s && z in s :: Chains(comp, x, y, z))
  }

  /** The usual reading of a three-way comparison: answers in {-1, 0, 1} that form a total preorder. */
  ghost predicate ThreeWay<T>(comp: Compare<T>, s: set<T>) {
    && (forall x, y | x in s && y in s :: -1 <= comp(x, y) <= 1 && comp(x, y) == -comp(y, x))
    && (forall x, y, z | x in s && y in s && z in s ::
          comp(x, y) <= 0 && comp(y, z) <= 0 ==> comp(x, z) <= 0)
  }

  lemma {:induction false} ThreeWayIsStrictWeak<T>(comp: Compare<T>, s: set<T>)
    requires ThreeWay(comp, s)
    ensures StrictWeak(comp, s)
    ensures forall x, y | x in s && y in s :: MayPrecede(comp, x, y) <==> comp(x, y) <= 0
  {
    forall x, y | x in s && y in s
      ensures MayPrecede(comp, x, y) <==> comp(x, y) <= 0
    {
      assert comp(x, y) == -comp(y, x);
    }
  }

  // ----- The operations -----

  function Merge<T>(a: Tree<T>, b: Tree<T>, comp: Compare<T>): Tree<T>
    decreases Size(a) + Size(b)
  {
    if a.Leaf? then b
    else if b.Leaf? then a
    else if comp(a.elem, b.elem) == -1 then
      Node(Merge(a.right, b, comp), a.elem, a.left)
    else
      Node(Merge(a, b.right, comp), b.elem, b.left)
  }

  function Insert<T>(a: Tree<T>, x: T, comp: Compare<T>): Tree<T> {
    Merge(a, Node(Leaf, x, Leaf), comp)
  }

  /** Takes the entry `x` out, putting the merge of its two subtrees in its place. */
  ghost function Remove<T>(t: Tree<T>, x: T, comp: Compare<T>): Tree<T>
    requires x in Elems(t)
  {
    if t.elem == x then Merge(t.left, t.right, comp)
    else if x in Elems(t.left) then Node(Remove(t.left, x, comp), t.elem, t.right)
    else Node(t.left, t.elem, Remove(t.right, x, comp))
  }

  /** Every entry may precede everything below it. */
  ghost predicate HeapOrdered<T>(t: Tree<T>, comp: Compare<T>) {
    match t
    case Leaf => true
    case Node(l, x, r) =>
      && Above(x, l, comp) && Above(x, r, comp)
      && HeapOrdered(l, comp) && HeapOrdered(r, comp)
  }

  ghost predicate Above<T>(x: T, t: Tree<T>, comp: Compare<T>) {
    forall y | y in Elems(t) :: MayPrecede(comp, x, y)
  }

  // ----- Merge -----

  lemma {:induction false} MergeElems<T>(a: Tree<T>, b: Tree<T>, comp: Compare<T>)
    ensures Elems(Merge(a, b, comp)) == Elems(a) + Elems(b)
    decreases Size(a) + Size(b)
  {
    if a.Leaf? || b.Leaf? {
    } else if comp(a.elem, b.elem) == -1 {
      MergeElems(a.right, b, comp);
    } else {
      MergeElems(a, b.right, comp);
    }
  }

  lemma {:induction false} SizeIsCount<T>(t: Tree<T>)
    ensures Size(t) == |Elems(t)|
  {
    match t
    case Leaf =>
    case Node(l, x, r) =>
      SizeIsCount(l);
      SizeIsCount(r);
  }

  lemma {:induction false} MergeSize<T>(a: Tree<T>, b: Tree<T>, comp: Compare<T>)
    ensures Size(Merge(a, b, comp)) == Size(a) + Size(b)
  {
    MergeElems(a, b, comp);
    SizeIsCount(Merge(a, b, comp));
    SizeIsCount(a);
    SizeIsCount(b);
  }

  lemma {:induction false} RootIsMinimum<T>(t: Tree<T>, comp: Compare<T>, s: set<T>)
    requires t.Node? && HeapOrdered(t, comp) && StrictWeak(comp, s) && Within(t, s)
    ensures Above(t.elem, t, comp)
  {
    assert t.elem in Elems(t);
    assert comp(t.elem, t.elem) == -1 ==> MayPrecede(comp, t.elem, t.elem);
  }

  /** What stands above the root of a heap stands above all of it. */
  lemma {:induction false} AboveRoot<T>(x: T, t: Tree<T>, comp: Compare<T>, s: set<T>)
    requires t.Node? && HeapOrdered(t, comp) && StrictWeak(comp, s) && Within(t, s) && x in s
    requires MayPrecede(comp, x, t.elem)
    ensures Above(x, t, comp)
  {
    RootIsMinimum(t, comp, s);
    assert t.elem in Elems(t);
    forall y | y in Elems(t)
      ensures MayPrecede(comp, x, y)
    {
      assert Chains(comp, x, t.elem, y);
    }
  }

  lemma {:induction false} AboveMerge<T>(x: T, a: Tree<T>, b: Tree<T>, comp: Compare<T>)
    requires Above(x, a, comp) && Above(x, b, comp)
    ensures Above(x, Merge(a, b, comp), comp)
  {
    MergeElems(a, b, comp);
  }

  lemma {:induction false} WithinParts<T>(t: Tree<T>, s: set<T>)
    requires t.Node? && Within(t, s)
    ensures t.elem in s && Within(t.left, s) && Within(t.right, s)
  {
    assert t.elem in Elems(t);
    assert forall x | x in Elems(t.left) || x in Elems(t.right) :: x in Elems(t);
  }

  lemma {:induction false} MergeHeapOrdered<T>(a: Tree<T>, b: Tree<T>, comp: Compare<T>, s: set<T>)
    requires StrictWeak(comp, s) && Within(a, s) && Within(b, s)
    requires HeapOrdered(a, comp) && HeapOrdered(b, comp)
    ensures HeapOrdered(Merge(a, b, comp), comp)
    decreases Size(a) + Size(b)
  {
    if a.Node? && b.Node? {
      WithinParts(a, s);
      WithinParts(b, s);
      if comp(a.elem, b.elem) == -1 {
        MergeHeapOrdered(a.right, b, comp, s);
        AboveRoot(a.elem, b, comp, s);
        AboveMerge(a.elem, a.right, b, comp);
      } else {
        MergeHeapOrdered(a, b.right, comp, s);
        AboveRoot(b.elem, a, comp, s);
        AboveMerge(b.elem, a, b.right, comp);
      }
    }
  }

  /** A new entry comes out on top, also of a root it ties with, unless the answer on the root and it is -1. */
  lemma {:induction false} InsertRoot<T>(t: Tree<T>, x: T, comp: Compare<T>)
    ensures var m := Insert(t, x, comp);
      m.Node? && m.elem == if t.Node? && comp(t.elem, x) == -1 then t.elem else x
  {
  }

  // ----- Removal of any entry -----

  lemma {:induction false} RemoveElems<T>(t: Tree<T>, x: T, comp: Compare<T>)
    requires x in Elems(t)
    ensures Elems(Remove(t, x, comp)) + multiset{x} == Elems(t)
  {
    if t.elem == x {
      MergeElems(t.left, t.right, comp);
    } else if x in Elems(t.left) {
      RemoveElems(t.left, x, comp);
    } else {
      RemoveElems(t.right, x, comp);
    }
  }

  lemma {:induction false} RemoveHeapOrdered<T>(t: Tree<T>, x: T, comp: Compare<T>, s: set<T>)
    requires x in Elems(t) && HeapOrdered(t, comp) && StrictWeak(comp, s) && Within(t, s)
    ensures HeapOrdered(Remove(t, x, comp), comp)
  {
    WithinParts(t, s);
    if t.elem == x {
      MergeHeapOrdered(t.left, t.right, comp, s);
    } else {
      var part := if x in Elems(t.left) then t.left else t.right;
      RemoveHeapOrdered(part, x, comp, s);
      RemoveElems(part, x, comp);
      assert forall y | y in Elems(Remove(part, x, comp)) :: y in Elems(part);
    }
  }

  // ----- Whole runs -----

  datatype Op<T> = Add(x: T) | Take(x: T)

  /** Only entries that are queued are taken, and only new ones are added. */
  ghost predicate Enabled<T>(op: Op<T>, q: multiset<T>) {
    match op
    case Add(x) => x !in q
    case Take(x) => x in q
  }

  /** One step of the abstract priority queue, a multiset. */
  ghost function QueueStep<T>(op: Op<T>, q: multiset<T>): multiset<T> {
    match op
    case Add(x) => q + multiset{x}
    case Take(x) => q - multiset{x}
  }

  ghost predicate Legal<T>(ops: seq<Op<T>>, q: multiset<T>) {
    ops == [] || (Enabled(ops[0], q) && Legal(ops[1..], QueueStep(ops[0], q)))
  }

  ghost function QueueAfter<T>(ops: seq<Op<T>>, q: multiset<T>): multiset<T> {
    if ops == [] then q else QueueAfter(ops[1..], QueueStep(ops[0], q))
  }

  ghost function HeapStep<T>(op: Op<T>, t: Tree<T>, comp: Compare<T>): Tree<T>
    requires Enabled(op, Elems(t))
  {
    match op
    case Add(x) => Insert(t, x, comp)
    case Take(x) => Remove(t, x, comp)
  }

  lemma {:induction false} StepRefinesQueue<T>(op: Op<T>, t: Tree<T>, comp: Compare<T>)
    requires Enabled(op, Elems(t))
    ensures Elems(HeapStep(op, t, comp)) == QueueStep(op, Elems(t))
  {
    match op
    case Add(x) => MergeElems(t, Node(Leaf, x, Leaf), comp);
    case Take(x) => RemoveElems(t, x, comp);
  }

  /** One entry is put in, or one is taken out. */
  lemma {:induction false} StepElems<T>(op: Op<T>, t: Tree<T>, comp: Compare<T>)
    requires Enabled(op, Elems(t))
    ensures match op
      case Add(x) => Elems(HeapStep(op, t, comp)) == Elems(t) + multiset{x}
      case Take(x) => Elems(HeapStep(op, t, comp)) + multiset{x} == Elems(t)
  {
    StepRefinesQueue(op, t, comp);
  }

  ghost function HeapAfter<T>(ops: seq<Op<T>>, t: Tree<T>, comp: Compare<T>): Tree<T>
    requires Legal(ops, Elems(t))
    decreases |ops|
  {
    if ops == [] then t
    else
      StepRefinesQueue(ops[0], t, comp);
      HeapAfter(ops[1..], HeapStep(ops[0], t, comp), comp)
  }

  /** Over every run the heap holds exactly what the queue holds, and stays ordered. */
  lemma {:induction false} RunRefinesQueue<T>(ops: seq<Op<T>>, t: Tree<T>, comp: Compare<T>, s: set<T>)
    requires StrictWeak(comp, s) && Within(t, s) && forall op | op in ops :: op.x in s
    requires Legal(ops, Elems(t)) && HeapOrdered(t, comp)
    ensures Elems(HeapAfter(ops, t, comp)) == QueueAfter(ops, Elems(t))
    ensures HeapOrdered(HeapAfter(ops, t, comp), comp)
    ensures Within(HeapAfter(ops, t, comp), s)
    decreases |ops|
  {
    if ops != [] {
      var op := ops[0];
      StepRefinesQueue(op, t, comp);
      match op {
        case Add(x) => MergeHeapOrdered(t, Node(Leaf, x, Leaf), comp, s);
        case Take(x) => RemoveHeapOrdered(t, x, comp, s);
      }
      RunRefinesQueue(ops[1..], HeapStep(op, t, comp), comp, s);
    }
  }

  /** After every run from empty, the root is a minimum of the queue; there is none only when the queue is empty. */
  lemma {:induction false} RunRootIsMinimum<T>(ops: seq<Op<T>>, comp: Compare<T>, s: set<T>)
    requires StrictWeak(comp, s) && forall op | op in ops :: op.x in s
    requires Legal(ops, multiset{})
    ensures var t, q := HeapAfter(ops, Leaf, comp), QueueAfter(ops, multiset{});
      if t.Leaf? then q == multiset{}
      else t.elem in q && forall y | y in q :: MayPrecede(comp, t.elem, y)
  {
    RunRefinesQueue(ops, Leaf, comp, s);
    var t := HeapAfter(ops, Leaf, comp);
    if t.Node? {
      RootIsMinimum(t, comp, s);
    }
  }

  // ----- Emptying the heap from its root -----

  function Drain<T>(t: Tree<T>, comp: Compare<T>): seq<T>
    decreases Size(t)
  {
    if t.Leaf? then []
    else
      MergeSize(t.left, t.right, comp);
      [t.elem] + Drain(Merge(t.left, t.right, comp), comp)
  }

  ghost predicate Sorted<T>(s: seq<T>, comp: Compare<T>) {
    forall i, j | 0 <= i < j < |s| :: MayPrecede(comp, s[i], s[j])
  }

  /** Taking the root again and again yields every entry once, in order. */
  lemma {:induction false} DrainSorts<T>(t: Tree<T>, comp: Compare<T>, s: set<T>)
    requires HeapOrdered(t, comp) && StrictWeak(comp, s) && Within(t, s)
    ensures multiset(Drain(t, comp)) == Elems(t)
    ensures Sorted(Drain(t, comp), comp)
    decreases Size(t)
  {
    if t.Node? {
      var rest := Merge(t.left, t.right, comp);
      MergeSize(t.left, t.right, comp);
      WithinParts(t, s);
      MergeHeapOrdered(t.left, t.right, comp, s);
      AboveMerge(t.elem, t.left, t.right, comp);
      assert Elems(rest) == Elems(t.left) + Elems(t.right) by { MergeElems(t.left, t.right, comp); }
      DrainSorts(rest, comp, s);
      SortedCons(t.elem, rest, Drain(rest, comp), comp);
    }
  }

  lemma {:induction false} SortedCons<T>(x: T, t: Tree<T>, d: seq<T>, comp: Compare<T>)
    requires multiset(d) == Elems(t) && Sorted(d, comp) && Above(x, t, comp)
    ensures Sorted([x] + d, comp)
  {
    assert forall i | 0 <= i < |d| :: d[i] in multiset(d);
  }

  // ----- What the comparison must be like -----

  ghost predicate KeepsOrder<T>(a: Tree<T>, b: Tree<T>, comp: Compare<T>, s: set<T>) {
    Within(a, s) && Within(b, s) && HeapOrdered(a, comp) && HeapOrdered(b, comp)
    ==> HeapOrdered(Merge(a, b, comp), comp)
  }

  function Single<T>(x: T): Tree<T> {
    Node(Leaf, x, Leaf)
  }

  lemma {:induction false} SingleIsHeap<T>(x: T, comp: Compare<T>, s: set<T>)
    ensures HeapOrdered(Single(x), comp) && Elems(Single(x)) == multiset{x}
    ensures x in s ==> Within(Single(x), s)
  {
    assert Elems<T>(Leaf) == multiset{};
    assert HeapOrdered<T>(Leaf, comp);
  }

  lemma {:induction false} OrderNeedsAsymmetry<T>(comp: Compare<T>, s: set<T>, x: T, y: T)
    requires x in s && y in s && KeepsOrder(Single(x), Single(y), comp, s) && comp(x, y) == -1
    ensures MayPrecede(comp, x, y)
  {
    SingleIsHeap(x, comp, s);
    SingleIsHeap(y, comp, s);
    assert Merge(Single(x), Single(y), comp) == Node(Single(y), x, Leaf);
    assert Above(x, Single(y), comp);
  }

  lemma {:induction false} OrderNeedsChains<T>(comp: Compare<T>, s: set<T>, x: T, y: T, z: T)
    requires x in s && y in s && z in s && KeepsOrder(Node(Leaf, y, Single(z)), Single(x), comp, s)
    ensures Chains(comp, x, y, z)
  {
    if MayPrecede(comp, x, y) && MayPrecede(comp, y, z) {
      var b := Node(Leaf, y, Single(z));
      SingleIsHeap(x, comp, s);
      SingleIsHeap(z, comp, s);
      assert HeapOrdered(b, comp) && Elems(b) == multiset{y, z};
      assert Merge(b, Single(x), comp) == Node(b, x, Leaf);
      assert Above(x, b, comp);
    }
  }

  /** Merging keeps every two heaps of entries from `s` in order exactly when "answers -1" is a
      strict weak order on `s`. */
  lemma {:induction false} MergeKeepsOrderIff<T(!new)>(comp: Compare<T>, s: set<T>)
    ensures (forall a, b :: KeepsOrder(a, b, comp, s)) <==> StrictWeak(comp, s)
  {
    if StrictWeak(comp, s) {
      forall a, b
        ensures KeepsOrder(a, b, comp, s)
      {
        if Within(a, s) && Within(b, s) && HeapOrdered(a, comp) && HeapOrdered(b, comp) {
          MergeHeapOrdered(a, b, comp, s);
        }
      }
    }
    if forall a, b :: KeepsOrder(a, b, comp, s) {
      forall x, y | x in s && y in s && comp(x, y) == -1
        ensures MayPrecede(comp, x, y)
      {
        OrderNeedsAsymmetry(comp, s, x, y);
      }
      forall x, y, z | x in s && y in s && z in s
        ensures Chains(comp, x, y, z)
      {
        OrderNeedsChains(comp, s, x, y, z);
      }
    }
  }

  // ----- Comparisons that answer with any negative number -----

  /** What C's library asks of a comparison: only the sign of the answer has a meaning. */
  function Sign<T>(comp: Compare<T>): Compare<T> {
    (x, y) => if comp(x, y) < 0 then -1 else if comp(x, y) > 0 then 1 else 0
  }

  /** Every negative answer on `s` is -1. */
  ghost predicate OnlyMinusOne<T>(comp: Compare<T>, s: set<T>) {
    forall x, y | x in s && y in s :: comp(x, y) < 0 ==> comp(x, y) == -1
  }

  /** Where every negative answer is -1, the code's test sees the order that the signs describe. */
  lemma {:induction false} SignOrder<T>(comp: Compare<T>, s: set<T>)
    requires ThreeWay(Sign(comp), s) && OnlyMinusOne(comp, s)
    ensures StrictWeak(comp, s)
    ensures forall x, y | x in s && y in s :: MayPrecede(comp, x, y) <==> comp(x, y) <= 0
  {
    forall x, y | x in s && y in s
      ensures MayPrecede(comp, x, y) <==> comp(x, y) <= 0
      ensures MayPrecede(comp, x, y) <==> MayPrecede(Sign(comp), x, y)
    {
      assert Sign(comp)(x, y) == -Sign(comp)(y, x);
    }
    ThreeWayIsStrictWeak(Sign(comp), s);
    forall x, y, z | x in s && y in s && z in s
      ensures Chains(comp, x, y, z)
    {
      assert Chains(Sign(comp), x, y, z);
    }
  }

  lemma {:induction false} MergeBySign<T>(a: Tree<T>, b: Tree<T>, comp: Compare<T>, s: set<T>)
    requires OnlyMinusOne(comp, s) && Within(a, s) && Within(b, s)
    ensures Merge(a, b, comp) == Merge(a, b, Sign(comp))
    decreases Size(a) + Size(b)
  {
    if a.Node? && b.Node? {
      WithinParts(a, s);
      WithinParts(b, s);
      if comp(a.elem, b.elem) == -1 {
        MergeBySign(a.right, b, comp, s);
      } else {
        MergeBySign(a, b.right, comp, s);
      }
    }
  }

  /** The merge that the code makes with `comp` keeps the order that the signs of `comp` describe. */
  ghost predicate KeepsSignOrder<T>(a: Tree<T>, b: Tree<T>, comp: Compare<T>, s: set<T>) {
    Within(a, s) && Within(b, s) && HeapOrdered(a, Sign(comp)) && HeapOrdered(b, Sign(comp))
    ==> HeapOrdered(Merge(a, b, comp), Sign(comp))
  }

  /** Unless the answer is -1, the second of two entries comes out above the first. */
  lemma {:induction false} SecondOnTop<T>(x: T, y: T, comp: Compare<T>)
    requires comp(x, y) != -1
    ensures Merge(Single(x), Single(y), comp) == Node(Single(x), y, Leaf)
    ensures HeapOrdered(Node(Single(x), y, Leaf), Sign(comp)) ==> comp(x, y) >= 0
  {
    assert Merge(Single(x), Leaf, comp) == Single(x);
    assert x in Elems(Single(x));
    assert Above(y, Single(x), Sign(comp)) ==> MayPrecede(Sign(comp), y, x);
  }

  lemma {:induction false} SignOrderNeedsMinusOne<T>(comp: Compare<T>, s: set<T>, x: T, y: T)
    requires x in s && y in s && KeepsSignOrder(Single(x), Single(y), comp, s) && comp(x, y) < 0
    ensures comp(x, y) == -1
  {
    SingleIsHeap(x, Sign(comp), s);
    SingleIsHeap(y, Sign(comp), s);
    if comp(x, y) != -1 {
      SecondOnTop(x, y, comp);
    }
  }

  /** For a comparison whose signs form a total preorder: merging keeps every two heaps in the order
      of the signs exactly when every negative answer is -1. */
  lemma {:induction false} MergeKeepsSignOrderIff<T(!new)>(comp: Compare<T>, s: set<T>)
    requires ThreeWay(Sign(comp), s)
    ensures (forall a, b :: KeepsSignOrder(a, b, comp, s)) <==> OnlyMinusOne(comp, s)
  {
    if OnlyMinusOne(comp, s) {
      ThreeWayIsStrictWeak(Sign(comp), s);
      forall a, b
        ensures KeepsSignOrder(a, b, comp, s)
      {
        if Within(a, s) && Within(b, s) && HeapOrdered(a, Sign(comp)) && HeapOrdered(b, Sign(comp)) {
          MergeHeapOrdered(a, b, Sign(comp), s);
          MergeBySign(a, b, comp, s);
        }
      }
    }
    if forall a, b :: KeepsSignOrder(a, b, comp, s) {
      forall x, y | x in s && y in s && comp(x, y) < 0
        ensures comp(x, y) == -1
      {
        SignOrderNeedsMinusOne(comp, s, x, y);
      }
    }
  }

  /** The heap after a run from empty serves as a queue: it has a root unless the queue is empty, and
      by the answers of the comparison nothing in the queue comes before that root. */
  ghost predicate ServesLeast<T>(ops: seq<Op<T>>, comp: Compare<T>)
    requires Legal(ops, multiset{})
  {
    var t, q := HeapAfter(ops, Leaf, comp), QueueAfter(ops, multiset{});
    if t.Leaf? then q == multiset{} else t.elem in q && forall y | y in q :: comp(t.elem, y) <= 0
  }

  ghost predicate RunServesLeast<T>(ops: seq<Op<T>>, comp: Compare<T>, s: set<T>) {
    Legal(ops, multiset{}) && (forall op | op in ops :: op.x in s) ==> ServesLeast(ops, comp)
  }

  /** Queueing `x` and then `y` leaves `y` at the root unless the answer on them is -1. */
  lemma {:induction false} TwoInsertions<T>(x: T, y: T, comp: Compare<T>)
    requires x != y && comp(x, y) != -1
    ensures Legal([Add(x), Add(y)], multiset{})
    ensures HeapAfter([Add(x), Add(y)], Leaf, comp) == Node(Single(x), y, Leaf)
    ensures QueueAfter([Add(x), Add(y)], multiset{}) == multiset{x, y}
  {
    var ops, rest := [Add(x), Add(y)], [Add(y)];
    assert ops[1..] == rest && rest[1..] == [];
    assert QueueStep(Add(x), multiset{}) == multiset{x} && QueueStep(Add(y), multiset{x}) == multiset{x, y};
    assert QueueAfter(rest, multiset{x}) == QueueAfter([], multiset{x, y}) == multiset{x, y};
    assert Legal(rest, multiset{x}) && Legal(ops, multiset{});
    SingleIsHeap(x, comp, {});
    SecondOnTop(x, y, comp);
    assert HeapAfter(rest, Single(x), comp) == HeapAfter([], Insert(Single(x), y, comp), comp);
    assert Insert(Leaf, x, comp) == Single(x);
  }

  lemma {:induction false} ServiceNeedsMinusOne<T>(x: T, y: T, comp: Compare<T>, s: set<T>)
    requires ThreeWay(Sign(comp), s) && x in s && y in s && comp(x, y) < 0
    requires RunServesLeast([Add(x), Add(y)], comp, s)
    ensures comp(x, y) == -1
  {
    assert Sign(comp)(x, y) == -Sign(comp)(y, x) && Sign(comp)(x, x) == -Sign(comp)(x, x);
    if comp(x, y) != -1 {
      TwoInsertions(x, y, comp);
    }
  }

  /** For a comparison whose signs form a total preorder: the root is a least entry of the queue after
      every run from empty, exactly when every negative answer is -1. */
  lemma {:induction false} RunsServeLeastIff<T(!new)>(comp: Compare<T>, s: set<T>)
    requires ThreeWay(Sign(comp), s)
    ensures (forall ops: seq<Op<T>> :: RunServesLeast(ops, comp, s)) <==> OnlyMinusOne(comp, s)
  {
    if OnlyMinusOne(comp, s) {
      SignOrder(comp, s);
      forall ops: seq<Op<T>>
        ensures RunServesLeast(ops, comp, s)
      {
        if Legal(ops, multiset{}) && forall op | op in ops :: op.x in s {
          RunServes(ops, comp, s);
        }
      }
    }
    if forall ops: seq<Op<T>> :: RunServesLeast(ops, comp, s) {
      forall x, y | x in s && y in s && comp(x, y) < 0
        ensures comp(x, y) == -1
      {
        assert RunServesLeast([Add(x), Add(y)], comp, s);
        ServiceNeedsMinusOne(x, y, comp, s);
      }
    }
  }

  lemma {:induction false} RunServes<T>(ops: seq<Op<T>>, comp: Compare<T>, s: set<T>)
    requires ThreeWay(Sign(comp), s) && OnlyMinusOne(comp, s)
    requires Legal(ops, multiset{}) && forall op | op in ops :: op.x in s
    ensures ServesLeast(ops, comp)
  {
    SignOrder(comp, s);
    RunRootIsMinimum(ops, comp, s);
    RunRefinesQueue(ops, Leaf, comp, s);
    var t := HeapAfter(ops, Leaf, comp);
    if t.Node? {
      WithinParts(t, s);
    }
  }

  // ----- The customary "return a - b" -----

  function Difference(a: int, b: int): int { a - b }

  lemma {:induction false} DifferenceIsThreeWay(s: set<int>)
    ensures ThreeWay(Sign(Difference), s)
  {
    forall x, y
      ensures Sign(Difference)(x, y) == if x < y then -1 else if x > y then 1 else 0
    {
      assert Difference(x, y) == x - y;
    }
  }

  /** It serves the least entry in every run exactly when no two entries differ by more than one. */
  lemma {:induction false} DifferenceServesIff(s: set<int>)
    ensures (forall ops :: RunServesLeast(ops, Difference, s)) <==> forall x, y | x in s && y in s :: x - y <= 1
  {
    DifferenceIsThreeWay(s);
    RunsServeLeastIff(Difference, s);
    assert OnlyMinusOne(Difference, s) <==> forall x, y | x in s && y in s :: x - y <= 1 by {
      forall x, y | x in s && y in s
        ensures Difference(y, x) == y - x
      {
      }
    }
  }

  /** For instance, queueing 1 and then 5 leaves 5 at the root. */
  lemma {:induction false} DifferenceBreaksOrder()
    ensures Legal([Add(1), Add(5)], multiset{}) && !ServesLeast([Add(1), Add(5)], Difference)
    ensures HeapAfter([Add(1), Add(5)], Leaf, Difference) == Node(Single(1), 5, Leaf)
  {
    assert Difference(1, 5) == -4 && Difference(5, 1) == 4;
    TwoInsertions(1, 5, Difference);
  }
}
