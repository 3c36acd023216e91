/** The skew heap in memory: entries linked by `parent`, `left` and `right`, rewritten in place.

    A heap is described by the tree it spells out; each operation is proved to leave the
    links of the tree that the functions of `SkewTree` give for it. */
module SkewHeap {
  import opened Arith
  import opened SkewTree
  import opened SkewCost

  class Entry {
    var parent: Entry?
    var left: Entry?
    var right: Entry?
  }

  ghost function RootOf(t: Tree<Entry>): Entry? {
    if t.Leaf? then null else t.elem
  }

  ghost function Nodes(t: Tree<Entry>): set<Entry> {
    if t.Leaf? then {} else Nodes(t.left) + {t.elem} + Nodes(t.right)
  }

  lemma {:induction false} NodesAreElems(t: Tree<Entry>)
    ensures forall x | x in Nodes(t) :: x in Elems(t)
    ensures forall x | x in Elems(t) :: x in Nodes(t)
  {
    if t.Node? {
      NodesAreElems(t.left);
      NodesAreElems(t.right);
    }
  }

  ghost predicate HasParent(t: Tree<Entry>, p: Entry?)
    reads Nodes(t)
  {
    t.Node? ==> t.elem.parent == p
  }

  /** The entries of `t` are distinct objects whose child links spell out `t`, and every
      entry but the root has its parent link right. */
  ghost predicate Linked(t: Tree<Entry>)
    reads Nodes(t)
  {
    t.Node? ==>
      && t.elem.left == RootOf(t.left) && t.elem.right == RootOf(t.right)
      && HasParent(t.left, t.elem) && HasParent(t.right, t.elem)
      && Linked(t.left) && Linked(t.right)
      && t.elem !in Nodes(t.left) && t.elem !in Nodes(t.right) && Nodes(t.left) !! Nodes(t.right)
  }

  /** A whole heap: the root has no parent. */
  ghost predicate IsHeap(t: Tree<Entry>)
    reads Nodes(t)
  {
    Linked(t) && HasParent(t, null)
  }

  lemma {:induction false} MergeNodes(a: Tree<Entry>, b: Tree<Entry>, comp: Compare<Entry>)
    ensures Nodes(Merge(a, b, comp)) == Nodes(a) + Nodes(b)
  {
    MergeElems(a, b, comp);
    NodesAreElems(a);
    NodesAreElems(b);
    NodesAreElems(Merge(a, b, comp));
  }

  // ----- skew_heap_init -----

  method InitEntry(e: Entry)
    modifies e
    ensures IsHeap(Node(Leaf, e, Leaf))
  {
    e.left, e.right, e.parent := null, null, null;
  }

  // ----- skew_heap_merge -----

  /** The relinking that ends both branches of merge: `x` gets the children `l` and `r`.
      Only `l` is told about its parent. */
  method Adopt(x: Entry, l: Entry?, r: Entry?, ghost tl: Tree<Entry>, ghost tr: Tree<Entry>)
    requires l == RootOf(tl) && r == RootOf(tr) && Linked(tl) && Linked(tr)
    requires HasParent(tr, x)
    requires x !in Nodes(tl) && x !in Nodes(tr) && Nodes(tl) !! Nodes(tr)
    modifies x`left, x`right, (if l == null then {} else {l})`parent
    ensures Linked(Node(tl, x, tr))
  {
    x.left := l;
    x.right := r;
    if l != null { l.parent := x; }
  }

  /** Joins two linked trees.  Only the parent link of the returned root keeps its old value;
      `calls` counts the calls made. */
  method MergeHeaps(a: Entry?, b: Entry?, comp: Compare<Entry>, ghost ta: Tree<Entry>, ghost tb: Tree<Entry>)
    returns (root: Entry?, ghost calls: nat)
    requires a == RootOf(ta) && b == RootOf(tb)
    requires Linked(ta) && Linked(tb) && Nodes(ta) !! Nodes(tb)
    modifies Nodes(ta) + Nodes(tb)
    ensures root == RootOf(Merge(ta, tb, comp)) && Linked(Merge(ta, tb, comp))
    ensures root != null ==> root.parent == old(root.parent)
    ensures calls == MergeCalls(ta, tb, comp)
    decreases Size(ta) + Size(tb)
  {
    if a == null { return b, 1; }
    if b == null { return a, 1; }
    if comp(a, b) == -1 {
      var r := a.left;
      var l;
      assert Linked(ta.left) && allocated(Nodes(ta.left));
      l, calls := MergeHeaps(a.right, b, comp, ta.right, tb);
      MergeNodes(ta.right, tb, comp);
      Adopt(a, l, r, Merge(ta.right, tb, comp), ta.left);
      return a, calls + 1;
    } else {
      var r := b.left;
      var l;
      assert Linked(tb.left) && allocated(Nodes(tb.left));
      l, calls := MergeHeaps(a, b.right, comp, ta, tb.right);
      MergeNodes(ta, tb.right, comp);
      Adopt(b, l, r, Merge(ta, tb.right, comp), tb.left);
      return b, calls + 1;
    }
  }

  // ----- skew_heap_insert -----

  lemma {:induction false} NodesWithin(t: Tree<Entry>, s: set<Entry>)
    requires Nodes(t) <= s
    ensures Within(t, s)
  {
    NodesAreElems(t);
  }

  lemma {:induction false} InsertKeeps(t: Tree<Entry>, b: Entry, comp: Compare<Entry>)
    ensures Nodes(Insert(t, b, comp)) == Nodes(t) + {b}
    ensures HeapOrdered(t, comp) && StrictWeak(comp, Nodes(t) + {b}) ==> HeapOrdered(Insert(t, b, comp), comp)
  {
    var single, s := Node(Leaf, b, Leaf), Nodes(t) + {b};
    assert Nodes(single) == {b};
    MergeNodes(t, single, comp);
    if HeapOrdered(t, comp) && StrictWeak(comp, s) {
      NodesWithin(t, s);
      SingleIsHeap(b, comp, s);
      MergeHeapOrdered(t, single, comp, s);
    }
  }

  method InsertEntry(a: Entry?, b: Entry, comp: Compare<Entry>, ghost ta: Tree<Entry>)
    returns (root: Entry?, ghost calls: nat)
    requires a == RootOf(ta) && IsHeap(ta) && b !in Nodes(ta)
    modifies Nodes(ta) + {b}
    ensures root == RootOf(Insert(ta, b, comp)) && IsHeap(Insert(ta, b, comp))
    ensures Nodes(Insert(ta, b, comp)) == Nodes(ta) + {b}
    ensures HeapOrdered(ta, comp) && StrictWeak(comp, Nodes(ta) + {b}) ==> HeapOrdered(Insert(ta, b, comp), comp)
    ensures calls == MergeCalls(ta, Node(Leaf, b, Leaf), comp)
  {
    ghost var tb := Node(Leaf, b, Leaf);
    assert allocated(Nodes(ta));
    InitEntry(b);
    root, calls := MergeHeaps(a, b, comp, ta, tb);
    InsertKeeps(ta, b, comp);
  }

  // ----- The surroundings of one entry -----

  /** A tree with a hole, from the hole outwards. */
  datatype Context =
    | Top
    | InLeft(up: Context, x: Entry, right: Tree<Entry>)
    | InRight(up: Context, left: Tree<Entry>, x: Entry)

  ghost function Plug(c: Context, t: Tree<Entry>): Tree<Entry> {
    match c
    case Top => t
    case InLeft(up, x, r) => Plug(up, Node(t, x, r))
    case InRight(up, l, x) => Plug(up, Node(l, x, t))
  }

  ghost function HoleParent(c: Context): Entry? {
    if c.Top? then null else c.x
  }

  ghost function Beside(c: Context): Tree<Entry>
    requires !c.Top?
  {
    if c.InLeft? then c.right else c.left
  }

  ghost function Around(c: Context): set<Entry> {
    if c.Top? then {} else Around(c.up) + {c.x} + Nodes(Beside(c))
  }

  /** The links of the surroundings are right when `hole` fills the hole. */
  ghost predicate LinkedAround(c: Context, hole: Entry?)
    reads Around(c)
  {
    c.Top? ||
    ( && (if c.InLeft? then c.x.left == hole && c.x.right == RootOf(c.right)
          else c.x.right == hole && c.x.left == RootOf(c.left))
      && Linked(Beside(c)) && HasParent(Beside(c), c.x) && c.x !in Nodes(Beside(c))
      && c.x.parent == HoleParent(c.up) && LinkedAround(c.up, c.x)
      && c.x !in Around(c.up) && Nodes(Beside(c)) !! Around(c.up))
  }

  /** A heap is linked exactly when its part in the hole and the surroundings are. */
  lemma {:induction false} PlugLinked(c: Context, t: Tree<Entry>)
    ensures IsHeap(Plug(c, t)) <==>
            && Linked(t) && HasParent(t, HoleParent(c))
            && LinkedAround(c, RootOf(t)) && Nodes(t) !! Around(c)
  {
    match c
    case Top =>
    case InLeft(up, x, r) => PlugLinked(up, Node(t, x, r));
    case InRight(up, l, x) => PlugLinked(up, Node(l, x, t));
  }

  lemma {:induction false} PlugNodes(c: Context, t: Tree<Entry>)
    ensures Nodes(Plug(c, t)) == Around(c) + Nodes(t)
  {
    match c
    case Top =>
    case InLeft(up, x, r) => PlugNodes(up, Node(t, x, r));
    case InRight(up, l, x) => PlugNodes(up, Node(l, x, t));
  }

  /** Below the top, the filling does not decide which entry is the root. */
  lemma {:induction false} PlugRoot(c: Context, t: Tree<Entry>, t': Tree<Entry>)
    requires !c.Top? || RootOf(t) == RootOf(t')
    ensures RootOf(Plug(c, t)) == RootOf(Plug(c, t'))
  {
    match c
    case Top =>
    case InLeft(up, x, r) => PlugRoot(up, Node(t, x, r), Node(t', x, r));
    case InRight(up, l, x) => PlugRoot(up, Node(l, x, t), Node(l, x, t'));
  }

  /** Finds where `b` hangs; removing it replaces that subtree by the merge of its children. */
  lemma {:induction false} Locate(c: Context, t: Tree<Entry>, b: Entry, comp: Compare<Entry>)
    returns (at: Context, l: Tree<Entry>, r: Tree<Entry>)
    requires b in Elems(t)
    ensures Plug(c, t) == Plug(at, Node(l, b, r))
    ensures Plug(c, Remove(t, b, comp)) == Plug(at, Merge(l, r, comp))
    ensures RemoveCalls(t, b, comp) == MergeCalls(l, r, comp)
    decreases t
  {
    if t.elem == b {
      at, l, r := c, t.left, t.right;
    } else if b in Elems(t.left) {
      at, l, r := Locate(InLeft(c, t.elem, t.right), t.left, b, comp);
    } else {
      at, l, r := Locate(InRight(c, t.left, t.elem), t.right, b, comp);
    }
  }

  // ----- skew_heap_remove -----

  /** All that removal needs to know about where `b` hangs in the heap `t`. */
  lemma {:induction false} Surroundings(t: Tree<Entry>, b: Entry, comp: Compare<Entry>)
    returns (at: Context, l: Tree<Entry>, r: Tree<Entry>)
    requires IsHeap(t) && b in Elems(t)
    ensures b.parent == HoleParent(at) && b.left == RootOf(l) && b.right == RootOf(r)
    ensures Linked(l) && Linked(r) && LinkedAround(at, b)
    ensures Nodes(l) !! Nodes(r) && Nodes(Merge(l, r, comp)) == Nodes(l) + Nodes(r)
    ensures b !in Around(at) + Nodes(l) + Nodes(r) && Nodes(l) + Nodes(r) !! Around(at)
    ensures Nodes(t) - {b} == Around(at) + Nodes(l) + Nodes(r) == Nodes(Remove(t, b, comp))
    ensures Remove(t, b, comp) == Plug(at, Merge(l, r, comp))
    ensures !at.Top? ==> RootOf(Remove(t, b, comp)) == RootOf(t)
    ensures RemoveCalls(t, b, comp) == MergeCalls(l, r, comp)
  {
    at, l, r := Locate(Top, t, b, comp);
    HoleLinks(at, l, b, r);
    HoleNodes(at, l, b, r, comp);
  }

  lemma {:induction false} HoleLinks(at: Context, l: Tree<Entry>, b: Entry, r: Tree<Entry>)
    requires IsHeap(Plug(at, Node(l, b, r)))
    ensures b.parent == HoleParent(at) && b.left == RootOf(l) && b.right == RootOf(r)
    ensures Linked(l) && Linked(r) && LinkedAround(at, b)
    ensures Nodes(l) !! Nodes(r)
    ensures b !in Around(at) + Nodes(l) + Nodes(r) && Nodes(l) + Nodes(r) !! Around(at)
  {
    var whole := Node(l, b, r);
    PlugLinked(at, whole);
    assert b in Nodes(whole) && Nodes(l) + Nodes(r) <= Nodes(whole);
  }

  lemma {:induction false} HoleNodes(at: Context, l: Tree<Entry>, b: Entry, r: Tree<Entry>, comp: Compare<Entry>)
    ensures Nodes(Plug(at, Node(l, b, r))) == Around(at) + Nodes(l) + Nodes(r) + {b}
    ensures Nodes(Merge(l, r, comp)) == Nodes(l) + Nodes(r)
    ensures Nodes(Plug(at, Merge(l, r, comp))) == Around(at) + Nodes(l) + Nodes(r)
    ensures !at.Top? ==> RootOf(Plug(at, Merge(l, r, comp))) == RootOf(Plug(at, Node(l, b, r)))
  {
    PlugNodes(at, Node(l, b, r));
    MergeNodes(l, r, comp);
    PlugNodes(at, Merge(l, r, comp));
    if !at.Top? {
      PlugRoot(at, Node(l, b, r), Merge(l, r, comp));
    }
  }

  lemma {:induction false} RemoveKeeps(t: Tree<Entry>, b: Entry, comp: Compare<Entry>)
    requires b in Elems(t)
    ensures HeapOrdered(t, comp) && StrictWeak(comp, Nodes(t)) ==> HeapOrdered(Remove(t, b, comp), comp)
  {
    if HeapOrdered(t, comp) && StrictWeak(comp, Nodes(t)) {
      NodesWithin(t, Nodes(t));
      RemoveHeapOrdered(t, b, comp, Nodes(t));
    }
  }

  /** Hangs `rep` under `p` where `b` hung. */
  method Reattach(p: Entry?, b: Entry, rep: Entry?, ghost at: Context, ghost m: Tree<Entry>)
    requires rep == RootOf(m) && Linked(m)
    requires p == HoleParent(at) && LinkedAround(at, b) && b !in Around(at) && Nodes(m) !! Around(at)
    modifies (if rep == null then {} else {rep})`parent, if p == null then {} else {p}
    ensures IsHeap(Plug(at, m))
  {
    if rep != null { rep.parent := p; }
    if p != null {
      if p.left == b {
        p.left := rep;
      } else {
        p.right := rep;
      }
    }
    assert LinkedAround(at, rep);
    PlugLinked(at, m);
  }

  /** Takes any entry of the heap out; the entry itself is left as it was. */
  method RemoveEntry(a: Entry, b: Entry, comp: Compare<Entry>, ghost ta: Tree<Entry>)
    returns (root: Entry?, ghost calls: nat)
    requires a == RootOf(ta) && IsHeap(ta) && b in Elems(ta)
    modifies Nodes(ta) - {b}
    ensures root == RootOf(Remove(ta, b, comp)) && IsHeap(Remove(ta, b, comp))
    ensures Nodes(Remove(ta, b, comp)) == Nodes(ta) - {b}
    ensures HeapOrdered(ta, comp) && StrictWeak(comp, Nodes(ta)) ==> HeapOrdered(Remove(ta, b, comp), comp)
    ensures calls == RemoveCalls(ta, b, comp)
  {
    ghost var at, l, r := Surroundings(ta, b, comp);
    assert allocated(Around(at));
    var p := b.parent;
    var rep;
    rep, calls := MergeHeaps(b.left, b.right, comp, l, r);
    Reattach(p, b, rep, at, Merge(l, r, comp));
    root := if p != null then a else rep;
    RemoveKeeps(ta, b, comp);
  }

  // ----- Whole runs in place -----

  method Apply(op: Op<Entry>, a: Entry?, comp: Compare<Entry>, ghost t: Tree<Entry>)
    returns (root: Entry?, ghost calls: nat)
    requires a == RootOf(t) && IsHeap(t) && Enabled(op, Elems(t))
    modifies Nodes(t) + {op.x}
    ensures root == RootOf(HeapStep(op, t, comp)) && IsHeap(HeapStep(op, t, comp))
    ensures Nodes(HeapStep(op, t, comp)) == if op.Add? then Nodes(t) + {op.x} else Nodes(t) - {op.x}
    ensures calls == StepCalls(op, t, comp)
  {
    NodesAreElems(t);
    match op
    case Add(x) => root, calls := InsertEntry(a, x, comp, t);
    case Take(x) => root, calls := RemoveEntry(a, x, comp, t);
  }

  /** Every run of insertions and removals leaves the links of the heap that the run describes, touches
      only the given entries, and makes the calls counted. */
  method Run(ops: seq<Op<Entry>>, a: Entry?, comp: Compare<Entry>, ghost t: Tree<Entry>, ghost entries: set<Entry>)
    returns (root: Entry?, ghost calls: nat)
    requires a == RootOf(t) && IsHeap(t) && Legal(ops, Elems(t))
    requires Nodes(t) <= entries && forall op | op in ops :: op.x in entries
    modifies entries
    ensures root == RootOf(HeapAfter(ops, t, comp)) && IsHeap(HeapAfter(ops, t, comp))
    ensures calls == RunCalls(ops, t, comp)
    decreases |ops|
  {
    if ops == [] { return a, 0; }
    StepRefinesQueue(ops[0], t, comp);
    ghost var first, rest;
    root, first := Apply(ops[0], a, comp, t);
    root, rest := Run(ops[1..], root, comp, HeapStep(ops[0], t, comp), entries);
    calls := first + rest;
  }

  /** `root` is a minimum of the queue, and is null only if the queue is empty. */
  ghost predicate IsLeastOf(root: Entry?, q: multiset<Entry>, comp: Compare<Entry>) {
    if root == null then q == multiset{}
    else root in q && forall y | y in q :: MayPrecede(comp, root as Entry, y)
  }

  lemma {:induction false} RunRootIsLeast(ops: seq<Op<Entry>>, comp: Compare<Entry>, s: set<Entry>)
    requires StrictWeak(comp, s) && forall op | op in ops :: op.x in s
    requires Legal(ops, multiset{})
    ensures IsLeastOf(RootOf(HeapAfter(ops, Leaf, comp)), QueueAfter(ops, multiset{}), comp)
  {
    RunRootIsMinimum(ops, comp, s);
  }

  /** From an empty heap, every run in place ends with a minimum of the queue at the root, and its
      operations that never let the queue exceed `n` entries make O(log n) calls each. */
  method RunFromEmpty(ops: seq<Op<Entry>>, comp: Compare<Entry>, ghost entries: set<Entry>, ghost n: nat)
    returns (root: Entry?, ghost calls: nat)
    requires StrictWeak(comp, entries) && forall op | op in ops :: op.x in entries
    requires Legal(ops, multiset{}) && NeverExceeds(ops, multiset{}, n)
    modifies entries
    ensures IsLeastOf(root, QueueAfter(ops, multiset{}), comp)
    ensures calls <= |ops| * (4 * Log2(n + 1) + 1)
  {
    RunRootIsLeast(ops, comp, entries);
    RunCost(ops, comp, n);
    root, calls := Run(ops, null, comp, Leaf, entries);
  }
}
