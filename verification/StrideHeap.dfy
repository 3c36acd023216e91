/** The stride scheduler's pool in memory: the skew heap relinked in place while strides change. */
module StrideHeap {
  import opened CString
  import opened SkewTree
  import opened SkewHeap
  import opened Stride

  /** The processes that own the entries. */
  type Table = Entry -> Proc

  /** The comparison of two entries looks their processes up. */
  function Compared(of: Table): Compare<Entry> {
    (x: Entry, y: Entry) => CompareProcs(of(x), of(y))
  }

  function ChargeOwner(of: Table, e: Entry, priority: nat): Table
    requires priority > 0
  {
    (x: Entry) => if x == e then Charged(of(x), priority) else of(x)
  }

  /** The pool of processes that a heap of entries stands for. */
  function Image(t: Tree<Entry>, of: Table): Tree<Proc> {
    match t
    case Leaf => Leaf
    case Node(l, x, r) => Node(Image(l, of), of(x), Image(r, of))
  }

  lemma {:induction false} ImageMerge(a: Tree<Entry>, b: Tree<Entry>, of: Table)
    ensures Image(Merge(a, b, Compared(of)), of) == Merge(Image(a, of), Image(b, of), CompareProcs)
    decreases Size(a) + Size(b)
  {
    if a.Node? && b.Node? {
      if CompareProcs(of(a.elem), of(b.elem)) == -1 {
        ImageMerge(a.right, b, of);
      } else {
        ImageMerge(a, b.right, of);
      }
    }
  }

  lemma {:induction false} ImageElems(t: Tree<Entry>, of: Table, p: Proc)
    ensures p in Elems(Image(t, of)) <==> exists x :: x in Nodes(t) && of(x) == p
  {
    if t.Node? {
      ImageElems(t.left, of, p);
      ImageElems(t.right, of, p);
    }
  }

  /** Other entries' processes do not matter. */
  lemma {:induction false} ImageDepends(t: Tree<Entry>, of: Table, of': Table)
    requires forall x | x in Nodes(t) :: of(x) == of'(x)
    ensures Image(t, of) == Image(t, of')
  {
    if t.Node? {
      ImageDepends(t.left, of, of');
      ImageDepends(t.right, of, of');
    }
  }

  /** Different entries belong to different processes. */
  ghost predicate Owned(of: Table, s: set<Entry>) {
    forall x, y | x in s && y in s && of(x).pid == of(y).pid :: x == y
  }

  lemma {:induction false} OwnerIsQueued(t: Tree<Entry>, x: Entry, of: Table, s: set<Entry>)
    requires Owned(of, s) && Nodes(t) <= s && x in s
    ensures of(x) in Elems(Image(t, of)) <==> x in Elems(t)
  {
    NodesAreElems(t);
    ImageElems(t, of, of(x));
  }

  /** Removal looks for the same path in the heap and in what it stands for. */
  lemma {:induction false} SamePath(t: Tree<Entry>, x: Entry, of: Table, s: set<Entry>)
    requires x in Elems(t) && Owned(of, s) && Nodes(t) <= s && x in s
    ensures of(x) in Elems(Image(t, of)) && (of(t.elem) == of(x) <==> t.elem == x)
    ensures of(x) in Elems(Image(t.left, of)) <==> x in Elems(t.left)
    ensures Nodes(t.left) <= s && Nodes(t.right) <= s
  {
    OwnerIsQueued(t, x, of, s);
    OwnerIsQueued(t.left, x, of, s);
    assert t.elem in Nodes(t) && t.elem in s;
  }

  lemma {:induction false} ImageRemove(t: Tree<Entry>, x: Entry, of: Table, s: set<Entry>)
    requires x in Elems(t) && Owned(of, s) && Nodes(t) <= s && x in s
    ensures of(x) in Elems(Image(t, of))
    ensures Image(Remove(t, x, Compared(of)), of) == Remove(Image(t, of), of(x), CompareProcs)
  {
    SamePath(t, x, of, s);
    if t.elem == x {
      ImageMerge(t.left, t.right, of);
    } else if x in Elems(t.left) {
      ImageRemove(t.left, x, of, s);
    } else {
      ImageRemove(t.right, x, of, s);
    }
  }

  // ----- One event -----

  /** A heap of entries and the table of their processes. */
  datatype Pool = Pool(heap: Tree<Entry>, of: Table)

  /** The root's owner may be put back at once, or be picked and arrive again when it has run. */
  datatype PoolEvent = TakesTurn(priority: nat) | Picks(priority: nat) | Arrives(e: Entry) | Leaves(e: Entry)

  predicate Charges(e: PoolEvent) {
    e.TakesTurn? || e.Picks?
  }

  ghost predicate Enters(e: PoolEvent, entries: set<Entry>) {
    !Charges(e) ==> e.e in entries
  }

  ghost predicate IsPossible(e: PoolEvent, pool: Pool) {
    match e
    case TakesTurn(priority) => pool.heap.Node? && priority > 0
    case Picks(priority) => pool.heap.Node? && priority > 0
    case Arrives(x) => x !in Nodes(pool.heap)
    case Leaves(x) => x in Elems(pool.heap)
  }

  ghost function NextTable(e: PoolEvent, pool: Pool): Table
    requires IsPossible(e, pool)
  {
    if Charges(e) then ChargeOwner(pool.of, pool.heap.elem, e.priority) else pool.of
  }

  /** The root is charged first, and then taken out, and in a turn put back. */
  ghost function NextHeap(e: PoolEvent, pool: Pool): Tree<Entry>
    requires IsPossible(e, pool)
  {
    var t, comp := pool.heap, Compared(NextTable(e, pool));
    match e
    case TakesTurn(_) => Insert(Remove(t, t.elem, comp), t.elem, comp)
    case Picks(_) => Remove(t, t.elem, comp)
    case Arrives(x) => Insert(t, x, comp)
    case Leaves(x) => Remove(t, x, comp)
  }

  ghost function Next(e: PoolEvent, pool: Pool): Pool
    requires IsPossible(e, pool)
  {
    Pool(NextHeap(e, pool), NextTable(e, pool))
  }

  /** The event as the scheduler of `Stride` sees it. */
  ghost function Meant(e: PoolEvent, pool: Pool): Event
    requires IsPossible(e, pool)
  {
    match e
    case TakesTurn(priority) => Turn(priority)
    case Picks(_) => Leave(pool.of(pool.heap.elem))
    case Arrives(x) => Arrive(pool.of(x))
    case Leaves(x) => Leave(pool.of(x))
  }

  /** No entry is in the heap twice. */
  ghost predicate RootOnce(t: Tree<Entry>) {
    t.Node? ==> t.elem !in Nodes(t.left) && t.elem !in Nodes(t.right)
  }

  lemma {:induction false} PickRefines(pool: Pool, priority: nat)
    requires pool.heap.Node? && priority > 0 && RootOnce(pool.heap)
    ensures var t, of := pool.heap, ChargeOwner(pool.of, pool.heap.elem, priority);
      && t.elem in Elems(t) && Remove(t, t.elem, Compared(of)) == Merge(t.left, t.right, Compared(of))
      && Image(Remove(t, t.elem, Compared(of)), of) == Others(Image(t, pool.of))
  {
    var t, of := pool.heap, ChargeOwner(pool.of, pool.heap.elem, priority);
    ImageDepends(t.left, pool.of, of);
    ImageDepends(t.right, pool.of, of);
    ImageMerge(t.left, t.right, of);
    assert t.elem in Elems(t);
  }

  lemma {:induction false} TurnRefines(pool: Pool, priority: nat)
    requires pool.heap.Node? && priority > 0 && RootOnce(pool.heap)
    ensures var e, t := TakesTurn(priority), Image(pool.heap, pool.of);
      Image(NextHeap(e, pool), NextTable(e, pool)) == Step(Turn(priority), t)
  {
    var t, of := pool.heap, ChargeOwner(pool.of, pool.heap.elem, priority);
    PickRefines(pool, priority);
    ImageMerge(Remove(t, t.elem, Compared(of)), Single(t.elem), of);
    assert Image(Single(t.elem), of) == Single(Charged(pool.of(t.elem), priority));
  }

  lemma {:induction false} EventRefines(e: PoolEvent, pool: Pool)
    requires IsPossible(e, pool) && RootOnce(pool.heap) && Owned(pool.of, Nodes(pool.heap))
    ensures CanHappen(Meant(e, pool), Image(pool.heap, pool.of))
    ensures Image(NextHeap(e, pool), NextTable(e, pool)) == Step(Meant(e, pool), Image(pool.heap, pool.of))
  {
    match e
    case TakesTurn(priority) => TurnRefines(pool, priority);
    case Picks(priority) =>
      PickRefines(pool, priority);
      assert Image(pool.heap, pool.of).elem == pool.of(pool.heap.elem);
    case Arrives(x) =>
      ImageMerge(pool.heap, Single(x), pool.of);
      assert Image(Single(x), pool.of) == Single(pool.of(x));
    case Leaves(x) =>
      NodesAreElems(pool.heap);
      ImageRemove(pool.heap, x, pool.of, Nodes(pool.heap));
  }

  // ----- What is charged -----

  /** Whoever is picked pays 100000 by its priority, whether it is put back at once or not, and nobody
      else pays anything. */
  lemma {:induction false} EventCharges(e: PoolEvent, pool: Pool, x: Entry)
    requires IsPossible(e, pool)
    ensures Next(e, pool).of(x) ==
            if (e.TakesTurn? || e.Picks?) && x == pool.heap.elem
            then Proc(pool.of(x).pid, pool.of(x).total + 100000 / e.priority)
            else pool.of(x)
  {
  }

  /** Being picked and then queued again is a turn. */
  lemma {:induction false} PickThenArrive(pool: Pool, priority: nat)
    requires pool.heap.Node? && priority > 0 && RootOnce(pool.heap)
    ensures IsPossible(Picks(priority), pool) && IsPossible(Arrives(pool.heap.elem), Next(Picks(priority), pool))
    ensures Next(Arrives(pool.heap.elem), Next(Picks(priority), pool)) == Next(TakesTurn(priority), pool)
  {
    PickRefines(pool, priority);
    MergeNodes(pool.heap.left, pool.heap.right, Compared(NextTable(Picks(priority), pool)));
  }

  /** One event in place.  A turn charges the root's owner while the root is still in the heap, and
      everything from then on compares by the new charge. */
  method Apply(e: PoolEvent, root: Entry?, of: Table, ghost t: Tree<Entry>) returns (root': Entry?, of': Table)
    requires root == RootOf(t) && IsHeap(t) && IsPossible(e, Pool(t, of))
    modifies Nodes(t) + if e.Arrives? then {e.e} else {}
    ensures root' == RootOf(NextHeap(e, Pool(t, of))) && IsHeap(NextHeap(e, Pool(t, of)))
    ensures of' == NextTable(e, Pool(t, of))
  {
    ghost var calls;
    of' := of;
    match e
    case TakesTurn(priority) =>
      of' := ChargeOwner(of, root, priority);
      var rest;
      rest, calls := RemoveEntry(root, root, Compared(of'), t);
      root', calls := InsertEntry(rest, root, Compared(of'), Remove(t, root, Compared(of')));
    case Picks(priority) =>
      of' := ChargeOwner(of, root, priority);
      root', calls := RemoveEntry(root, root, Compared(of'), t);
    case Arrives(x) =>
      root', calls := InsertEntry(root, x, Compared(of), t);
    case Leaves(x) =>
      root', calls := RemoveEntry(root, x, Compared(of), t);
  }

  // ----- Whole runs -----

  ghost predicate CanRunPool(events: seq<PoolEvent>, pool: Pool) {
    events == [] || (IsPossible(events[0], pool) && CanRunPool(events[1..], Next(events[0], pool)))
  }

  ghost function PoolAfter(events: seq<PoolEvent>, pool: Pool): Pool
    requires CanRunPool(events, pool)
  {
    if events == [] then pool else PoolAfter(events[1..], Next(events[0], pool))
  }

  ghost function MeantBy(events: seq<PoolEvent>, pool: Pool): seq<Event>
    requires CanRunPool(events, pool)
  {
    if events == [] then [] else [Meant(events[0], pool)] + MeantBy(events[1..], Next(events[0], pool))
  }

  /** The entries of the pool are among `s`, each once, and have different owners. */
  ghost predicate Sound(pool: Pool, s: set<Entry>) {
    && Nodes(pool.heap) <= s && Owned(pool.of, s)
    && forall x | x in Elems(pool.heap) :: Elems(pool.heap)[x] == 1
  }

  lemma {:induction false} LinkedOnce(t: Tree<Entry>)
    requires Linked(t)
    ensures forall x | x in Elems(t) :: Elems(t)[x] == 1
  {
    if t.Node? {
      LinkedOnce(t.left);
      LinkedOnce(t.right);
      NodesAreElems(t.left);
      NodesAreElems(t.right);
    }
  }

  lemma {:induction false} SoundRootOnce(pool: Pool, s: set<Entry>)
    requires Sound(pool, s)
    ensures RootOnce(pool.heap) && Owned(pool.of, Nodes(pool.heap))
  {
    if pool.heap.Node? {
      var t := pool.heap;
      NodesAreElems(t.left);
      NodesAreElems(t.right);
      assert t.elem in Elems(t) && Elems(t)[t.elem] == Elems(t.left)[t.elem] + 1 + Elems(t.right)[t.elem];
    }
  }

  /** The entries after an event, each as often as before but for the one that comes or goes. */
  lemma {:induction false} NextElems(e: PoolEvent, pool: Pool)
    requires IsPossible(e, pool)
    ensures var was, now := Elems(pool.heap), Elems(NextHeap(e, pool));
      match e
      case TakesTurn(_) => now == was
      case Picks(_) => now + multiset{pool.heap.elem} == was
      case Arrives(x) => now == was + multiset{x}
      case Leaves(x) => now + multiset{x} == was
  {
    var t, comp := pool.heap, Compared(NextTable(e, pool));
    match e
    case TakesTurn(_) =>
      assert t.elem in Elems(t);
      RemoveElems(t, t.elem, comp);
      MergeElems(Remove(t, t.elem, comp), Single(t.elem), comp);
      SingleIsHeap(t.elem, comp, {});
    case Picks(_) =>
      assert t.elem in Elems(t);
      RemoveElems(t, t.elem, comp);
    case Arrives(x) =>
      MergeElems(t, Single(x), comp);
      SingleIsHeap(x, comp, {});
    case Leaves(x) => RemoveElems(t, x, comp);
  }

  lemma {:induction false} NextNodes(e: PoolEvent, pool: Pool, s: set<Entry>)
    requires IsPossible(e, pool) && Nodes(pool.heap) <= s && Enters(e, s)
    ensures Nodes(NextHeap(e, pool)) <= s
  {
    NextElems(e, pool);
    NodesAreElems(pool.heap);
    NodesAreElems(NextHeap(e, pool));
    forall x | x in Nodes(NextHeap(e, pool))
      ensures x in s
    {
      assert x in Elems(pool.heap) || (e.Arrives? && x == e.e);
    }
  }

  lemma {:induction false} StillOnce(was: multiset<Entry>, now: multiset<Entry>, x: Entry)
    requires forall y | y in was :: was[y] == 1
    requires now == was || (x !in was && now == was + multiset{x}) || now + multiset{x} == was
    ensures forall y | y in now :: now[y] == 1
  {
    forall y | y in now
      ensures now[y] == 1
    {
      assert y in was ==> was[y] == 1;
      assert now + multiset{x} == was ==> now[y] <= was[y];
    }
  }

  lemma {:induction false} NextIsSound(e: PoolEvent, pool: Pool, s: set<Entry>)
    requires IsPossible(e, pool) && Sound(pool, s) && Enters(e, s)
    ensures Sound(Next(e, pool), s)
  {
    NextNodes(e, pool, s);
    NextElems(e, pool);
    NodesAreElems(pool.heap);
    StillOnce(Elems(pool.heap), Elems(NextHeap(e, pool)), if Charges(e) then pool.heap.elem else e.e);
    SameOwners(e, pool, s);
  }

  lemma {:induction false} SameOwners(e: PoolEvent, pool: Pool, s: set<Entry>)
    requires IsPossible(e, pool) && Owned(pool.of, s)
    ensures Owned(NextTable(e, pool), s)
  {
    assert forall x: Entry | x in s :: NextTable(e, pool)(x).pid == pool.of(x).pid;
  }

  /** Every run of the heap is the run of the scheduler that is meant by it. */
  lemma {:induction false} PoolRunRefines(events: seq<PoolEvent>, pool: Pool, s: set<Entry>)
    requires CanRunPool(events, pool) && Sound(pool, s) && forall e | e in events :: Enters(e, s)
    ensures CanRun(MeantBy(events, pool), Image(pool.heap, pool.of))
    ensures var after := PoolAfter(events, pool);
      Image(after.heap, after.of) == After(MeantBy(events, pool), Image(pool.heap, pool.of))
    decreases |events|
  {
    if events != [] {
      SoundRootOnce(pool, s);
      EventRefines(events[0], pool);
      NextIsSound(events[0], pool, s);
      PoolRunRefines(events[1..], Next(events[0], pool), s);
      var meant := MeantBy(events, pool);
      assert meant[0] == Meant(events[0], pool) && meant[1..] == MeantBy(events[1..], Next(events[0], pool));
    }
  }

  /** Every run of the pool in place leaves the links of the heap, and the charges, that the run
      describes, and touches only the given entries. */
  method Run(events: seq<PoolEvent>, root: Entry?, of: Table, ghost t: Tree<Entry>, ghost entries: set<Entry>)
    returns (root': Entry?, of': Table)
    requires root == RootOf(t) && IsHeap(t) && CanRunPool(events, Pool(t, of))
    requires Nodes(t) <= entries && forall e | e in events :: Enters(e, entries)
    modifies entries
    ensures var after := PoolAfter(events, Pool(t, of));
      root' == RootOf(after.heap) && IsHeap(after.heap) && of' == after.of
    decreases |events|
  {
    if events == [] { return root, of; }
    ghost var pool := Pool(t, of);
    assert Enters(events[0], entries);
    NextNodes(events[0], pool, entries);
    root', of' := Apply(events[0], root, of, t);
    root', of' := Run(events[1..], root', of', NextHeap(events[0], pool), entries);
  }

  /** What an entry's owner is charged in a run: 100000 by the priority, for each time it is picked. */
  ghost function Paid(events: seq<PoolEvent>, pool: Pool, x: Entry): int
    requires CanRunPool(events, pool)
  {
    if events == [] then 0
    else
      (if Charges(events[0]) && x == pool.heap.elem then 100000 / events[0].priority else 0)
      + Paid(events[1..], Next(events[0], pool), x)
  }

  /** Over every run each total grows by exactly what has been paid. */
  lemma {:induction false} RunCharges(events: seq<PoolEvent>, pool: Pool, x: Entry)
    requires CanRunPool(events, pool)
    ensures PoolAfter(events, pool).of(x) == Proc(pool.of(x).pid, pool.of(x).total + Paid(events, pool, x))
    decreases |events|
  {
    if events != [] {
      EventCharges(events[0], pool, x);
      RunCharges(events[1..], Next(events[0], pool), x);
    }
  }

  /** How often an entry is picked. */
  ghost function TimesPicked(events: seq<PoolEvent>, pool: Pool, x: Entry): nat
    requires CanRunPool(events, pool)
  {
    if events == [] then 0
    else
      (if Charges(events[0]) && x == pool.heap.elem then 1 else 0)
      + TimesPicked(events[1..], Next(events[0], pool), x)
  }

  /** Whenever an entry is picked, its priority is the given one. */
  ghost predicate KeepsPriority(events: seq<PoolEvent>, pool: Pool, x: Entry, priority: nat)
    requires CanRunPool(events, pool)
  {
    events == [] ||
    ( && (Charges(events[0]) && x == pool.heap.elem ==> events[0].priority == priority)
      && KeepsPriority(events[1..], Next(events[0], pool), x, priority))
  }

  lemma {:induction false} PaidByTheTime(events: seq<PoolEvent>, pool: Pool, x: Entry, priority: nat)
    requires CanRunPool(events, pool) && priority > 0 && KeepsPriority(events, pool, x, priority)
    ensures Paid(events, pool, x) == TimesPicked(events, pool, x) * (100000 / priority)
    decreases |events|
  {
    if events != [] {
      PaidByTheTime(events[1..], Next(events[0], pool), x, priority);
      OneMoreTime(TimesPicked(events[1..], Next(events[0], pool), x), 100000 / priority);
    }
  }

  lemma {:induction false} OneMoreTime(n: int, c: int)
    ensures (n + 1) * c == c + n * c
  {
  }

  /** Whoever arrives in the run has been charged within `w` of those who wait. */
  ghost predicate ArrivalsNear(events: seq<PoolEvent>, pool: Pool, w: int)
    requires CanRunPool(events, pool)
  {
    events == [] ||
    ( && (events[0].Arrives? ==> forall y | y in Nodes(pool.heap) :: Close(pool.of(events[0].e), pool.of(y), w))
      && ArrivalsNear(events[1..], Next(events[0], pool), w))
  }

  lemma {:induction false} NearIsMeant(events: seq<PoolEvent>, pool: Pool, s: set<Entry>, w: int)
    requires CanRunPool(events, pool) && Sound(pool, s) && forall e | e in events :: Enters(e, s)
    requires ArrivalsNear(events, pool, w) && CanRun(MeantBy(events, pool), Image(pool.heap, pool.of))
    ensures AllArriveNear(MeantBy(events, pool), Image(pool.heap, pool.of), w)
    decreases |events|
  {
    if events != [] {
      var e, meant := events[0], MeantBy(events, pool);
      assert Enters(e, s);
      SoundRootOnce(pool, s);
      EventRefines(e, pool);
      NextIsSound(e, pool, s);
      assert meant[0] == Meant(e, pool) && meant[1..] == MeantBy(events[1..], Next(e, pool));
      ArrivalIsNear(e, pool, w);
      NearIsMeant(events[1..], Next(e, pool), s, w);
    }
  }

  lemma {:induction false} ArrivalIsNear(e: PoolEvent, pool: Pool, w: int)
    requires IsPossible(e, pool)
    requires e.Arrives? ==> forall y | y in Nodes(pool.heap) :: Close(pool.of(e.e), pool.of(y), w)
    ensures ArrivesNear(Meant(e, pool), Image(pool.heap, pool.of), w)
  {
    if e.Arrives? {
      forall q | q in Elems(Image(pool.heap, pool.of))
        ensures Close(pool.of(e.e), q, w)
      {
        ImageElems(pool.heap, pool.of, q);
      }
    }
  }

  ghost predicate OwnerChargedLeast(root: Entry?, t: Tree<Entry>, of: Table) {
    root != null ==> forall x | x in Nodes(t) :: of(root).total <= of(x).total
  }

  lemma {:induction false} FairRoot(t: Tree<Entry>, of: Table, w: int)
    requires Fair(Image(t, of), w)
    ensures OwnerChargedLeast(RootOf(t), t, of)
  {
    forall x | x in Nodes(t)
      ensures of(x) in Elems(Image(t, of))
    {
      ImageElems(t, of, of(x));
    }
  }

  lemma {:induction false} PoolRunIsFair(events: seq<PoolEvent>, pool: Pool, s: set<Entry>, w: int)
    requires CanRunPool(events, pool) && Sound(pool, s) && forall e | e in events :: Enters(e, s)
    requires BIG_STRIDE <= w < TWO31 && Fair(Image(pool.heap, pool.of), w) && ArrivalsNear(events, pool, w)
    ensures var after := PoolAfter(events, pool);
      Fair(Image(after.heap, after.of), w) && OwnerChargedLeast(RootOf(after.heap), after.heap, after.of)
  {
    PoolRunRefines(events, pool, s);
    NearIsMeant(events, pool, s, w);
    RunStaysFair(MeantBy(events, pool), Image(pool.heap, pool.of), w);
    var after := PoolAfter(events, pool);
    FairRoot(after.heap, after.of, w);
  }

  /** Of any two that are in the pool before and after such a run, neither has been charged more than
      twice the bound above the other. */
  lemma {:induction false} PaidAlike(events: seq<PoolEvent>, pool: Pool, s: set<Entry>, w: int, x: Entry, y: Entry)
    requires CanRunPool(events, pool) && Sound(pool, s) && forall e | e in events :: Enters(e, s)
    requires BIG_STRIDE <= w < TWO31 && Fair(Image(pool.heap, pool.of), w) && ArrivalsNear(events, pool, w)
    requires var after := PoolAfter(events, pool);
      x in Nodes(pool.heap) && y in Nodes(pool.heap) && x in Nodes(after.heap) && y in Nodes(after.heap)
    ensures -2 * w <= Paid(events, pool, x) - Paid(events, pool, y) <= 2 * w
  {
    var after := PoolAfter(events, pool);
    PoolRunIsFair(events, pool, s, w);
    RunCharges(events, pool, x);
    RunCharges(events, pool, y);
    CloseOwners(pool, w, x, y);
    CloseOwners(after, w, x, y);
  }

  lemma {:induction false} RunAccounts(events: seq<PoolEvent>, pool: Pool, s: set<Entry>, w: int)
    requires CanRunPool(events, pool) && Sound(pool, s) && forall e | e in events :: Enters(e, s)
    requires BIG_STRIDE <= w < TWO31 && Fair(Image(pool.heap, pool.of), w) && ArrivalsNear(events, pool, w)
    ensures forall x | x in s ::
      PoolAfter(events, pool).of(x) == Proc(pool.of(x).pid, pool.of(x).total + Paid(events, pool, x))
    ensures var stayed := Nodes(pool.heap) * Nodes(PoolAfter(events, pool).heap);
      forall x, y | x in stayed && y in stayed :: -2 * w <= Paid(events, pool, x) - Paid(events, pool, y) <= 2 * w
  {
    forall x | x in s
      ensures PoolAfter(events, pool).of(x) == Proc(pool.of(x).pid, pool.of(x).total + Paid(events, pool, x))
    {
      RunCharges(events, pool, x);
    }
    var stayed := Nodes(pool.heap) * Nodes(PoolAfter(events, pool).heap);
    forall x, y | x in stayed && y in stayed
      ensures -2 * w <= Paid(events, pool, x) - Paid(events, pool, y) <= 2 * w
    {
      PaidAlike(events, pool, s, w, x, y);
    }
  }

  lemma {:induction false} CloseOwners(pool: Pool, w: int, x: Entry, y: Entry)
    requires Fair(Image(pool.heap, pool.of), w) && x in Nodes(pool.heap) && y in Nodes(pool.heap)
    ensures -w <= pool.of(x).total - pool.of(y).total <= w
  {
    ImageElems(pool.heap, pool.of, pool.of(x));
    ImageElems(pool.heap, pool.of, pool.of(y));
    assert Close(pool.of(x), pool.of(y), w);
  }

  /** What the scheduler is for: each is picked in proportion to its priority.  Of any two that keep
      their priorities and are in the pool before and after such a run, the numbers of times they were
      picked, each times 100000 by its priority, are within twice the bound, however long the run. */
  lemma {:induction false} SharesAreProportional(events: seq<PoolEvent>, pool: Pool, s: set<Entry>, w: int,
                                                 x: Entry, px: nat, y: Entry, py: nat)
    requires CanRunPool(events, pool) && Sound(pool, s) && forall e | e in events :: Enters(e, s)
    requires BIG_STRIDE <= w < TWO31 && Fair(Image(pool.heap, pool.of), w) && ArrivalsNear(events, pool, w)
    requires var after := PoolAfter(events, pool);
      x in Nodes(pool.heap) && y in Nodes(pool.heap) && x in Nodes(after.heap) && y in Nodes(after.heap)
    requires px > 0 && KeepsPriority(events, pool, x, px) && py > 0 && KeepsPriority(events, pool, y, py)
    ensures var m, n := TimesPicked(events, pool, x), TimesPicked(events, pool, y);
      -2 * w <= m * (100000 / px) - n * (100000 / py) <= 2 * w
  {
    PaidAlike(events, pool, s, w, x, y);
    PaidByTheTime(events, pool, x, px);
    PaidByTheTime(events, pool, y, py);
  }

  /** Over every run in place whose arrivals have been charged within `w` of those who wait, the root
      belongs to a process charged least, though the comparison changes with every turn. */
  method RunFairly(events: seq<PoolEvent>, root: Entry?, of: Table, ghost t: Tree<Entry>,
                   ghost entries: set<Entry>, ghost w: int)
    returns (root': Entry?, of': Table)
    requires root == RootOf(t) && IsHeap(t) && CanRunPool(events, Pool(t, of))
    requires Nodes(t) <= entries && Owned(of, entries) && forall e | e in events :: Enters(e, entries)
    requires BIG_STRIDE <= w < TWO31 && Fair(Image(t, of), w) && ArrivalsNear(events, Pool(t, of), w)
    modifies entries
    ensures var after := PoolAfter(events, Pool(t, of));
      && root' == RootOf(after.heap) && IsHeap(after.heap) && of' == after.of
      && Fair(Image(after.heap, of'), w) && OwnerChargedLeast(root', after.heap, of')
    ensures forall x | x in entries :: of'(x) == Proc(of(x).pid, of(x).total + Paid(events, Pool(t, of), x))
    ensures var stayed := Nodes(t) * Nodes(PoolAfter(events, Pool(t, of)).heap);
      forall x, y | x in stayed && y in stayed ::
        -2 * w <= Paid(events, Pool(t, of), x) - Paid(events, Pool(t, of), y) <= 2 * w
  {
    LinkedOnce(t);
    PoolRunIsFair(events, Pool(t, of), entries, w);
    RunAccounts(events, Pool(t, of), entries, w);
    root', of' := Run(events, root, of, t, entries);
  }
}
