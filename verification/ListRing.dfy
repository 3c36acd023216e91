/** The circular doubly linked list, relinked in place.

    A ring is described by the sequence of its entries in `next` order, starting anywhere. */
module ListRing {

  class ListEntry {
    var prev: ListEntry?
    var next: ListEntry?
  }

  ghost predicate Distinct(s: seq<ListEntry>) {
    forall i, j | 0 <= i < j < |s| :: s[i] != s[j]
  }

  /** The position after `i`; the last is followed by the first. */
  function After(i: nat, n: nat): nat
    requires i < n
  {
    if i + 1 == n then 0 else i + 1
  }

  function Before(i: nat, n: nat): nat
    requires i < n
  {
    if i == 0 then n - 1 else i - 1
  }

  /** The entries of `s` are distinct and linked in a circle in that order, both ways. */
  ghost predicate Ring(s: seq<ListEntry>)
    reads s
  {
    |s| > 0 && Distinct(s) && forall i | 0 <= i < |s| :: LinkedAt(s, i)
  }

  /** The entry at `i` and the one after it point at each other. */
  ghost predicate LinkedAt(s: seq<ListEntry>, i: nat)
    requires i < |s|
    reads s
  {
    s[i].next == s[After(i, |s|)] && s[After(i, |s|)].prev == s[i]
  }

  // ----- What the operations do to the sequence -----

  function InsertedAfter<T>(s: seq<T>, k: nat, x: T): seq<T>
    requires k < |s|
  {
    s[..k + 1] + [x] + s[k + 1..]
  }

  function Without<T>(s: seq<T>, k: nat): seq<T>
    requires k < |s|
  {
    s[..k] + s[k + 1..]
  }

  lemma {:induction false} InsertThenDelete<T>(s: seq<T>, k: nat, x: T)
    requires k < |s|
    ensures InsertedAfter(s, k, x)[k + 1] == x && Without(InsertedAfter(s, k, x), k + 1) == s
    ensures forall e | e in InsertedAfter(s, k, x) :: e in s || e == x
  {
  }

  // ----- list_init, __list_add, list_add_after, list_add_before -----

  method ListInit(elm: ListEntry)
    modifies elm
    ensures Ring([elm])
  {
    elm.next := elm;
    elm.prev := elm;
  }

  lemma {:induction false} InsertedAt(s: seq<ListEntry>, k: nat, x: ListEntry, i: nat)
    requires k < |s| && i <= |s|
    ensures InsertedAfter(s, k, x)[i] == if i <= k then s[i] else if i == k + 1 then x else s[i - 1]
  {
  }

  lemma {:induction false} InsertedDistinct(s: seq<ListEntry>, k: nat, x: ListEntry)
    requires Distinct(s) && k < |s| && x !in s
    ensures Distinct(InsertedAfter(s, k, x))
  {
    var t := InsertedAfter(s, k, x);
    forall i, j | 0 <= i < j < |t|
      ensures t[i] != t[j]
    {
      InsertedAt(s, k, x, i);
      InsertedAt(s, k, x, j);
    }
  }

  /** A ring in which only the two links behind position `k` have changed, to an entry linked in
      between, is the ring with that entry inserted. */
  lemma {:induction false} OpenedGap(s: seq<ListEntry>, k: nat, x: ListEntry)
    requires k < |s| && Distinct(s) && x !in s
    requires forall i | 0 <= i < |s| && i != k :: LinkedAt(s, i)
    requires s[k].next == x && x.prev == s[k]
    requires x.next == s[After(k, |s|)] && s[After(k, |s|)].prev == x
    ensures Ring(InsertedAfter(s, k, x))
  {
    var t := InsertedAfter(s, k, x);
    InsertedDistinct(s, k, x);
    forall i | 0 <= i < |t|
      ensures LinkedAt(t, i)
    {
      InsertedAt(s, k, x, i);
      InsertedAt(s, k, x, After(i, |t|));
      if i < k {
        assert LinkedAt(s, i);
      } else if i > k + 1 {
        assert LinkedAt(s, i - 1);
      }
    }
  }

  /** Links `elm` between two neighbours, which are one and the same entry in a ring of one. */
  method AddBetween(elm: ListEntry, prev: ListEntry, next: ListEntry, ghost s: seq<ListEntry>, ghost k: nat)
    requires Ring(s) && k < |s| && elm !in s
    requires prev == s[k] && next == s[After(k, |s|)]
    modifies elm, prev`next, next`prev
    ensures Ring(InsertedAfter(s, k, elm))
  {
    next.prev := elm;
    prev.next := elm;
    elm.next := next;
    elm.prev := prev;
    forall i | 0 <= i < |s| && i != k
      ensures LinkedAt(s, i)
    {
      assert old(LinkedAt(s, i)) && s[i] != prev && s[After(i, |s|)] != next;
    }
    OpenedGap(s, k, elm);
  }

  method ListAddAfter(listelm: ListEntry, elm: ListEntry, ghost s: seq<ListEntry>, ghost k: nat)
    requires Ring(s) && k < |s| && elm !in s && listelm == s[k]
    modifies elm, s
    ensures Ring(s[..k + 1] + [elm] + s[k + 1..])
    ensures Ring(InsertedAfter(s, k, elm))
  {
    assert LinkedAt(s, k);
    AddBetween(elm, listelm, listelm.next, s, k);
  }

  /** Before the entry at which the sequence starts means at its end. */
  method ListAddBefore(listelm: ListEntry, elm: ListEntry, ghost s: seq<ListEntry>, ghost k: nat)
    requires Ring(s) && k < |s| && elm !in s && listelm == s[k]
    modifies elm, s
    ensures Ring(InsertedAfter(s, Before(k, |s|), elm))
    ensures if k == 0 then Ring(s + [elm]) else Ring(s[..k] + [elm] + s[k..])
  {
    assert LinkedAt(s, Before(k, |s|));
    AddBetween(elm, listelm.prev, listelm, s, Before(k, |s|));
    assert InsertedAfter(s, |s| - 1, elm) == s + [elm];
  }

  // ----- __list_del, list_del, list_del_init -----

  method DeleteBetween(prev: ListEntry, next: ListEntry)
    modifies prev`next, next`prev
    ensures prev.next == next && next.prev == prev
  {
    prev.next := next;
    next.prev := prev;
  }

  lemma {:induction false} WithoutAt(s: seq<ListEntry>, k: nat, i: nat)
    requires k < |s| && i < |s| - 1
    ensures Without(s, k)[i] == s[if i < k then i else i + 1]
  {
  }

  /** A ring in which the neighbours of position `k` have been linked to each other, and no other
      links between the others have changed, is the ring without that position. */
  lemma {:induction false} ClosedGap(s: seq<ListEntry>, k: nat)
    requires |s| > 1 && k < |s| && Distinct(s)
    requires forall i | 0 <= i < |s| && i != k && i != Before(k, |s|) :: LinkedAt(s, i)
    requires s[Before(k, |s|)].next == s[After(k, |s|)] && s[After(k, |s|)].prev == s[Before(k, |s|)]
    ensures Ring(Without(s, k))
  {
    var t := Without(s, k);
    forall i, j | 0 <= i < j < |t|
      ensures t[i] != t[j]
    {
      WithoutAt(s, k, i);
      WithoutAt(s, k, j);
    }
    forall i | 0 <= i < |t|
      ensures LinkedAt(t, i)
    {
      WithoutAt(s, k, i);
      WithoutAt(s, k, After(i, |t|));
      var j := if i < k then i else i + 1;
      assert j != Before(k, |s|) ==> LinkedAt(s, j);
    }
  }

  /** The deleted entry keeps its own links; deleting the only entry of a ring changes nothing.  So
      the deleted entry looks like an empty list just when it was one. */
  method ListDel(listelm: ListEntry, ghost s: seq<ListEntry>, ghost k: nat)
    requires Ring(s) && k < |s| && listelm == s[k]
    modifies s
    ensures |s| > 1 ==> Ring(s[..k] + s[k + 1..])
    ensures |s| == 1 ==> Ring(s)
    ensures listelm.prev == old(listelm.prev) && listelm.next == old(listelm.next)
    ensures listelm.next == listelm <==> |s| == 1
  {
    assert LinkedAt(s, k) && LinkedAt(s, Before(k, |s|));
    ghost var prev, next := listelm.prev, listelm.next;
    DeleteBetween(listelm.prev, listelm.next);
    if |s| > 1 {
      forall i | 0 <= i < |s| && i != k && i != Before(k, |s|)
        ensures LinkedAt(s, i)
      {
        assert old(LinkedAt(s, i)) && s[i] != prev && s[After(i, |s|)] != next;
      }
      ClosedGap(s, k);
    }
  }

  method ListDelInit(listelm: ListEntry, ghost s: seq<ListEntry>, ghost k: nat)
    requires Ring(s) && k < |s| && listelm == s[k]
    modifies s
    ensures |s| > 1 ==> Ring(s[..k] + s[k + 1..])
    ensures Ring([listelm])
  {
    ListDel(listelm, s, k);
    ListInit(listelm);
  }

  method ListEmpty(list: ListEntry, ghost s: seq<ListEntry>) returns (empty: bool)
    requires Ring(s) && list in s
    ensures empty <==> s == [list]
  {
    ghost var k :| 0 <= k < |s| && s[k] == list;
    assert LinkedAt(s, k);
    empty := list.next == list;
  }

  // ----- What a ring is -----

  /** A ring may be read from any of its entries. */
  lemma {:induction false} Rotated(s: seq<ListEntry>, k: nat)
    requires Ring(s) && k < |s|
    ensures Ring(s[k..] + s[..k])
  {
    var r, n := s[k..] + s[..k], |s|;
    forall i | 0 <= i < n
      ensures LinkedAt(r, i)
    {
      var j := if i + k < n then i + k else i + k - n;
      assert LinkedAt(s, j) && r[i] == s[j];
      assert r[After(i, n)] == s[After(j, n)];
      assert r[Before(i, n)] == s[Before(j, n)];
    }
  }

  lemma {:induction false} SamePrefix(s: seq<ListEntry>, s': seq<ListEntry>, i: nat)
    requires Ring(s) && Ring(s') && s[0] == s'[0] && i < |s| && i < |s'|
    ensures s[i] == s'[i]
  {
    if i > 0 {
      SamePrefix(s, s', i - 1);
      assert LinkedAt(s, i - 1) && LinkedAt(s', i - 1);
    }
  }

  /** The links and the first entry determine the whole sequence. */
  lemma {:induction false} RingIsUnique(s: seq<ListEntry>, s': seq<ListEntry>)
    requires Ring(s) && Ring(s') && s[0] == s'[0]
    ensures s == s'
  {
    var m := if |s| <= |s'| then |s| else |s'|;
    forall i | 0 <= i < m
      ensures s[i] == s'[i]
    {
      SamePrefix(s, s', i);
    }
    assert LinkedAt(s, m - 1) && LinkedAt(s', m - 1);
  }

  // ----- Walking -----

  function NextWalk(s: seq<ListEntry>, e: ListEntry?, n: nat): ListEntry?
    reads s
    decreases n
  {
    if n == 0 || e == null || e !in s then e else NextWalk(s, e.next, n - 1)
  }

  function PrevWalk(s: seq<ListEntry>, e: ListEntry?, n: nat): ListEntry?
    reads s
    decreases n
  {
    if n == 0 || e == null || e !in s then e else PrevWalk(s, e.prev, n - 1)
  }

  /** n steps of `next` move n places on. */
  lemma {:induction false} NextWalks(s: seq<ListEntry>, i: nat, n: nat)
    requires Ring(s) && i < |s| && n <= |s|
    ensures NextWalk(s, s[i], n) == s[if i + n < |s| then i + n else i + n - |s|]
    decreases n
  {
    if n > 0 {
      assert LinkedAt(s, i);
      NextWalks(s, After(i, |s|), n - 1);
    }
  }

  /** n steps of `prev` move n places back. */
  lemma {:induction false} PrevWalks(s: seq<ListEntry>, i: nat, n: nat)
    requires Ring(s) && i < |s| && n <= |s|
    ensures PrevWalk(s, s[i], n) == s[if n <= i then i - n else i - n + |s|]
    decreases n
  {
    if n > 0 {
      assert LinkedAt(s, Before(i, |s|));
      PrevWalks(s, Before(i, |s|), n - 1);
    }
  }

  /** From the head of n entries, n + 1 steps of `next` return to it for the first time, and the
      `prev` walk meets the same entries in exactly the reverse order. */
  lemma {:induction false} HeadWalks(s: seq<ListEntry>, n: nat)
    requires Ring(s) && n <= |s|
    ensures NextWalk(s, s[0], n) == s[0] <==> n == 0 || n == |s|
    ensures PrevWalk(s, s[0], n) == NextWalk(s, s[0], |s| - n)
  {
    NextWalks(s, 0, n);
    PrevWalks(s, 0, n);
    NextWalks(s, 0, |s| - n);
  }

  // ----- Whole runs -----

  datatype Op = AddBefore(at: ListEntry, x: ListEntry) | AddAfter(at: ListEntry, x: ListEntry) | Delete(x: ListEntry)

  ghost function IndexOf(s: seq<ListEntry>, x: ListEntry): (k: nat)
    requires x in s
    ensures k < |s| && s[k] == x
  {
    if s[0] == x then 0 else 1 + IndexOf(s[1..], x)
  }

  ghost predicate Enabled(op: Op, s: seq<ListEntry>) {
    match op
    case AddBefore(at, x) => at in s && x !in s
    case AddAfter(at, x) => at in s && x !in s
    case Delete(x) => x in s && |s| > 1
  }

  ghost function Effect(op: Op, s: seq<ListEntry>): seq<ListEntry>
    requires Enabled(op, s)
  {
    match op
    case AddBefore(at, x) => InsertedAfter(s, Before(IndexOf(s, at), |s|), x)
    case AddAfter(at, x) => InsertedAfter(s, IndexOf(s, at), x)
    case Delete(x) => Without(s, IndexOf(s, x))
  }

  lemma {:induction false} IndexIs(s: seq<ListEntry>, k: nat)
    requires Distinct(s) && k < |s|
    ensures s[k] in s && IndexOf(s, s[k]) == k
  {
    assert s[IndexOf(s, s[k])] == s[k];
  }

  /** Where an operation on the entry at position k changes the sequence. */
  lemma {:induction false} EffectIs(op: Op, s: seq<ListEntry>, k: nat)
    requires Distinct(s) && Enabled(op, s) && k < |s| && s[k] == (if op.Delete? then op.x else op.at)
    ensures match op
      case AddBefore(_, x) => Effect(op, s) == if k == 0 then s + [x] else s[..k] + [x] + s[k..]
      case AddAfter(_, x) => Effect(op, s) == s[..k + 1] + [x] + s[k + 1..]
      case Delete(_) => Effect(op, s) == s[..k] + s[k + 1..]
  {
    IndexIs(s, k);
  }

  ghost predicate Legal(ops: seq<Op>, s: seq<ListEntry>) {
    ops == [] || (Enabled(ops[0], s) && Legal(ops[1..], Effect(ops[0], s)))
  }

  ghost function Effects(ops: seq<Op>, s: seq<ListEntry>): seq<ListEntry>
    requires Legal(ops, s)
  {
    if ops == [] then s else Effects(ops[1..], Effect(ops[0], s))
  }

  /** A run one operation longer does that operation last. */
  lemma {:induction false} OneMoreEffect(ops: seq<Op>, op: Op, s: seq<ListEntry>)
    requires Legal(ops + [op], s)
    ensures Legal(ops, s) && Enabled(op, Effects(ops, s))
    ensures Effects(ops + [op], s) == Effect(op, Effects(ops, s))
    decreases |ops|
  {
    var longer := ops + [op];
    if ops == [] {
      assert longer == [op] && longer[1..] == [];
      assert Effects(longer, s) == Effects([], Effect(op, s));
    } else {
      assert longer[0] == ops[0] && longer[1..] == ops[1..] + [op];
      OneMoreEffect(ops[1..], op, Effect(ops[0], s));
    }
  }

  /** Every run of the operations on a ring leaves a ring of the sequence the run describes,
      and touches only the given entries: those of the ring and those added. */
  method Run(ops: seq<Op>, ghost s: seq<ListEntry>, ghost entries: set<ListEntry>)
    requires Ring(s) && Legal(ops, s)
    requires forall e | e in s :: e in entries
    requires forall op | op in ops :: op.x in entries
    modifies entries
    ensures Ring(Effects(ops, s))
    decreases |ops|
  {
    if ops != [] {
      Apply(ops[0], s);
      EffectWithin(ops[0], s);
      Run(ops[1..], Effect(ops[0], s), entries);
    }
  }

  method Apply(op: Op, ghost s: seq<ListEntry>)
    requires Ring(s) && Enabled(op, s)
    modifies s, op.x
    ensures Ring(Effect(op, s))
  {
    match op
    case AddBefore(at, x) => ListAddBefore(at, x, s, IndexOf(s, at));
    case AddAfter(at, x) => ListAddAfter(at, x, s, IndexOf(s, at));
    case Delete(x) => ListDel(x, s, IndexOf(s, x));
  }

  lemma {:induction false} EffectWithin(op: Op, s: seq<ListEntry>)
    requires Enabled(op, s)
    ensures forall e | e in Effect(op, s) :: e in s || e == op.x
  {
  }

  /** A ring of the same sequence has the same links. */
  twostate lemma SameRing(s: seq<ListEntry>)
    requires old(Ring(s)) && Ring(s)
    ensures forall e | e in s :: e.prev == old(e.prev) && e.next == old(e.next)
  {
    forall e | e in s
      ensures e.prev == old(e.prev) && e.next == old(e.next)
    {
      var i :| 0 <= i < |s| && s[i] == e;
      assert old(LinkedAt(s, i)) && LinkedAt(s, i);
      assert old(LinkedAt(s, Before(i, |s|))) && LinkedAt(s, Before(i, |s|));
    }
  }

  method DeleteInserted(elm: ListEntry, ghost s: seq<ListEntry>, ghost k: nat)
    requires k < |s| && Ring(InsertedAfter(s, k, elm))
    modifies elm, s
    ensures Ring(s)
  {
    InsertThenDelete(s, k, elm);
    ListDel(elm, InsertedAfter(s, k, elm), k + 1);
  }

  /** Deleting an entry just added restores every link of the ring it was added to. */
  method AddThenDelete(listelm: ListEntry, elm: ListEntry, ghost s: seq<ListEntry>, ghost k: nat)
    requires Ring(s) && k < |s| && elm !in s && listelm == s[k]
    modifies elm, s
    ensures forall e | e in s :: e.prev == old(e.prev) && e.next == old(e.next)
  {
    ListAddAfter(listelm, elm, s, k);
    DeleteInserted(elm, s, k);
    SameRing(s);
  }

  method AddBeforeThenDelete(listelm: ListEntry, elm: ListEntry, ghost s: seq<ListEntry>, ghost k: nat)
    requires Ring(s) && k < |s| && elm !in s && listelm == s[k]
    modifies elm, s
    ensures forall e | e in s :: e.prev == old(e.prev) && e.next == old(e.next)
  {
    ListAddBefore(listelm, elm, s, k);
    DeleteInserted(elm, s, Before(k, |s|));
    SameRing(s);
  }

  // ----- A queue: put before the head, take the one after it -----

  method Put(head: ListEntry, x: ListEntry, ghost waiting: seq<ListEntry>)
    requires Ring([head] + waiting) && x !in [head] + waiting
    modifies head, x, waiting
    ensures Ring([head] + (waiting + [x]))
  {
    ghost var s := [head] + waiting;
    ListAddBefore(head, x, s, 0);
    assert [head] + (waiting + [x]) == s + [x];
  }

  method Take(head: ListEntry, ghost waiting: seq<ListEntry>) returns (x: ListEntry)
    requires Ring([head] + waiting) && waiting != []
    modifies head, waiting
    ensures x == waiting[0] && Ring([head] + waiting[1..])
  {
    ghost var s := [head] + waiting;
    assert LinkedAt(s, 0);
    x := head.next;
    ListDel(x, s, 1);
    assert [head] + waiting[1..] == Without(s, 1);
  }
}
