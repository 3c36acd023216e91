/** Atomic bit operations on an array of 64-bit words.

    Each operation is one indivisible read-modify-write of one word, so what threads do
    together is some sequence of operations; everything is proved for every sequence. */
module Bits {

  // ----- 64-bit words, bit by bit, bit 0 first -----

  function Clears(n: nat): (w: seq<bool>)
    ensures |w| == n && forall i | 0 <= i < n :: !w[i]
  {
    if n == 0 then [] else Clears(n - 1) + [false]
  }

  type Word = w: seq<bool> | |w| == 64 witness Clears(64)

  const ZERO: Word := Clears(64)
  const ONE: Word := [true] + Clears(63)

  function And(a: Word, b: Word): Word {
    seq(64, i requires 0 <= i < 64 => a[i] && b[i])
  }

  function Or(a: Word, b: Word): Word {
    seq(64, i requires 0 <= i < 64 => a[i] || b[i])
  }

  function Xor(a: Word, b: Word): Word {
    seq(64, i requires 0 <= i < 64 => a[i] != b[i])
  }

  function Not(a: Word): Word {
    seq(64, i requires 0 <= i < 64 => !a[i])
  }

  /** Shifts by an amount below 64, bringing in zeros. */
  function ShiftLeft(a: Word, n: nat): Word
    requires n < 64
  {
    seq(64, i requires 0 <= i < 64 => i >= n && a[i - n])
  }

  function ShiftRight(a: Word, n: nat): Word
    requires n < 64
  {
    seq(64, i requires 0 <= i < 64 => i + n < 64 && a[i + n])
  }

  function BitMask(nr: nat): Word {
    ShiftLeft(ONE, nr % 64)
  }

  predicate HasBit(words: seq<Word>, nr: nat)
    requires nr < 64 * |words|
  {
    And(words[nr / 64], BitMask(nr)) != ZERO
  }

  /** The array read as a set of numbers. */
  ghost function Members(words: seq<Word>): set<nat> {
    set nr: nat | nr < 64 * |words| && HasBit(words, nr)
  }

  datatype Op =
    | Set(nr: nat) | Clear(nr: nat) | Change(nr: nat)
    | TestAndSet(nr: nat) | TestAndClear(nr: nat)

  /** The word an operation writes: amoor, amoand with the complement, amoxor. */
  function WordAfter(op: Op, w: Word): Word {
    var mask := BitMask(op.nr);
    match op
    case Set(_) | TestAndSet(_) => Or(w, mask)
    case Clear(_) | TestAndClear(_) => And(w, Not(mask))
    case Change(_) => Xor(w, mask)
  }

  function WordsAfter(op: Op, words: seq<Word>): seq<Word>
    requires op.nr < 64 * |words|
  {
    words[op.nr / 64 := WordAfter(op, words[op.nr / 64])]
  }

  /** The same operation on a set. */
  ghost function SetAfter(op: Op, s: set<nat>): set<nat> {
    match op
    case Set(_) | TestAndSet(_) => s + {op.nr}
    case Clear(_) | TestAndClear(_) => s - {op.nr}
    case Change(_) => if op.nr in s then s - {op.nr} else s + {op.nr}
  }

  // ----- One operation -----

  lemma {:induction false} MaskSelects(w: Word, nr: nat)
    ensures And(w, BitMask(nr)) != ZERO <==> w[nr % 64]
  {
    var m := BitMask(nr);
    assert forall i | 0 <= i < 64 :: m[i] <==> i == nr % 64;
    if w[nr % 64] {
      assert And(w, m)[nr % 64] && !ZERO[nr % 64];
    } else {
      assert And(w, m) == ZERO;
    }
  }

  /** Number nr is bit nr % 64 of word nr / 64, bit 0 being the lowest. */
  lemma {:induction false} MembersAre(words: seq<Word>, nr: nat)
    ensures nr in Members(words) <==> nr < 64 * |words| && words[nr / 64][nr % 64]
  {
    if nr < 64 * |words| {
      MaskSelects(words[nr / 64], nr);
    }
  }

  lemma {:induction false} WordAfterAt(op: Op, w: Word, i: nat)
    requires i < 64
    ensures WordAfter(op, w)[i] <==>
            if i != op.nr % 64 then w[i]
            else match op
              case Set(_) | TestAndSet(_) => true
              case Clear(_) | TestAndClear(_) => false
              case Change(_) => !w[i]
  {
    assert BitMask(op.nr)[i] <==> i == op.nr % 64;
  }

  /** On the words an operation does what it says on the set. */
  lemma {:induction false} StepRefines(op: Op, words: seq<Word>)
    requires op.nr < 64 * |words|
    ensures Members(WordsAfter(op, words)) == SetAfter(op, Members(words))
  {
    forall nr: nat | nr < 64 * |words|
      ensures nr in Members(WordsAfter(op, words)) <==> nr in SetAfter(op, Members(words))
    {
      var words' := WordsAfter(op, words);
      MaskSelects(words[nr / 64], nr);
      MaskSelects(words'[nr / 64], nr);
      if nr / 64 == op.nr / 64 {
        WordAfterAt(op, words[nr / 64], nr % 64);
      }
    }
    assert |WordsAfter(op, words)| == |words|;
  }

  // ----- The operations in memory -----

  method SetBit(nr: nat, addr: array<Word>)
    requires nr < 64 * addr.Length
    modifies addr
    ensures addr[..] == WordsAfter(Set(nr), old(addr[..]))
    ensures Members(addr[..]) == old(Members(addr[..])) + {nr}
  {
    StepRefines(Set(nr), addr[..]);
    addr[nr / 64] := Or(addr[nr / 64], BitMask(nr));
    assert addr[..] == WordsAfter(Set(nr), old(addr[..]));
  }

  method ClearBit(nr: nat, addr: array<Word>)
    requires nr < 64 * addr.Length
    modifies addr
    ensures addr[..] == WordsAfter(Clear(nr), old(addr[..]))
    ensures Members(addr[..]) == old(Members(addr[..])) - {nr}
  {
    StepRefines(Clear(nr), addr[..]);
    addr[nr / 64] := And(addr[nr / 64], Not(BitMask(nr)));
    assert addr[..] == WordsAfter(Clear(nr), old(addr[..]));
  }

  method ChangeBit(nr: nat, addr: array<Word>)
    requires nr < 64 * addr.Length
    modifies addr
    ensures addr[..] == WordsAfter(Change(nr), old(addr[..]))
    ensures Members(addr[..]) ==
            if nr in old(Members(addr[..])) then old(Members(addr[..])) - {nr} else old(Members(addr[..])) + {nr}
  {
    StepRefines(Change(nr), addr[..]);
    addr[nr / 64] := Xor(addr[nr / 64], BitMask(nr));
    assert addr[..] == WordsAfter(Change(nr), old(addr[..]));
  }

  method TestAndSetBit(nr: nat, addr: array<Word>) returns (was: bool)
    requires nr < 64 * addr.Length
    modifies addr
    ensures addr[..] == WordsAfter(TestAndSet(nr), old(addr[..]))
    ensures Members(addr[..]) == old(Members(addr[..])) + {nr}
    ensures was <==> nr in old(Members(addr[..]))
  {
    StepRefines(TestAndSet(nr), addr[..]);
    var res := addr[nr / 64];
    assert HasBit(addr[..], nr) <==> And(res, BitMask(nr)) != ZERO;
    addr[nr / 64] := Or(res, BitMask(nr));
    was := And(res, BitMask(nr)) != ZERO;
    assert addr[..] == WordsAfter(TestAndSet(nr), old(addr[..]));
  }

  method TestAndClearBit(nr: nat, addr: array<Word>) returns (was: bool)
    requires nr < 64 * addr.Length
    modifies addr
    ensures addr[..] == WordsAfter(TestAndClear(nr), old(addr[..]))
    ensures Members(addr[..]) == old(Members(addr[..])) - {nr}
    ensures was <==> nr in old(Members(addr[..]))
  {
    StepRefines(TestAndClear(nr), addr[..]);
    var res := addr[nr / 64];
    assert HasBit(addr[..], nr) <==> And(res, BitMask(nr)) != ZERO;
    addr[nr / 64] := And(res, Not(BitMask(nr)));
    was := And(res, BitMask(nr)) != ZERO;
    assert addr[..] == WordsAfter(TestAndClear(nr), old(addr[..]));
  }

  // ----- test_bit reads the first word only -----

  /** The first word shifted right by `nr`; the machine keeps the low six bits of the amount. */
  predicate TestBit(nr: nat, words: seq<Word>)
    requires |words| > 0
  {
    And(ShiftRight(words[0], nr % 64), ONE) != ZERO
  }

  lemma {:induction false} TestBitReadsFirstWord(nr: nat, words: seq<Word>)
    requires |words| > 0
    ensures TestBit(nr, words) <==> words[0][nr % 64]
  {
    assert BitMask(0) == ONE;
    MaskSelects(ShiftRight(words[0], nr % 64), 0);
  }

  ghost predicate TestBitAgrees(nr: nat, words: seq<Word>)
    requires 0 < |words| && nr < 64 * |words|
  {
    TestBit(nr, words) <==> nr in Members(words)
  }

  function ZeroWords(n: nat): (words: seq<Word>)
    ensures |words| == n && forall i | 0 <= i < n :: words[i] == ZERO
  {
    if n == 0 then [] else ZeroWords(n - 1) + [ZERO]
  }

  /** test_bit agrees with the other operations on every array exactly for numbers below 64. */
  lemma {:induction false} TestBitCorrectIff(nr: nat)
    ensures (forall words: seq<Word> | 0 < |words| && nr < 64 * |words| :: TestBitAgrees(nr, words)) <==> nr < 64
  {
    if nr < 64 {
      forall words: seq<Word> | 0 < |words| && nr < 64 * |words|
        ensures TestBitAgrees(nr, words)
      {
        TestBitReadsFirstWord(nr, words);
        MaskSelects(words[0], nr);
      }
    } else {
      var words := ZeroWords(nr / 64) + [BitMask(nr)];
      TestBitReadsFirstWord(nr, words);
      MaskSelects(words[nr / 64], nr);
      assert nr in Members(words) && !TestBitAgrees(nr, words);
    }
  }

  // ----- Runs: any interleaving of any threads' operations -----

  ghost function SetAfterAll(ops: seq<Op>, s: set<nat>): set<nat> {
    if ops == [] then s else SetAfterAll(ops[1..], SetAfter(ops[0], s))
  }

  function WordsAfterAll(ops: seq<Op>, words: seq<Word>): seq<Word>
    requires forall op | op in ops :: op.nr < 64 * |words|
    decreases |ops|
  {
    if ops == [] then words else WordsAfterAll(ops[1..], WordsAfter(ops[0], words))
  }

  /** What each operation found in its bit. */
  datatype Event = Event(op: Op, was: bool)

  function WordTrace(ops: seq<Op>, words: seq<Word>): seq<Event>
    requires forall op | op in ops :: op.nr < 64 * |words|
    decreases |ops|
  {
    if ops == [] then []
    else [Event(ops[0], HasBit(words, ops[0].nr))] + WordTrace(ops[1..], WordsAfter(ops[0], words))
  }

  ghost function Trace(ops: seq<Op>, s: set<nat>): seq<Event> {
    if ops == [] then [] else [Event(ops[0], ops[0].nr in s)] + Trace(ops[1..], SetAfter(ops[0], s))
  }

  /** The array refines the set over every run, in its final contents and in every answer given. */
  lemma {:induction false} RunRefines(ops: seq<Op>, words: seq<Word>)
    requires forall op | op in ops :: op.nr < 64 * |words|
    ensures Members(WordsAfterAll(ops, words)) == SetAfterAll(ops, Members(words))
    ensures WordTrace(ops, words) == Trace(ops, Members(words))
    decreases |ops|
  {
    if ops != [] {
      StepRefines(ops[0], words);
      RunRefines(ops[1..], WordsAfter(ops[0], words));
    }
  }

  /** How often a run toggles a bit. */
  function Toggles(ops: seq<Op>, nr: nat): nat {
    if ops == [] then 0 else (if ops[0] == Change(nr) then 1 else 0) + Toggles(ops[1..], nr)
  }

  predicate Settles(op: Op, nr: nat) {
    op == Set(nr) || op == Clear(nr) || op == TestAndSet(nr) || op == TestAndClear(nr)
  }

  /** Toggling is all that can happen to a bit that is neither set nor cleared. */
  lemma {:induction false} TogglesDecide(ops: seq<Op>, s: set<nat>, nr: nat)
    requires forall op | op in ops :: !Settles(op, nr)
    ensures nr in SetAfterAll(ops, s) <==> (nr in s <==> Toggles(ops, nr) % 2 == 0)
  {
    if ops != [] {
      assert ops[0] in ops && forall op | op in ops[1..] :: op in ops;
      TogglesDecide(ops[1..], SetAfter(ops[0], s), nr);
    }
  }

  /** The last operation that sets or clears a bit decides it, with the toggles that come behind. */
  lemma {:induction false} LastWriteDecides(before: seq<Op>, op: Op, behind: seq<Op>, s: set<nat>, nr: nat)
    requires Settles(op, nr) && forall o | o in behind :: !Settles(o, nr)
    ensures nr in SetAfterAll(before + [op] + behind, s) <==>
            ((op == Set(nr) || op == TestAndSet(nr)) <==> Toggles(behind, nr) % 2 == 0)
  {
    var ops := before + [op] + behind;
    if before == [] {
      assert ops[0] == op && ops[1..] == behind;
      TogglesDecide(behind, SetAfter(op, s), nr);
    } else {
      assert ops[0] == before[0] && ops[1..] == before[1..] + [op] + behind;
      LastWriteDecides(before[1..], op, behind, SetAfter(before[0], s), nr);
    }
  }

  // ----- Operations on different bits do not interfere -----

  function OnBit(ops: seq<Op>, nr: nat): seq<Op> {
    if ops == [] then []
    else (if ops[0].nr == nr then [ops[0]] else []) + OnBit(ops[1..], nr)
  }

  function EventsOnBit(t: seq<Event>, nr: nat): seq<Event> {
    if t == [] then []
    else (if t[0].op.nr == nr then [t[0]] else []) + EventsOnBit(t[1..], nr)
  }

  /** What happens to bit `nr` in a run is what would happen if only its own operations ran. */
  lemma {:induction false} NonInterference(ops: seq<Op>, s: set<nat>, s': set<nat>, nr: nat)
    requires nr in s <==> nr in s'
    ensures nr in SetAfterAll(ops, s) <==> nr in SetAfterAll(OnBit(ops, nr), s')
    ensures EventsOnBit(Trace(ops, s), nr) == Trace(OnBit(ops, nr), s')
  {
    if ops != [] {
      var op, rest := ops[0], ops[1..];
      if op.nr == nr {
        NonInterference(rest, SetAfter(op, s), SetAfter(op, s'), nr);
        assert OnBit(ops, nr) == [op] + OnBit(rest, nr);
        assert OnBit(ops, nr)[1..] == OnBit(rest, nr);
      } else {
        NonInterference(rest, SetAfter(op, s), s', nr);
        assert OnBit(ops, nr) == OnBit(rest, nr);
      }
      assert Trace(ops, s)[1..] == Trace(rest, SetAfter(op, s));
    }
  }

  /** Two interleavings that order the operations on each single bit alike end in the same set. */
  lemma {:induction false} OrderPerBitDecides(ops: seq<Op>, ops': seq<Op>, s: set<nat>)
    requires forall nr: nat :: OnBit(ops, nr) == OnBit(ops', nr)
    ensures SetAfterAll(ops, s) == SetAfterAll(ops', s)
    ensures forall nr: nat :: EventsOnBit(Trace(ops, s), nr) == EventsOnBit(Trace(ops', s), nr)
  {
    forall nr: nat
      ensures nr in SetAfterAll(ops, s) <==> nr in SetAfterAll(ops', s)
      ensures EventsOnBit(Trace(ops, s), nr) == EventsOnBit(Trace(ops', s), nr)
    {
      NonInterference(ops, s, s, nr);
      NonInterference(ops', s, s, nr);
    }
  }

  // ----- test-and-set and test-and-clear as a lock -----

  /** The successful operations on `nr`: true for a set that found 0, false for a clear that found 1. */
  function Successes(t: seq<Event>, nr: nat): seq<bool> {
    if t == [] then []
    else
      var rest := Successes(t[1..], nr);
      if t[0].op == TestAndSet(nr) && !t[0].was then [true] + rest
      else if t[0].op == TestAndClear(nr) && t[0].was then [false] + rest
      else rest
  }

  /** If only test-and-set and test-and-clear touch a bit, their successes strictly alternate,
      starting with whichever the initial bit allows, and the last one tells the final bit. */
  lemma {:induction false} SuccessesAlternate(ops: seq<Op>, s: set<nat>, nr: nat)
    requires forall op | op in ops && op.nr == nr :: op.TestAndSet? || op.TestAndClear?
    ensures var wins := Successes(Trace(ops, s), nr);
      && (forall i | 0 <= i < |wins| :: wins[i] <==> ((i % 2 == 0) <==> nr !in s))
      && (nr in SetAfterAll(ops, s) <==> if wins == [] then nr in s else wins[|wins| - 1])
  {
    if ops != [] {
      var op, rest := ops[0], ops[1..];
      assert op in ops && forall o | o in rest :: o in ops;
      var s' := SetAfter(op, s);
      SuccessesAlternate(rest, s', nr);
      var wins, wins' := Successes(Trace(ops, s), nr), Successes(Trace(rest, s'), nr);
      assert Trace(ops, s)[1..] == Trace(rest, s');
      if op.nr == nr && (op.TestAndSet? <==> nr !in s) {
        assert wins == [op.TestAndSet?] + wins';
        forall i | 0 <= i < |wins|
          ensures wins[i] <==> ((i % 2 == 0) <==> nr !in s)
        {
          if i > 0 { assert wins[i] == wins'[i - 1]; }
        }
      } else {
        assert wins == wins';
      }
    }
  }
}
