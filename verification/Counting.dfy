/** Counting the members of a set by listing them without repetition. */
module Counting {

  ghost predicate InjectiveBelow(f: int -> int, n: nat) {
    forall i, j | 0 <= i < n && 0 <= j < n && f(i) == f(j) :: i == j
  }

  ghost function Image(f: int -> int, n: nat): set<int> {
    set i | 0 <= i < n :: f(i)
  }

  function Same(i: int): int { i }

  ghost function Below(n: nat): set<int> {
    Image(Same, n)
  }

  lemma {:induction false} ImageSize(f: int -> int, n: nat)
    requires InjectiveBelow(f, n)
    ensures |Image(f, n)| == n
  {
    if n > 0 {
      ImageSize(f, n - 1);
      assert Image(f, n) == Image(f, n - 1) + {f(n - 1)};
    }
  }

  lemma {:induction false} SubsetOfEqualSize(s: set<int>, t: set<int>)
    requires s <= t && |s| == |t|
    ensures s == t
  {
    assert |t - s| == |t| - |s|;
  }

  /** An injection of [0, n) into itself reaches every value. */
  lemma {:induction false} InjectionIsOnto(f: int -> int, n: nat)
    requires InjectiveBelow(f, n)
    requires forall i | 0 <= i < n :: 0 <= f(i) < n
    ensures forall y | 0 <= y < n :: y in Image(f, n)
  {
    ImageSize(f, n);
    ImageSize(Same, n);
    forall y | 0 <= y < n
      ensures y in Below(n)
    {
      assert Same(y) in Image(Same, n);
    }
    SubsetOfEqualSize(Image(f, n), Below(n));
  }
}
