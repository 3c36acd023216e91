/** Comparing NUL-terminated strings and blocks of memory, byte by byte. */
module StrCmp {

  import opened CString

  /** The first position at which two strings differ or both end. */
  ghost predicate Decides(s1: string, s2: string, k: nat) {
    && k < |s1| && k < |s2| && s1[..k] == s2[..k]
    && (s1[k] != s2[k] || s1[k] == '\0')
  }

  method Strcmp(s1: string, s2: string) returns (r: int)
    requires EndsInNul(s1) && EndsInNul(s2)
    ensures r == Order(s1, s2)
  {
    var i := 0;
    while s1[i] != '\0' && s1[i] == s2[i]
      invariant i < |s1| && i < |s2| && s1[..i] == s2[..i]
      decreases |s1| - i
    {
      i := i + 1;
    }
    r := s1[i] as int - s2[i] as int;
    OrderIs(s1, s2, i);
  }

  /** A block in which the first `n` characters may be looked at until a NUL is met. */
  predicate Readable(s: string, n: nat) {
    n <= |s| || '\0' in s
  }

  /** The string that the first `n` characters of a block make. */
  function Clip(s: string, n: nat): string
    requires Readable(s, n)
    decreases n
  {
    if n == 0 || s[0] == '\0' then "\0" else [s[0]] + Clip(s[1..], n - 1)
  }

  lemma {:induction false} ClipShape(s: string, n: nat)
    requires Readable(s, n)
    ensures var c := Clip(s, n); var k := |c| - 1;
      EndsInNul(c) && k <= n && k <= |s| && c[..k] == s[..k] && (k == n || (k < |s| && s[k] == '\0'))
    decreases n
  {
    if n > 0 && s[0] != '\0' {
      ClipShape(s[1..], n - 1);
    }
  }

  /** strncmp is strcmp of what the first `n` characters make; neither block needs a NUL beyond those. */
  method Strncmp(s1: string, s2: string, n: nat) returns (r: int)
    requires Readable(s1, n) && Readable(s2, n)
    ensures EndsInNul(Clip(s1, n)) && EndsInNul(Clip(s2, n))
    ensures r == Order(Clip(s1, n), Clip(s2, n))
  {
    var i, left := 0, n;
    while left > 0 && s1[i] != '\0' && s1[i] == s2[i]
      invariant i <= |s1| && i <= |s2| && s1[..i] == s2[..i] && i + left == n
      invariant '\0' !in s1[..i] && Readable(s1[i..], left) && Readable(s2[i..], left)
      decreases left
    {
      left, i := left - 1, i + 1;
    }
    r := if left == 0 then 0 else s1[i] as int - s2[i] as int;
    StoppedAt(s1, s2, n, i);
  }

  /** The comparison of the first `n` characters is decided where they end or first differ. */
  lemma {:induction false} StoppedAt(s1: string, s2: string, n: nat, i: nat)
    requires Readable(s1, n) && Readable(s2, n) && i <= n && i <= |s1| && i <= |s2|
    requires s1[..i] == s2[..i] && '\0' !in s1[..i]
    requires i < n ==> i < |s1| && i < |s2| && (s1[i] != s2[i] || s1[i] == '\0')
    ensures EndsInNul(Clip(s1, n)) && EndsInNul(Clip(s2, n))
    ensures Order(Clip(s1, n), Clip(s2, n)) == if i == n then 0 else s1[i] as int - s2[i] as int
  {
    ClipAt(s1, n, i);
    ClipAt(s2, n, i);
    OrderIs(Clip(s1, n), Clip(s2, n), i);
  }

  lemma {:induction false} ClipAt(s: string, n: nat, i: nat)
    requires Readable(s, n) && i <= n && i <= |s| && '\0' !in s[..i] && (i < n ==> i < |s|)
    ensures var c := Clip(s, n);
      EndsInNul(c) && i < |c| && c[..i] == s[..i] && c[i] == if i == n then '\0' else s[i]
  {
    ClipShape(s, n);
    var c := Clip(s, n);
    var k := |c| - 1;
    assert i <= k by {
      assert forall j | 0 <= j < i :: s[..i][j] == s[j] && s[j] != '\0';
    }
    assert c[..i] == c[..k][..i] == s[..k][..i] == s[..i];
    assert i < k ==> c[i] == c[..k][i];
  }

  /** The two strings, terminators included, are at least `n` characters long and agree on them. */
  predicate SharePrefix(s1: string, s2: string, n: nat) {
    n <= |s1| && n <= |s2| && s1[..n] == s2[..n]
  }

  lemma {:induction false} DifferBeyond(s1: string, s2: string, k: nat, n: nat)
    requires EndsInNul(s1) && EndsInNul(s2) && Decides(s1, s2, k) && k < n
    ensures SharePrefix(s1, s2, n) ==> s1 == s2
    ensures SharePrefix(s1, s2, n) ==> Order(s1, s2) == 0
  {
    OrderIs(s1, s2, k);
    assert SharePrefix(s1, s2, n) ==> s1[k] == s1[..n][k] && s2[k] == s2[..n][k];
  }

  /** Compares exactly `n` bytes, NUL or not. */
  method Memcmp(v1: string, v2: string, n: nat) returns (r: int)
    requires n <= |v1| && n <= |v2|
    ensures FirstDifference(v1[..n], v2[..n], r)
    ensures v1[..n] == v2[..n] ==> r == 0
    ensures forall k | 0 <= k < n && v1[..k] == v2[..k] && v1[k] != v2[k] :: r == v1[k] as int - v2[k] as int
  {
    var i, left := 0, n;
    while left > 0
      invariant 0 <= left && i + left == n && v1[..i] == v2[..i]
    {
      left := left - 1;
      if v1[i] != v2[i] {
        assert v1[..n][..i] == v1[..i] && v2[..n][..i] == v2[..i];
        assert DiffersAt(v1[..n], v2[..n], i);
        return v1[i] as int - v2[i] as int;
      }
      i := i + 1;
    }
    return 0;
  }

  ghost predicate DiffersAt(v1: string, v2: string, k: nat)
    requires |v1| == |v2|
  {
    k < |v1| && v1[..k] == v2[..k] && v1[k] != v2[k]
  }

  /** `r` is zero for equal blocks, otherwise the difference of the first pair of unequal bytes. */
  ghost predicate FirstDifference(v1: string, v2: string, r: int)
    requires |v1| == |v2|
  {
    if v1 == v2 then r == 0
    else exists k: nat :: DiffersAt(v1, v2, k) && r == v1[k] as int - v2[k] as int
  }

  // ----- One position decides -----

  lemma {:induction false} DecidesLater(s1: string, s2: string, i: nat) returns (k: nat)
    requires EndsInNul(s1) && EndsInNul(s2) && i < |s1| && i < |s2| && s1[..i] == s2[..i]
    ensures Decides(s1, s2, k) && i <= k
    decreases |s1| - i
  {
    if s1[i] != s2[i] || s1[i] == '\0' {
      k := i;
    } else {
      k := DecidesLater(s1, s2, i + 1);
    }
  }

  lemma {:induction false} DecidesOnce(s1: string, s2: string, k: nat, k': nat)
    requires EndsInNul(s1) && EndsInNul(s2) && Decides(s1, s2, k) && Decides(s1, s2, k')
    ensures k == k'
  {
  }

  lemma {:induction false} SomePositionDecides(s1: string, s2: string)
    requires EndsInNul(s1) && EndsInNul(s2)
    ensures exists k: nat :: Decides(s1, s2, k)
  {
    var k := DecidesLater(s1, s2, 0);
  }

  /** What strcmp returns. */
  ghost function Order(s1: string, s2: string): int
    requires EndsInNul(s1) && EndsInNul(s2)
  {
    SomePositionDecides(s1, s2);
    var k: nat :| Decides(s1, s2, k);
    s1[k] as int - s2[k] as int
  }

  /** That is the difference of the characters at the first position where the strings differ or both end. */
  lemma {:induction false} OrderIs(s1: string, s2: string, k: nat)
    requires EndsInNul(s1) && EndsInNul(s2) && k < |s1| && k < |s2|
    requires s1[..k] == s2[..k] && (s1[k] != s2[k] || s1[k] == '\0')
    ensures Order(s1, s2) == s1[k] as int - s2[k] as int
  {
    var k': nat :| Decides(s1, s2, k') && Order(s1, s2) == s1[k'] as int - s2[k'] as int;
    DecidesOnce(s1, s2, k, k');
  }

  // ----- strcmp is a total order -----

  lemma {:induction false} EqualIffZero(s1: string, s2: string)
    requires EndsInNul(s1) && EndsInNul(s2)
    ensures Order(s1, s2) == 0 <==> s1 == s2
  {
    var k := DecidesLater(s1, s2, 0);
    OrderIs(s1, s2, k);
    if s1[k] == s2[k] {
      assert k == |s1| - 1 == |s2| - 1;
      assert s1 == s1[..k] + [s1[k]] && s2 == s2[..k] + [s2[k]];
    }
  }

  lemma {:induction false} Antisymmetric(s1: string, s2: string)
    requires EndsInNul(s1) && EndsInNul(s2)
    ensures Order(s1, s2) == -Order(s2, s1)
  {
    var k := DecidesLater(s1, s2, 0);
    OrderIs(s1, s2, k);
    OrderIs(s2, s1, k);
  }

  lemma {:induction false} Transitive(a: string, b: string, c: string)
    requires EndsInNul(a) && EndsInNul(b) && EndsInNul(c)
    requires Order(a, b) <= 0 && Order(b, c) <= 0
    ensures Order(a, c) <= 0
    ensures Order(a, b) < 0 || Order(b, c) < 0 ==> Order(a, c) < 0
  {
    EqualIffZero(a, b);
    EqualIffZero(b, c);
    if a != b && b != c {
      var j := DecidesLater(a, b, 0);
      var k := DecidesLater(b, c, 0);
      OrderIs(a, b, j);
      OrderIs(b, c, k);
      var i := if j <= k then j else k;
      assert a[..i] == a[..j][..i] == b[..j][..i] == b[..i];
      assert c[..i] == c[..k][..i] == b[..k][..i] == b[..i];
      assert j < k ==> b[j] == b[..k][j] && c[j] == c[..k][j];
      assert k < j ==> a[k] == a[..j][k] && b[k] == b[..j][k];
      OrderIs(a, c, i);
    }
  }

  /** Smaller means: after a common part comes a smaller unsigned byte, the terminator counting as 0. */
  lemma {:induction false} Lexicographic(s1: string, s2: string)
    requires EndsInNul(s1) && EndsInNul(s2)
    ensures Order(s1, s2) < 0 <==>
            exists k: nat :: k < |s1| && k < |s2| && s1[..k] == s2[..k] && s1[k] as int < s2[k] as int
  {
    var k := DecidesLater(s1, s2, 0);
    OrderIs(s1, s2, k);
    forall k': nat | Decides(s1, s2, k')
      ensures k' == k
    {
      DecidesOnce(s1, s2, k, k');
    }
  }

  // ----- Agreement of the three comparisons -----

  /** strncmp answers like strcmp exactly when `n` reaches the first difference, or there is none. */
  lemma {:induction false} StrncmpAgreesIff(s1: string, s2: string, n: nat)
    requires EndsInNul(s1) && EndsInNul(s2)
    ensures EndsInNul(Clip(s1, n)) && EndsInNul(Clip(s2, n))
    ensures Order(Clip(s1, n), Clip(s2, n)) == Order(s1, s2) <==> s1 == s2 || !SharePrefix(s1, s2, n)
    ensures n >= |s1| || n >= |s2| ==> s1 == s2 || !SharePrefix(s1, s2, n)
  {
    var k := DecidesLater(s1, s2, 0);
    var i := if k <= n then k else n;
    OrderIs(s1, s2, k);
    EqualIffZero(s1, s2);
    assert s1[..i] == s1[..k][..i] == s2[..k][..i] == s2[..i];
    StoppedAt(s1, s2, n, i);
    if k < n {
      DifferBeyond(s1, s2, k, n);
    }
  }

  /** memcmp over the shorter string and its terminator returns what strcmp returns. */
  lemma {:induction false} MemcmpAgrees(s1: string, s2: string, r: int)
    requires EndsInNul(s1) && EndsInNul(s2)
    requires var n := if |s1| <= |s2| then |s1| else |s2|; FirstDifference(s1[..n], s2[..n], r)
    ensures r == Order(s1, s2)
  {
    var n := if |s1| <= |s2| then |s1| else |s2|;
    var a, b := s1[..n], s2[..n];
    if a == b {
      assert a[n - 1] == b[n - 1];
      assert s1 == a && s2 == b;
      EqualIffZero(s1, s2);
    } else {
      var k: nat :| DiffersAt(a, b, k) && r == a[k] as int - b[k] as int;
      assert s1[..k] == a[..k] && s2[..k] == b[..k];
      OrderIs(s1, s2, k);
    }
  }
}
