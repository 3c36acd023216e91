/** Copying inside one flat memory of bytes, where source and destination may overlap. */
module Memory {

  newtype Byte = x: int | 0 <= x < 256

  ghost predicate Fits(m: seq<Byte>, dst: nat, src: nat, n: nat) {
    dst + n <= |m| && src + n <= |m|
  }

  /** `m` with the `n` bytes at `dst` replaced by those that `from` has at `src`. */
  ghost function Copied(m: seq<Byte>, from: seq<Byte>, dst: nat, src: nat, n: nat): seq<Byte>
    requires Fits(m, dst, src, n) && |from| == |m|
  {
    m[..dst] + from[src..src + n] + m[dst + n..]
  }

  // ----- memmove -----

  lemma {:induction false} MovedIs(now: seq<Byte>, was: seq<Byte>, dst: nat, src: nat, n: nat)
    requires Fits(was, dst, src, n) && |now| == |was|
    requires forall i | dst <= i < dst + n :: now[i] == was[src + (i - dst)]
    requires forall i | 0 <= i < |was| && !(dst <= i < dst + n) :: now[i] == was[i]
    ensures now == Copied(was, was, dst, src, n)
  {
    assert now[..dst] == was[..dst];
    assert now[dst..dst + n] == was[src..src + n];
    assert now[dst + n..] == was[dst + n..];
    assert now == now[..dst] + now[dst..dst + n] + now[dst + n..];
  }

  /** The destination ends up with the original source bytes, and nothing else changes,
      however the two ranges overlap. */
  method Memmove(mem: array<Byte>, dst: nat, src: nat, n: nat) returns (r: nat)
    requires Fits(mem[..], dst, src, n)
    modifies mem
    ensures forall i | 0 <= i < mem.Length ::
              mem[i] == if dst <= i < dst + n then old(mem[src + (i - dst)]) else old(mem[i])
    ensures mem[..] == Copied(old(mem[..]), old(mem[..]), dst, src, n)
    ensures r == dst
  {
    ghost var m := mem[..];
    var s, d, left := src, dst, n;
    if s < d && s + n > d {
      s, d := s + n, d + n;
      while left > 0
        invariant 0 <= left <= n && s == src + left && d == dst + left
        invariant forall i | 0 <= i < d || dst + n <= i < mem.Length :: mem[i] == m[i]
        invariant forall i | d <= i < dst + n :: mem[i] == m[i - dst + src]
      {
        left := left - 1;
        d, s := d - 1, s - 1;
        assert mem[s] == m[s] && s == d - dst + src;
        mem[d] := mem[s];
      }
    } else {
      while left > 0
        invariant 0 <= left <= n && s == src + n - left && d == dst + n - left
        invariant forall i | 0 <= i < dst || d <= i < mem.Length :: mem[i] == m[i]
        invariant forall i | dst <= i < d :: mem[i] == m[i - dst + src]
      {
        left := left - 1;
        assert mem[s] == m[s] && s == d - dst + src;
        mem[d] := mem[s];
        d, s := d + 1, s + 1;
      }
    }
    assert forall i | dst <= i < dst + n :: mem[i] == m[src + (i - dst)];
    MovedIs(mem[..], m, dst, src, n);
    r := dst;
  }

  // ----- memcpy: forward in every case -----

  /** Byte after byte, from the lowest address up. */
  ghost function ForwardCopy(m: seq<Byte>, dst: nat, src: nat, n: nat): seq<Byte>
    requires Fits(m, dst, src, n)
    ensures |ForwardCopy(m, dst, src, n)| == |m|
  {
    if n == 0 then m
    else
      var m' := ForwardCopy(m, dst, src, n - 1);
      m'[dst + n - 1 := m'[src + n - 1]]
  }

  method Memcpy(mem: array<Byte>, dst: nat, src: nat, n: nat) returns (r: nat)
    requires Fits(mem[..], dst, src, n)
    modifies mem
    ensures mem[..] == ForwardCopy(old(mem[..]), dst, src, n)
    ensures r == dst
  {
    ghost var m := mem[..];
    var s, d, left := src, dst, n;
    while left > 0
      invariant 0 <= left <= n && s == src + n - left && d == dst + n - left
      invariant mem[..] == ForwardCopy(m, dst, src, n - left)
    {
      left := left - 1;
      mem[d] := mem[s];
      d, s := d + 1, s + 1;
    }
    r := dst;
  }

  /** Where the byte that ends up `i` bytes into the destination comes from: when the destination
      starts inside the source, the first `dst - src` source bytes are repeated over and over. */
  ghost function Origin(dst: nat, src: nat, i: nat): (k: nat)
    ensures src <= k <= src + i
    decreases i
  {
    if src < dst && i >= dst - src then Origin(dst, src, i - (dst - src)) else src + i
  }

  lemma {:induction false} OriginRepeats(dst: nat, src: nat, i: nat)
    ensures Origin(dst, src, i) == src + if src < dst then i % (dst - src) else i
    decreases i
  {
    if src < dst && i >= dst - src {
      OriginRepeats(dst, src, i - (dst - src));
      OneRoundLess(i, dst - src);
    }
  }

  lemma {:induction false} OneRoundLess(i: nat, d: nat)
    requires 0 < d <= i
    ensures (i - d) % d == i % d
  {
    var q, r := i / d, i % d;
    assert i - d == (q - 1) * d + r;
    RemainderIs(i - d, d, q - 1, r);
  }

  lemma {:induction false} Multiples(k: int, d: int)
    requires d > 0
    ensures k >= 1 ==> k * d >= d
    ensures k <= -1 ==> k * d <= -d
  {
  }

  lemma {:induction false} RemainderIs(x: int, d: int, q: int, r: int)
    requires d > 0 && x == q * d + r && 0 <= r < d
    ensures x % d == r
  {
    var k := x / d - q;
    assert x == x / d * d + x % d;
    assert k * d == r - x % d;
    Multiples(k, d);
  }

  /** The exact effect of a forward copy, overlapping or not: with a destination inside the source, the
      bytes between the two starts are repeated over and over. */
  lemma {:induction false} ForwardCopyEffect(m: seq<Byte>, dst: nat, src: nat, n: nat, k: nat)
    requires Fits(m, dst, src, n) && k < |m|
    ensures dst <= k < dst + n ==> src + (if src < dst then (k - dst) % (dst - src) else k - dst) < |m|
    ensures ForwardCopy(m, dst, src, n)[k]
         == if !(dst <= k < dst + n) then m[k]
            else m[src + if src < dst then (k - dst) % (dst - src) else k - dst]
  {
    if dst <= k < dst + n {
      OriginRepeats(dst, src, k - dst);
    }
    CopyTraced(m, dst, src, n, k);
  }

  lemma {:induction false} CopyTraced(m: seq<Byte>, dst: nat, src: nat, n: nat, k: nat)
    requires Fits(m, dst, src, n) && k < |m|
    ensures ForwardCopy(m, dst, src, n)[k]
         == if dst <= k < dst + n then m[Origin(dst, src, k - dst)] else m[k]
  {
    if n > 0 {
      CopyTraced(m, dst, src, n - 1, k);
      if k == dst + n - 1 {
        CopyTraced(m, dst, src, n - 1, src + n - 1);
      }
    }
  }

  ghost predicate CopiesRight(m: seq<Byte>, dst: nat, src: nat, n: nat)
    requires Fits(m, dst, src, n)
  {
    ForwardCopy(m, dst, src, n) == Copied(m, m, dst, src, n)
  }

  lemma {:induction false} ForwardIsRight(m: seq<Byte>, dst: nat, src: nat, n: nat)
    requires Fits(m, dst, src, n) && !(src < dst < src + n)
    ensures CopiesRight(m, dst, src, n)
  {
    forall k | 0 <= k < |m|
      ensures ForwardCopy(m, dst, src, n)[k] == Copied(m, m, dst, src, n)[k]
    {
      CopyTraced(m, dst, src, n, k);
    }
  }

  lemma {:induction false} ForwardGoesWrong(m: seq<Byte>, dst: nat, src: nat, n: nat)
    requires Fits(m, dst, src, n) && src < dst < src + n && m[src] != m[dst]
    ensures !CopiesRight(m, dst, src, n)
  {
    var k := dst + (dst - src);
    CopyTraced(m, dst, src, n, k);
    assert Origin(dst, src, dst - src) == src;
    assert Copied(m, m, dst, src, n)[k] == m[src..src + n][dst - src] == m[dst];
  }

  /** A forward copy is right on every memory exactly when the destination does not start
      strictly inside the source: the guard by which memmove chooses its direction. */
  lemma {:induction false} ForwardSafeIff(size: nat, dst: nat, src: nat, n: nat)
    requires dst + n <= size && src + n <= size
    ensures (forall m: seq<Byte> | |m| == size :: CopiesRight(m, dst, src, n))
       <==> !(src < dst < src + n)
  {
    if src < dst < src + n {
      var m: seq<Byte> := Marked(size, dst);
      ForwardGoesWrong(m, dst, src, n);
    } else {
      forall m: seq<Byte> | |m| == size
        ensures CopiesRight(m, dst, src, n)
      {
        ForwardIsRight(m, dst, src, n);
      }
    }
  }

  /** Zeros with a single one. */
  ghost function Marked(size: nat, at: nat): (m: seq<Byte>)
    ensures |m| == size && forall i | 0 <= i < size :: m[i] == if i == at then 1 else 0
  {
    if size == 0 then [] else Marked(size - 1, at) + [if size - 1 == at then 1 else 0]
  }
}
