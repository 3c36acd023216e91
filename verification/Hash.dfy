/** The multiplicative hash on 32-bit words. */
module Hash {
  import opened Arith
  import opened Counting

  const WORDS: nat := 0x1_0000_0000 // 2^32
  const GOLDEN_RATIO_PRIME_32: nat := 0x9e370001
  /** The multiplier's inverse modulo 2^32. */
  const INVERSE: nat := 0x61C90001

  /** hash32: the high `bits` bits of the product; shifting right divides by a power of two. */
  function Hash32(val: nat, bits: nat): int
    requires val < WORDS && 1 <= bits <= 32
  {
    val * GOLDEN_RATIO_PRIME_32 % WORDS / Pow2(32 - bits)
  }

  function Scramble(v: int): int {
    v * GOLDEN_RATIO_PRIME_32 % WORDS
  }

  function Unscramble(w: int): int {
    w * INVERSE % WORDS
  }

  lemma {:induction false} DropMultiple(x: int, q: int)
    ensures (x + WORDS * q) % WORDS == x % WORDS
  {
    assert x + WORDS * q == WORDS * (x / WORDS + q) + x % WORDS;
  }

  /** Multiplication by the constant permutes the 32-bit words. */
  lemma {:induction false} ScrambleIsInvertible(v: int)
    requires 0 <= v < WORDS
    ensures Unscramble(Scramble(v)) == v && Scramble(Unscramble(v)) == v
  {
    var k := GOLDEN_RATIO_PRIME_32 * INVERSE / WORDS;
    assert GOLDEN_RATIO_PRIME_32 * INVERSE == WORDS * k + 1;
    var x := v * GOLDEN_RATIO_PRIME_32;
    assert Scramble(v) * INVERSE == v + WORDS * (k * v - INVERSE * (x / WORDS));
    DropMultiple(v, k * v - INVERSE * (x / WORDS));
    var y := v * INVERSE;
    assert Unscramble(v) * GOLDEN_RATIO_PRIME_32 == v + WORDS * (k * v - GOLDEN_RATIO_PRIME_32 * (y / WORDS));
    DropMultiple(v, k * v - GOLDEN_RATIO_PRIME_32 * (y / WORDS));
  }

  // ----- Which hash it is -----

  /** Scrambling a sum is adding what scrambling the parts gives, in words that wrap. */
  lemma {:induction false} ScrambleAdds(a: int, b: int)
    ensures Scramble(a + b) == (Scramble(a) + Scramble(b)) % WORDS
    ensures Scramble(a % WORDS) == Scramble(a)
  {
    var x, y, k := a * GOLDEN_RATIO_PRIME_32 / WORDS, b * GOLDEN_RATIO_PRIME_32 / WORDS, a / WORDS;
    assert (a + b) * GOLDEN_RATIO_PRIME_32 == Scramble(a) + Scramble(b) + WORDS * (x + y);
    DropMultiple(Scramble(a) + Scramble(b), x + y);
    assert a * GOLDEN_RATIO_PRIME_32 == (a % WORDS) * GOLDEN_RATIO_PRIME_32 + WORDS * (k * GOLDEN_RATIO_PRIME_32);
    DropMultiple((a % WORDS) * GOLDEN_RATIO_PRIME_32, k * GOLDEN_RATIO_PRIME_32);
  }

  /** The full hash of one is the golden ratio prime, the full hash of a wrapping sum is the wrapping
      sum of the full hashes, and a hash of fewer bits is the high end of the full one: there is only
      one function like that. */
  lemma {:induction false} HashIsDetermined(a: nat, b: nat, bits: nat)
    requires a < 0x1_0000_0000 && b < 0x1_0000_0000 && 1 <= bits <= 32
    ensures Hash32(1, 32) == 0x9e370001
    ensures Hash32((a + b) % 0x1_0000_0000, 32) == (Hash32(a, 32) + Hash32(b, 32)) % 0x1_0000_0000
    ensures Hash32(a, bits) == Hash32(a, 32) / Pow2(32 - bits)
  {
    assert forall v: nat | v < WORDS :: Hash32(v, 32) == Scramble(v);
    ScrambleAdds(a, b);
    ScrambleAdds(a + b, 0);
  }

  /** For instance the first process is looked up in bucket 632 of 1024. */
  lemma {:induction false} HashOfOne()
    ensures Hash32(1, 10) == 632
  {
    assert Pow2(11) == 2048;
    Pow2Sum(11, 11);
    assert Pow2(22) == 0x40_0000;
  }

  // ----- Buckets -----

  lemma {:induction false} WordsSplit(bits: nat)
    requires 1 <= bits <= 32
    ensures WORDS == Pow2(bits) * Pow2(32 - bits)
  {
    Pow2Of32();
    Pow2Sum(bits, 32 - bits);
  }

  lemma {:induction false} MulMonotone(p: int, a: int, b: int)
    requires p > 0 && a <= b
    ensures p * a <= p * b
  {
  }

  lemma {:induction false} DivIs(w: int, p: int, h: int)
    requires p > 0
    ensures w / p == h <==> p * h <= w < p * (h + 1)
  {
    var d := w / p;
    assert p * d <= w < p * (d + 1) by { assert w == p * d + w % p; assert p * (d + 1) == p * d + p; }
    if d < h {
      MulMonotone(p, d + 1, h);
    } else if d > h {
      MulMonotone(p, h + 1, d);
    }
  }

  lemma {:induction false} DivRange(w: int, p: int, q: int, h: int)
    requires p > 0 && q > 0
    ensures w / p == h <==> p * h <= w < p * (h + 1)
    ensures 0 <= w < q * p ==> 0 <= w / p < q
    ensures 0 <= h < q ==> 0 <= p * h && p * (h + 1) <= q * p
  {
    DivIs(w, p, h);
    if 0 <= w < q * p {
      var d := w / p;
      DivIs(w, p, d);
      if d < 0 { MulMonotone(p, d + 1, 0); }
      if d >= q { MulMonotone(p, q, d); }
    }
    if 0 <= h < q {
      MulMonotone(p, 0, h);
      MulMonotone(p, h + 1, q);
    }
  }

  ghost function Bucket(h: int, bits: nat): set<nat>
    requires 1 <= bits <= 32
  {
    set v: nat | 0 <= v < WORDS && Hash32(v, bits) == h
  }

  /** The result fits the promised number of bits, and each of the 2^bits buckets receives
      exactly 2^(32 - bits) of the 2^32 inputs. */
  lemma {:induction false} HashIsBalanced(h: int, bits: nat)
    requires 1 <= bits <= 32
    ensures |Bucket(h, bits)| == if 0 <= h < Pow2(bits) then Pow2(32 - bits) else 0
  {
    var p, q := Pow2(32 - bits), Pow2(bits);
    WordsSplit(bits);
    if 0 <= h < q {
      var f := i => Unscramble(p * h + i);
      DivRange(0, p, q, h);
      assert p * (h + 1) == p * h + p;
      forall i, j | 0 <= i < p && 0 <= j < p && f(i) == f(j)
        ensures i == j
      {
        ScrambleIsInvertible(p * h + i);
        ScrambleIsInvertible(p * h + j);
      }
      ImageSize(f, p);
      BucketIsListed(h, bits, f);
    } else {
      forall v: nat | v < WORDS
        ensures Hash32(v, bits) != h
      {
        DivRange(Scramble(v), p, q, h);
      }
      assert Bucket(h, bits) == {};
    }
  }

  lemma {:induction false} InBucket(h: int, bits: nat, i: nat)
    requires 1 <= bits <= 32 && 0 <= h < Pow2(bits) && i < Pow2(32 - bits)
    ensures Unscramble(Pow2(32 - bits) * h + i) in Bucket(h, bits)
  {
    var p := Pow2(32 - bits);
    WordsSplit(bits);
    assert p * (h + 1) == p * h + p;
    DivRange(p * h + i, p, Pow2(bits), h);
    ScrambleIsInvertible(p * h + i);
  }

  lemma {:induction false} FromBucket(h: int, bits: nat, v: int)
    requires 1 <= bits <= 32 && 0 <= h < Pow2(bits) && v in Bucket(h, bits)
    ensures 0 <= Scramble(v) - Pow2(32 - bits) * h < Pow2(32 - bits)
    ensures Unscramble(Scramble(v)) == v
  {
    var p := Pow2(32 - bits);
    ScrambleIsInvertible(v);
    DivIs(Scramble(v), p, h);
    assert p * (h + 1) == p * h + p;
  }

  lemma {:induction false} BucketIsListed(h: int, bits: nat, f: int -> int)
    requires 1 <= bits <= 32 && 0 <= h < Pow2(bits)
    requires forall i :: f(i) == Unscramble(Pow2(32 - bits) * h + i)
    ensures Image(f, Pow2(32 - bits)) == Bucket(h, bits)
  {
    forall v: int
      ensures v in Image(f, Pow2(32 - bits)) <==> v in Bucket(h, bits)
    {
      IsListed(h, bits, f, v);
    }
  }

  lemma {:induction false} IsListed(h: int, bits: nat, f: int -> int, v: int)
    requires 1 <= bits <= 32 && 0 <= h < Pow2(bits)
    requires forall i :: f(i) == Unscramble(Pow2(32 - bits) * h + i)
    ensures v in Image(f, Pow2(32 - bits)) <==> v in Bucket(h, bits)
  {
    var p := Pow2(32 - bits);
    if v in Image(f, p) {
      var i :| 0 <= i < p && f(i) == v;
      InBucket(h, bits, i);
    }
    if v in Bucket(h, bits) {
      FromBucket(h, bits, v);
      assert f(Scramble(v) - p * h) == v;
    }
  }
}
