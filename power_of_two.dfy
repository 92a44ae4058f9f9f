/**
 * Powers of two and the split point of the Certificate Transparency tree
 * (section 2.1.1 of RFC 9162): for a tree of n >= 2 leaves, the left
 * subtree holds the largest power of two strictly less than n.
 */
module PowerOfTwo {

  /** 2 raised to e. */
  function Pow2(e: nat): (p: nat)
    ensures p >= 1
  {
    if e == 0 then 1 else 2 * Pow2(e - 1)
  }

  /** p is 1, 2, 4, 8, ... */
  predicate IsPow2(p: int)
    decreases if p < 0 then 0 else p
  {
    p == 1 || (p >= 2 && p % 2 == 0 && IsPow2(p / 2))
  }

  /** The least c with n <= 2^c: the height of the tree over n leaves. */
  function CeilLog2(n: nat): nat
  {
    if n <= 1 then 0 else 1 + CeilLog2((n + 1) / 2)
  }

  /** 2^CeilLog2(n) covers n, and for n >= 2 the next lower power does not. */
  lemma {:induction false} CeilLog2Bounds(n: nat)
    ensures n <= Pow2(CeilLog2(n))
    ensures n >= 2 ==> CeilLog2(n) >= 1 && Pow2(CeilLog2(n) - 1) < n
  {
    if n >= 2 {
      CeilLog2Bounds((n + 1) / 2);
    }
  }

  lemma {:induction false} Pow2IsPow2(e: nat)
    ensures IsPow2(Pow2(e))
  {
    if e > 0 {
      Pow2IsPow2(e - 1);
      assert Pow2(e) / 2 == Pow2(e - 1);
    }
  }

  /** Powers of two are at least a factor two apart. */
  lemma {:induction false} Pow2Gap(p: int, k: int)
    requires IsPow2(p) && IsPow2(k) && k < p
    ensures 2 * k <= p
  {
    if k != 1 {
      Pow2Gap(p / 2, k / 2);
    }
  }

  /**
   * The previous power of two: the split point at every level of the tree.
   * Defined only where the tree builder uses it, for n >= 2.
   */
  function PrevPow2(n: nat): (k: nat)
    requires n >= 2
    ensures k < n <= 2 * k
  {
    CeilLog2Bounds(n);
    Pow2(CeilLog2(n) - 1)
  }

  /** PrevPow2(n) is a power of two. */
  lemma {:induction false} PrevPow2IsPow2(n: nat)
    requires n >= 2
    ensures IsPow2(PrevPow2(n))
  {
    Pow2IsPow2(CeilLog2(n) - 1);
  }

  /** PrevPow2(n) is the largest power of two strictly below n. */
  lemma {:induction false} PrevPow2IsLargest(n: nat, p: int)
    requires n >= 2 && IsPow2(p) && p < n
    ensures p <= PrevPow2(n)
  {
    var k := PrevPow2(n);
    Pow2IsPow2(CeilLog2(n) - 1);
    if p > k {
      Pow2Gap(p, k);
    }
  }

  /** The properties of PrevPow2 determine it uniquely. */
  lemma {:induction false} PrevPow2Unique(n: nat, p: int)
    requires n >= 2 && IsPow2(p) && p < n <= 2 * p
    ensures p == PrevPow2(n)
  {
    var k := PrevPow2(n);
    Pow2IsPow2(CeilLog2(n) - 1);
    if p < k {
      Pow2Gap(k, p);
    } else if k < p {
      Pow2Gap(p, k);
    }
  }

  /** If n - 1 has h significant bits, the previous power of two of n is 2^(h - 1). */
  lemma {:induction false} PrevPow2OfBounds(n: nat, h: nat)
    requires n >= 2 && h >= 1 && Pow2(h - 1) <= n - 1 < Pow2(h)
    ensures PrevPow2(n) == Pow2(h - 1)
  {
    Pow2IsPow2(h - 1);
    PrevPow2Unique(n, Pow2(h - 1));
  }

  lemma {:induction false} CeilLog2OfPow2(e: nat)
    ensures CeilLog2(Pow2(e)) == e
  {
    if e > 0 {
      CeilLog2OfPow2(e - 1);
      assert (Pow2(e) + 1) / 2 == Pow2(e - 1);
    }
  }

  /** CeilLog2 is the least exponent that covers n. */
  lemma {:induction false} CeilLog2Least(n: nat, e: nat)
    requires n <= Pow2(e)
    ensures CeilLog2(n) <= e
  {
    if n >= 2 {
      assert e >= 1;
      CeilLog2Least((n + 1) / 2, e - 1);
    }
  }

  /** q shifted left by e bits, by doubling: q * 2^e. */
  function Shl(q: nat, e: nat): (r: nat)
    ensures r >= q
    ensures q == 0 ==> r == 0
  {
    if e == 0 then q else 2 * Shl(q, e - 1)
  }

  /** x shifted right by e bits, by halving: x / 2^e rounded down. */
  function Shr(x: nat, e: nat): nat
  {
    if e == 0 then x else Shr(x / 2, e - 1)
  }

  lemma {:induction false} ShlOne(e: nat)
    ensures Shl(1, e) == Pow2(e)
  {
    if e > 0 {
      ShlOne(e - 1);
    }
  }

  lemma {:induction false} ShlAdd(q: nat, a: nat, b: nat)
    ensures Shl(Shl(q, a), b) == Shl(q, a + b)
  {
    if b > 0 {
      ShlAdd(q, a, b - 1);
    }
  }

  lemma {:induction false} ShlSum(p: nat, q: nat, e: nat)
    ensures Shl(p + q, e) == Shl(p, e) + Shl(q, e)
  {
    if e > 0 {
      ShlSum(p, q, e - 1);
    }
  }

  lemma {:induction false} ShlDouble(q: nat, e: nat)
    ensures Shl(2 * q, e) == Shl(q, e + 1)
  {
    ShlAdd(q, 1, e);
  }

  /** Shifting right undoes shifting left, discarding low bits below 2^e. */
  lemma {:induction false} ShrOfShl(q: nat, r: nat, e: nat)
    requires r < Pow2(e)
    ensures Shr(Shl(q, e) + r, e) == q
  {
    if e > 0 {
      assert (Shl(q, e) + r) / 2 == Shl(q, e - 1) + r / 2;
      ShrOfShl(q, r / 2, e - 1);
    }
  }

  lemma {:induction false} ShrMonotone(x: nat, y: nat, e: nat)
    requires x <= y
    ensures Shr(x, e) <= Shr(y, e)
  {
    if e > 0 {
      ShrMonotone(x / 2, y / 2, e - 1);
    }
  }

  /** Shifting right e times and then once more is shifting right e + 1 times. */
  lemma {:induction false} ShrStep(x: nat, e: nat)
    ensures Shr(x, e + 1) == Shr(x, e) / 2
  {
    if e > 0 {
      ShrStep(x / 2, e - 1);
    }
  }
}
