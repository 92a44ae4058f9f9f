/**
 * Unsigned 64-bit words as Dafny bit-vectors, and their numeric value.
 * The value is computed bit by bit, so that bitwise facts proved on the
 * words (which the solver settles by bit-blasting) carry over to integers
 * by induction on the bit length.
 */
module Bits {
  import opened PowerOfTwo

  /** The unsigned value of a 64-bit word. */
  function Value(b: bv64): nat
    decreases b
  {
    if b == 0 then 0 else 2 * Value(b >> 1) + (if b & 1 == 1 then 1 else 0)
  }

  /** The number of significant bits of a word. */
  function Len(b: bv64): nat
    decreases b
  {
    if b == 0 then 0 else 1 + Len(b >> 1)
  }

  // Bitwise steps used by the inductions below; each is settled on the words.

  lemma {:induction false} ZeroStep(b: bv64)
    ensures b == 0 ==> b >> 1 == 0 && b & 1 == 0
  {
  }

  lemma {:induction false} AllOnesStep(s: bv64)
    requires s != 0 && s & (s + 1) == 0
    ensures s & 1 == 1 && (s >> 1) & ((s >> 1) + 1) == 0
    ensures s - (s >> 1) == (s >> 1) + 1 && (s >> 1) + 1 != 0
    ensures s != 1 ==> s >> 1 != 0
  {
  }

  lemma {:induction false} SubsetStep(a: bv64, b: bv64)
    requires a | b == b
    ensures (a >> 1) | (b >> 1) == b >> 1
    ensures a & 1 == 1 ==> b & 1 == 1
    ensures b == 0 ==> a == 0
  {
  }

  lemma {:induction false} TopBitStep(y: bv64, s: bv64)
    requires y | (s >> 1) == s
    ensures (y >> 1) | ((s >> 1) >> 1) == s >> 1
    ensures s == 1 ==> y == 1
  {
  }

  lemma {:induction false} IncrementStep(a: bv64)
    requires a + 1 != 0
    ensures a & 1 == 0 ==> (a + 1) >> 1 == a >> 1 && (a + 1) & 1 == 1
    ensures a & 1 == 1 ==> (a + 1) & 1 == 0 && (a + 1) >> 1 == (a >> 1) + 1 && (a >> 1) + 1 != 0
  {
  }

  lemma {:induction false} ValueUnfold(b: bv64)
    ensures Value(b) == 2 * Value(b >> 1) + (if b & 1 == 1 then 1 else 0)
    ensures b != 0 ==> Len(b) == 1 + Len(b >> 1)
  {
    ZeroStep(b);
  }

  /** Incrementing a word that does not wrap increments its value. */
  lemma {:induction false} ValueIncrement(a: bv64)
    requires a + 1 != 0
    ensures Value(a + 1) == Value(a) + 1
    decreases Len(a)
  {
    IncrementStep(a);
    ValueUnfold(a);
    ValueUnfold(a + 1);
    if a & 1 == 1 {
      ValueIncrement(a >> 1);
    }
  }

  /** A word that is all ones below its length has the value 2^len - 1. */
  lemma {:induction false} AllOnesValue(s: bv64)
    requires s & (s + 1) == 0
    ensures Value(s) == Pow2(Len(s)) - 1
    decreases Len(s)
  {
    ValueUnfold(s);
    if s != 0 {
      AllOnesStep(s);
      AllOnesValue(s >> 1);
    }
  }

  /** A word whose bits are among those of b is at most b. */
  lemma {:induction false} SubsetValue(a: bv64, b: bv64)
    requires a | b == b
    ensures Value(a) <= Value(b)
    decreases Len(b)
  {
    SubsetStep(a, b);
    ValueUnfold(a);
    ValueUnfold(b);
    if b != 0 {
      SubsetValue(a >> 1, b >> 1);
    }
  }

  /**
   * If y supplies the one bit that s has above s >> 1, with s all ones,
   * then y is at least 2^(len s - 1).
   */
  lemma {:induction false} TopBitValue(y: bv64, s: bv64)
    requires s != 0 && s & (s + 1) == 0 && y | (s >> 1) == s
    ensures Value(y) >= Pow2(Len(s) - 1)
    decreases Len(s)
  {
    AllOnesStep(s);
    TopBitStep(y, s);
    ValueUnfold(y);
    ValueUnfold(s);
    if s == 1 {
      ValueUnfold(0);
    } else {
      TopBitValue(y >> 1, s >> 1);
    }
  }

  /** Decrementing a word of value at least two decrements its value. */
  lemma {:induction false} ValueDecrement(x: bv64)
    requires Value(x) >= 2
    ensures Value(x - 1) >= 1 && Value(x - 1) + 1 == Value(x)
  {
    ValueUnfold(0);
    assert x != 0;
    assert (x - 1) + 1 == x;
    ValueIncrement(x - 1);
  }

  /** The highest set bit of an all-ones word s, taken alone, has value 2^(len s - 1). */
  lemma {:induction false} TopOfAllOnes(s: bv64)
    requires s != 0 && s & (s + 1) == 0
    ensures Len(s) >= 1 && Value(s - (s >> 1)) == Pow2(Len(s) - 1)
  {
    ValueUnfold(s);
    AllOnesStep(s);
    ValueIncrement(s >> 1);
    AllOnesValue(s >> 1);
  }

  /**
   * A non-zero word y smeared into an all-ones word s of the same length:
   * the highest bit of s alone, s - (s >> 1), is the power of two that y
   * lies in.
   */
  lemma {:induction false} SmearValue(y: bv64, s: bv64)
    requires Value(y) >= 1 && s & (s + 1) == 0 && y | s == s && y | (s >> 1) == s
    ensures Len(s) >= 1 &&
            Pow2(Len(s) - 1) <= Value(y) < Pow2(Len(s)) &&
            Value(s - (s >> 1)) == Pow2(Len(s) - 1)
  {
    ValueUnfold(0);
    SubsetStep(y, s);
    AllOnesValue(s);
    SubsetValue(y, s);
    TopBitValue(y, s);
    TopOfAllOnes(s);
  }

  /**
   * For x - 1 non-zero and smeared into the all-ones word s: x - 1 lies in
   * [2^(len s - 1), 2^(len s)) and the highest bit of s has value 2^(len s - 1).
   */
  lemma {:induction false} SmearOfDecrement(x: bv64, s: bv64)
    requires Value(x - 1) >= 1 && Value(x - 1) + 1 == Value(x)
    requires s & (s + 1) == 0 && (x - 1) | s == s && (x - 1) | (s >> 1) == s
    ensures Len(s) >= 1 &&
            Pow2(Len(s) - 1) <= Value(x) - 1 < Pow2(Len(s)) &&
            Value(s - (s >> 1)) == Pow2(Len(s) - 1)
  {
    SmearValue(x - 1, s);
  }
}
