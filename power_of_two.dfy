/**
  Powers of two over the integers.

  The converter decides "is a power of two" with `log2(n).is_integer()` and
  rounds a side length down with `2 ** int(log2(n))`, both in floating
  point. This module gives the exact integer meaning of both.
 */
module PowerOfTwo {

  /** 2^k. */
  function Pow2(k: nat): (p: nat)
    ensures p >= 1
  {
    if k == 0 then 1 else 2 * Pow2(k - 1)
  }

  /** n is a positive integer power of two: halving it evenly reaches 1. */
  predicate IsPowerOfTwo(n: int)
  {
    n == 1 || (n >= 2 && n % 2 == 0 && IsPowerOfTwo(n / 2))
  }

  lemma {:induction false} Pow2IsPowerOfTwo(k: nat)
    ensures IsPowerOfTwo(Pow2(k))
  {
    if k > 0 {
      Pow2IsPowerOfTwo(k - 1);
      assert Pow2(k) / 2 == Pow2(k - 1);
    }
  }

  /** `log2(n).is_integer()` for a positive integer n: n is 2^k for some
      whole k. Both directions. */
  lemma {:induction false} PowerOfTwoIsPow2(n: int)
    ensures IsPowerOfTwo(n) <==> exists k: nat :: Pow2(k) == n
  {
    if IsPowerOfTwo(n) {
      if n == 1 {
        assert Pow2(0) == n;
      } else {
        PowerOfTwoIsPow2(n / 2);
        var k: nat :| Pow2(k) == n / 2;
        assert Pow2(k + 1) == n;
      }
    }
    if exists k: nat :: Pow2(k) == n {
      var k: nat :| Pow2(k) == n;
      Pow2IsPowerOfTwo(k);
    }
  }

  /** Pow2 at least doubles from one exponent to any larger one. */
  lemma {:induction false} Pow2Grows(i: nat, j: nat)
    requires i < j
    ensures 2 * Pow2(i) <= Pow2(j)
  {
    if i + 1 < j {
      Pow2Grows(i, j - 1);
    }
  }

  /** int(log2(n)) for an integer n >= 1: the exponent of the largest power
      of two not exceeding n. */
  function Log2Floor(n: int): (k: nat)
    requires n >= 1
    ensures Pow2(k) <= n < 2 * Pow2(k)
  {
    if n == 1 then 0 else 1 + Log2Floor(n / 2)
  }

  /** reduce_to_power_of_2: the largest power of two not exceeding n. */
  function ReduceToPowerOf2(n: int): (p: nat)
    requires n >= 1
    ensures IsPowerOfTwo(p)
    ensures p <= n < 2 * p
  {
    var k := Log2Floor(n);
    Pow2IsPowerOfTwo(k);
    Pow2(k)
  }

  /** The power of two p with p <= n < 2p is unique, so ReduceToPowerOf2 is
      fully determined by its contract. */
  lemma ReduceToPowerOf2IsUnique(n: int, p: int)
    requires n >= 1
    requires IsPowerOfTwo(p)
    requires p <= n < 2 * p
    ensures ReduceToPowerOf2(n) == p
  {
    var q := ReduceToPowerOf2(n);
    PowerOfTwoIsPow2(p);
    PowerOfTwoIsPow2(q);
    var i: nat :| Pow2(i) == p;
    var j: nat :| Pow2(j) == q;
    if i < j {
      Pow2Grows(i, j);
    } else if j < i {
      Pow2Grows(j, i);
    }
  }

  /** A power of two is its own reduction. */
  lemma ReduceToPowerOf2FixesPowers(n: int)
    requires IsPowerOfTwo(n)
    ensures n >= 1 && ReduceToPowerOf2(n) == n
  {
    ReduceToPowerOf2IsUnique(n, n);
  }

  /** Reduction is idempotent. */
  lemma ReduceToPowerOf2Idempotent(n: int)
    requires n >= 1
    ensures ReduceToPowerOf2(ReduceToPowerOf2(n)) == ReduceToPowerOf2(n)
  {
    ReduceToPowerOf2FixesPowers(ReduceToPowerOf2(n));
  }
}
