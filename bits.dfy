/** The bitwise power-of-two test `n & (n - 1) == 0` used by both implementations. */
module Bits {

  /** Bitwise AND of two non-negative integers, taken bit by bit from the least significant end.
      On non-negative 32-bit values it agrees with the `&` of C# and of JavaScript. */
  function And(a: nat, b: nat): nat
  {
    if a == 0 || b == 0 then 0
    else 2 * And(a / 2, b / 2) + (if a % 2 == 1 && b % 2 == 1 then 1 else 0)
  }

  function Pow2(m: nat): (p: nat)
    ensures p >= 1
  {
    if m == 0 then 1 else 2 * Pow2(m - 1)
  }

  ghost predicate IsPowerOfTwo(n: int)
  {
    exists m: nat :: Pow2(m) == n
  }

  function Log2(n: nat): nat
    requires n >= 1
  {
    if n == 1 then 0 else 1 + Log2(n / 2)
  }

  lemma {:induction false} AndSelf(k: nat)
    ensures And(k, k) == k
  {
    if k != 0 {
      AndSelf(k / 2);
    }
  }

  lemma {:induction false} AndPow2(m: nat)
    ensures And(Pow2(m), Pow2(m) - 1) == 0
  {
    if m > 0 {
      var q := Pow2(m - 1);
      assert Pow2(m) == 2 * q;
      assert (2 * q - 1) / 2 == q - 1;
      AndPow2(m - 1);
    }
  }

  lemma {:induction false} AndZeroIsPow2(n: nat)
    requires n >= 1 && And(n, n - 1) == 0
    ensures Pow2(Log2(n)) == n
  {
    if n > 1 {
      if n % 2 == 1 {
        assert (n - 1) / 2 == n / 2;
        AndSelf(n / 2);
        assert false;
      } else {
        assert (n - 1) / 2 == n / 2 - 1;
        assert And(n, n - 1) == 2 * And(n / 2, n / 2 - 1);
        AndZeroIsPow2(n / 2);
      }
    }
  }

  /** For a positive n, `n & (n - 1) == 0` holds exactly when n is a power of two. */
  lemma PowerOfTwoTest(n: nat)
    requires n >= 1
    ensures And(n, n - 1) == 0 <==> IsPowerOfTwo(n)
  {
    if And(n, n - 1) == 0 {
      AndZeroIsPow2(n);
    }
    if IsPowerOfTwo(n) {
      var m: nat :| Pow2(m) == n;
      AndPow2(m);
    }
  }

  /** The participant-count test `n >= 2 && n & (n - 1) == 0` of the C# service. */
  predicate ValidCount(n: nat): (ok: bool)
    ensures ok <==> n >= 2 && IsPowerOfTwo(n)
  {
    if n >= 2 then PowerOfTwoTest(n); And(n, n - 1) == 0 else false
  }

  /** The count test accepts exactly the powers of two 2, 4, 8, ... */
  lemma ValidCountIsPow2(n: nat)
    ensures ValidCount(n) <==> exists m: nat :: m >= 1 && Pow2(m) == n
  {
    if ValidCount(n) {
      PowerOfTwoTest(n);
      var m: nat :| Pow2(m) == n;
      assert m >= 1;
    }
    if exists m: nat :: m >= 1 && Pow2(m) == n {
      var m: nat :| m >= 1 && Pow2(m) == n;
      AndPow2(m);
    }
  }

  /** An accepted count is even, and is 2^m for m = Log2(n) >= 1. */
  lemma ValidCountExponent(n: nat)
    requires ValidCount(n)
    ensures Log2(n) >= 1 && Pow2(Log2(n)) == n && n % 2 == 0
  {
    AndZeroIsPow2(n);
  }
}
