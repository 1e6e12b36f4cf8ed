/**
  Primality as the catalog's prime-number filter decides it: trial division
  by 2 and then by the odd numbers whose square does not exceed `n`.
 */
module Primes {

  /** The definition: at least 2, and no divisor strictly between 1 and `n`. */
  predicate Prime(n: int) {
    n >= 2 && forall d :: 2 <= d < n ==> n % d != 0
  }

  lemma MulSignBounds(k: int, t: int)
    requires k > 0
    ensures t >= 1 ==> k * t >= k
    ensures t <= -1 ==> k * t <= -k
  {
  }

  lemma Distribute(k: int, a: int, b: int)
    ensures k * (a - b) == k * a - k * b
  {
  }

  /** A multiple of `k` leaves no remainder when divided by `k`. */
  lemma ModOfMultiple(k: int, q: int)
    requires k > 0
    ensures (k * q) % k == 0
  {
    var n := k * q;
    var m := n / k;
    assert n == k * m + n % k;
    Distribute(k, q, m);
    MulSignBounds(k, q - m);
  }

  /** No remainder when divided by `d` means `n` is `d` times its quotient. */
  lemma DivisorFactor(n: int, d: int)
    requires d > 0 && n % d == 0
    ensures n == d * (n / d)
  {
  }

  /** An odd number has no even divisor. */
  lemma OddHasNoEvenDivisor(n: int, d: int)
    requires n % 2 == 1 && d >= 2 && d % 2 == 0
    ensures n % d != 0
  {
    if n % d == 0 {
      DivisorFactor(n, d);
      DivisorFactor(d, 2);
      assert n == 2 * ((d / 2) * (n / d));
      ModOfMultiple(2, (d / 2) * (n / d));
    }
  }

  lemma MulMonotone(a: int, b: int, c: int)
    requires a <= b && c >= 0
    ensures a * c <= b * c
  {
  }

  /** Both factors at least `i` make the product at least `i * i`. */
  lemma ProductAtLeastSquare(a: int, b: int, i: int)
    requires 0 <= i <= a && i <= b
    ensures i * i <= a * b
  {
    MulMonotone(i, a, i);
    MulMonotone(i, b, a);
  }

  /** A divisor `d` of `n` strictly between 1 and `n` has a co-divisor `n / d` in the same range. */
  lemma CoDivisor(n: int, d: int)
    requires 2 <= d < n && n % d == 0
    ensures d * (n / d) == n
    ensures 2 <= n / d < n && n % (n / d) == 0
  {
    var e := n / d;
    DivisorFactor(n, d);
    if e <= 1 {
      MulMonotone(e, 1, d);
    }
    MulMonotone(2, d, e);
    assert n == e * d;
    ModOfMultiple(e, d);
  }

  /**
    Trial division may stop at the first `i` with `i * i > n`: a divisor
    `d` of `n` with `2 <= d < n` has the co-divisor `n / d`, and one of the
    two is below `i`.
   */
  lemma SmallDivisorsSuffice(n: int, i: int)
    requires n >= 2 && i >= 2 && i * i > n
    requires forall d :: 2 <= d < i && d < n ==> n % d != 0
    ensures Prime(n)
  {
    forall d | 2 <= d < n
      ensures n % d != 0
    {
      if n % d == 0 {
        CoDivisor(n, d);
        if d >= i && n / d >= i {
          ProductAtLeastSquare(d, n / d, i);
        }
      }
    }
  }

  /** A divisor found by the loop, at `i` with `3 <= i` and `i * i <= n`, shows `n` is not prime. */
  lemma DivisorFound(n: int, i: int)
    requires 3 <= i && i * i <= n && n % i == 0
    ensures !Prime(n)
  {
    MulMonotone(3, i, i);
    assert 2 <= i < n;
  }

  /** One step of the trial-division loop: an odd `n` not divisible by `i` has no divisor below `i + 2`. */
  lemma TrialStep(n: int, i: int)
    requires n % 2 == 1 && 3 <= i && i % 2 == 1 && n % i != 0
    requires forall d :: 2 <= d < i && d < n ==> n % d != 0
    ensures forall d :: 2 <= d < i + 2 && d < n ==> n % d != 0
  {
    OddHasNoEvenDivisor(n, i + 1);
  }

  /** `is_prime`: true exactly for the primes. */
  method IsPrime(n: int) returns (b: bool)
    ensures b == Prime(n)
  {
    if n <= 1 {
      return false;
    }
    if n == 2 {
      return true;
    }
    if n % 2 == 0 {
      assert n % 2 == 0 && 2 < n;
      return false;
    }
    var i := 3;
    while i * i <= n
      invariant 3 <= i && i % 2 == 1
      invariant forall d :: 2 <= d < i && d < n ==> n % d != 0
    {
      if n % i == 0 {
        DivisorFound(n, i);
        return false;
      }
      TrialStep(n, i);
      i := i + 2;
    }
    SmallDivisorsSuffice(n, i);
    return true;
  }
}
