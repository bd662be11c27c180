/**
 * The reference notion the sieve is judged against: primality by trial
 * division, the ascending list of primes below a bound, and the divisor facts
 * the elimination proof rests on.
 */
module Primes {

  /** `n` is prime: at least 2 and divisible by no number in [2, n). */
  ghost predicate IsPrime(n: nat) {
    2 <= n && forall d :: 2 <= d < n ==> n % d != 0
  }

  /** `k` has a proper divisor below `i` (a divisor `d` with 2 <= d < i and d < k). */
  ghost predicate HasDivisorBelow(k: nat, i: nat) {
    exists d :: 2 <= d < i && d < k && k % d == 0
  }

  ghost predicate StrictlyIncreasing(s: seq<nat>) {
    forall a, b :: 0 <= a < b < |s| ==> s[a] < s[b]
  }

  /** The primes in [2, n), ascending. */
  ghost function PrimesBelow(n: nat): seq<nat>
  {
    if n <= 2 then [] else PrimesBelow(n - 1) + (if IsPrime(n - 1) then [n - 1] else [])
  }

  /** `PrimesBelow(n)` lists exactly the primes below `n`, each once, in ascending order. */
  lemma {:induction false} PrimesBelowSpec(n: nat)
    ensures forall k: nat :: k in PrimesBelow(n) <==> k < n && IsPrime(k)
    ensures StrictlyIncreasing(PrimesBelow(n))
  {
    if n > 2 {
      PrimesBelowSpec(n - 1);
      var p := PrimesBelow(n - 1);
      forall a | 0 <= a < |p|
        ensures p[a] < n - 1
      {
        assert p[a] in p;
      }
    }
  }

  /** For every bound of at least 2, the list of primes up to it starts at 2 and so is not empty. */
  lemma TwoIsListed(limit: nat)
    requires 2 <= limit
    ensures 2 in PrimesBelow(limit + 1) && |PrimesBelow(limit + 1)| >= 1
  {
    PrimesBelowSpec(limit + 1);
    assert IsPrime(2);
  }

  /** Multiplication by a natural number is monotone. */
  lemma MulMonotone(a: nat, c: nat, b: nat)
    requires a <= c
    ensures a * b <= c * b
  {
  }

  /** Euclidean division of a multiple of `b` plus a remainder below `b`. */
  lemma DivModOfMultiplePlus(q: nat, b: nat, r: nat)
    requires 0 < b && r < b
    ensures (q * b + r) / b == q && (q * b + r) % b == r
  {
    var x := q * b + r;
    var q' := x / b;
    assert x == q' * b + x % b;
    if q' < q {
      MulMonotone(q' + 1, q, b);
    } else if q' > q {
      MulMonotone(q + 1, q', b);
    }
  }

  /** Between a multiple `j` of `i` and the next one, `j + i`, no number is a multiple of `i`. */
  lemma NextMultiple(j: nat, i: nat)
    requires 0 < i && j % i == 0
    ensures (j + i) % i == 0
    ensures forall k :: j < k < j + i ==> k % i != 0
  {
    var q := j / i;
    assert j == q * i;
    DivModOfMultiplePlus(q + 1, i, 0);
    forall k | j < k < j + i
      ensures k % i != 0
    {
      DivModOfMultiplePlus(q, i, k - j);
    }
  }

  /** A number is divisible by each factor of a product that equals it. */
  lemma ProductModFactor(a: nat, b: nat)
    requires 0 < a
    ensures (b * a) % a == 0 && (b * a) / a == b
  {
    DivModOfMultiplePlus(b, a, 0);
  }

  /** Divisibility is transitive: d | i and i | k give d | k. */
  lemma DividesTransitive(d: nat, i: nat, k: nat)
    requires 0 < d && 0 < i
    requires i % d == 0 && k % i == 0
    ensures k % d == 0
  {
    var p, q := i / d, k / i;
    assert i == p * d;
    assert k == q * i;
    assert k == (q * p) * d;
    ProductModFactor(d, q * p);
  }

  /** A number with a proper divisor is not prime. */
  lemma MultipleNotPrime(k: nat, d: nat)
    requires 2 <= d < k && k % d == 0
    ensures !IsPrime(k)
  {
  }

  /** For `i` >= 2, a prime from `i*i` on is no multiple of `i`: such multiples exceed `i`. */
  lemma PrimeNotSquareMultiple(k: nat, i: nat)
    requires IsPrime(k) && 2 <= i && i * i <= k
    ensures k % i != 0
  {
    MulMonotone(2, i, i);
    assert 2 <= i < k;
  }

  /** A multiple `k` of `i` with i < k < i*i has its cofactor k / i as a proper divisor below `i`. */
  lemma CofactorBelow(k: nat, i: nat)
    requires 2 <= i < k && k % i == 0 && k < i * i
    ensures HasDivisorBelow(k, i)
  {
    var m: nat := k / i;
    assert k == m * i;
    if m >= i {
      MulMonotone(i, m, i);
    } else {
      ProductModFactor(m, i);
      MulMonotone(2, i, m);
      assert 2 <= m < i && m < k && k % m == 0;
    }
  }

  /** A multiple of a non-prime `i` >= 2 has a proper divisor below `i`. */
  lemma DivisorOfNonPrime(k: nat, i: nat)
    requires 2 <= i < k && k % i == 0 && !IsPrime(i)
    ensures HasDivisorBelow(k, i)
  {
    var d :| 2 <= d < i && i % d == 0;
    DividesTransitive(d, i, k);
    assert 2 <= d < i && d < k && k % d == 0;
  }

  /** A composite `k` below `i*i` has a proper divisor below `i`: the smaller of a divisor and its cofactor. */
  lemma CompositeHasSmallDivisor(k: nat, i: nat)
    requires 2 <= k < i * i && !IsPrime(k)
    ensures HasDivisorBelow(k, i)
  {
    var d :| 2 <= d < k && k % d == 0;
    DivisorPairBelow(k, d, i);
  }

  /** Either the divisor `d` of `k` or its cofactor k / d is a proper divisor below `i`. */
  lemma DivisorPairBelow(k: nat, d: nat, i: nat)
    requires 2 <= d < k && k % d == 0 && k < i * i
    ensures HasDivisorBelow(k, i)
  {
    var e: nat := k / d;
    assert k == e * d;
    assert e >= 2 by {
      if e < 2 {
        MulMonotone(e, 1, d);
      }
    }
    if d <= e {
      SmallFactorBelow(k, d, e, i);
    } else {
      ProductModFactor(e, d);
      SmallFactorBelow(k, e, d, i);
    }
  }

  /** The smaller factor `s` of k == s * t (s <= t) is below any `i` with k < i*i. */
  lemma SmallFactorBelow(k: nat, s: nat, t: nat, i: nat)
    requires 2 <= s <= t && k == s * t && k < i * i && k % s == 0
    ensures HasDivisorBelow(k, i)
  {
    MulMonotone(s, t, s);
    if s >= i {
      MulMonotone(i, s, i);
      MulMonotone(i, s, s);
    } else {
      MulMonotone(1, t, s);
      assert 2 <= s < i && s < k && k % s == 0;
    }
  }
}
