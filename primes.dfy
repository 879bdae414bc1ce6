/**
 * The prime utilities of src/hash.c: is_prime by trial division with 6k ± 1
 * candidates, and next_prime, the smallest prime at or above a value, which
 * sizes every bucket array.
 */
module Primes {

  /** `d` divides `n`. */
  predicate Divides(d: nat, n: nat)
    requires d > 0
  {
    n % d == 0
  }

  ghost predicate Prime(n: nat)
  {
    n >= 2 && forall d :: 2 <= d < n ==> !Divides(d, n)
  }

  /** `p` is the smallest prime that is at least `v`. */
  ghost predicate IsNextPrime(p: nat, v: nat)
  {
    Prime(p) && v <= p && forall q :: v <= q < p ==> !Prime(q)
  }

  /** A multiple of `m` divides `n` only if `m` does. */
  lemma DividesTransitive(m: nat, d: nat, n: nat)
    requires m > 0 && d > 0
    requires Divides(d, n) && Divides(m, d)
    ensures Divides(m, n)
  {
    var q := n / d;
    var r := d / m;
    assert n == d * q;
    assert d == m * r;
    assert n == m * (r * q);
    MultipleMod(m, r * q);
  }

  /** Division with remainder is unique: n == m * q + r with 0 <= r < m fixes n % m. */
  lemma ModUnique(n: nat, m: nat, q: int, r: int)
    requires m > 0 && 0 <= r < m && n == m * q + r
    ensures n % m == r
  {
    var q' := n / m;
    var r' := n % m;
    assert n == m * q' + r';
    assert m * (q - q') == r' - r;
    if q - q' >= 1 {
      MulAtLeast(m, q - q');
    } else if q - q' <= -1 {
      MulAtLeast(m, q' - q);
    }
  }

  /** A multiple of `m` leaves no remainder. */
  lemma MultipleMod(m: nat, k: nat)
    requires m > 0
    ensures (m * k) % m == 0
  {
    ModUnique(m * k, m, k, 0);
  }

  lemma MulAtLeast(m: nat, x: int)
    requires x >= 1
    ensures m * x >= m
  {
    assert m * x == m * (x - 1) + m;
  }

  /** A divisor `d` of `n` with 2 <= d < n has a co-divisor `e` with 2 <= e and d * e == n. */
  lemma CoDivisor(d: nat, n: nat) returns (e: nat)
    requires 2 <= d < n && Divides(d, n)
    ensures 2 <= e && d * e == n && Divides(e, n)
  {
    e := n / d;
    assert n == d * e;
    MultipleMod(e, d);
  }

  /** A multiple of a number that does not divide `n` does not divide `n` either. */
  lemma NotDividesByMultiple(m: nat, d: nat, n: nat)
    requires m > 0 && d > 0
    requires !Divides(m, n) && Divides(m, d)
    ensures !Divides(d, n)
  {
    if Divides(d, n) {
      DividesTransitive(m, d, n);
    }
  }

  /**
   * is_prime: false at or below 1, true for 2 and 3, false for multiples of 2
   * or 3, and otherwise trial division by i and i + 2 for i = 5, 11, 17, ...
   * while i * i <= value.
   */
  method IsPrime(value: nat) returns (b: bool)
    ensures b <==> Prime(value)
  {
    if value <= 1 {
      return false;
    }
    if value <= 3 {
      return true;
    }
    if value % 2 == 0 || value % 3 == 0 {
      assert Divides(2, value) || Divides(3, value);
      return false;
    }
    FirstCandidateClear(value);
    var iteration := 5;
    ghost var round := 0;
    while iteration * iteration <= value
      invariant iteration == 6 * round + 5
      invariant forall d :: 2 <= d < iteration ==> !Divides(d, value)
      decreases value - iteration
    {
      MulAtLeast(iteration, iteration);
      if value % iteration == 0 || value % (iteration + 2) == 0 {
        assert Divides(iteration, value) || Divides(iteration + 2, value);
        return false;
      }
      NextCandidatesClear(round, value);
      iteration := iteration + 6;
      round := round + 1;
    }
    NoDivisorAboveRoot(iteration, value);
    return true;
  }

  /** An odd value that 3 does not divide has no divisor in [2, 5). */
  lemma FirstCandidateClear(value: nat)
    requires !Divides(2, value) && !Divides(3, value)
    ensures forall d :: 2 <= d < 5 ==> !Divides(d, value)
  {
    MultipleMod(2, 2);
    NotDividesByMultiple(2, 4, value);
  }

  lemma MulLeq(a: nat, b: nat, c: nat)
    requires a <= b
    ensures a * c <= b * c
  {
  }

  /** When a * a exceeds d * e and a <= d, the co-divisor e is below a. */
  lemma CoDivisorBelow(a: nat, d: nat, e: nat)
    requires a <= d && d * e < a * a
    ensures e < a
  {
    if e >= a {
      MulLeq(a, d, a);
      MulLeq(a, e, d);
    }
  }

  /** No p >= 2 divides both a and a + 1. */
  lemma NotDividesSuccessor(p: nat, a: nat)
    requires p >= 2 && Divides(p, a)
    ensures !Divides(p, a + 1)
  {
    var x := a / p;
    assert a == p * x;
    ModUnique(a + 1, p, x, 1);
  }

  /**
   * After candidates i and i + 2 (i = 6 * round + 5) fail to divide `value`, so does
   * every number below i + 6: the others are multiples of 2 or 3.
   */
  lemma NextCandidatesClear(round: nat, value: nat)
    requires forall d :: 2 <= d < 6 * round + 5 ==> !Divides(d, value)
    requires !Divides(6 * round + 5, value) && !Divides(6 * round + 7, value)
    ensures forall d :: 2 <= d < 6 * round + 11 ==> !Divides(d, value)
  {
    var i := 6 * round + 5;
    MultipleMod(2, round * 3 + 3);
    MultipleMod(2, round * 3 + 4);
    MultipleMod(3, round * 2 + 3);
    MultipleMod(2, round * 3 + 5);
    NotDividesByMultiple(2, i + 1, value);
    NotDividesByMultiple(2, i + 3, value);
    NotDividesByMultiple(3, i + 4, value);
    NotDividesByMultiple(2, i + 5, value);
  }

  /** With no divisor below i and i * i > value, `value` has no divisor in [i, value) either. */
  lemma NoDivisorAboveRoot(i: nat, value: nat)
    requires 2 <= i && value < i * i
    requires forall d :: 2 <= d < i ==> !Divides(d, value)
    ensures forall d :: 2 <= d < value ==> !Divides(d, value)
  {
    forall d | i <= d < value
      ensures !Divides(d, value)
    {
      if Divides(d, value) {
        var e := CoDivisor(d, value);
        CoDivisorBelow(i, d, e);
      }
    }
  }

  /** n! */
  function Factorial(n: nat): (r: nat)
    ensures r >= 1
  {
    if n == 0 then 1 else n * Factorial(n - 1)
  }

  lemma {:induction false} FactorialDivisible(n: nat, d: nat)
    requires 1 <= d <= n
    ensures Divides(d, Factorial(n))
  {
    if d == n {
      MultipleMod(n, Factorial(n - 1));
    } else {
      FactorialDivisible(n - 1, d);
      MultipleMod(Factorial(n - 1), n);
      assert Factorial(n) == Factorial(n - 1) * n;
      DividesTransitive(d, Factorial(n - 1), Factorial(n));
    }
  }

  /** The least divisor of `m` that is at least `d`, when no number in [2, d) divides `m`. */
  lemma {:induction false} LeastDivisorIsPrime(m: nat, d: nat) returns (p: nat)
    requires 2 <= d <= m
    requires forall k :: 2 <= k < d ==> !Divides(k, m)
    ensures Prime(p) && Divides(p, m) && d <= p
    decreases m - d
  {
    if Divides(d, m) {
      p := d;
      forall k | 2 <= k < p
        ensures !Divides(k, p)
      {
        if Divides(k, p) {
          DividesTransitive(k, p, m);
        }
      }
    } else {
      assert d < m by {
        if d == m {
          MultipleMod(m, 1);
        }
      }
      p := LeastDivisorIsPrime(m, d + 1);
    }
  }

  /** There is a prime at or above every number (the least prime factor of n! + 1). */
  lemma PrimeAtLeast(n: nat) returns (p: nat)
    ensures Prime(p) && n <= p
  {
    var m := Factorial(n) + 1;
    p := LeastDivisorIsPrime(m, 2);
    if p <= n {
      FactorialDivisible(n, p);
      NotDividesSuccessor(p, Factorial(n));
    }
  }

  /**
   * next_prime: 2 when value <= 1, and otherwise the first number from
   * `value` upwards that is_prime accepts.
   */
  method NextPrime(value: nat) returns (p: nat)
    ensures IsNextPrime(p, value)
    ensures value <= 1 ==> p == 2
  {
    if value <= 1 {
      return 2;
    }
    ghost var bound := PrimeAtLeast(value);
    p := value;
    var isPrime := IsPrime(p);
    while !isPrime
      invariant value <= p <= bound
      invariant isPrime <==> Prime(p)
      invariant forall q :: value <= q < p ==> !Prime(q)
      decreases bound - p
    {
      p := p + 1;
      isPrime := IsPrime(p);
    }
  }
}
