/**
 * The prime sizer of the hash table (HashTable.java, `isPrime` and `nextPrime`): trial division
 * by odd numbers up to the square root, and a search over odd candidates.
 */
module Primes {
  import opened Arith

  /** n is a prime number: at least 2 and divisible by no number strictly between 1 and n. */
  ghost predicate IsPrimeNumber(n: int) {
    n >= 2 && forall d :: 2 <= d < n ==> n % d != 0
  }

  /** r is the smallest odd prime that is at least n (what `nextPrime` returns for n >= 0). */
  ghost predicate IsNextPrime(n: int, r: int) {
    r >= n && r % 2 == 1 && IsPrimeNumber(r) && NoOddPrimeIn(n, r)
  }

  /** There is only one smallest odd prime at or above n. */
  lemma NextPrimeUnique(n: int, r1: int, r2: int)
    requires IsNextPrime(n, r1) && IsNextPrime(n, r2)
    ensures r1 == r2
  {
  }

  /**
   * Euclid's lemma in the form the probing proof needs: a prime p divides no product of two
   * numbers that both lie strictly between 0 and p.
   */
  lemma {:induction false} ProductNotMultiple(p: int, a: int, b: int)
    requires IsPrimeNumber(p) && 0 < a < p && 0 < b < p
    ensures (a * b) % p != 0
    decreases a
  {
    if a == 1 {
      assert a * b == b;
      DivModUnique(b, p, 0, b);
    } else if (a * b) % p == 0 {
      var q, r := p / a, p % a;
      assert p == q * a + r;
      if r == 0 {
        assert false;
      }
      // r * b == p * b - q * (a * b), a multiple of p, with 0 < r < a
      ExactDivision(a * b, p);
      var k := (a * b) / p;
      assert r * b == (p - q * a) * b;
      assert r * b == p * (b - q * k);
      ModOfMultiple(b - q * k, p);
      ProductNotMultiple(p, r, b);
      assert false;
    }
  }

  /** n! */
  function Factorial(n: nat): (r: nat)
    ensures r >= 1
  {
    if n == 0 then 1 else n * Factorial(n - 1)
  }

  /** Every number from 1 to n divides n!. */
  lemma {:induction false} FactorialDivisible(n: nat, d: int)
    requires 1 <= d <= n
    ensures Factorial(n) % d == 0
  {
    if d == n {
      ModOfMultiple(Factorial(n - 1), n);
    } else {
      FactorialDivisible(n - 1, d);
      ExactDivision(Factorial(n - 1), d);
      assert Factorial(n) == d * (n * (Factorial(n - 1) / d));
      ModOfMultiple(n * (Factorial(n - 1) / d), d);
    }
  }

  /** The least divisor of m that is at least 2. */
  lemma SmallestDivisor(m: int) returns (q: int)
    requires m >= 2
    ensures 2 <= q <= m && m % q == 0
    ensures forall e :: 2 <= e < q ==> m % e != 0
  {
    q := 2;
    while m % q != 0
      invariant 2 <= q <= m
      invariant forall e :: 2 <= e < q ==> m % e != 0
      decreases m - q
    {
      if q == m {
        ModOfMultiple(1, m);
        assert false;
      }
      q := q + 1;
    }
  }

  /** The least divisor (at least 2) of a number is prime. */
  lemma SmallestDivisorIsPrime(m: int, q: int)
    requires 2 <= q <= m && m % q == 0
    requires forall e :: 2 <= e < q ==> m % e != 0
    ensures IsPrimeNumber(q)
  {
    forall e | 2 <= e < q
      ensures q % e != 0
    {
      if q % e == 0 {
        DividesTransitive(e, q, m);
      }
    }
  }

  /** There are infinitely many primes: above every n lies an odd prime. This is what makes `nextPrime` terminate. */
  lemma PrimeAbove(n: int) returns (p: int)
    ensures p >= n && p % 2 == 1 && IsPrimeNumber(p)
  {
    if n <= 3 {
      p := 3;
      return;
    }
    var m := Factorial(n) + 1;
    p := SmallestDivisor(m);
    SmallestDivisorIsPrime(m, p);
    if p <= n {
      FactorialDivisible(n, p);
      ExactDivision(Factorial(n), p);
      DivModUnique(m, p, Factorial(n) / p, 1);
      assert false;
    }
    if p % 2 == 0 {
      assert false;
    }
  }

  /** If n is odd and composite, it has an odd divisor at least 3 whose square is at most n. */
  lemma CompositeHasSmallOddDivisor(n: int) returns (d: int)
    requires n >= 2 && n % 2 == 1 && !IsPrimeNumber(n)
    ensures 3 <= d && d % 2 == 1 && d * d <= n && n % d == 0
  {
    d := SmallestDivisor(n);
    var e :| 2 <= e < n && n % e == 0;
    assert d < n;
    var k := Cofactor(n, d);
    assert k >= d;
    MulLe(d, d, k);
    if d % 2 == 0 {
      DividesTransitive(2, d, n);
    }
  }

  /** The cofactor of a proper divisor d of n is itself a divisor of n, at least 2. */
  lemma Cofactor(n: int, d: int) returns (k: int)
    requires 2 <= d < n && n % d == 0
    ensures k >= 2 && n == d * k && n % k == 0
  {
    ExactDivision(n, d);
    k := n / d;
    if k <= 1 {
      MulLe(d, k, 1);
      assert false;
    }
    ModOfMultiple(d, k);
  }

  /** Multiplying by a non-negative factor keeps the order. */
  lemma MulLe(c: int, a: int, b: int)
    requires c >= 0 && a <= b
    ensures c * a <= c * b
  {
    assert c * b - c * a == c * (b - a);
  }

  /** Squaring is monotone on the non-negative numbers. */
  lemma SquareLe(i: int, d: int)
    requires 0 <= i <= d
    ensures i * i <= d * d
  {
    assert i * i <= i * d <= d * d;
  }

  /**
   * `isPrime`: trial division by 3, 5, 7, ... while i*i <= n. For n >= 1 this decides primality.
   * For n <= 0 the Java code answers "is n odd": 0 and the negative even numbers are rejected by
   * the `n % 2 == 0` test, and for a negative odd n the loop never runs.
   */
  method IsPrime(n: int) returns (r: bool)
    ensures n >= 1 ==> (r <==> IsPrimeNumber(n))
    ensures n <= 0 ==> (r <==> n % 2 != 0)
  {
    if n == 2 || n == 3 {
      return true;
    }
    if n == 1 || n % 2 == 0 {
      if n >= 4 {
        ModOfMultiple(n / 2, 2);
      }
      return false;
    }
    var i := 3;
    while i * i <= n
      invariant 3 <= i && i % 2 == 1
      invariant NoOddDivisorBelow(n, i)
      decreases n - i
    {
      if n % i == 0 {
        DivisorRefutes(n, i);
        return false;
      }
      SquareGrows(i);
      NextTrialDivisor(n, i);
      i := i + 2;
    }
    if n >= 1 {
      TrialDivisionSuffices(n, i);
    }
    return true;
  }

  /** No odd number from 3 up to, but excluding, i divides n. */
  ghost predicate NoOddDivisorBelow(n: int, i: int) {
    forall j :: 3 <= j < i && j % 2 == 1 ==> n % j != 0
  }

  /** An odd trial divisor that fails extends the range of odd non-divisors to the next odd number. */
  lemma NextTrialDivisor(n: int, i: int)
    requires i % 2 == 1 && NoOddDivisorBelow(n, i) && n % i != 0
    ensures (i + 2) % 2 == 1 && NoOddDivisorBelow(n, i + 2)
  {
    forall j | 3 <= j < i + 2 && j % 2 == 1
      ensures n % j != 0
    {
      if j != i {
        assert j < i;
      }
    }
  }

  /** A trial divisor i with i*i <= n that divides n shows that n is not prime. */
  lemma DivisorRefutes(n: int, i: int)
    requires 3 <= i && i * i <= n && n % i == 0
    ensures !IsPrimeNumber(n)
  {
    MulLe(i, 1, i);
    assert i < i * i;
  }

  /** A square is more than its root, once the root is at least 2. */
  lemma SquareGrows(i: int)
    requires i >= 2
    ensures i < i * i
  {
    MulLe(i, 2, i);
  }

  /** Once i*i exceeds n and no odd number below i divides the odd number n, n is prime. */
  lemma TrialDivisionSuffices(n: int, i: int)
    requires n >= 5 && n % 2 == 1 && 3 <= i && i * i > n && NoOddDivisorBelow(n, i)
    ensures IsPrimeNumber(n)
  {
    if !IsPrimeNumber(n) {
      var d := CompositeHasSmallOddDivisor(n);
      if i <= d {
        SquareLe(i, d);
      }
      assert false;
    }
  }

  /**
   * `nextPrime`: make n odd, then step by 2 until `isPrime` holds. For n >= 0 the result is the
   * smallest odd prime at or above n (so 2 is never returned: nextPrime(2) == 3). For n < 0 the
   * first odd candidate is returned at once, since `isPrime` accepts every negative odd number.
   */
  method NextPrime(n: int) returns (r: int)
    ensures n >= 0 ==> IsNextPrime(n, r)
    ensures n < 0 ==> r == if n % 2 == 0 then n + 1 else n
  {
    var c := n;
    if c % 2 == 0 {
      c := c + 1;
    }
    ghost var bound := c;
    if c >= 0 {
      bound := PrimeAbove(c);
    }
    var ok := IsPrime(c);
    while !ok
      invariant c % 2 == 1 && n <= c <= bound
      invariant c < 0 ==> ok
      invariant c >= 0 ==> bound % 2 == 1 && IsPrimeNumber(bound)
      invariant ok <==> IsPrimeNumber(c) || c < 0
      invariant NoOddPrimeIn(n, c)
      decreases bound - c
    {
      SkipOdd(n, c);
      c := c + 2;
      ok := IsPrime(c);
    }
    r := c;
  }

  /**
   * `nextPrime` skips the even prime: nextPrime(2) == 3, and nextPrime(10) == 11. The default size
   * hint 101 is itself prime, so nextPrime(101) == 101.
   */
  lemma NextPrimeExamples()
    ensures IsNextPrime(2, 3) && IsNextPrime(10, 11) && IsNextPrime(101, 101)
  {
    assert !IsPrimeNumber(9) by {
      assert 9 % 3 == 0;
    }
    assert NoOddDivisorBelow(101, 11) by {
      forall j | 3 <= j < 11 && j % 2 == 1
        ensures 101 % j != 0
      {
        assert j == 3 || j == 5 || j == 7 || j == 9;
      }
    }
    TrialDivisionSuffices(101, 11);
  }

  /** No odd number in [lo, hi) is prime. */
  ghost predicate NoOddPrimeIn(lo: int, hi: int) {
    forall q :: lo <= q < hi && q % 2 == 1 ==> !IsPrimeNumber(q)
  }

  /** A candidate found not to be prime extends the prime-free range by the next two numbers. */
  lemma SkipOdd(lo: int, c: int)
    requires NoOddPrimeIn(lo, c) && c % 2 == 1 && !IsPrimeNumber(c)
    ensures NoOddPrimeIn(lo, c + 2)
  {
    forall q | lo <= q < c + 2 && q % 2 == 1
      ensures !IsPrimeNumber(q)
    {
      if q != c {
        assert q < c;
      }
    }
  }
}
