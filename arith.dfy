/** Facts about Dafny's Euclidean `/` and `%` that the probing and primality proofs rest on. */
module Arith {

  /** Multiplying by a factor of at least one does not shrink a positive number. */
  lemma MulAtLeast(a: int, n: int)
    requires a >= 1 && n > 0
    ensures a * n >= n
  {
    assert a * n == (a - 1) * n + n;
    assert (a - 1) * n >= 0;
  }

  /** Quotient and remainder are unique: any decomposition x == q*n + r with 0 <= r < n is the one `/` and `%` give. */
  lemma {:induction false} DivModUnique(x: int, n: int, q: int, r: int)
    requires n > 0 && 0 <= r < n && x == q * n + r
    ensures x % n == r && x / n == q
  {
    var q0, r0 := x / n, x % n;
    assert x == q0 * n + r0;
    assert (q - q0) * n == r0 - r;
    if q - q0 >= 1 {
      MulAtLeast(q - q0, n);
      assert false;
    } else if q - q0 <= -1 {
      MulAtLeast(q0 - q, n);
      assert false;
    }
  }

  /** A multiple of n leaves remainder zero. */
  lemma ModOfMultiple(m: int, n: int)
    requires n > 0
    ensures (m * n) % n == 0 && (n * m) % n == 0
  {
    DivModUnique(m * n, n, m, 0);
  }

  /** Adding a multiple of n does not change the remainder. */
  lemma ModAddMultiple(m: int, n: int, c: int)
    requires n > 0
    ensures (m * n + c) % n == c % n
  {
    assert c == (c / n) * n + c % n;
    assert m * n + c == (m + c / n) * n + c % n;
    DivModUnique(m * n + c, n, m + c / n, c % n);
  }

  /** Only the remainder of the first summand matters. */
  lemma ModAddInner(a: int, b: int, n: int)
    requires n > 0
    ensures (a + b) % n == (a % n + b) % n
  {
    assert a == (a / n) * n + a % n;
    ModAddMultiple(a / n, n, a % n + b);
  }

  /** Two numbers with the same remainder differ by a multiple of n. */
  lemma SameModDiff(a: int, b: int, n: int)
    requires n > 0 && a % n == b % n
    ensures (b - a) % n == 0
  {
    assert a == (a / n) * n + a % n;
    assert b == (b / n) * n + b % n;
    assert b - a == (b / n - a / n) * n;
    ModOfMultiple(b / n - a / n, n);
  }

  /** A zero remainder means the number is the divisor times the quotient. */
  lemma ExactDivision(m: int, d: int)
    requires d > 0 && m % d == 0
    ensures m == d * (m / d)
  {
    assert m == (m / d) * d + m % d;
  }

  /** Divisibility is transitive. */
  lemma DividesTransitive(e: int, q: int, m: int)
    requires e > 0 && q > 0 && q % e == 0 && m % q == 0
    ensures m % e == 0
  {
    ExactDivision(q, e);
    ExactDivision(m, q);
    assert m == e * ((q / e) * (m / q));
    ModOfMultiple((q / e) * (m / q), e);
  }
}
