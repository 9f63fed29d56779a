/**
 * The quadratic probe sequence of `findPos` (HashTable.java): the i-th position visited from home
 * position h in a table of length n is (h + i*i) mod n, reached by adding the odd offsets 1, 3, 5, ...
 */
module Probing {
  import opened Arith
  import opened Primes

  /** Java's `%` on int, which truncates toward zero (the remainder takes the sign of the dividend). */
  function JavaRem(a: int, b: int): (r: int)
    requires b > 0
    ensures a >= 0 ==> 0 <= r < b
    ensures a < 0 ==> -b < r <= 0
  {
    if a >= 0 then a % b else -((-a) % b)
  }

  /**
   * `myhash`: the hash code reduced with Java's `%` and folded into range by adding the length when
   * negative. The result is the home position, which is the mathematical remainder.
   */
  function MyHash(hashVal: int, length: int): (r: nat)
    requires length > 0
    ensures r < length && r == hashVal % length
  {
    var h := JavaRem(hashVal, length);
    JavaRemFolded(hashVal, length);
    if h < 0 then h + length else h
  }

  /** Java's remainder, moved up by the divisor when negative, is the mathematical remainder. */
  lemma JavaRemFolded(a: int, b: int)
    requires b > 0
    ensures var h := JavaRem(a, b); (if h < 0 then h + b else h) == a % b
  {
    var h := JavaRem(a, b);
    JavaRemSameMod(a, b);
    if h < 0 {
      DivModUnique(h + b, b, 0, h + b);
      ModAddMultiple(1, b, h);
    } else {
      DivModUnique(h, b, 0, h);
    }
  }

  /** Java's remainder leaves the same mathematical remainder as the dividend. */
  lemma JavaRemSameMod(a: int, b: int)
    requires b > 0
    ensures JavaRem(a, b) % b == a % b
  {
    if a >= 0 {
      DivModUnique(a % b, b, 0, a % b);
    } else {
      var c := -a;
      var q := c / b;
      assert c == q * b + c % b;
      assert a == (-q) * b + JavaRem(a, b);
      ModAddMultiple(-q, b, JavaRem(a, b));
    }
  }

  /** The position visited after i steps of the probe that starts at home position h. */
  function Probe(h: int, i: nat, n: int): nat
    requires n > 0
  {
    (h + i * i) % n
  }

  /**
   * One step of the loop in `findPos`: adding the offset 2*i + 1 to the i-th position and, when the
   * sum reaches n, subtracting n once gives the (i+1)-th position, provided the offset is below n.
   */
  lemma ProbeStep(h: int, i: nat, n: int)
    requires n > 0 && 2 * i + 1 < n
    ensures var c := Probe(h, i, n) + 2 * i + 1;
            Probe(h, i + 1, n) == if c >= n then c - n else c
  {
    var c := Probe(h, i, n) + 2 * i + 1;
    assert h + (i + 1) * (i + 1) == (h + i * i) + (2 * i + 1);
    ModAddInner(h + i * i, 2 * i + 1, n);
    if c >= n {
      DivModUnique(c, n, 1, c - n);
    } else {
      DivModUnique(c, n, 0, c);
    }
  }

  /** For a prime n, the first (n+1)/2 probes from any home position visit pairwise distinct positions. */
  lemma ProbesDistinct(h: int, n: int, i: nat, j: nat)
    requires IsPrimeNumber(n) && i < j <= (n - 1) / 2
    ensures Probe(h, i, n) != Probe(h, j, n)
  {
    if Probe(h, i, n) == Probe(h, j, n) {
      SameModDiff(h + i * i, h + j * j, n);
      assert (h + j * j) - (h + i * i) == (j - i) * (j + i);
      ProductNotMultiple(n, j - i, j + i);
    }
  }

  /** The set of the first k positions of the probe from h. */
  function ProbeSet(h: int, n: int, k: nat): (r: set<nat>)
    requires n > 0
    ensures forall i: nat :: i < k ==> Probe(h, i, n) in r
    ensures forall p :: p in r ==> p < n
  {
    if k == 0 then {} else ProbeSet(h, n, k - 1) + {Probe(h, k - 1, n)}
  }

  /** For a prime n, the first k <= (n+1)/2 probes cover exactly k positions. */
  lemma {:induction false} ProbeSetSize(h: int, n: int, k: nat)
    requires IsPrimeNumber(n) && k <= (n + 1) / 2
    ensures |ProbeSet(h, n, k)| == k
  {
    if k > 0 {
      ProbeSetSize(h, n, k - 1);
      if Probe(h, k - 1, n) in ProbeSet(h, n, k - 1) {
        var i := ProbeSetWitness(h, n, k - 1, Probe(h, k - 1, n));
        ProbesDistinct(h, n, i, k - 1);
      }
    }
  }

  /** Every member of ProbeSet(h, n, k) is the position of one of the first k probes. */
  lemma {:induction false} ProbeSetWitness(h: int, n: int, k: nat, p: nat) returns (i: nat)
    requires n > 0 && p in ProbeSet(h, n, k)
    ensures i < k && Probe(h, i, n) == p
  {
    if p == Probe(h, k - 1, n) {
      i := k - 1;
    } else {
      i := ProbeSetWitness(h, n, k - 1, p);
    }
  }

  /**
   * The coverage theorem behind `findPos`: in a table of odd prime length n, any set of at most n/2
   * positions misses one of the first (n+1)/2 probes from every home position.
   */
  lemma ProbeEscapes(h: int, n: int, occupied: set<nat>) returns (i: nat)
    requires IsPrimeNumber(n) && n % 2 == 1 && |occupied| <= n / 2
    ensures i <= (n - 1) / 2 && Probe(h, i, n) !in occupied
  {
    var k := (n + 1) / 2;
    ProbeSetSize(h, n, k);
    var probes := ProbeSet(h, n, k);
    CardinalityOfDifference(probes, occupied);
    var p :| p in probes - occupied;
    i := ProbeSetWitness(h, n, k, p);
  }

  /** Taking away b removes at most |b| members of a. */
  lemma CardinalityOfDifference<X>(a: set<X>, b: set<X>)
    ensures |a - b| >= |a| - |b|
  {
    assert a == (a - b) + (a * b);
    assert b == (a * b) + (b - a);
  }
}
