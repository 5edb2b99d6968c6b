/** The prime capacities of the hash table: trial division up to the square
    root, and the search for the next prime. */
module Primes {
  ghost predicate Divides(d: nat, n: nat) {
    exists q: nat :: n == d * q
  }

  ghost predicate Prime(n: nat) {
    n >= 2 && forall d :: 2 <= d < n ==> !Divides(d, n)
  }

  lemma RemainderDecides(d: nat, n: nat)
    requires d > 0
    ensures n % d == 0 <==> Divides(d, n)
  {
    if n % d == 0 {
      assert n == d * (n / d);
    }
    if Divides(d, n) {
      var q: nat :| n == d * q;
      MultipleHasNoRemainder(d, q);
    }
  }

  lemma MultipleHasNoRemainder(d: nat, q: nat)
    requires d > 0
    ensures (d * q) % d == 0
  {
    var n := d * q;
    var k := n / d;
    assert n == d * k + n % d;
    assert d * q - d * k == d * (q - k);
    if q > k {
      ProductGrows1(d, q - k);
    } else if q < k {
      ProductGrows1(d, k - q);
    }
  }

  lemma ProductGrows1(d: nat, e: nat)
    requires e >= 1
    ensures d * e >= d
  {
  }

  /** If no number from 2 up to the square root divides n, no number below n does. */
  lemma SquareRootBound(n: nat, m: nat)
    requires n >= 2 && m * m > n
    requires forall d :: 2 <= d < m ==> !Divides(d, n)
    ensures Prime(n)
  {
    forall d | 2 <= d < n ensures !Divides(d, n) {
      if Divides(d, n) {
        var q := Cofactor(d, n);
        if d >= m && q >= m {
          ProductGrows(m, d, q);
        }
        assert false;
      }
    }
  }

  lemma Cofactor(d: nat, n: nat) returns (q: nat)
    requires 2 <= d < n && Divides(d, n)
    ensures n == d * q && q >= 2 && Divides(q, n)
  {
    q :| n == d * q;
    assert n == q * d;
  }

  lemma ProductGrows(m: nat, d: nat, q: nat)
    requires m <= d && m <= q
    ensures m * m <= d * q
  {
    assert m * m <= m * q <= d * q;
  }

  method IsPrime(n: nat) returns (prime: bool)
    ensures prime <==> Prime(n)
  {
    if n <= 1 {
      return false;
    }
    var m := 2;
    while m * m <= n
      invariant m >= 2
      invariant forall d :: 2 <= d < m ==> !Divides(d, n)
      decreases n - m
    {
      RemainderDecides(m, n);
      if n % m == 0 {
        assert m < n by { assert m * 2 <= m * m; }
        return false;
      }
      assert m < n by { assert m * 2 <= m * m; }
      m := m + 1;
    }
    SquareRootBound(n, m);
    prime := true;
  }

  // ----- there is always a next prime ---------------------------------------

  function Factorial(n: nat): (f: nat)
    ensures f >= 1
  {
    if n == 0 then 1 else n * Factorial(n - 1)
  }

  lemma {:induction false} FactorialDivisible(n: nat, d: nat)
    requires 1 <= d <= n
    ensures Divides(d, Factorial(n))
  {
    if d == n {
    } else {
      FactorialDivisible(n - 1, d);
      var q: nat :| Factorial(n - 1) == d * q;
      assert Factorial(n) == n * (d * q) == d * (n * q);
    }
  }

  lemma {:induction false} PrimeDivisor(n: nat) returns (p: nat)
    requires n >= 2
    ensures Prime(p) && Divides(p, n) && p <= n
  {
    if Prime(n) {
      assert n == n * 1;
      p := n;
    } else {
      var d :| 2 <= d < n && Divides(d, n);
      p := PrimeDivisor(d);
      DividesTransitive(p, d, n);
    }
  }

  lemma DividesTransitive(a: nat, b: nat, c: nat)
    requires Divides(a, b) && Divides(b, c)
    ensures Divides(a, c)
  {
    var x: nat :| b == a * x;
    var y: nat :| c == b * y;
    assert c == a * (x * y);
  }

  /** A number does not divide both n and n + 1 unless it is 1. */
  lemma NeighboursCoprime(d: nat, n: nat)
    requires d >= 2 && Divides(d, n)
    ensures !Divides(d, n + 1)
  {
    if Divides(d, n + 1) {
      var x: nat :| n == d * x;
      var y: nat :| n + 1 == d * y;
      assert d * (y - x) == 1;
      if y > x {
        ProductGrows1(d, y - x);
      } else {
        ProductGrows1(d, x - y + 1);
      }
      assert false;
    }
  }

  lemma PrimeAbove(n: nat) returns (p: nat)
    ensures Prime(p) && p > n
  {
    p := PrimeDivisor(Factorial(n) + 1);
    if p <= n {
      FactorialDivisible(n, p);
      NeighboursCoprime(p, Factorial(n));
      assert false;
    }
  }

  /** next_prime: the least prime at or above n; the search ends for every n. */
  method NextPrime(n: nat) returns (p: nat)
    ensures Prime(p) && p >= n
    ensures forall q :: n <= q < p ==> !Prime(q)
  {
    ghost var bound := PrimeAbove(n);
    p := n;
    var prime := IsPrime(p);
    while !prime
      invariant n <= p <= bound && (prime <==> Prime(p))
      invariant forall q :: n <= q < p ==> !Prime(q)
      decreases bound - p
    {
      p := p + 1;
      prime := IsPrime(p);
    }
  }
}
