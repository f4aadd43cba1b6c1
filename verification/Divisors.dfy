/** Divisibility: Euclid's lemma and the maximal proper divisors of a product of three primes. */
module Divisors {
  import opened Words

  /** Every proper divisor of n divides one of the listed ones. */
  predicate Covers(ms: seq<nat>, n: nat) {
    forall d :: 0 < d < n && n % d == 0 ==> exists i :: 0 <= i < |ms| && ms[i] % d == 0
  }

  predicate Divides(d: int, n: int)
    requires d > 0
  {
    n % d == 0
  }

  lemma DividesProduct(d: int, q: int)
    requires d > 0
    ensures Divides(d, q * d)
  {
    DivModUnique(q * d, d, q, 0);
  }

  lemma Quotient(d: int, n: int) returns (q: int)
    requires d > 0 && Divides(d, n)
    ensures n == q * d
  {
    q := n / d;
    assert n == d * q;
  }

  ghost predicate IsPrime(p: int) {
    p > 1 && forall g :: 0 < g && Divides(g, p) ==> g == 1 || g == p
  }

  /** Euclid's algorithm: a common divisor that is a combination. */
  lemma Bezout(a: nat, b: nat) returns (g: int, s: int, t: int)
    requires a > 0
    ensures g > 0 && g == a * s + b * t && Divides(g, a) && Divides(g, b)
    decreases b
  {
    if b == 0 {
      g, s, t := a, 1, 0;
      DividesProduct(a, 1);
      DividesProduct(a, 0);
    } else {
      var q, r := a / b, a % b;
      var s', t';
      g, s', t' := Bezout(b, r);
      s, t := t', s' - q * t';
      Combination(a, b, q, r, s', t');
      var u := Quotient(g, b);
      var v := Quotient(g, r);
      SumOfMultiples(g, q, u, v);
      assert a == q * b + r;
    }
  }

  lemma Combination(a: int, b: int, q: int, r: int, s: int, t: int)
    requires a == q * b + r
    ensures a * t + b * (s - q * t) == b * s + r * t
  {
    assert (q * b + r) * t == q * b * t + r * t;
    assert b * (s - q * t) == b * s - q * b * t;
  }

  lemma SumOfMultiples(g: int, q: int, u: int, v: int)
    requires g > 0
    ensures Divides(g, q * (u * g) + v * g)
  {
    DividesProduct(g, q * u + v);
    assert (q * u + v) * g == q * u * g + v * g;
    MulAssoc(q, u, g);
  }

  /** A divisor of p*m without the prime factor p divides m. */
  lemma EuclidsLemma(e: nat, p: nat, m: int)
    requires IsPrime(p) && e > 0 && Divides(e, p * m) && !Divides(p, e)
    ensures Divides(e, m)
  {
    var g, s, t := Bezout(e, p);
    assert g == 1;
    var k := Quotient(e, p * m);
    Cancelled(e, p, m, s, t, k);
    DividesProduct(e, m * s + k * t);
  }

  lemma Cancelled(e: int, p: int, m: int, s: int, t: int, k: int)
    requires e * s + p * t == 1 && p * m == k * e
    ensures (m * s + k * t) * e == m
  {
    assert (e * s + p * t) * m == e * s * m + p * t * m;
    assert p * t * m == p * m * t == k * e * t;
    assert (m * s + k * t) * e == m * s * e + k * t * e;
    assert e * s * m == m * s * e && k * e * t == k * t * e;
  }

  lemma SharedFactor(n: int, d: int, e: int, p: int, m: int)
    requires d > 0 && e > 0 && p > 0 && n == d * e && n == p * m && Divides(p, e)
    ensures Divides(d, m)
  {
    var f := Quotient(p, e);
    assert p * (f * d) == d * (f * p) by {
      MulAssoc(f, p, d);
      MulAssoc(p, f, d);
    }
    assert p * (m - f * d) == 0;
    assert m == f * d;
    DividesProduct(d, f);
  }

  lemma ThreePrimesCover(p: nat, q: nat, r: nat)
    requires IsPrime(p) && IsPrime(q) && IsPrime(r)
    ensures Covers([q * r, p * r, p * q], p * q * r)
  {
    var n := p * q * r;
    var ms: seq<nat> := [q * r, p * r, p * q];
    Regroup(p, q, r);
    forall d | 0 < d < n && n % d == 0
      ensures exists i :: 0 <= i < |ms| && ms[i] % d == 0
    {
      var e := Quotient(d, n);
      if e <= 1 {
        MulMono(e, 1, d);
        assert false;
      }
      assert n == d * e;
      CoveredBy(n, d, e, p, q, r);
      assert ms[0] % d == 0 || ms[1] % d == 0 || ms[2] % d == 0;
    }
  }

  lemma Regroup(p: int, q: int, r: int)
    ensures p * q * r == p * (q * r) == q * (p * r) == r * (p * q)
  {
    MulAssoc(p, q, r);
    MulAssoc(q, p, r);
  }

  lemma CoveredBy(n: int, d: int, e: int, p: nat, q: nat, r: nat)
    requires IsPrime(p) && IsPrime(q) && IsPrime(r)
    requires n == p * (q * r) == q * (p * r) == r * (p * q) && d > 0 && e > 1 && n == d * e
    ensures Divides(d, q * r) || Divides(d, p * r) || Divides(d, p * q)
  {
    if Divides(p, e) {
      SharedFactor(n, d, e, p, q * r);
    } else if Divides(q, e) {
      SharedFactor(n, d, e, q, p * r);
    } else if Divides(r, e) {
      SharedFactor(n, d, e, r, p * q);
    } else {
      DividesProduct(e, d);
      EuclidsLemma(e, p, q * r);
      EuclidsLemma(e, q, r);
      EuclidsLemma(e, r, 1);
      DivModUnique(1, e, 0, 1);
      assert false;
    }
  }

  lemma SmallPrimes()
    ensures IsPrime(3) && IsPrime(5) && IsPrime(7) && IsPrime(17) && IsPrime(31) && IsPrime(151)
  {
    forall p, g | p in {3, 5, 7, 17, 31, 151} && 0 < g && Divides(g, p)
      ensures g == 1 || g == p
    {
      var h := Quotient(g, p);
      NoFactors(p, h, g);
    }
  }

  lemma NoFactors(p: int, h: int, g: int)
    requires p in {3, 5, 7, 17, 31, 151} && g > 0 && h * g == p
    ensures g == 1 || g == p
  {
    if h <= 0 {
      MulMono(h, 0, g);
      assert false;
    }
    if h > 12 && g > 12 {
      MulMono(13, h, g);
      assert false;
    }
    if h <= 12 {
      SmallFactor(p, h, g);
    } else {
      SmallFactor(p, g, h);
    }
  }

  lemma SmallFactor(p: int, k: int, m: int)
    requires p in {3, 5, 7, 17, 31, 151} && 0 < k <= 12 && k * m == p
    ensures k == 1 || k == p
  {
    assert k == 1 || k == 2 || k == 3 || k == 4 || k == 5 || k == 6 || k == 7 || k == 8 || k == 9
        || k == 10 || k == 11 || k == 12;
  }
}
