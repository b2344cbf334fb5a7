/** Periods: sets of numbers that are closed under sums and differences, and a criterion for
    the number that all of them are multiples of. */
module Periods {

  ghost predicate HasSums(p: nat -> bool) {
    forall a: nat, b: nat :: p(a) && p(b) ==> p(a + b)
  }

  ghost predicate HasDifferences(p: nat -> bool) {
    forall a: nat, b: nat :: p(a) && p(b) && a >= b ==> p(a - b)
  }

  ghost predicate Closed(p: nat -> bool) {
    p(0) && HasSums(p) && HasDifferences(p)
  }

  ghost predicate IsLeast(p: nat -> bool, e: nat) {
    e > 0 && p(e) && forall k: nat :: 0 < k < e ==> !p(k)
  }

  lemma {:induction false} Least(p: nat -> bool, n: nat) returns (e: nat)
    requires n > 0 && p(n)
    ensures e <= n && IsLeast(p, e)
    decreases n
  {
    if k: nat :| 0 < k < n && p(k) {
      e := Least(p, k);
    } else {
      e := n;
    }
  }

  ghost predicate Divides(a: nat, b: nat) {
    exists q: nat :: b == a * q
  }

  lemma DividesIsModulo(a: nat, b: nat)
    requires a > 0
    ensures Divides(a, b) <==> b % a == 0
  {
    assert b == a * (b / a) + b % a;
    forall q: nat | b == a * q ensures q == b / a {
      SameQuotient(a, q, b / a, b % a);
    }
  }

  lemma SameQuotient(a: int, q: int, q': int, r: int)
    requires 0 <= r < a && a * q == a * q' + r
    ensures q == q'
  {
    assert a * (q - q') == r;
    assert q - q' >= 1 ==> a * (q - q') >= a;
    assert q - q' <= -1 ==> a * (q - q') <= -a;
  }

  lemma {:induction false} LeastDivides(p: nat -> bool, e: nat, d: nat)
    requires Closed(p) && IsLeast(p, e) && p(d)
    ensures Divides(e, d)
    decreases d
  {
    if d == 0 {
      assert d == e * 0;
    } else {
      assert e <= d;
      LeastDivides(p, e, d - e);
      var q: nat :| d - e == e * q;
      assert d == e * (q + 1);
    }
  }

  lemma {:induction false} Multiples(p: nat -> bool, e: nat, q: nat)
    requires Closed(p) && p(e)
    ensures p(e * q)
    decreases q
  {
    if q == 0 {
      assert e * 0 == 0;
    } else {
      Multiples(p, e, q - 1);
      assert e * q == e * (q - 1) + e;
    }
  }

  // ---- primes ----

  ghost predicate Prime(p: nat) {
    p > 1 && forall a: nat, b: nat :: a * b == p ==> a == 1 || b == 1
  }

  lemma Cancel(p: nat, a: int, b: int)
    requires p > 0 && p * a == p * b
    ensures a == b
  {
    assert a - b >= 1 ==> p * (a - b) >= p;
    assert b - a >= 1 ==> p * (b - a) >= p;
    assert p * (a - b) == p * a - p * b;
  }

  lemma LessOfProduct(p: nat, a: nat, b: nat, c: nat)
    requires p > 0 && a >= p && a * b == p * c
    ensures c >= b && (a - p) * b == p * (c - b)
  {
    assert (a - p) * b == a * b - p * b;
    assert p * (c - b) == p * c - p * b;
    assert (a - p) * b >= 0;
    assert p * (c - b) >= 0;
  }

  lemma RemainderOfProduct(p: nat, a: nat, b: nat, c: nat, q: nat, r: nat)
    requires p > 0 && a * b == p * c && p == a * q + r
    ensures b >= q * c && r * b == p * (b - q * c)
  {
    assert r * b == p * b - (a * q) * b;
    assert (a * q) * b == q * (a * b) == q * (p * c) == p * (q * c);
    assert p * (b - q * c) == p * b - p * (q * c);
    assert r * b >= 0;
  }

  /** A prime that divides a product divides one of the factors. */
  lemma {:induction false} Euclid(p: nat, a: nat, b: nat, c: nat)
    requires Prime(p) && a * b == p * c
    ensures Divides(p, a) || Divides(p, b)
    decreases a
  {
    if a == 0 {
      assert 0 == p * 0;
    } else if a >= p {
      LessOfProduct(p, a, b, c);
      Euclid(p, a - p, b, c - b);
      if q: nat :| a - p == p * q {
        assert a == p * (q + 1);
      }
    } else if a == 1 {
      assert b == p * c;
    } else {
      var q, r := Remainder(p, a);
      RemainderOfProduct(p, a, b, c, q, r);
      Euclid(p, r, b, b - q * c);
      NotDivided(p, r);
    }
  }

  lemma Remainder(p: nat, a: nat) returns (q: nat, r: nat)
    requires Prime(p) && 1 < a < p
    ensures p == a * q + r && 0 < r < a
  {
    q, r := p / a, p % a;
    assert p == a * q + r;
    assert r == 0 ==> a * q == p;
  }

  lemma NotDivided(p: nat, r: nat)
    requires 0 < r < p
    ensures !Divides(p, r)
  {
    forall q: nat ensures r != p * q {
      assert q > 0 ==> p * q >= p;
    }
  }

  /** A prime factor of e * m that is not a factor of m is one of e. */
  lemma Peel(p: nat, e: nat, m: nat, rest: nat) returns (e': nat)
    requires Prime(p) && e * m == p * rest && !Divides(p, m)
    ensures e == p * e' && e' * m == rest
  {
    Euclid(p, e, m, rest);
    e' :| e == p * e';
    Regroup(p, e', m);
    Cancel(p, e' * m, rest);
  }

  lemma Regroup(a: nat, b: nat, c: nat)
    ensures (a * b) * c == a * (b * c)
  {
  }

  lemma SmallFactor(a: nat, b: nat, p: nat)
    requires a * b == p && 0 < a <= 12 && p in {3, 5, 7, 17, 31, 151} && a < p
    ensures a == 1
  {
    assert a == 2 ==> 2 * b == p;
    assert a == 3 ==> 3 * b == p;
    assert a == 4 ==> 4 * b == p;
    assert a == 5 ==> 5 * b == p;
    assert a == 6 ==> 6 * b == p;
    assert a == 7 ==> 7 * b == p;
    assert a == 8 ==> 8 * b == p;
    assert a == 9 ==> 9 * b == p;
    assert a == 10 ==> 10 * b == p;
    assert a == 11 ==> 11 * b == p;
    assert a == 12 ==> 12 * b == p;
  }

  lemma FactorOfPrime(a: nat, b: nat, p: nat)
    requires a * b == p && p in {3, 5, 7, 17, 31, 151}
    ensures a == 1 || b == 1
  {
    assert a > 0 && b > 0;
    assert a >= p && b > 1 ==> a * b >= 2 * a;
    assert b >= p && a > 1 ==> a * b >= 2 * b;
    assert a > 12 ==> a * b >= 13 * b;
    if a < p && a <= 12 {
      SmallFactor(a, b, p);
    } else if b < p && b <= 12 {
      SmallFactor(b, a, p);
    }
  }

  lemma ArePrime(p: nat)
    requires p in {3, 5, 7, 17, 31, 151}
    ensures Prime(p)
  {
    forall a: nat, b: nat | a * b == p
      ensures a == 1 || b == 1
    {
      FactorOfPrime(a, b, p);
    }
  }

  // ---- the least period ----

  lemma RestIsPeriod(per: nat -> bool, p: nat, e: nat, k: nat, rest: nat)
    requires Closed(per) && per(e) && p > 0 && e * (p * k) == p * rest
    ensures per(rest)
  {
    assert e * (p * k) == p * (e * k);
    Cancel(p, e * k, rest);
    Multiples(per, e, k);
  }

  lemma NotAFactor(per: nat -> bool, p: nat, e: nat, m: nat, rest: nat)
    requires Closed(per) && per(e) && p > 0 && e * m == p * rest && !per(rest)
    ensures !Divides(p, m)
  {
    if k: nat :| m == p * k {
      RestIsPeriod(per, p, e, k, rest);
      assert false;
    }
  }

  /** If n = pqr is a period and none of qr, pr and pq is, then n is the least period. */
  lemma LeastOfThreePrimes(per: nat -> bool, p: nat, q: nat, r: nat, n: nat, qr: nat, pr: nat, pq: nat)
    requires Closed(per) && Prime(p) && Prime(q) && Prime(r)
    requires n == p * qr == q * pr == r * pq && qr == q * r && n > 0
    requires per(n) && !per(qr) && !per(pr) && !per(pq)
    ensures IsLeast(per, n)
  {
    var e := Least(per, n);
    LeastDivides(per, e, n);
    var m: nat :| n == e * m;
    NotAFactor(per, p, e, m, qr);
    NotAFactor(per, q, e, m, pr);
    NotAFactor(per, r, e, m, pq);
    OnlyFactor(p, q, r, e, m);
  }

  lemma OnlyFactor(p: nat, q: nat, r: nat, e: nat, m: nat)
    requires Prime(p) && Prime(q) && Prime(r) && e * m == p * (q * r)
    requires !Divides(p, m) && !Divides(q, m) && !Divides(r, m)
    ensures e == p * (q * r)
  {
    var e1 := Peel(p, e, m, q * r);
    var e2 := Peel(q, e1, m, r);
    assert e2 * m == r * 1;
    var e3 := Peel(r, e2, m, 1);
    assert m == 1 by {
      assert m > 1 && e3 > 0 ==> e3 * m > 1;
      assert e3 * m == 1;
    }
  }

  /** The periods are the multiples of the least one. */
  lemma MultiplesOfLeast(p: nat -> bool, e: nat, d: nat)
    requires Closed(p) && IsLeast(p, e)
    ensures p(d) <==> Divides(e, d)
  {
    if p(d) {
      LeastDivides(p, e, d);
    }
    if q: nat :| d == e * q {
      Multiples(p, e, q);
    }
  }
}
