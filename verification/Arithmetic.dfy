/** Smaller and larger of two numbers, quotients and remainders, and three primes. */
module Arithmetic {
  function Min(a: int, b: int): (r: int)
    ensures r <= a && r <= b && (r == a || r == b)
  {
    if a < b then a else b
  }

  function Max(a: int, b: int): (r: int)
    ensures r >= a && r >= b && (r == a || r == b)
  {
    if a < b then b else a
  }

  // A power of two.
  function TwoTo(n: nat): (r: nat)
    ensures r > 0
  {
    if n == 0 then 1 else 2 * TwoTo(n - 1)
  }

  lemma ModUnique(a: int, n: int, q: int, r: int)
    requires n > 0 && a == n * q + r && 0 <= r < n
    ensures a % n == r
  {
    var p := a / n;
    assert a == n * p + a % n;
    if q > p { MulOrder(n, q, p); }
    if q < p { MulOrder(n, p, q); }
  }

  lemma MulOrder(n: int, a: int, b: int)
    requires n > 0 && a > b
    ensures n * a >= n * b + n
  {
    assert n * a == n * b + n * (a - b);
    MulAtLeast(n, a - b);
  }

  lemma MulAtLeast(n: int, k: int)
    requires n > 0 && k >= 1
    ensures n * k >= n
  {
  }

  // ------------------------------------------------------------------- primes

  lemma MulAtLeastBoth(a: int, b: int, n: nat)
    requires a >= n && b >= n
    ensures a * b >= n * n
  {
    assert a * b >= n * b && n * b >= n * n;
  }

  lemma SmallFactor(p: nat, m: nat, x: nat)
    requires p in {7, 31, 151} && p == m * x && 2 <= m <= 12
    ensures x == 1
  {
    assert m == 2 || m == 3 || m == 4 || m == 5 || m == 6 || m == 7
        || m == 8 || m == 9 || m == 10 || m == 11 || m == 12;
  }

  lemma Prime(p: nat, r: nat)
    requires p in {7, 31, 151} && 1 < r < p
    ensures p % r != 0
  {
    var q := p / r;
    if p % r == 0 {
      assert p == q * r;
      if q >= 13 && r >= 13 {
        MulAtLeastBoth(q, r, 13);
      } else if r < 13 {
        SmallFactor(p, r, q);
      } else {
        SmallFactor(p, q, r);
      }
    }
  }

  lemma Ring(a: int, b: int, c: int, p: int, q: int, r: int)
    requires a == p * q + r && a * b == p * c
    ensures r * b == p * (c - q * b)
  {
    assert a * b == (p * q) * b + r * b;
    assert (p * q) * b == p * (q * b);
    assert p * (c - q * b) == p * c - p * (q * b);
  }

  // A prime that divides a product divides one of its factors.
  lemma {:induction false} Euclid(p: nat, a: nat, b: int, c: int) returns (d: int)
    requires p in {7, 31, 151} && a * b == p * c && a % p != 0
    ensures b == p * d
    decreases a % p
  {
    var q, r := a / p, a % p;
    Ring(a, b, c, p, q, r);
    d := c - q * b;
    if r > 1 {
      Prime(p, r);
      var s := p % r;
      Descend(p, b, r, s, p / r, d);
      ModUnique(s, p, 0, s);
      d := Euclid(p, s, b, b - (p / r) * d);
    }
  }

  lemma Descend(p: int, b: int, r: int, s: int, u: int, d: int)
    requires p == r * u + s && r * b == p * d
    ensures s * b == p * (b - u * d)
  {
    assert p * b == (r * u) * b + s * b;
    assert (r * u) * b == u * (r * b) == u * (p * d) == p * (u * d);
    assert p * (b - u * d) == p * b - p * (u * d);
  }
}
