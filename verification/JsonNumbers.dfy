/** What comparing numbers of different kinds means: operator== against the numbers themselves. */
module JsonNumbers {
  import opened Arithmetic
  import opened JsonValue

  const TWO_53 := 0x20_0000_0000_0000

  // ---------------------------------------------------------- nearest doubles

  // A whole number with at most 53 significant bits.
  ghost predicate IsDouble(x: nat) { exists q: nat, e: nat | q <= TWO_53 :: Scaled(x, q, e) }

  predicate Scaled(x: nat, q: nat, e: nat) { x == q * TwoTo(e) }

  lemma {:induction false} TwoToSum(d: nat, e: nat)
    ensures TwoTo(d + e) == TwoTo(d) * TwoTo(e)
    ensures e >= 1 ==> TwoTo(d) * 2 <= TwoTo(d + e)
    decreases e
  {
    if e > 0 {
      TwoToSum(d, e - 1);
      assert TwoTo(d + e) == 2 * TwoTo(d + (e - 1));
      assert TwoTo(d) * TwoTo(e) == 2 * (TwoTo(d) * TwoTo(e - 1)) by { Swap(TwoTo(d), TwoTo(e - 1)); }
    }
  }

  lemma Swap(a: nat, b: nat)
    ensures a * (2 * b) == 2 * (a * b)
  {
  }

  // Between two neighbouring multiples of a power of two, the lower of them having 53 bits,
  // there is no other such number.
  lemma NothingBetween(x: nat, q: nat, e: nat)
    requires IsDouble(x) && (e == 0 || q >= 0x10_0000_0000_0000)
    ensures x <= q * TwoTo(e) || x >= (q + 1) * TwoTo(e)
  {
    var p: nat, d: nat :| p <= TWO_53 && Scaled(x, p, d);
    if d >= e {
      TwoToSum(e, d - e);
      assert e + (d - e) == d;
      var k := p * TwoTo(d - e);
      assert x == k * TwoTo(e) by { Regroup(p, TwoTo(e), TwoTo(d - e)); }
      if k <= q { Times(k, q, TwoTo(e)); } else { Times(q + 1, k, TwoTo(e)); }
    } else {
      TwoToSum(d, e - d);
      assert d + (e - d) == e;
      Times(p, TWO_53, TwoTo(d));
      Times(0x10_0000_0000_0000, q, TwoTo(e));
      Times(2 * TwoTo(d), TwoTo(e), 0x10_0000_0000_0000);
    }
  }

  lemma Times(a: int, b: int, c: nat)
    requires a <= b
    ensures a * c <= b * c
  {
    assert b * c == a * c + (b - a) * c;
  }

  lemma Regroup(a: int, b: int, c: int)
    ensures a * (b * c) == (a * c) * b
  {
  }

  function Distance(a: int, b: int): nat { if a < b then b - a else a - b }

  // No number of 53 bits is nearer to m than r, and where another one is as near, r is the
  // one whose significand is even.
  ghost predicate Nearest(m: nat, r: nat) {
    IsDouble(r)
    && forall x: nat | IsDouble(x) ::
         Distance(r, m) <= Distance(x, m)
         && (x != r && Distance(r, m) == Distance(x, m) ==> r % (2 * Distance(x, r)) == 0)
  }

  lemma EvenMultiple(q: nat, ulp: nat)
    requires ulp > 0 && q % 2 == 0
    ensures (q * ulp) % (2 * ulp) == 0
  {
    assert q * ulp == 2 * ulp * (q / 2);
    ModUnique(q * ulp, 2 * ulp, q / 2, 0);
  }

  // The multiple of ulp next to m, the even one of two that are as near.
  predicate Rounded(m: nat, q: nat, ulp: nat, k: nat)
    requires ulp > 0
  {
    q * ulp <= m < q * ulp + ulp
    && (k == q || k == q + 1)
    && Distance(k * ulp, m) * 2 <= ulp && (Distance(k * ulp, m) * 2 == ulp ==> k % 2 == 0)
  }

  lemma Quotient(m: nat, ulp: nat) returns (q: nat, rest: nat)
    requires ulp > 0
    ensures q == m / ulp && rest == m % ulp && m == q * ulp + rest && rest < ulp && (q + 1) * ulp == q * ulp + ulp
  {
    q, rest := m / ulp, m % ulp;
  }

  lemma QuotientBelow(m: nat, ulp: nat, q: nat, bound: nat)
    requires q * ulp <= m < (q + 1) * ulp
    ensures m < bound * ulp ==> q < bound
    ensures m >= bound * ulp ==> q >= bound
  {
    if q >= bound { Times(bound, q, ulp); } else { Times(q + 1, bound, ulp); }
  }

  lemma RoundStops(m: nat, e: nat) returns (q: nat, k: nat)
    requires m < TWO_53 * TwoTo(e) && (e == 0 || m >= 0x10_0000_0000_0000 * TwoTo(e))
    ensures Rounded(m, q, TwoTo(e), k) && RoundToSignificand(m, TwoTo(e)) == k * TwoTo(e) && k <= TWO_53
    ensures e == 0 || q >= 0x10_0000_0000_0000
  {
    var ulp, rest := TwoTo(e), 0;
    q, rest := Quotient(m, ulp);
    hide TwoTo;
    QuotientBelow(m, ulp, q, TWO_53);
    QuotientBelow(m, ulp, q, 0x10_0000_0000_0000);
    k := if 2 * rest < ulp || (2 * rest == ulp && q % 2 == 0) then q else q + 1;
    assert RoundToSignificand(m, ulp) == k * ulp;
    hide RoundToSignificand;
  }

  lemma RoundLast(m: nat, e: nat)
    requires m < TWO_53 * TwoTo(e) && (e == 0 || m >= 0x10_0000_0000_0000 * TwoTo(e))
    ensures Nearest(m, RoundToSignificand(m, TwoTo(e)))
  {
    var ulp, r := TwoTo(e), RoundToSignificand(m, TwoTo(e));
    var q, k := RoundStops(m, e);
    hide RoundToSignificand;
    assert Scaled(r, k, e);
    forall x: nat | IsDouble(x)
      ensures Distance(r, m) <= Distance(x, m)
      ensures x != r && Distance(r, m) == Distance(x, m) ==> r % (2 * Distance(x, r)) == 0
    {
      NothingBetween(x, q, e);
      hide IsDouble, TwoTo;
      RoundedNearest(m, q, ulp, k, x);
    }
  }

  lemma RoundedNearest(m: nat, q: nat, ulp: nat, k: nat, x: nat)
    requires ulp > 0 && Rounded(m, q, ulp, k) && (x <= q * ulp || x >= (q + 1) * ulp)
    ensures var r := k * ulp;
      Distance(r, m) <= Distance(x, m)
      && (x != r && Distance(r, m) == Distance(x, m) ==> r % (2 * Distance(x, r)) == 0)
  {
    assert (q + 1) * ulp == q * ulp + ulp;
    if k % 2 == 0 { EvenMultiple(k, ulp); }
  }

  lemma {:induction false} RoundIsNearest(m: nat, e: nat)
    requires e == 0 || m >= 0x10_0000_0000_0000 * TwoTo(e)
    ensures Nearest(m, RoundToSignificand(m, TwoTo(e)))
    decreases m - TwoTo(e)
  {
    if m >= TWO_53 * TwoTo(e) {
      assert TwoTo(e + 1) == 2 * TwoTo(e);
      RoundIsNearest(m, e + 1);
    } else {
      RoundLast(m, e);
    }
  }

  function Size(i: int): nat { if i < 0 then -i else i }

  function Signed(i: int, r: nat): Double { Finite(if i < 0 then -(r as real) else r as real) }

  // The double nearest to an integer, ties to even.
  ghost predicate NearestDouble(i: int, f: Double) { exists r :: Nearest(Size(i), r) && f == Signed(i, r) }

  lemma ToDoubleIsNearest(i: int)
    ensures NearestDouble(i, ToDouble(i))
  {
    assert TwoTo(0) == 1;
    RoundIsNearest(Size(i), 0);
    assert Nearest(Size(i), RoundToSignificand(Size(i), 1));
  }

  // ------------------------------------------------------------- equal numbers

  predicate IsNumber(j: Json) { j.Integer? || j.Unsigned? || j.Float? }

  // The number itself, whatever its kind.
  function NumberOf(j: Json): Double
    requires IsNumber(j)
  {
    match j
    case Integer(i) => Finite(i as real)
    case Unsigned(u) => Finite(u as real)
    case Float(f) => f
  }

  // Whole numbers of at most 53 bits, and all doubles.
  predicate Exact(j: Json) {
    match j
    case Integer(i) => -TWO_53 <= i <= TWO_53
    case Unsigned(u) => u <= TWO_53
    case Float(_) => true
    case _ => false
  }

  lemma ExactConversion(i: int)
    requires -TWO_53 <= i <= TWO_53
    ensures ToDouble(i) == Finite(i as real)
  {
    var m := Size(i);
    if m == TWO_53 {
      assert RoundToSignificand(m, 1) == RoundToSignificand(m, 2) == m;
    } else {
      assert RoundToSignificand(m, 1) == m;
    }
  }

  // Numbers that are exact in 53 bits compare equal exactly if they are the same number,
  // whatever their kinds.
  lemma ExactNumbersEqual(a: Json, b: Json)
    requires Exact(a) && Exact(b)
    ensures Equal(a, b) <==> NumberOf(a) == NumberOf(b) != NaN
  {
    if a.Integer? { ExactConversion(a.i); }
    if a.Unsigned? { ExactConversion(a.u); }
    if b.Integer? { ExactConversion(b.i); }
    if b.Unsigned? { ExactConversion(b.u); }
    hide ToDouble;
  }

  // A signed and an unsigned integer compare equal if they are the same number, and also
  // if they differ by 2^64.
  lemma SignsEqual(i: Int64, u: UInt64)
    ensures Equal(Integer(i), Unsigned(u)) <==> i == u || i == u - TWO_64
    ensures Equal(Unsigned(u), Integer(i)) <==> i == u || i == u - TWO_64
  {
  }

  // An integer of any size equals a double exactly if that is the double nearest to it.
  lemma MixedEqual(a: Json, f: Double)
    requires a.Integer? || a.Unsigned?
    ensures Equal(a, Float(f)) <==> NearestDouble(if a.Integer? then a.i else a.u, f)
    ensures Equal(Float(f), a) <==> NearestDouble(if a.Integer? then a.i else a.u, f)
  {
    var i: int := if a.Integer? then a.i else a.u;
    ToDoubleIsNearest(i);
    assert Equal(a, Float(f)) <==> f == ToDouble(i) by { hide ToDouble; }
    assert Equal(Float(f), a) <==> f == ToDouble(i) by { hide ToDouble; }
    hide *;
    OneNearestDouble(i, f);
  }

  lemma OneNearestDouble(i: int, f: Double)
    requires NearestDouble(i, ToDouble(i))
    ensures NearestDouble(i, f) <==> f == ToDouble(i)
  {
    hide ToDouble, Nearest;
    forall r, s | Nearest(Size(i), r) && Nearest(Size(i), s) ensures r == s { OneNearest(Size(i), r, s); }
  }

  lemma OneNearest(m: nat, r: nat, s: nat)
    requires Nearest(m, r) && Nearest(m, s)
    ensures r == s
  {
    if r != s {
      var d := Distance(r, s);
      assert Distance(r, m) == Distance(s, m) && d == Distance(s, r) && d > 0;
      assert r % (2 * d) == 0 && s % (2 * d) == 0;
      assert r == s + d || s == r + d;
      if r == s + d {
        ModUnique(r, 2 * d, s / (2 * d), d);
      } else {
        ModUnique(s, 2 * d, r / (2 * d), d);
      }
    }
  }
}
