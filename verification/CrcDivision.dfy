/** The checksum is the remainder of a division of polynomials over two elements. */
module CrcDivision {
  import opened Crc16
  import opened CrcErrors

  // The terms of the generator.
  lemma GeneratorTerms(i: nat)
    requires i < 17
    ensures GENERATOR[i] <==> 16 - i in {16, 15, 2, 0}
  {
  }

  // The product of a polynomial and the generator, coefficients of high powers first.
  function Product(q: seq<bool>): (r: seq<bool>)
    ensures |r| == |q| + 16
  {
    if q == [] then Zeros(16)
    else Xor(if q[0] then GENERATOR + Zeros(|q| - 1) else Zeros(|q| + 16), [false] + Product(q[1..]))
  }

  // The bits that leave the register while c is shifted over the bits.
  function Quotient(c: Word, bits: seq<bool>): (q: seq<bool>)
    ensures |q| == |bits|
    decreases |bits|
  {
    if bits == [] then [] else [c[0] != bits[0]] + Quotient(FeedBit(c, bits[0]), bits[1..])
  }

  // The bits with c in front of them, and r behind.
  function Dividend(c: Word, bits: seq<bool>, r: Word): (x: seq<bool>)
    ensures |x| == |bits| + 16
  {
    Xor(bits + r, c + Zeros(|bits|))
  }

  lemma FedBit(c: Word, bit: bool, j: nat)
    requires j < 16
    ensures FeedBit(c, bit)[j] == ((c[1..] + [false])[j] != (c[0] != bit && POLYNOMIAL[j]))
  {
    var fed: Word := if bit then Xor(c, TOP_BIT) else c;
    assert fed[0] == (c[0] != bit);
    if j < 15 { assert fed[j + 1] == c[j + 1]; }
  }

  // Dropping the first bit of a dividend subtracts the generator if that bit is set.
  lemma DividendStep(c: Word, bits: seq<bool>, r: Word, j: nat)
    requires bits != [] && j < |bits| + 15
    ensures Dividend(c, bits, r)[0] == (c[0] != bits[0])
    ensures var term := if c[0] != bits[0] then GENERATOR + Zeros(|bits| - 1) else Zeros(|bits| + 16);
      Dividend(c, bits, r)[j + 1] == (term[j + 1] != Dividend(FeedBit(c, bits[0]), bits[1..], r)[j])
  {
    hide FeedBit;
    var rest := bits[1..];
    assert (bits + r)[j + 1] == (rest + r)[j];
    if j < 16 {
      FedBit(c, bits[0], j);
      assert (c + Zeros(|bits|))[j + 1] == (c[1..] + [false])[j];
    }
  }

  lemma DivisionStep(c: Word, bits: seq<bool>, r: Word, q: seq<bool>)
    requires |q| == |bits| > 0
    ensures Dividend(c, bits, r) == Product(q) <==>
      q[0] == (c[0] != bits[0]) && Dividend(FeedBit(c, bits[0]), bits[1..], r) == Product(q[1..])
  {
    var x, y := Dividend(c, bits, r), Dividend(FeedBit(c, bits[0]), bits[1..], r);
    var term := if q[0] then GENERATOR + Zeros(|q| - 1) else Zeros(|q| + 16);
    assert term[0] == q[0];
    ProductStep(q);
    hide Product, Dividend, FeedBit;
    DividendStep(c, bits, r, 0);
    if q[0] == (c[0] != bits[0]) {
      forall j | 0 <= j < |y| ensures x[j + 1] == (term[j + 1] != y[j]) { DividendStep(c, bits, r, j); }
      Subtracted(x, y, term, Product(q[1..]));
    } else {
      assert Xor(term, [false] + Product(q[1..]))[0] == q[0] != x[0];
    }
  }

  lemma Subtracted(x: seq<bool>, y: seq<bool>, term: seq<bool>, z: seq<bool>)
    requires |x| == |term| == |y| + 1 && |z| == |y| && x[0] == term[0]
    requires forall j | 0 <= j < |y| :: x[j + 1] == (term[j + 1] != y[j])
    ensures x == Xor(term, [false] + z) <==> y == z
  {
    var p := Xor(term, [false] + z);
    assert forall k | 0 < k < |p| :: p[k] == (term[k] != z[k - 1]);
    if x == p {
      forall j | 0 <= j < |y| ensures y[j] == z[j] { assert x[j + 1] == p[j + 1]; }
    }
    if y == z {
      forall k | 0 <= k < |x| ensures x[k] == p[k] {
        if k > 0 { assert x[(k - 1) + 1] == (term[(k - 1) + 1] != y[k - 1]); }
      }
    }
  }

  lemma ProductStep(q: seq<bool>)
    requires q != []
    ensures Product(q) == Xor(if q[0] then GENERATOR + Zeros(|q| - 1) else Zeros(|q| + 16), [false] + Product(q[1..]))
  {
  }

  // A dividend is a multiple of the generator for one quotient and one remainder only.
  lemma {:induction false} Division(c: Word, bits: seq<bool>, r: Word, q: seq<bool>)
    requires |q| == |bits|
    ensures Dividend(c, bits, r) == Product(q) <==> r == CrcBits(c, bits) && q == Quotient(c, bits)
    decreases |bits|
  {
    hide FeedBit;
    if bits == [] {
      assert bits + r == r && c + Zeros(0) == c;
      XorZero(r, c);
    } else {
      DivisionStep(c, bits, r, q);
      Division(FeedBit(c, bits[0]), bits[1..], r, q[1..]);
      assert q == [q[0]] + q[1..];
      var later := Quotient(FeedBit(c, bits[0]), bits[1..]);
      assert Quotient(c, bits)[0] == (c[0] != bits[0]) && Quotient(c, bits)[1..] == later;
    }
  }

  // The checksum is the one word that makes the data, with the word behind it, a multiple
  // of the generator: the remainder of the data times x^16.
  lemma CrcIsRemainder(data: seq<Byte>, r: Word)
    ensures Crc(ZERO, data) == r <==> exists q | |q| == 8 * |data| :: Bits(data) + r == Product(q)
  {
    var bits := Bits(data);
    CrcIsBitSerial(ZERO, data);
    hide Crc, CrcBits, Bits, Product, Quotient;
    assert Dividend(ZERO, bits, r) == bits + r by { NothingBefore(bits, r); }
    hide Dividend;
    Division(ZERO, bits, r, Quotient(ZERO, bits));
    forall q | |q| == |bits| && bits + r == Product(q) ensures r == CrcBits(ZERO, bits) {
      Division(ZERO, bits, r, q);
    }
  }

  lemma NothingBefore(bits: seq<bool>, r: Word)
    ensures Dividend(ZERO, bits, r) == bits + r
  {
    assert ZERO + Zeros(|bits|) == Zeros(|bits| + 16);
  }
}
