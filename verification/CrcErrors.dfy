/** The shortest errors that the 16-bit checksum does not notice. */
module CrcErrors {
  import opened Crc16

  // x^16 + x^15 + x^2 + 1, with its leading term.
  const GENERATOR: seq<bool> := [true] + POLYNOMIAL

  // --------------------------------------------------- bursts of 17 bits

  // Some bit is set, and all set bits lie within 17 consecutive places.
  ghost predicate IsLongBurst(bits: seq<bool>, start: nat) {
    (exists i :: 0 <= i < |bits| && bits[i]) &&
    forall i | 0 <= i < |bits| && bits[i] :: start <= i < start + 17
  }

  lemma ShortBurst(bits: seq<bool>, start: nat)
    requires IsLongBurst(bits, start) && (start + 17 > |bits| || !bits[start])
    ensures CrcBits(ZERO, bits) != ZERO
    ensures start + 17 <= |bits| ==> bits[start..start + 17] != GENERATOR
  {
    hide CrcBits;
    var from := if start + 17 > |bits| then start else start + 1;
    assert forall i | 0 <= i < |bits| && bits[i] :: from <= i < from + 16;
    BurstChecksum(bits, from);
    if start + 17 <= |bits| { assert bits[start..start + 17][0] == bits[start] && GENERATOR[0]; }
  }

  lemma FeedOne()
    ensures FeedBit(ZERO, true) == POLYNOMIAL
  {
    assert Xor(ZERO, TOP_BIT) == TOP_BIT;
    assert ShiftLeft(TOP_BIT) == ZERO;
    assert Xor(ZERO, POLYNOMIAL) == POLYNOMIAL;
  }

  // A one and 16 more bits leave nothing exactly if they are the generator.
  lemma GeneratorOnly(window: seq<bool>)
    requires |window| == 17 && window[0]
    ensures CrcBits(ZERO, window) == ZERO <==> window == GENERATOR
  {
    var low: Word := window[1..];
    FeedOne();
    assert CrcBits(ZERO, window) == CrcBits(POLYNOMIAL, low);
    hide CrcBits, Shifts, Xor;
    FeedBitsAtOnce(POLYNOMIAL, low);
    assert Pad(low) == low && window == [true] + low;
    XorZero(POLYNOMIAL, low);
    if Shifts(Xor(POLYNOMIAL, low), 16) == ZERO { ShiftsInjective(Xor(POLYNOMIAL, low), 16); }
    ShiftsZero(16);
    assert window[1..] == low && GENERATOR[1..] == POLYNOMIAL;
  }

  lemma BetweenZeros(start: nat, window: seq<bool>, tail: nat)
    ensures CrcBits(ZERO, Zeros(start) + window + Zeros(tail)) == ZERO <==> CrcBits(ZERO, window) == ZERO
  {
    hide CrcBits, Shifts;
    CrcBitsConcat(ZERO, Zeros(start), window);
    CrcBitsConcat(ZERO, Zeros(start) + window, Zeros(tail));
    FeedZeros(ZERO, start);
    ShiftsZero(start);
    FeedZeros(CrcBits(ZERO, window), tail);
    if Shifts(CrcBits(ZERO, window), tail) == ZERO { ShiftsInjective(CrcBits(ZERO, window), tail); }
    ShiftsZero(tail);
  }

  lemma LongBurstChecksum(bits: seq<bool>, start: nat)
    requires IsLongBurst(bits, start)
    ensures CrcBits(ZERO, bits) == ZERO <==> start + 17 <= |bits| && bits[start..start + 17] == GENERATOR
  {
    if start + 17 > |bits| || !bits[start] {
      ShortBurst(bits, start);
    } else {
      var window, tail := bits[start..start + 17], |bits| - start - 17;
      assert bits == Zeros(start) + window + Zeros(tail);
      hide CrcBits;
      BetweenZeros(start, window, tail);
      GeneratorOnly(window);
    }
  }

  // An error within 17 consecutive bits goes unnoticed exactly if they are the generator.
  lemma LongBurstUnnoticed(data: seq<Byte>, error: seq<Byte>, start: nat)
    requires |error| == |data| && IsLongBurst(Bits(error), start)
    ensures Crc(ZERO, XorBytes(data, error)) == Crc(ZERO, data)
      <==> start + 17 <= 8 * |error| && Bits(error)[start..start + 17] == GENERATOR
  {
    ErrorUnnoticed(data, error);
    CrcIsBitSerial(ZERO, error);
    LongBurstChecksum(Bits(error), start);
  }

  // ------------------------------------------------------------ two flipped bits

  // x^0
  const ONE: Word := Zeros(15) + [true]

  // Exactly the bits at two places are set.
  ghost predicate IsPair(bits: seq<bool>, i: nat, j: nat) {
    i < j < |bits| && bits[i] && bits[j] && forall k | 0 <= k < |bits| && bits[k] :: k == i || k == j
  }

  lemma {:induction false} ShiftsAdd(c: Word, m: nat, n: nat)
    ensures Shifts(c, m + n) == Shifts(Shifts(c, m), n)
    decreases m
  {
    if m > 0 { ShiftsAdd(Shift(c), m - 1, n); }
  }

  lemma SameShift(a: Word, b: Word, n: nat)
    ensures Shifts(a, n) == Shifts(b, n) <==> a == b
  {
    hide Shifts;
    ShiftsLinear(a, b, n);
    XorZero(a, b);
    XorZero(Shifts(a, n), Shifts(b, n));
    if Shifts(a, n) == Shifts(b, n) { ShiftsInjective(Xor(a, b), n); }
  }

  // A one, zeros and another one leave nothing exactly if shifting by their distance does
  // nothing to x^15.
  lemma PairWindow(d: nat)
    requires d > 0
    ensures CrcBits(ZERO, [true] + Zeros(d - 1) + [true]) == ZERO <==> Shifts(TOP_BIT, d) == TOP_BIT
  {
    var c := CrcBits(ZERO, [true] + Zeros(d - 1));
    FeedSingle(ZERO);
    FeedSingle(c);
    FeedOne();
    TopShifted();
    hide *;
    ShiftsAdd(TOP_BIT, 1, d - 1);
    CrcBitsConcat(ZERO, [true] + Zeros(d - 1), [true]);
    CrcBitsConcat(ZERO, [true], Zeros(d - 1));
    FeedZeros(POLYNOMIAL, d - 1);
    assert c == Shifts(TOP_BIT, d);
    XorZero(c, TOP_BIT);
    ShiftZero(Xor(c, TOP_BIT));
  }

  lemma FeedSingle(c: Word)
    ensures CrcBits(c, [true]) == FeedBit(c, true) == Shift(Xor(c, TOP_BIT))
  {
    hide Shift, Xor;
    assert [true][1..] == [];
  }

  lemma TopShifted()
    ensures Shifts(TOP_BIT, 1) == POLYNOMIAL
  {
    FeedOne();
    assert Xor(ZERO, TOP_BIT) == TOP_BIT;
    hide Shift, Xor;
    assert Shifts(Shift(TOP_BIT), 0) == Shift(TOP_BIT);
  }

  lemma ShiftZero(c: Word)
    ensures Shift(c) == ZERO <==> c == ZERO
  {
    if Shift(c) == ZERO { ShiftInjective(c); }
    assert Shift(ZERO) == ZERO;
  }

  lemma TopIsPower(d: nat)
    ensures Shifts(TOP_BIT, d) == TOP_BIT <==> Shifts(ONE, d) == ONE
  {
    OneToTop();
    hide Shifts;
    ShiftsAdd(ONE, 15, d);
    ShiftsAdd(ONE, d, 15);
    SameShift(Shifts(ONE, d), ONE, 15);
  }

  lemma {:induction false} ShiftsPlain(c: Word, n: nat)
    requires n <= 16 && forall i | 0 <= i < n :: !c[i]
    ensures Shifts(c, n) == c[n..] + Zeros(n)
    decreases n
  {
    if n > 0 {
      ShiftsPlain(Shift(c), n - 1);
      assert Shift(c)[n - 1..] + Zeros(n - 1) == c[n..] + Zeros(n);
    } else {
      assert c[0..] + Zeros(0) == c;
    }
  }

  lemma OneToTop()
    ensures Shifts(ONE, 15) == TOP_BIT
  {
    hide Shifts;
    ShiftsPlain(ONE, 15);
    assert ONE[15..] + Zeros(15) == TOP_BIT;
  }

  lemma PairChecksum(bits: seq<bool>, i: nat, j: nat)
    requires IsPair(bits, i, j)
    ensures CrcBits(ZERO, bits) == ZERO <==> Shifts(ONE, j - i) == ONE
  {
    var window, tail := [true] + Zeros(j - i - 1) + [true], |bits| - j - 1;
    assert bits == Zeros(i) + window + Zeros(tail);
    hide CrcBits, Shifts;
    BetweenZeros(i, window, tail);
    PairWindow(j - i);
    TopIsPower(j - i);
  }
}
