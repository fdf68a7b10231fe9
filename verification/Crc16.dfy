/** The 16-bit checksum of calculateCRC: generator x^16 + x^15 + x^2 + 1, most significant bit first.
    Bytes and words are sequences of bits, most significant bit first. */
module Crc16 {
  type Byte = b: seq<bool> | |b| == 8 witness seq(8, _ => false)
  type Word = w: seq<bool> | |w| == 16 witness seq(16, _ => false)

  function Zeros(n: nat): (r: seq<bool>)
    ensures |r| == n && forall i | 0 <= i < n :: !r[i]
  {
    seq(n, _ => false)
  }

  const ZERO: Word := Zeros(16)

  // 0x8005
  const POLYNOMIAL: Word :=
    [true, false, false, false, false, false, false, false,
     false, false, false, false, false, true, false, true]

  // Bitwise exclusive or.
  function Xor(a: seq<bool>, b: seq<bool>): (r: seq<bool>)
    requires |a| == |b|
    ensures |r| == |a|
  {
    seq(|a|, i requires 0 <= i < |a| => a[i] != b[i])
  }

  // crc << 1 in 16 bits.
  function ShiftLeft(c: Word): Word {
    c[1..] + [false]
  }

  // One pass of the inner loop.
  function Shift(c: Word): Word {
    if c[0] then Xor(ShiftLeft(c), POLYNOMIAL) else ShiftLeft(c)
  }

  function Shifts(c: Word, n: nat): Word
    decreases n
  {
    if n == 0 then c else Shifts(Shift(c), n - 1)
  }

  // byte << 8
  function HighByte(b: Byte): Word {
    b + Zeros(8)
  }

  function FeedByte(c: Word, b: Byte): Word {
    Shifts(Xor(c, HighByte(b)), 8)
  }

  // The checksum of data, continuing from c.
  function Crc(c: Word, data: seq<Byte>): Word
    decreases |data|
  {
    if data == [] then c else Crc(FeedByte(c, data[0]), data[1..])
  }

  method CalculateCrc(data: seq<Byte>) returns (crc: Word)
    ensures crc == Crc(ZERO, data)
  {
    hide Xor, ShiftLeft, HighByte;
    crc := ZERO;
    var n := 0;
    while n < |data|
      invariant n <= |data| && Crc(crc, data[n..]) == Crc(ZERO, data)
    {
      CrcStep(crc, data, n);
      ghost var fed := FeedByte(crc, data[n]);
      crc := Xor(crc, HighByte(data[n]));
      var i := 0;
      while i < 8
        invariant i <= 8 && Shifts(crc, 8 - i) == fed
      {
        if crc[0] {
          crc := Xor(ShiftLeft(crc), POLYNOMIAL);
        } else {
          crc := ShiftLeft(crc);
        }
        i := i + 1;
      }
      n := n + 1;
    }
  }

  lemma CrcStep(c: Word, data: seq<Byte>, n: nat)
    requires n < |data|
    ensures Crc(c, data[n..]) == Crc(FeedByte(c, data[n]), data[n + 1..])
  {
    assert data[n..][1..] == data[n + 1..];
  }

  // --------------------------------------------------------------- linearity

  function XorBytes(a: seq<Byte>, b: seq<Byte>): (r: seq<Byte>)
    requires |a| == |b|
    ensures |r| == |a|
  {
    seq(|a|, i requires 0 <= i < |a| => Xor(a[i], b[i]))
  }

  lemma ShiftLinear(c: Word, d: Word)
    ensures Shift(Xor(c, d)) == Xor(Shift(c), Shift(d))
  {
    assert ShiftLeft(Xor(c, d)) == Xor(ShiftLeft(c), ShiftLeft(d));
  }

  lemma {:induction false} ShiftsLinear(c: Word, d: Word, n: nat)
    ensures Shifts(Xor(c, d), n) == Xor(Shifts(c, n), Shifts(d, n))
    decreases n
  {
    if n > 0 {
      ShiftLinear(c, d);
      ShiftsLinear(Shift(c), Shift(d), n - 1);
    }
  }

  // The checksum of the bitwise XOR is the XOR of the checksums.
  lemma {:induction false} CrcLinear(c: Word, d: Word, a: seq<Byte>, b: seq<Byte>)
    requires |a| == |b|
    ensures Crc(Xor(c, d), XorBytes(a, b)) == Xor(Crc(c, a), Crc(d, b))
    decreases |a|
  {
    if a != [] {
      var p, q := HighByte(a[0]), HighByte(b[0]);
      assert Xor(Xor(c, d), HighByte(Xor(a[0], b[0]))) == Xor(Xor(c, p), Xor(d, q));
      ShiftsLinear(Xor(c, p), Xor(d, q), 8);
      assert XorBytes(a, b)[1..] == XorBytes(a[1..], b[1..]);
      CrcLinear(FeedByte(c, a[0]), FeedByte(d, b[0]), a[1..], b[1..]);
    }
  }

  // An error pattern goes unnoticed exactly when its own checksum is zero.
  lemma ErrorUnnoticed(data: seq<Byte>, error: seq<Byte>)
    requires |error| == |data|
    ensures Crc(ZERO, XorBytes(data, error)) == Crc(ZERO, data) <==> Crc(ZERO, error) == ZERO
  {
    var a, b := Crc(ZERO, data), Crc(ZERO, error);
    assert Xor(ZERO, ZERO) == ZERO;
    CrcLinear(ZERO, ZERO, data, error);
    if Xor(a, b) == a {
      forall i | 0 <= i < 16 ensures !b[i] {
        assert Xor(a, b)[i] == a[i];
      }
      assert b == ZERO;
    }
    assert Xor(a, ZERO) == a;
  }

  // ------------------------------------------------------------ bit by bit

  function Bits(data: seq<Byte>): (r: seq<bool>)
    ensures |r| == 8 * |data|
  {
    if data == [] then [] else data[0] + Bits(data[1..])
  }

  const TOP_BIT: Word := [true] + Zeros(15)

  function FeedBit(c: Word, bit: bool): Word {
    Shift(if bit then Xor(c, TOP_BIT) else c)
  }

  function CrcBits(c: Word, bits: seq<bool>): Word
    decreases |bits|
  {
    if bits == [] then c else CrcBits(FeedBit(c, bits[0]), bits[1..])
  }

  // At most 16 bits, followed by zeros.
  function Pad(bits: seq<bool>): Word
    requires |bits| <= 16
  {
    bits + Zeros(16 - |bits|)
  }

  // Up to 16 bits fed one by one act as if XORed in at once and shifted through.
  lemma {:induction false} FeedBitsAtOnce(c: Word, bits: seq<bool>)
    requires |bits| <= 16
    ensures CrcBits(c, bits) == Shifts(Xor(c, Pad(bits)), |bits|)
    decreases |bits|
  {
    if bits == [] {
      assert Xor(c, Pad(bits)) == c;
    } else {
      var rest := bits[1..];
      FeedBitShift(c, bits);
      FeedBitsAtOnce(FeedBit(c, bits[0]), rest);
    }
  }

  lemma FeedBitShift(c: Word, bits: seq<bool>)
    requires 0 < |bits| <= 16
    ensures Shift(Xor(c, Pad(bits))) == Xor(FeedBit(c, bits[0]), Pad(bits[1..]))
  {
    var top: Word := if bits[0] then TOP_BIT else ZERO;
    var low: Word := [false] + Pad(bits)[1..];
    assert Xor(c, Pad(bits)) == Xor(Xor(c, top), low);
    assert Xor(c, ZERO) == c;
    ShiftLinear(Xor(c, top), low);
    assert Shift(low) == Pad(bits[1..]);
  }

  lemma {:induction false} CrcBitsConcat(c: Word, a: seq<bool>, b: seq<bool>)
    ensures CrcBits(c, a + b) == CrcBits(CrcBits(c, a), b)
    decreases |a|
  {
    if a == [] {
      assert a + b == b;
    } else {
      assert (a + b)[1..] == a[1..] + b;
      CrcBitsConcat(FeedBit(c, a[0]), a[1..], b);
    }
  }

  // The bytewise checksum is the bit-serial one.
  lemma {:induction false} CrcIsBitSerial(c: Word, data: seq<Byte>)
    ensures Crc(c, data) == CrcBits(c, Bits(data))
    decreases |data|
  {
    if data != [] {
      assert HighByte(data[0]) == Pad(data[0]);
      FeedBitsAtOnce(c, data[0]);
      CrcBitsConcat(c, data[0], Bits(data[1..]));
      CrcIsBitSerial(FeedByte(c, data[0]), data[1..]);
    }
  }

  // ------------------------------------------------------------------ parity

  // Whether an odd number of the bits is set.
  function Odd(bits: seq<bool>): bool {
    bits != [] && (bits[0] != Odd(bits[1..]))
  }

  lemma {:induction false} OddXor(a: seq<bool>, b: seq<bool>)
    requires |a| == |b|
    ensures Odd(Xor(a, b)) == (Odd(a) != Odd(b))
  {
    if a != [] {
      assert Xor(a, b)[1..] == Xor(a[1..], b[1..]);
      OddXor(a[1..], b[1..]);
    }
  }

  lemma {:induction false} OddConcat(a: seq<bool>, b: seq<bool>)
    ensures Odd(a + b) == (Odd(a) != Odd(b))
  {
    if a == [] {
      assert a + b == b;
    } else {
      assert (a + b)[1..] == a[1..] + b;
      OddConcat(a[1..], b);
    }
  }

  lemma {:induction false} OddZeros(n: nat)
    ensures !Odd(Zeros(n))
  {
    if n > 0 {
      assert Zeros(n)[1..] == Zeros(n - 1);
      OddZeros(n - 1);
    }
  }

  lemma OddPolynomial()
    ensures Odd(POLYNOMIAL)
  {
    var tail := [true, false, true];
    assert Odd(tail) == false by {
      assert tail[1..] == [false, true] && tail[1..][1..] == [true] && [true][1..] == [];
    }
    assert POLYNOMIAL == [true] + Zeros(12) + tail;
    OddZeros(12);
    OddConcat([true], Zeros(12));
    OddConcat([true] + Zeros(12), tail);
    assert [true][1..] == [];
  }

  // The generator has an even number of terms, so shifting keeps the parity.
  lemma ShiftKeepsParity(c: Word)
    ensures Odd(Shift(c)) == Odd(c)
  {
    OddConcat(c[1..], [false]);
    assert [false][1..] == [];
    if c[0] {
      OddPolynomial();
      OddXor(ShiftLeft(c), POLYNOMIAL);
    }
  }

  // The parity of the checksum is the parity of the data.
  lemma {:induction false} CrcParity(c: Word, bits: seq<bool>)
    ensures Odd(CrcBits(c, bits)) == (Odd(c) != Odd(bits))
    decreases |bits|
  {
    if bits != [] {
      var fed: Word := if bits[0] then Xor(c, TOP_BIT) else c;
      OddZeros(15);
      assert TOP_BIT[1..] == Zeros(15);
      OddXor(c, TOP_BIT);
      ShiftKeepsParity(fed);
      CrcParity(FeedBit(c, bits[0]), bits[1..]);
    }
  }

  // ------------------------------------------------------------------ bursts

  lemma ShiftInjective(c: Word)
    ensures Shift(c) == ZERO ==> c == ZERO
  {
    var left := ShiftLeft(c);
    if c[0] {
      assert Shift(c)[15] && !ZERO[15];
    } else if Shift(c) == ZERO {
      forall i | 0 <= i < 16 ensures !c[i] {
        if i > 0 { assert left[i - 1] == c[i]; }
      }
    }
  }

  lemma {:induction false} ShiftsInjective(c: Word, n: nat)
    requires Shifts(c, n) == ZERO
    ensures c == ZERO
    decreases n
  {
    if n > 0 {
      ShiftsInjective(Shift(c), n - 1);
      ShiftInjective(c);
    }
  }

  lemma {:induction false} FeedZeros(c: Word, n: nat)
    ensures CrcBits(c, Zeros(n)) == Shifts(c, n)
    decreases n
  {
    if n > 0 {
      assert Zeros(n)[1..] == Zeros(n - 1);
      FeedZeros(Shift(c), n - 1);
    }
  }

  lemma {:induction false} ShiftsZero(n: nat)
    ensures Shifts(ZERO, n) == ZERO
  {
    if n > 0 {
      assert Shift(ZERO) == ZERO;
      ShiftsZero(n - 1);
    }
  }

  // Some bit is set, and all set bits lie within 16 consecutive places.
  ghost predicate IsBurst(bits: seq<bool>, start: nat) {
    (exists i :: 0 <= i < |bits| && bits[i]) &&
    forall i | 0 <= i < |bits| && bits[i] :: start <= i < start + 16
  }

  lemma BurstChecksum(bits: seq<bool>, start: nat)
    requires IsBurst(bits, start)
    ensures CrcBits(ZERO, bits) != ZERO
  {
    var window, tail := BurstWindow(bits, start);
    hide CrcBits, Shifts, Xor, Pad;
    CrcBitsConcat(ZERO, Zeros(start), window);
    CrcBitsConcat(ZERO, Zeros(start) + window, Zeros(tail));
    FeedZeros(ZERO, start);
    ShiftsZero(start);
    FeedZeros(CrcBits(ZERO, window), tail);
    if CrcBits(ZERO, bits) == ZERO {
      ShiftsInjective(CrcBits(ZERO, window), tail);
      assert false by { WindowChecksum(window); }
    }
  }

  // A burst is up to 16 bits, one of them set, between zeros.
  lemma BurstWindow(bits: seq<bool>, start: nat) returns (window: seq<bool>, tail: nat)
    requires IsBurst(bits, start)
    ensures bits == Zeros(start) + window + Zeros(tail)
    ensures |window| <= 16 && exists i :: 0 <= i < |window| && window[i]
  {
    var k :| 0 <= k < |bits| && bits[k];
    var end := if start + 16 <= |bits| then start + 16 else |bits|;
    window, tail := bits[start..end], |bits| - end;
    assert window[k - start];
  }

  lemma WindowChecksum(window: seq<bool>)
    requires |window| <= 16 && exists i :: 0 <= i < |window| && window[i]
    ensures CrcBits(ZERO, window) != ZERO
  {
    var k :| 0 <= k < |window| && window[k];
    PadBit(window, k);
    hide *;
    FeedBitsAtOnce(ZERO, window);
    var x: Word := Xor(ZERO, Pad(window));
    if Shifts(x, |window|) == ZERO { ShiftsInjective(x, |window|); }
  }

  lemma PadBit(window: seq<bool>, k: nat)
    requires k < |window| <= 16 && window[k]
    ensures Xor(ZERO, Pad(window)) != ZERO
  {
    assert Pad(window)[k] && !ZERO[k];
    assert Xor(ZERO, Pad(window))[k];
  }

  // -------------------------------------------------------------- main results

  // Every error that flips an odd number of bits changes the checksum.
  lemma OddErrorDetected(data: seq<Byte>, error: seq<Byte>)
    requires |error| == |data| && Odd(Bits(error))
    ensures Crc(ZERO, XorBytes(data, error)) != Crc(ZERO, data)
  {
    ErrorUnnoticed(data, error);
    CrcIsBitSerial(ZERO, error);
    CrcParity(ZERO, Bits(error));
    OddZeros(16);
  }

  // So does every error whose flipped bits lie within 16 consecutive bits.
  lemma BurstErrorDetected(data: seq<Byte>, error: seq<Byte>, start: nat)
    requires |error| == |data| && IsBurst(Bits(error), start)
    ensures Crc(ZERO, XorBytes(data, error)) != Crc(ZERO, data)
  {
    ErrorUnnoticed(data, error);
    CrcIsBitSerial(ZERO, error);
    BurstChecksum(Bits(error), start);
  }

  // Appending the checksum, high byte first, makes the checksum of the whole zero:
  // the receiver's test.
  lemma AppendedChecksum(data: seq<Byte>, high: Byte, low: Byte)
    ensures Crc(ZERO, data + [high, low]) == ZERO <==> high + low == Crc(ZERO, data)
  {
    var c, sum: Word := Crc(ZERO, data), high + low;
    CrcIsBitSerial(ZERO, data + [high, low]);
    CrcIsBitSerial(ZERO, data);
    BitsConcat(data, [high, low]);
    TwoBytes(high, low);
    hide Crc, CrcBits, Shifts, Xor, Bits;
    CrcBitsConcat(ZERO, Bits(data), sum);
    FeedBitsAtOnce(c, sum);
    assert Pad(sum) == sum;
    XorZero(c, sum);
    if Shifts(Xor(c, sum), 16) == ZERO { ShiftsInjective(Xor(c, sum), 16); }
    ShiftsZero(16);
  }

  lemma TwoBytes(high: Byte, low: Byte)
    ensures Bits([high, low]) == high + low
  {
    assert [high, low][1..] == [low] && [low][1..] == [];
  }

  lemma XorZero(a: Word, b: Word)
    ensures Xor(a, b) == ZERO <==> a == b
  {
    if Xor(a, b) == ZERO {
      forall i | 0 <= i < 16 ensures a[i] == b[i] {
        assert !Xor(a, b)[i];
      }
      assert a == b;
    }
    assert a == b ==> Xor(a, b) == ZERO;
  }

  lemma {:induction false} BitsConcat(a: seq<Byte>, b: seq<Byte>)
    ensures Bits(a + b) == Bits(a) + Bits(b)
  {
    if a == [] {
      assert a + b == b;
    } else {
      assert (a + b)[1..] == a[1..] + b;
      BitsConcat(a[1..], b);
    }
  }
}
