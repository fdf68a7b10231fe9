/** Frame::encodeFrame: the byte layout of a frame and what its checksum protects. */
module FrameCodec {
  import opened Arithmetic
  import opened Crc16
  import opened CrcErrors
  import opened CrcPeriod

  // The fields that encodeFrame sends.
  datatype Fields = Fields(
    registerAddress: Byte,
    readWriteCommand: bool,
    lengthCode: Byte,
    chipAddress: Byte,
    engineAddress: Word,
    data: seq<Word>,
    general: Byte,
    cnt: Byte,
    completion: bool,
    completionWithConditional: bool)

  // static_cast<uint8_t>(w >> 8)
  function HighOf(w: Word): Byte { w[..8] }

  // static_cast<uint8_t>(w & 0xFF)
  function LowOf(w: Word): Byte { w[8..] }

  // A word as two bytes, high byte first.
  function WordBytes(w: Word): (r: seq<Byte>)
    ensures |r| == 2
  {
    [HighOf(w), LowOf(w)]
  }

  lemma WordBytesInjective(v: Word, w: Word)
    requires HighOf(v) == HighOf(w) && LowOf(v) == LowOf(w)
    ensures v == w
  {
    assert v == v[..8] + v[8..] && w == w[..8] + w[8..];
  }

  function DataBytes(data: seq<Word>): (r: seq<Byte>)
    ensures |r| == 2 * |data|
    decreases |data|
  {
    if data == [] then [] else WordBytes(data[0]) + DataBytes(data[1..])
  }

  // (general << 1) & 0xFE with the read/write command in the lowest bit.
  function CommandByte(general: Byte, readWrite: bool): Byte {
    general[1..] + [readWrite]
  }

  function CompletionByte(completion: bool, conditional: bool): Byte {
    Zeros(6) + [conditional, completion]
  }

  function Payload(f: Fields): seq<Byte> {
    [f.registerAddress, f.lengthCode, f.chipAddress]
    + WordBytes(f.engineAddress)
    + DataBytes(f.data)
    + [CommandByte(f.general, f.readWriteCommand), f.cnt, CompletionByte(f.completion, f.completionWithConditional)]
  }

  function Encoding(f: Fields): seq<Byte> {
    Payload(f) + WordBytes(Crc(ZERO, Payload(f)))
  }

  class Frame {
    var registerAddress: Byte
    var readWriteCommand: bool
    var lengthCode: Byte
    var chipAddress: Byte
    var engineAddress: Word
    var data: seq<Word>
    var general: Byte
    var cnt: Byte
    var completion: bool
    var completionWithConditional: bool

    function State(): Fields
      reads this
    {
      Fields(registerAddress, readWriteCommand, lengthCode, chipAddress, engineAddress, data,
             general, cnt, completion, completionWithConditional)
    }

    constructor ()
      ensures State() == Fields(Zeros(8), false, Zeros(8), Zeros(8), ZERO, [], Zeros(8), Zeros(8), false, false)
    {
      registerAddress, readWriteCommand, lengthCode := Zeros(8), false, Zeros(8);
      chipAddress, engineAddress, general, cnt := Zeros(8), ZERO, Zeros(8), Zeros(8);
      completion, completionWithConditional := false, false;
      data := [];
    }

    method EncodeFrame() returns (frameBytes: seq<Byte>)
      ensures frameBytes == Encoding(State())
      ensures Crc(ZERO, frameBytes) == ZERO
    {
      hide Crc, HighOf, LowOf, CommandByte, CompletionByte;
      frameBytes := [registerAddress];
      frameBytes := frameBytes + [lengthCode];
      frameBytes := frameBytes + [chipAddress];
      frameBytes := frameBytes + [HighOf(engineAddress)];
      frameBytes := frameBytes + [LowOf(engineAddress)];
      ghost var header := frameBytes;
      var n := 0;
      while n < |data|
        invariant n <= |data| && frameBytes == header + DataBytes(data[..n])
      {
        DataBytesStep(data, n);
        frameBytes := frameBytes + [HighOf(data[n])];
        frameBytes := frameBytes + [LowOf(data[n])];
        n := n + 1;
      }
      assert data[..n] == data;
      frameBytes := frameBytes + [CommandByte(general, readWriteCommand)];
      frameBytes := frameBytes + [cnt];
      frameBytes := frameBytes + [CompletionByte(completion, completionWithConditional)];
      assert frameBytes == Payload(State());
      var crcValue := CalculateCrc(frameBytes);
      frameBytes := frameBytes + [HighOf(crcValue)];
      frameBytes := frameBytes + [LowOf(crcValue)];
      EncodingChecks(State());
    }
  }

  lemma {:induction false} DataBytesStep(data: seq<Word>, n: nat)
    requires n < |data|
    ensures DataBytes(data[..n + 1]) == DataBytes(data[..n]) + [HighOf(data[n]), LowOf(data[n])]
    decreases n
  {
    if n == 0 {
      assert data[..1][1..] == [] && data[..0] == [];
    } else {
      assert data[..n + 1][1..] == data[1..][..n] && data[..n][1..] == data[1..][..n - 1];
      DataBytesStep(data[1..], n - 1);
    }
  }

  // Every encoded frame has checksum zero.
  lemma EncodingChecks(f: Fields)
    ensures Crc(ZERO, Encoding(f)) == ZERO
  {
    var c := Crc(ZERO, Payload(f));
    assert c == c[..8] + c[8..];
    AppendedChecksum(Payload(f), HighOf(c), LowOf(c));
  }

  // A frame damaged in an odd number of bits, or within 16 consecutive bits, has
  // a checksum other than zero.
  lemma DamagedFrameFails(f: Fields, error: seq<Byte>, start: nat)
    requires |error| == |Encoding(f)|
    requires Odd(Bits(error)) || IsBurst(Bits(error), start)
    ensures Crc(ZERO, XorBytes(Encoding(f), error)) != ZERO
  {
    EncodingChecks(f);
    if Odd(Bits(error)) {
      OddErrorDetected(Encoding(f), error);
    } else {
      BurstErrorDetected(Encoding(f), error, start);
    }
  }

  // Two flipped bits are noticed unless their distance is a multiple of 32767, so always in
  // a frame of fewer than 4096 bytes.
  lemma DamagedPairFails(f: Fields, error: seq<Byte>, i: nat, j: nat)
    requires |error| == |Encoding(f)| && IsPair(Bits(error), i, j)
    ensures Crc(ZERO, XorBytes(Encoding(f), error)) == ZERO <==> (j - i) % 32767 == 0
    ensures |error| < 4096 ==> Crc(ZERO, XorBytes(Encoding(f), error)) != ZERO
  {
    hide Crc, XorBytes, Encoding;
    EncodingChecks(f);
    PairUnnoticed(Encoding(f), error, i, j);
  }

  lemma {:induction false} DataBytesInjective(a: seq<Word>, b: seq<Word>)
    requires DataBytes(a) == DataBytes(b)
    ensures a == b
    decreases |a|
  {
    hide HighOf, LowOf;
    assert |a| == |b|;
    if a != [] {
      var x, y := DataBytes(a), DataBytes(b);
      assert x[0] == HighOf(a[0]) && x[1] == LowOf(a[0]) && y[0] == HighOf(b[0]) && y[1] == LowOf(b[0]);
      WordBytesInjective(a[0], b[0]);
      assert x[2..] == DataBytes(a[1..]) && y[2..] == DataBytes(b[1..]);
      DataBytesInjective(a[1..], b[1..]);
      assert a == [a[0]] + a[1..] && b == [b[0]] + b[1..];
    }
  }

  // Where the fields lie in the payload.
  lemma PayloadLayout(f: Fields)
    ensures var x := Payload(f); var n := |x|;
      n == 8 + 2 * |f.data| && x[0] == f.registerAddress && x[1] == f.lengthCode && x[2] == f.chipAddress
      && x[3] == HighOf(f.engineAddress) && x[4] == LowOf(f.engineAddress)
      && x[5..n - 3] == DataBytes(f.data)
      && x[n - 3] == CommandByte(f.general, f.readWriteCommand) && x[n - 2] == f.cnt
      && x[n - 1] == CompletionByte(f.completion, f.completionWithConditional)
  {
    hide HighOf, LowOf, CommandByte, CompletionByte, DataBytes;
  }

  lemma FlagsDetermine(f: Fields, g: Fields)
    ensures CommandByte(f.general, f.readWriteCommand) == CommandByte(g.general, g.readWriteCommand)
      <==> f.general[1..] == g.general[1..] && f.readWriteCommand == g.readWriteCommand
    ensures CompletionByte(f.completion, f.completionWithConditional)
         == CompletionByte(g.completion, g.completionWithConditional)
      <==> f.completion == g.completion && f.completionWithConditional == g.completionWithConditional
  {
    var x, y := CommandByte(f.general, f.readWriteCommand), CommandByte(g.general, g.readWriteCommand);
    assert x[..7] == f.general[1..] && x[7] == f.readWriteCommand;
    assert y[..7] == g.general[1..] && y[7] == g.readWriteCommand;
    var v := CompletionByte(f.completion, f.completionWithConditional);
    var w := CompletionByte(g.completion, g.completionWithConditional);
    assert v[6] == f.completionWithConditional && v[7] == f.completion;
    assert w[6] == g.completionWithConditional && w[7] == g.completion;
  }

  // The frame determines every field but the highest bit of general, which is lost.
  lemma EncodingDetermines(f: Fields, g: Fields)
    ensures Encoding(f) == Encoding(g) <==>
      f.general[1..] == g.general[1..] && f == g.(general := f.general)
  {
    PayloadLayout(f);
    PayloadLayout(g);
    FlagsDetermine(f, g);
    if Encoding(f) == Encoding(g) {
      assert |Payload(f)| == |Payload(g)|;
      assert Payload(f) == Encoding(f)[..|Payload(f)|] == Payload(g);
      DataBytesInjective(f.data, g.data);
      WordBytesInjective(f.engineAddress, g.engineAddress);
    }
    if f.general[1..] == g.general[1..] && f == g.(general := f.general) {
      assert Payload(f) == Payload(g);
    }
  }

  // ------------------------------------------------------- the bytes as numbers

  // The number that bits stand for, the most significant first.
  function Number(bits: seq<bool>): nat {
    if bits == [] then 0 else 2 * Number(bits[..|bits| - 1]) + (if bits[|bits| - 1] then 1 else 0)
  }

  function Bit(b: bool): nat { if b then 1 else 0 }

  lemma NumberStep(bits: seq<bool>, last: bool)
    ensures Number(bits + [last]) == 2 * Number(bits) + Bit(last)
  {
    assert (bits + [last])[..|bits|] == bits;
  }

  lemma {:induction false} NumberConcat(a: seq<bool>, b: seq<bool>)
    ensures Number(a + b) == Number(a) * TwoTo(|b|) + Number(b)
    ensures Number(b) < TwoTo(|b|)
    decreases |b|
  {
    if b == [] {
      assert a + b == a;
    } else {
      var init, last := b[..|b| - 1], b[|b| - 1];
      hide Number;
      assert b == init + [last] && a + b == (a + init) + [last];
      NumberStep(init, last);
      NumberStep(a + init, last);
      NumberConcat(a, init);
      TwiceProduct(Number(a), TwoTo(|init|));
    }
  }

  lemma TwiceProduct(m: int, n: int)
    ensures m * (2 * n) == 2 * (m * n)
  {
  }

  // The two bytes of a word are its quotient and remainder.
  lemma WordNumbers(w: Word)
    ensures Number(HighOf(w)) == Number(w) / 256 && Number(LowOf(w)) == Number(w) % 256
  {
    hide Number;
    assert w == HighOf(w) + LowOf(w);
    NumberConcat(HighOf(w), LowOf(w));
    assert TwoTo(8) == 256;
  }

  // The command byte is twice general, without its carry, plus one for a write.
  lemma CommandNumber(general: Byte, readWrite: bool)
    ensures Number(CommandByte(general, readWrite)) == 2 * Number(general) % 256 + Bit(readWrite)
  {
    var low := general[1..];
    assert general == [general[0]] + low;
    assert TwoTo(7) == 128;
    hide Number, TwoTo;
    NumberStep(low, readWrite);
    NumberConcat([general[0]], low);
    NumberOfBit(general[0]);
    assert Number(general) == Number(low) || Number(general) == 128 + Number(low);
  }

  lemma NumberOfBit(b: bool)
    ensures Number([b]) == Bit(b)
  {
    assert [b][..0] == [];
  }

  lemma {:induction false} NumberOfZeros(n: nat)
    ensures Number(Zeros(n)) == 0
  {
    if n > 0 {
      assert Zeros(n)[..n - 1] == Zeros(n - 1);
      NumberOfZeros(n - 1);
    }
  }

  lemma CompletionNumber(completion: bool, conditional: bool)
    ensures Number(CompletionByte(completion, conditional)) == Bit(completion) + 2 * Bit(conditional)
  {
    var x := Zeros(6) + [conditional, completion];
    assert x[..7] == Zeros(6) + [conditional] && x[..7][..6] == Zeros(6);
    NumberOfZeros(6);
    assert Number(x[..7]) == Bit(conditional);
  }

  lemma {:induction false} DataBytesAt(data: seq<Word>, k: nat)
    requires k < |data|
    ensures DataBytes(data)[2 * k] == HighOf(data[k]) && DataBytes(data)[2 * k + 1] == LowOf(data[k])
    decreases k
  {
    hide HighOf, LowOf;
    if k > 0 { DataBytesAt(data[1..], k - 1); }
  }

  // Every byte of a frame as a number.
  lemma FrameNumbers(f: Fields)
    ensures var x, n := Encoding(f), 2 * |f.data|;
      |x| == n + 10 && x[0] == f.registerAddress && x[1] == f.lengthCode && x[2] == f.chipAddress
      && Number(x[3]) == Number(f.engineAddress) / 256 && Number(x[4]) == Number(f.engineAddress) % 256
      && (forall k | 0 <= k < |f.data| ::
           Number(x[5 + 2 * k]) == Number(f.data[k]) / 256 && Number(x[6 + 2 * k]) == Number(f.data[k]) % 256)
      && Number(x[n + 5]) == 2 * Number(f.general) % 256 + Bit(f.readWriteCommand)
      && x[n + 6] == f.cnt
      && Number(x[n + 7]) == Bit(f.completion) + 2 * Bit(f.completionWithConditional)
      && Number(x[n + 8]) == Number(Crc(ZERO, x[..n + 8])) / 256
      && Number(x[n + 9]) == Number(Crc(ZERO, x[..n + 8])) % 256
  {
    var x, y, n := Encoding(f), Payload(f), 2 * |f.data|;
    PayloadLayout(f);
    hide Number, HighOf, LowOf, CommandByte, CompletionByte, DataBytes, Payload, Crc, Bit;
    assert x[..n + 8] == y;
    WordNumbers(f.engineAddress);
    forall k | 0 <= k < |f.data|
      ensures Number(x[5 + 2 * k]) == Number(f.data[k]) / 256 && Number(x[6 + 2 * k]) == Number(f.data[k]) % 256
    {
      DataBytesAt(f.data, k);
      assert DataBytes(f.data) == y[5..n + 5];
      WordNumbers(f.data[k]);
    }
    CommandNumber(f.general, f.readWriteCommand);
    CompletionNumber(f.completion, f.completionWithConditional);
    WordNumbers(Crc(ZERO, y));
  }
}
