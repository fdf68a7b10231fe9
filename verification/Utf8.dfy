/** Parson's UTF-8 checks, against the encoding that RFC 3629 sections 3 and 4 define. */
module Utf8 {
  // ---------------------------------------------------------- the encoding

  predicate IsScalar(cp: nat) {
    cp <= 0x10FFFF && !(0xD800 <= cp <= 0xDFFF)
  }

  function Byte(b: nat): char
    requires b < 256
  {
    b as char
  }

  // The shortest sequence for a code point.
  function Encode(cp: nat): (r: string)
    requires cp <= 0x10FFFF
    ensures 1 <= |r| <= 4
  {
    if cp < 0x80 then [Byte(cp)]
    else if cp < 0x800 then [Byte(0xC0 + cp / 64), Byte(0x80 + cp % 64)]
    else if cp < 0x10000 then
      [Byte(0xE0 + cp / 4096), Byte(0x80 + cp / 64 % 64), Byte(0x80 + cp % 64)]
    else
      [Byte(0xF0 + cp / 262144), Byte(0x80 + cp / 4096 % 64), Byte(0x80 + cp / 64 % 64), Byte(0x80 + cp % 64)]
  }

  function EncodeAll(cps: seq<nat>): string
    requires forall i | 0 <= i < |cps| :: IsScalar(cps[i])
    decreases |cps|
  {
    if cps == [] then "" else (assert IsScalar(cps[0]); Encode(cps[0])) + EncodeAll(cps[1..])
  }

  // ------------------------------------------------------------- the checks

  predicate IsByteString(s: string) {
    forall i | 0 <= i < |s| :: s[i] as nat < 256
  }

  // The unsigned char at an index of a NUL-terminated string.
  function ByteAt(s: string, i: nat): (b: nat)
    requires IsByteString(s)
    ensures b < 256
  {
    if i < |s| then s[i] as nat else 0
  }

  // IS_CONT: (b & 0xC0) == 0x80
  predicate IsCont(b: nat) { b / 64 == 2 }

  // The masks of the source select leading bits, that is, quotients.
  function NumBytes(c: nat): nat {
    if c == 0xC0 || c == 0xC1 || c > 0xF4 || IsCont(c) then 0
    else if c / 128 == 0 then 1
    else if c / 32 == 6 then 2
    else if c / 16 == 14 then 3
    else if c / 8 == 30 then 4
    else 0
  }

  datatype Verdict = Verdict(ok: bool, len: nat)

  // verify_utf8_sequence on the start of a NUL-terminated string.
  function Verify(s: string): Verdict
    requires IsByteString(s)
  {
    var b0, b1, b2, b3 := ByteAt(s, 0), ByteAt(s, 1), ByteAt(s, 2), ByteAt(s, 3);
    var len := NumBytes(b0);
    if len == 1 then Accepts(b0, len)
    else if len == 2 && IsCont(b1) then Accepts(b0 % 32 * 64 + b1 % 64, len)
    else if len == 3 && IsCont(b1) && IsCont(b2) then
      Accepts((b0 % 16 * 64 + b1 % 64) * 64 + b2 % 64, len)
    else if len == 4 && IsCont(b1) && IsCont(b2) && IsCont(b3) then
      Accepts(((b0 % 8 * 64 + b1 % 64) * 64 + b2 % 64) * 64 + b3 % 64, len)
    else Verdict(false, len)
  }

  // The tests on the decoded code point.
  function Accepts(cp: nat, len: nat): Verdict {
    if (cp < 0x80 && len > 1) || (cp < 0x800 && len > 2) || (cp < 0x10000 && len > 3) then Verdict(false, len)
    else if cp > 0x10FFFF then Verdict(false, len)
    else if 0xD800 <= cp <= 0xDFFF then Verdict(false, len)
    else Verdict(true, len)
  }

  // is_valid_utf8
  method IsValidUtf8(s: string) returns (valid: bool)
    requires IsByteString(s)
    ensures valid <==> AllVerified(s)
  {
    hide Verify;
    var pos := 0;
    while pos < |s|
      invariant 0 <= pos <= |s| && AllVerified(s[pos..]) == AllVerified(s)
    {
      var v := Verify(s[pos..]);
      VerifyWithin(s[pos..]);
      if !v.ok {
        return false;
      }
      assert s[pos..][v.len..] == s[pos + v.len..];
      pos := pos + v.len;
    }
    assert s[pos..] == "";
    return true;
  }

  // An accepted sequence lies within the string: its last byte is no NUL.
  lemma VerifyWithin(s: string)
    requires IsByteString(s) && s != ""
    ensures Verify(s).ok ==> 1 <= Verify(s).len <= |s|
  {
  }

  predicate AllVerified(s: string)
    requires IsByteString(s)
  {
    s == "" || (VerifyWithin(s); Verify(s).ok && AllVerified(s[Verify(s).len..]))
  }

  // ------------------------------------------- bits of the code point by length

  lemma Two(cp: nat, b0: nat, b1: nat)
    ensures 0x80 <= cp < 0x800 && b0 == 0xC0 + cp / 64 && b1 == 0x80 + cp % 64 ==>
      NumBytes(b0) == 2 && IsCont(b1) && cp == b0 % 32 * 64 + b1 % 64
    ensures b0 < 256 && NumBytes(b0) == 2 && IsCont(b1) && cp == b0 % 32 * 64 + b1 % 64 ==>
      cp < 0x800 && b0 == 0xC0 + cp / 64 && b1 == 0x80 + cp % 64
  {
  }

  lemma ThreeEncoded(cp: nat, b0: nat, b1: nat, b2: nat)
    requires 0x800 <= cp < 0x10000 && b0 == 0xE0 + cp / 4096 && b1 == 0x80 + cp / 64 % 64 && b2 == 0x80 + cp % 64
    ensures NumBytes(b0) == 3 && IsCont(b1) && IsCont(b2) && cp == (b0 % 16 * 64 + b1 % 64) * 64 + b2 % 64
  {
    assert cp / 64 == cp / 4096 * 64 + cp / 64 % 64;
    assert b0 % 16 == cp / 4096 && b1 % 64 == cp / 64 % 64 && b2 % 64 == cp % 64;
  }

  lemma ThreeDecoded(b0: nat, b1: nat, b2: nat)
    requires b0 < 256 && NumBytes(b0) == 3 && IsCont(b1) && IsCont(b2)
    ensures var cp := (b0 % 16 * 64 + b1 % 64) * 64 + b2 % 64;
      cp < 0x10000 && b0 == 0xE0 + cp / 4096 && b1 == 0x80 + cp / 64 % 64 && b2 == 0x80 + cp % 64
  {
    LastDigit(b0 % 16 * 64 + b1 % 64, b2 % 64);
    LastDigit(b0 % 16, b1 % 64);
    TwoDigits((b0 % 16 * 64 + b1 % 64) * 64 + b2 % 64);
  }

  lemma LastDigit(a: nat, d: nat)
    requires d < 64
    ensures (a * 64 + d) / 64 == a && (a * 64 + d) % 64 == d
  {
  }

  lemma TwoDigits(cp: nat)
    ensures cp / 64 / 64 == cp / 4096
  {
  }

  lemma ThreeDigits(cp: nat)
    ensures cp / 4096 / 64 == cp / 262144
  {
  }

  // A number is made of its base-64 digits in one way.
  lemma Digits(a: nat, b: nat, c: nat, d: nat)
    requires b < 64 && c < 64 && d < 64
    ensures var cp := ((a * 64 + b) * 64 + c) * 64 + d;
      cp / 262144 == a && cp / 4096 % 64 == b && cp / 64 % 64 == c && cp % 64 == d
  {
    var ab := a * 64 + b;
    var abc := ab * 64 + c;
    var cp := abc * 64 + d;
    LastDigit(a, b);
    LastDigit(ab, c);
    LastDigit(abc, d);
    TwoDigits(cp);
    ThreeDigits(cp);
  }

  lemma FourEncoded(cp: nat, b0: nat, b1: nat, b2: nat, b3: nat)
    requires 0x10000 <= cp <= 0x10FFFF && b0 == 0xF0 + cp / 262144 && b1 == 0x80 + cp / 4096 % 64
    requires b2 == 0x80 + cp / 64 % 64 && b3 == 0x80 + cp % 64
    ensures NumBytes(b0) == 4 && IsCont(b1) && IsCont(b2) && IsCont(b3)
    ensures cp == ((b0 % 8 * 64 + b1 % 64) * 64 + b2 % 64) * 64 + b3 % 64
  {
    assert cp / 4096 == cp / 262144 * 64 + cp / 4096 % 64;
    assert cp / 64 == cp / 4096 * 64 + cp / 64 % 64;
    assert cp == cp / 64 * 64 + cp % 64;
    assert b0 % 8 == cp / 262144 && b1 % 64 == cp / 4096 % 64 && b2 % 64 == cp / 64 % 64 && b3 % 64 == cp % 64;
  }

  lemma FourDecoded(b0: nat, b1: nat, b2: nat, b3: nat)
    requires b0 < 256 && NumBytes(b0) == 4 && IsCont(b1) && IsCont(b2) && IsCont(b3)
    ensures var cp := ((b0 % 8 * 64 + b1 % 64) * 64 + b2 % 64) * 64 + b3 % 64;
      b0 == 0xF0 + cp / 262144 && b1 == 0x80 + cp / 4096 % 64 && b2 == 0x80 + cp / 64 % 64 && b3 == 0x80 + cp % 64
  {
    Digits(b0 % 8, b1 % 64, b2 % 64, b3 % 64);
  }

  // The bytes at the start of a string, when the encoding of a code point stands there.
  lemma StartsOne(s: string, cp: nat)
    requires IsByteString(s) && 0 < cp < 0x80
    ensures |Encode(cp)| == 1
    ensures ByteAt(s, 0) == cp <==> Encode(cp) <= s
  {
  }

  lemma StartsTwo(s: string, cp: nat)
    requires IsByteString(s) && 0x80 <= cp < 0x800
    ensures |Encode(cp)| == 2
    ensures ByteAt(s, 0) == 0xC0 + cp / 64 && ByteAt(s, 1) == 0x80 + cp % 64 <==> Encode(cp) <= s
  {
  }

  lemma StartsThree(s: string, cp: nat)
    requires IsByteString(s) && 0x800 <= cp < 0x10000
    ensures |Encode(cp)| == 3
    ensures ByteAt(s, 0) == 0xE0 + cp / 4096 && ByteAt(s, 1) == 0x80 + cp / 64 % 64 && ByteAt(s, 2) == 0x80 + cp % 64
      <==> Encode(cp) <= s
  {
  }

  lemma StartsFour(s: string, cp: nat)
    requires IsByteString(s) && 0x10000 <= cp <= 0x10FFFF
    ensures |Encode(cp)| == 4
    ensures ByteAt(s, 0) == 0xF0 + cp / 262144 && ByteAt(s, 1) == 0x80 + cp / 4096 % 64
        && ByteAt(s, 2) == 0x80 + cp / 64 % 64 && ByteAt(s, 3) == 0x80 + cp % 64
      <==> Encode(cp) <= s
  {
  }

  // ------------------------------------------------------------ main results

  // The encoding of every scalar value is accepted, with its length.
  lemma EncodedVerified(cp: nat, rest: string)
    requires IsScalar(cp) && IsByteString(rest)
    ensures IsByteString(Encode(cp) + rest)
    ensures Verify(Encode(cp) + rest) == Verdict(true, |Encode(cp)|)
  {
    EncodeBytes(cp);
    var s := Encode(cp) + rest;
    var b0, b1, b2, b3 := ByteAt(s, 0), ByteAt(s, 1), ByteAt(s, 2), ByteAt(s, 3);
    if cp == 0 {
      assert b0 == 0;
    } else if cp < 0x80 {
      StartsOne(s, cp);
    } else if cp < 0x800 {
      StartsTwo(s, cp);
      Two(cp, b0, b1);
    } else if cp < 0x10000 {
      StartsThree(s, cp);
      ThreeEncoded(cp, b0, b1, b2);
    } else {
      StartsFour(s, cp);
      FourEncoded(cp, b0, b1, b2, b3);
    }
    hide Encode, ByteAt, IsCont, IsByteString;
  }

  lemma EncodeBytes(cp: nat)
    requires cp <= 0x10FFFF
    ensures IsByteString(Encode(cp))
    ensures cp == 0 ==> Encode(cp) == "\0"
  {
  }

  // The code point that the bytes at the start of s denote.
  function Decode(s: string): nat
    requires IsByteString(s)
  {
    var b0, b1, b2, b3 := ByteAt(s, 0), ByteAt(s, 1), ByteAt(s, 2), ByteAt(s, 3);
    var len := NumBytes(b0);
    if len <= 1 then b0
    else if len == 2 then b0 % 32 * 64 + b1 % 64
    else if len == 3 then (b0 % 16 * 64 + b1 % 64) * 64 + b2 % 64
    else ((b0 % 8 * 64 + b1 % 64) * 64 + b2 % 64) * 64 + b3 % 64
  }

  // What the tests leave of each length.
  lemma AcceptedIs(s: string)
    requires IsByteString(s) && Verify(s).ok
    ensures var cp, len := Decode(s), Verify(s).len;
      var b0, b1, b2, b3 := ByteAt(s, 0), ByteAt(s, 1), ByteAt(s, 2), ByteAt(s, 3);
      IsScalar(cp) && cp <= 0x10FFFF && len == NumBytes(b0) && 1 <= len <= 4
      && (len == 1 ==> cp == b0 < 0x80)
      && (len == 2 ==> 0x80 <= cp && IsCont(b1) && cp == b0 % 32 * 64 + b1 % 64)
      && (len == 3 ==> 0x800 <= cp && IsCont(b1) && IsCont(b2) && cp == (b0 % 16 * 64 + b1 % 64) * 64 + b2 % 64)
      && (len == 4 ==>
           0x10000 <= cp && IsCont(b1) && IsCont(b2) && IsCont(b3)
           && cp == ((b0 % 8 * 64 + b1 % 64) * 64 + b2 % 64) * 64 + b3 % 64)
  {
    hide ByteAt;
  }

  // What is accepted is the encoding of a scalar value, and all of it lies in the string.
  lemma VerifiedEncoded(s: string)
    requires IsByteString(s) && s != "" && Verify(s).ok
    ensures var cp := Decode(s);
      IsScalar(cp) && Verify(s).len == |Encode(cp)| <= |s| && s[..|Encode(cp)|] == Encode(cp)
  {
    VerifyWithin(s);
    AcceptedIs(s);
    hide *;
    var cp, len := Decode(s), Verify(s).len;
    if len == 1 {
      DecodedOne(s);
    } else if len == 2 {
      DecodedTwo(s, cp);
    } else if len == 3 {
      DecodedThree(s, cp);
    } else {
      DecodedFour(s, cp);
    }
  }

  lemma DecodedOne(s: string)
    requires IsByteString(s) && s != "" && ByteAt(s, 0) < 0x80
    ensures |Encode(ByteAt(s, 0))| == 1 && Encode(ByteAt(s, 0)) <= s
  {
  }

  lemma DecodedTwo(s: string, cp: nat)
    requires IsByteString(s) && 0x80 <= cp && NumBytes(ByteAt(s, 0)) == 2 && IsCont(ByteAt(s, 1))
    requires cp == ByteAt(s, 0) % 32 * 64 + ByteAt(s, 1) % 64
    ensures cp < 0x800 && |Encode(cp)| == 2 && Encode(cp) <= s
  {
    hide *;
    Two(cp, ByteAt(s, 0), ByteAt(s, 1));
    StartsTwo(s, cp);
  }

  lemma DecodedThree(s: string, cp: nat)
    requires IsByteString(s) && 0x800 <= cp
    requires NumBytes(ByteAt(s, 0)) == 3 && IsCont(ByteAt(s, 1)) && IsCont(ByteAt(s, 2))
    requires cp == (ByteAt(s, 0) % 16 * 64 + ByteAt(s, 1) % 64) * 64 + ByteAt(s, 2) % 64
    ensures cp < 0x10000 && |Encode(cp)| == 3 && Encode(cp) <= s
  {
    hide *;
    ThreeDecoded(ByteAt(s, 0), ByteAt(s, 1), ByteAt(s, 2));
    StartsThree(s, cp);
  }

  lemma DecodedFour(s: string, cp: nat)
    requires IsByteString(s) && 0x10000 <= cp <= 0x10FFFF && NumBytes(ByteAt(s, 0)) == 4
    requires IsCont(ByteAt(s, 1)) && IsCont(ByteAt(s, 2)) && IsCont(ByteAt(s, 3))
    requires cp ==
      ((ByteAt(s, 0) % 8 * 64 + ByteAt(s, 1) % 64) * 64 + ByteAt(s, 2) % 64) * 64 + ByteAt(s, 3) % 64
    ensures |Encode(cp)| == 4 && Encode(cp) <= s
  {
    hide *;
    FourDecoded(ByteAt(s, 0), ByteAt(s, 1), ByteAt(s, 2), ByteAt(s, 3));
    StartsFour(s, cp);
  }

  // verify_utf8_sequence accepts exactly the strings that start with the shortest
  // encoding of a scalar value.
  lemma VerifyExact(s: string)
    requires IsByteString(s) && s != ""
    ensures Verify(s).ok <==> exists cp: nat :: IsScalar(cp) && Encode(cp) <= s
  {
    hide Verify, Decode, Encode;
    if Verify(s).ok {
      VerifiedEncoded(s);
      var cp := Decode(s);
      assert s == s[..|Encode(cp)|] + s[|Encode(cp)|..];
      assert IsScalar(cp) && Encode(cp) <= s;
    }
    if cp: nat :| IsScalar(cp) && Encode(cp) <= s {
      var rest := s[|Encode(cp)|..];
      assert s == Encode(cp) + rest;
      EncodedVerified(cp, rest);
    }
  }

  lemma {:induction false} AllVerifiedEncoded(s: string) returns (cps: seq<nat>)
    requires IsByteString(s) && AllVerified(s)
    ensures (forall i | 0 <= i < |cps| :: IsScalar(cps[i])) && EncodeAll(cps) == s
    decreases |s|
  {
    if s == "" {
      cps := [];
    } else {
      VerifiedEncoded(s);
      var cp, n := Decode(s), Verify(s).len;
      assert AllVerified(s[n..]);
      hide *;
      var rest := AllVerifiedEncoded(s[n..]);
      cps := [cp] + rest;
      EncodeAllCons(cp, rest);
      assert s == s[..n] + s[n..];
    }
  }

  lemma EncodeAllCons(cp: nat, rest: seq<nat>)
    requires IsScalar(cp) && forall i | 0 <= i < |rest| :: IsScalar(rest[i])
    ensures EncodeAll([cp] + rest) == Encode(cp) + EncodeAll(rest)
  {
    assert ([cp] + rest)[1..] == rest;
  }

  lemma {:induction false} EncodedAllVerified(cps: seq<nat>)
    requires forall i | 0 <= i < |cps| :: IsScalar(cps[i])
    ensures IsByteString(EncodeAll(cps)) && AllVerified(EncodeAll(cps))
  {
    if cps != [] {
      var rest := EncodeAll(cps[1..]);
      EncodedAllVerified(cps[1..]);
      EncodedVerified(cps[0], rest);
      var s := Encode(cps[0]) + rest;
      VerifyWithin(s);
      assert s[|Encode(cps[0])|..] == rest;
    }
  }

  predicate Scalars(cps: seq<nat>) { forall i | 0 <= i < |cps| :: IsScalar(cps[i]) }

  // is_valid_utf8 accepts exactly the encodings of sequences of scalar values.
  lemma ValidExactly(s: string)
    requires IsByteString(s)
    ensures AllVerified(s) <==> exists cps: seq<nat> :: Scalars(cps) && EncodeAll(cps) == s
  {
    if AllVerified(s) {
      var cps := AllVerifiedEncoded(s);
      assert Scalars(cps) && EncodeAll(cps) == s;
    }
    if cps: seq<nat> :| Scalars(cps) && EncodeAll(cps) == s { EncodedAllVerified(cps); }
  }
}
