/** Decimal integers: number conversions that meet the law of `ParsonValue.Lawful`. */
module ParsonNumber {
  import opened Results
  import opened CStrings
  import opened JsonPointer
  import opened ParsonParser
  import opened ParsonText
  import opened ParsonValue

  function ShowInteger(x: real): string {
    var n := x.Floor;
    if n < 0 then "-" + IndexToken(-n) else IndexToken(n)
  }

  function DigitRun(s: string): (n: nat)
    ensures n <= |s| && forall i | 0 <= i < n :: IsDigit(s[i])
  {
    if s != "" && IsDigit(s[0]) then 1 + DigitRun(s[1..]) else 0
  }

  function ReadDigits(s: string): (r: Reading)
    ensures r.length <= |s|
  {
    var n := DigitRun(s);
    if n == 0 then Reading(0.0, 0) else Reading(DecimalValue(s[..n]) as real, n)
  }

  function ReadInteger(s: string): (r: Option<Reading>)
    ensures r.Some? ==> r.value.length <= |s|
  {
    if s != "" && s[0] == '-' then
      var r := ReadDigits(s[1..]);
      Some(if r.length == 0 then r else Reading(-r.number, r.length + 1))
    else Some(ReadDigits(s))
  }

  predicate ShortInteger(x: real) { x == x.Floor as real && |ShowInteger(x)| < NUM_BUF_SIZE }

  function IntegerReader(): Reader { ReadInteger }

  function IntegerCodec(): Codec { Codec(ShowInteger, IntegerReader(), ShortInteger) }

  lemma {:induction false} RunOfDigits(t: string, rest: string)
    requires (forall i | 0 <= i < |t| :: IsDigit(t[i])) && Delimits(rest)
    ensures DigitRun(t + rest) == |t|
  {
    if t == "" {
      assert t + rest == rest;
    } else {
      RunOfDigits(t[1..], rest);
      assert (t + rest)[1..] == t[1..] + rest;
    }
  }

  lemma DigitsRead(n: nat, rest: string)
    requires Delimits(rest)
    ensures ReadDigits(IndexToken(n) + rest) == Reading(n as real, |IndexToken(n)|)
  {
    var t := IndexToken(n);
    RunOfDigits(t, rest);
    IndexTokenValue(n);
    hide IndexToken, DecimalValue, DigitRun;
    assert (t + rest)[..|t|] == t;
  }

  lemma IntegerReads(x: real, rest: string)
    requires ShortInteger(x) && Delimits(rest)
    ensures ReadInteger(ShowInteger(x) + rest) == Some(Reading(x, |ShowInteger(x)|))
  {
    var n := x.Floor;
    hide ReadDigits;
    if n < 0 {
      var t := IndexToken(-n);
      hide IndexToken;
      assert ("-" + t + rest)[1..] == t + rest;
      DigitsRead(-n, rest);
    } else {
      DigitsRead(n, rest);
      assert IsDigit(IndexToken(n)[0]);
      hide IndexToken;
    }
  }

  lemma IntegerShown(x: real)
    ensures var t := ShowInteger(x);
      t != "" && NumberStart(t[0]) && IsDecimal(t) && NulFree(t)
  {
    var n := x.Floor;
    var d := IndexToken(if n < 0 then -n else n);
    hide IndexToken;
    assert d[0] == '0' ==> d == "0";
  }

  // The law of the number conversions can be met.
  lemma IntegersLawful()
    ensures Lawful(IntegerCodec())
  {
    forall x: real, rest: string | ShortInteger(x) && Delimits(rest)
      ensures var t := ShowInteger(x);
        0 < |t| < NUM_BUF_SIZE && NumberStart(t[0]) && IsDecimal(t) && NulFree(t)
        && ReadInteger(t + rest) == Some(Reading(x, |t|))
    {
      IntegerReads(x, rest);
      IntegerShown(x);
    }
  }

  // ------------------------------------------------------- texts without a numeral

  // A value is accepted without reading a character of it.
  predicate ReadsNothing(codec: Codec, s: string, nesting: nat) {
    var parsed := ParseValue(codec, s, nesting);
    parsed.Some? && parsed.value.rest == SkipWs(s)
  }

  // Only a number can be read without a character.
  lemma NothingIsNumber(codec: Codec, s: string, nesting: nat)
    requires nesting <= MAX_NESTING
    ensures var t := SkipWs(s);
      ReadsNothing(codec, s, nesting) <==>
        t != "" && NumberStart(t[0]) && codec.read(t).Some? && codec.read(t).value.length == 0
  {
    var t := SkipWs(s);
    hide SkipWs, GetQuoted, ParseItems, ParseMembers;
    if t != "" && NumberStart(t[0]) && codec.read(t).Some? {
      var n := codec.read(t).value.length;
      assert t[n..] == t <==> n == 0;
      assert IsDecimal(t[..0]);
    }
  }

  // With decimal integers, the lone minus sign is the one such text: a minus sign, behind
  // white space, that no digit follows.
  lemma ReadsNothingExactly(s: string, nesting: nat)
    requires nesting <= MAX_NESTING
    ensures var t := SkipWs(s);
      ReadsNothing(IntegerCodec(), s, nesting) <==> t != "" && t[0] == '-' && !(|t| > 1 && IsDigit(t[1]))
  {
    hide *;
    NothingIsNumber(IntegerCodec(), s, nesting);
    NothingInteger(SkipWs(s));
  }

  lemma NothingInteger(t: string)
    ensures t != "" && NumberStart(t[0]) && IntegerCodec().read(t).Some? && IntegerCodec().read(t).value.length == 0
      <==> t != "" && t[0] == '-' && !(|t| > 1 && IsDigit(t[1]))
  {
    assert IntegerCodec().read(t) == ReadInteger(t);
    hide ReadDigits, IsDigit, IntegerCodec;
    NothingDigits(t);
    if t != "" {
      NothingDigits(t[1..]);
      if t[0] == '-' { assert t[1..] != "" ==> t[1..][0] == t[1]; } else { StartsDigit(t[0]); }
    }
  }

  lemma NothingDigits(s: string)
    ensures ReadDigits(s).length == 0 <==> s == "" || !IsDigit(s[0])
  {
    hide DecimalValue, IsDigit;
  }

  lemma StartsDigit(c: char)
    requires c != '-'
    ensures NumberStart(c) <==> IsDigit(c)
  {
  }

  // The lone minus sign is read as zero.
  lemma LoneMinus()
    ensures ParseValue(IntegerCodec(), "-", 0) == Some(Parsed(Number(0.0), "-"))
  {
    var s := "-";
    MinusRead(s);
    NumberBranch(IntegerCodec(), s, 0);
  }

  lemma MinusRead(s: string)
    requires s == "-"
    ensures ParseNumber(IntegerCodec(), s) == Some(Parsed(Number(0.0), s))
  {
    assert s[1..] == "" && s[0..] == s && s[..0] == "";
    assert ReadDigits("") == Reading(0.0, 0);
    assert ReadInteger(s) == Some(Reading(0.0, 0));
    assert IsDecimal("");
    hide ReadInteger, ReadDigits, IsDecimal;
  }

  lemma NumberBranch(codec: Codec, s: string, nesting: nat)
    requires nesting <= MAX_NESTING && s != "" && NumberStart(s[0])
    ensures ParseValue(codec, s, nesting) == ParseNumber(codec, s)
  {
    assert SkipWs(s) == s;
    hide ParseNumber, SkipWs;
  }

  // The numerals of strtod, behind the sign: digits, with or without a point before them,
  // infinity and NaN (C11, section 7.22.1.3).
  predicate StartsNumeral(s: string) {
    var d := if s != "" && s[0] == '-' then s[1..] else s;
    (d != "" && IsDigit(d[0]))
    || (|d| > 1 && d[0] == '.' && IsDigit(d[1]))
    || (|d| > 2 && (EqualNoCase(d[..3], "inf") || EqualNoCase(d[..3], "nan")))
  }

  // Where there is no numeral, no character is used and the number is zero.
  ghost predicate ReadsNumerals(codec: Codec) {
    forall s: string | s != "" && NumberStart(s[0]) ::
      if StartsNumeral(s) then codec.read(s).Some? ==> codec.read(s).value.length > 0
      else codec.read(s) == Some(Reading(0.0, 0))
  }

  // With such conversions, a value is accepted without reading a character exactly where
  // a minus sign, behind white space, has no numeral.
  lemma ReadsNothingAsStrtod(codec: Codec, s: string, nesting: nat)
    requires ReadsNumerals(codec) && nesting <= MAX_NESTING
    ensures ReadsNothing(codec, s, nesting) <==> SkipWs(s) != "" && SkipWs(s)[0] == '-' && !StartsNumeral(SkipWs(s))
    ensures ReadsNothing(codec, s, nesting) ==> ParseValue(codec, s, nesting) == Some(Parsed(Number(0.0), SkipWs(s)))
  {
    var t := SkipWs(s);
    NothingIsNumber(codec, s, nesting);
    if t != "" && NumberStart(t[0]) {
      NumberBranch(codec, t, nesting);
      assert t[0] != '-' ==> StartsNumeral(t);
      assert t[0..] == t && t[..0] == "" && IsDecimal("");
      ParseBehind(codec, s, nesting);
      hide StartsNumeral, ParseValue;
    }
  }

  lemma ParseBehind(codec: Codec, s: string, nesting: nat)
    ensures ParseValue(codec, s, nesting) == ParseValue(codec, SkipWs(s), nesting)
  {
    assert SkipWs(SkipWs(s)) == SkipWs(s);
    hide SkipWs, GetQuoted;
  }

  // --------------------------------------------------------------------- is_decimal

  predicate Digits(s: string) { forall i | 0 <= i < |s| :: IsDigit(s[i]) }

  // A decimal numeral of strtod: sign, whole part, fraction and exponent, in any of which
  // digits may be missing.
  datatype Numeral = Numeral(minus: bool, whole: string, fraction: Option<string>, exponent: string)

  // Behind the fraction comes nothing, or an e and an exponent.
  predicate GoodNumeral(n: Numeral) {
    Digits(n.whole) && (n.fraction.Some? ==> Digits(n.fraction.value))
    && (n.exponent != "" ==>
      (n.exponent[0] == 'e' || n.exponent[0] == 'E')
      && forall i | 0 < i < |n.exponent| :: IsDigit(n.exponent[i]) || n.exponent[i] in {'+', '-'})
  }

  function Unsigned(n: Numeral): string {
    n.whole + (if n.fraction.Some? then "." + n.fraction.value else "") + n.exponent
  }

  function NumeralText(n: Numeral): string { (if n.minus then "-" else "") + Unsigned(n) }

  // is_decimal passes a decimal numeral unless it has a leading zero, which also the 0 of
  // 0e1 counts as, and passes no numeral with an x in it.
  lemma DecimalExactly(n: Numeral, t: string)
    requires GoodNumeral(n)
    ensures IsDecimal(NumeralText(n)) <==>
      (n.whole != "" && n.whole[0] == '0' ==> n.whole == "0" && (n.fraction.Some? || n.exponent == ""))
    ensures 'x' in t || 'X' in t ==> !IsDecimal(t)
  {
    var u, s := Unsigned(n), NumeralText(n);
    PlainNumeral(n);
    LeadingZero(n);
    hide Unsigned, GoodNumeral;
    assert n.minus ==> s[0] == '-' && s[1..] == u && forall i | 0 <= i < |u| :: s[i + 1] == u[i];
    assert !n.minus ==> s == u;
  }

  lemma PlainNumeral(n: Numeral)
    requires GoodNumeral(n)
    ensures forall i | 0 <= i < |Unsigned(n)| :: Unsigned(n)[i] !in {'x', 'X', '\0'}
    ensures Unsigned(n) != "" ==> Unsigned(n)[0] != '-'
  {
    var w, f := |n.whole|, if n.fraction.Some? then "." + n.fraction.value else "";
    forall i | 0 <= i < |Unsigned(n)| ensures Unsigned(n)[i] !in {'x', 'X', '\0'} {
      if i < w {
        assert Unsigned(n)[i] == n.whole[i];
      } else if i < w + |f| {
        assert Unsigned(n)[i] == f[i - w];
      } else {
        assert Unsigned(n)[i] == n.exponent[i - w - |f|];
      }
    }
  }

  lemma LeadingZero(n: Numeral)
    requires GoodNumeral(n)
    ensures var u := Unsigned(n);
      (|u| > 1 && u[0] == '0' && u[1] != '.') <==>
      (n.whole != "" && n.whole[0] == '0' && !(n.whole == "0" && (n.fraction.Some? || n.exponent == "")))
  {
    var u := Unsigned(n);
    if n.whole != "" { assert u[0] == n.whole[0]; }
    if |n.whole| > 1 { assert u[1] == n.whole[1]; }
  }
}
