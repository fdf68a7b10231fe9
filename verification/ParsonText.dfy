/** Parson's string literals: escaping, finding the closing quote, and decoding. */
module ParsonText {
  import opened CStrings
  import opened Results
  import Utf8

  // The character at an index of a NUL-terminated string.
  function CharAt(s: string, i: nat): char {
    if i < |s| then s[i] else '\0'
  }

  predicate NulFree(s: string) {
    forall i | 0 <= i < |s| :: s[i] != '\0'
  }

  lemma {:induction false} CStringNulFree(s: string)
    ensures NulFree(CString(s))
    ensures NulFree(s) ==> CString(s) == s
  {
    if s != "" { CStringNulFree(s[1..]); }
    if NulFree(s) { CStringPlain(s); }
  }

  // ---------------------------------------------------------- closing quotes

  // After the opening quote: what follows the closing one.
  function SkipBody(s: string): (r: Option<string>)
    ensures r.Some? ==> |r.value| < |s|
  {
    if CharAt(s, 0) == '\0' then None
    else if s[0] == '"' then Some(s[1..])
    else if s[0] == '\\' then (if CharAt(s, 1) == '\0' then None else SkipBody(s[2..]))
    else SkipBody(s[1..])
  }

  // skip_quotes
  function SkipQuotes(s: string): (r: Option<string>)
    ensures r.Some? ==> |r.value| + 2 <= |s|
  {
    if CharAt(s, 0) == '"' then SkipBody(s[1..]) else None
  }

  // -------------------------------------------------------------- \u escapes

  // hex_char_to_int, with None for its -1.
  function HexValue(c: char): (r: Option<nat>)
    ensures r.Some? ==> r.value < 16
  {
    if '0' <= c <= '9' then Some(c as nat - '0' as nat)
    else if 'a' <= c <= 'f' then Some(c as nat - 'a' as nat + 10)
    else if 'A' <= c <= 'F' then Some(c as nat - 'A' as nat + 10)
    else None
  }

  // parse_utf16_hex: the four characters must exist and be digits.
  function Hex4(s: string): (r: Option<nat>)
    ensures r.Some? ==> r.value < 0x10000 && |s| >= 4
  {
    if |s| < 4 then None
    else match (HexValue(s[0]), HexValue(s[1]), HexValue(s[2]), HexValue(s[3]))
      case (Some(a), Some(b), Some(c), Some(d)) => Some(a * 4096 + b * 256 + c * 16 + d)
      case _ => None
  }

  lemma HexValueExactly(c: char, d: nat)
    ensures HexValue(c) == Some(d) <==> IsHexDigit(c, d)
    ensures HexValue(c) == None <==> forall e :: !IsHexDigit(c, e)
  {
    if HexValue(c).Some? { assert IsHexDigit(c, HexValue(c).value); }
  }

  lemma FourDigits(s: string, n: nat)
    requires |s| == 4
    ensures IsHexNumeral(s, n) <==>
      IsHexDigit(s[3], n % 16) && IsHexDigit(s[2], n / 16 % 16) && IsHexDigit(s[1], n / 256 % 16)
      && IsHexDigit(s[0], n / 4096)
  {
    hide IsHexDigit;
    var three, two, one := s[..3], s[..2], s[..1];
    assert three[..2] == two && two[..1] == one && one[..0] == "";
    assert n / 16 / 16 == n / 256 && n / 256 / 16 == n / 4096;
    assert IsHexNumeral(one, n / 4096) <==> IsHexDigit(s[0], n / 4096) by { OneDigit(s[0], n / 4096); }
    assert IsHexNumeral(two, n / 256) <==> IsHexDigit(s[1], n / 256 % 16) && IsHexNumeral(one, n / 4096);
    assert IsHexNumeral(three, n / 16) <==> IsHexDigit(s[2], n / 16 % 16) && IsHexNumeral(two, n / 256);
  }

  lemma OneDigit(c: char, n: nat)
    ensures IsHexNumeral([c], n) <==> IsHexDigit(c, n)
  {
    assert [c][..0] == "";
    assert IsHexNumeral("", n / 16) <==> n < 16;
  }

  // Four characters are read exactly if they are hexadecimal digits, and as the number
  // that they are the numeral of.
  lemma Hex4Exactly(s: string, n: nat)
    ensures Hex4(s) == Some(n) <==> |s| >= 4 && IsHexNumeral(s[..4], n)
  {
    hide *;
    Hex4Some(s, n);
    if |s| >= 4 {
      FourDigits(s[..4], n);
      HexValueExactly(s[0], n / 4096);
      HexValueExactly(s[1], n / 256 % 16);
      HexValueExactly(s[2], n / 16 % 16);
      HexValueExactly(s[3], n % 16);
    }
  }

  lemma Hex4Some(s: string, n: nat)
    ensures Hex4(s) == Some(n) <==>
      |s| >= 4 && HexValue(s[0]) == Some(n / 4096) && HexValue(s[1]) == Some(n / 256 % 16)
      && HexValue(s[2]) == Some(n / 16 % 16) && HexValue(s[3]) == Some(n % 16)
  {
    hide HexValue;
    if |s| >= 4 && HexValue(s[0]).Some? && HexValue(s[1]).Some? && HexValue(s[2]).Some? && HexValue(s[3]).Some? {
      DigitsOf(HexValue(s[0]).value, HexValue(s[1]).value, HexValue(s[2]).value, HexValue(s[3]).value, n);
    }
  }

  lemma DigitsOf(a: nat, b: nat, c: nat, d: nat, n: nat)
    requires a < 16 && b < 16 && c < 16 && d < 16
    ensures n == a * 4096 + b * 256 + c * 16 + d <==>
      a == n / 4096 && b == n / 256 % 16 && c == n / 16 % 16 && d == n % 16
  {
    if n == a * 4096 + b * 256 + c * 16 + d {
      assert n / 16 == a * 256 + b * 16 + c && n / 256 == a * 16 + b && n / 4096 == a;
    }
    assert n / 256 == 16 * (n / 4096) + n / 256 % 16;
    assert n / 16 == 16 * (n / 256) + n / 16 % 16;
  }

  // Digits are neither quotes nor backslashes nor NUL.
  lemma HexPlain(s: string)
    ensures Hex4(s).Some? ==> forall i | 0 <= i < 4 :: s[i] != '"' && s[i] != '\\' && s[i] != '\0'
  {
  }

  // Bytes written, and characters of the source consumed.
  datatype Step = Step(out: string, used: nat)

  // parse_utf16, from the character behind the 'u'. The bit fields are written as
  // quotients and remainders.
  function Utf16(s: string): (r: Option<Step>)
    ensures r.Some? ==> 4 <= r.value.used <= |s| && |r.value.out| <= r.value.used
  {
    match Hex4(s)
    case None => None
    case Some(cp) =>
      if cp < 0x80 then Some(Step([cp as char], 4))
      else if cp < 0x800 then
        Some(Step([(0xC0 + cp / 64 % 32) as char, (0x80 + cp % 64) as char], 4))
      else if cp < 0xD800 || cp > 0xDFFF then
        Some(Step([(0xE0 + cp / 4096 % 16) as char, (0x80 + cp / 64 % 64) as char, (0x80 + cp % 64) as char], 4))
      else if cp <= 0xDBFF then
        if CharAt(s, 4) != '\\' || CharAt(s, 5) != 'u' then None
        else match Hex4(s[6..])
          case None => None
          case Some(trail) =>
            if trail < 0xDC00 || trail > 0xDFFF then None
            else
              var full := (cp - 0xD800) % 1024 * 1024 + (trail - 0xDC00) % 1024 + 0x10000;
              Some(Step([(0xF0 + full / 262144 % 8) as char, (0x80 + full / 4096 % 64) as char,
                         (0x80 + full / 64 % 64) as char, (0x80 + full % 64) as char], 10))
      else None
  }

  // The code point an escape, or a pair of escapes, denotes (RFC 8259 section 7).
  ghost predicate Denotes(s: string, cp: nat, used: nat) {
    (used == 4 && |s| >= 4 && IsHexNumeral(s[..4], cp) && !(0xD800 <= cp <= 0xDFFF))
    || (used == 10 && |s| >= 10 && s[4..6] == "\\u"
        && exists lead, trail | 0xD800 <= lead <= 0xDBFF && 0xDC00 <= trail <= 0xDFFF ::
             IsHexNumeral(s[..4], lead) && IsHexNumeral(s[6..10], trail)
             && cp == (lead - 0xD800) * 0x400 + (trail - 0xDC00) + 0x10000)
  }

  lemma Utf16Shape(s: string)
    requires Utf16(s).Some?
    ensures Utf16(s).value.used == 4 || Utf16(s).value.used == 10
    ensures Hex4(s).Some? && (Utf16(s).value.used == 4 ==> !(0xD800 <= Hex4(s).value <= 0xDFFF))
    ensures Utf16(s).value.used == 10 ==>
      s[4] == '\\' && s[5] == 'u' && Hex4(s[6..]).Some?
      && 0xD800 <= Hex4(s).value <= 0xDBFF && 0xDC00 <= Hex4(s[6..]).value <= 0xDFFF
  {
    hide Hex4;
  }

  lemma Utf16Single(s: string)
    requires Hex4(s).Some? && !(0xD800 <= Hex4(s).value <= 0xDFFF)
    ensures Utf16(s) == Some(Step(Utf8.Encode(Hex4(s).value), 4))
  {
    hide Hex4;
  }

  lemma Utf16Pair(s: string)
    requires |s| >= 6 && s[4] == '\\' && s[5] == 'u' && Hex4(s).Some? && Hex4(s[6..]).Some?
    requires 0xD800 <= Hex4(s).value <= 0xDBFF && 0xDC00 <= Hex4(s[6..]).value <= 0xDFFF
    ensures var cp := (Hex4(s).value - 0xD800) * 0x400 + (Hex4(s[6..]).value - 0xDC00) + 0x10000;
      0x10000 <= cp <= 0x10FFFF && Utf16(s) == Some(Step(Utf8.Encode(cp), 10))
  {
    hide Hex4;
    var lead, trail := Hex4(s).value, Hex4(s[6..]).value;
    var cp := (lead - 0xD800) * 0x400 + (trail - 0xDC00) + 0x10000;
    assert (lead - 0xD800) % 1024 * 1024 + (trail - 0xDC00) % 1024 + 0x10000 == cp;
    FourBytes(cp);
    hide Utf8.Encode;
  }

  lemma FourBytes(cp: nat)
    requires 0x10000 <= cp <= 0x10FFFF
    ensures Utf8.Encode(cp) == [(0xF0 + cp / 262144 % 8) as char, (0x80 + cp / 4096 % 64) as char,
                                (0x80 + cp / 64 % 64) as char, (0x80 + cp % 64) as char]
  {
  }

  // parse_utf16 accepts exactly the escapes that denote a scalar value, and emits its
  // shortest UTF-8 encoding.
  lemma Utf16Exact(s: string, cp: nat, used: nat)
    ensures Denotes(s, cp, used) ==> Utf8.IsScalar(cp) && Utf16(s) == Some(Step(Utf8.Encode(cp), used))
    ensures Utf16(s).Some? ==> exists x, n :: Denotes(s, x, n)
  {
    hide Hex4, IsHexNumeral;
    if Utf16(s).Some? {
      Utf16Shape(s);
      var lead := Hex4(s).value;
      Hex4Exactly(s, lead);
      if Utf16(s).value.used == 10 {
        var trail := Hex4(s[6..]).value;
        Hex4Exactly(s[6..], trail);
        assert s[4..6] == [s[4], s[5]] == "\\u" && s[6..][..4] == s[6..10];
        assert Denotes(s, (lead - 0xD800) * 0x400 + (trail - 0xDC00) + 0x10000, 10);
      } else {
        assert Denotes(s, lead, 4);
      }
    }
    if Denotes(s, cp, used) {
      hide Utf16;
      if used == 10 {
        var lead, trail :| 0xD800 <= lead <= 0xDBFF && 0xDC00 <= trail <= 0xDFFF
          && IsHexNumeral(s[..4], lead) && IsHexNumeral(s[6..10], trail)
          && cp == (lead - 0xD800) * 0x400 + (trail - 0xDC00) + 0x10000;
        assert s[4] == s[4..6][0] && s[5] == s[4..6][1] && s[6..][..4] == s[6..10];
        Hex4Exactly(s, lead);
        Hex4Exactly(s[6..], trail);
        Utf16Pair(s);
      } else {
        Hex4Exactly(s, cp);
        Utf16Single(s);
      }
    }
  }

  // ---------------------------------------------------------------- decoding

  function SimpleEscape(c: char): Option<char> {
    if c == '"' || c == '\\' || c == '/' then Some(c)
    else if c == 'b' then Some('\U{8}')
    else if c == 'f' then Some('\U{C}')
    else if c == 'n' then Some('\n')
    else if c == 'r' then Some('\r')
    else if c == 't' then Some('\t')
    else None
  }

  // One character of a string literal, which is not its end.
  function DecodeStep(s: string): (r: Option<Step>)
    requires CharAt(s, 0) != '\0'
    ensures r.Some? ==> 1 <= r.value.used <= |s| && |r.value.out| <= r.value.used
  {
    if s[0] == '\\' then
      match SimpleEscape(CharAt(s, 1))
      case Some(c) => Some(Step([c], 2))
      case None =>
        if CharAt(s, 1) != 'u' then None
        else match Utf16(s[2..])
          case None => None
          case Some(step) => Some(Step(step.out, step.used + 2))
    else if s[0] as nat < 0x20 then None
    else Some(Step([s[0]], 1))
  }

  // process_string: decodes len characters. The text goes on behind them.
  function Decode(s: string, len: nat): Option<string>
    decreases len
  {
    if len == 0 || CharAt(s, 0) == '\0' then Some("")
    else match DecodeStep(s)
      case None => None
      case Some(step) =>
        match Decode(s[step.used..], if step.used < len then len - step.used else 0)
        case None => None
        case Some(rest) => Some(step.out + rest)
  }

  datatype Quoted = Quoted(content: string, rest: string)

  // get_quoted_string
  function GetQuoted(s: string): (r: Option<Quoted>)
    ensures r.Some? ==> |r.value.rest| + 2 <= |s|
  {
    match SkipQuotes(s)
    case None => None
    case Some(rest) =>
      match Decode(s[1..], |s| - |rest| - 2)
      case None => None
      case Some(content) => Some(Quoted(CString(content), rest))
  }

  // The scan either ends at a quote or goes on behind one or two characters.
  lemma SkipBodyStep(s: string, rest: string) returns (k: nat)
    requires SkipBody(s) == Some(rest)
    ensures CharAt(s, 0) != '\0' && k <= 2 && k <= |s|
    ensures k == 0 ==> s != "" && s[0] == '"' && rest == s[1..]
    ensures k > 0 ==> s[0] != '"' && SkipBody(s[k..]) == Some(rest)
  {
    k := if s[0] == '"' then 0 else if s[0] == '\\' then 2 else 1;
  }

  lemma EndOn(s: string, k: nat, n: nat, rest: string)
    requires k <= |s| && n < |s[k..]| && s[k..][n] == '"' && rest == s[k..][n + 1..]
    ensures k + n < |s| && s[k + n] == '"' && rest == s[k + n + 1..]
  {
  }

  lemma {:induction false} SkipBodyEnd(s: string, rest: string)
    requires SkipBody(s) == Some(rest)
    ensures var len := |s| - |rest| - 1; s[len] == '"' && rest == s[len + 1..]
    decreases |s|
  {
    var k := SkipBodyStep(s, rest);
    hide SkipBody;
    if k > 0 {
      var t := s[k..];
      SkipBodyEnd(t, rest);
      EndOn(s, k, |t| - |rest| - 1, rest);
    }
  }

  lemma {:induction false} SkipPlain(s: string, n: nat)
    requires n <= |s| && forall i | 0 <= i < n :: s[i] != '"' && s[i] != '\\' && s[i] != '\0'
    ensures SkipBody(s) == SkipBody(s[n..])
    decreases n
  {
    if n > 0 {
      SkipPlain(s[1..], n - 1);
      assert s[1..][n - 1..] == s[n..];
    }
  }

  // A step of the decoder ends where the scan for the closing quote passes, too.
  lemma StepSkips(s: string, rest: string)
    requires SkipBody(s) == Some(rest) && s[0] != '"' && DecodeStep(s).Some?
    ensures SkipBody(s[DecodeStep(s).value.used..]) == Some(rest)
  {
    hide Utf16, Hex4, HexValue;
    var used := DecodeStep(s).value.used;
    if used > 2 {
      var t := s[2..];
      Utf16Shape(t);
      HexPlain(t);
      SkipPlain(t, 4);
      assert s[6..] == t[4..];
      if used == 12 {
        var u := t[4..];
        assert u[0] == '\\' && u[1] == 'u' && u[2..] == t[6..] == s[8..];
        HexPlain(s[8..]);
        SkipPlain(s[8..], 4);
        assert s[8..][4..] == s[12..];
      }
    }
  }

  // Decoding a literal never goes past the closing quote that skip_quotes found, and
  // never writes more characters than it reads.
  lemma {:induction false} DecodeWithin(s: string, rest: string)
    requires SkipBody(s) == Some(rest)
    ensures var len := |s| - |rest| - 1;
      s[len] == '"' && rest == s[len + 1..]
      && (len > 0 && DecodeStep(s).Some? ==> DecodeStep(s).value.used <= len)
      && (Decode(s, len).Some? ==> |Decode(s, len).value| <= len)
    decreases |s|
  {
    hide *;
    SkipBodyEnd(s, rest);
    var k := SkipBodyStep(s, rest);
    var len := |s| - |rest| - 1;
    if len == 0 || DecodeStep(s).None? {
      DecodeStops(s, len);
    } else {
      StepSkips(s, rest);
      var step := DecodeStep(s).value;
      var t := s[step.used..];
      DecodeWithin(t, rest);
      DecodeUnfolds(s, len, step, |t| - |rest| - 1);
    }
  }

  lemma DecodeStops(s: string, len: nat)
    requires CharAt(s, 0) != '\0' && (len == 0 || DecodeStep(s).None?)
    ensures Decode(s, len) == if len == 0 then Some("") else None
  {
    hide DecodeStep;
  }

  lemma DecodeUnfolds(s: string, len: nat, step: Step, more: nat)
    requires CharAt(s, 0) != '\0' && DecodeStep(s) == Some(step) && 0 < len == step.used + more
    ensures Decode(s, len).Some? ==>
      var later := Decode(s[step.used..], more);
      later.Some? && |Decode(s, len).value| == |step.out| + |later.value|
  {
    hide DecodeStep;
  }

  // ---------------------------------------------------------------- escaping

  // The number of a control character.
  function HexDigits(c: char): (r: string)
    requires c as nat < 0x20
    ensures |r| == 4
  {
    "00" + [SMALL_DIGITS[c as nat / 16], SMALL_DIGITS[c as nat % 16]]
  }

  // What json_serialize_string writes for one character.
  function EscapeChar(c: char, escapeSlashes: bool): string {
    if c == '"' then "\\\""
    else if c == '\\' then "\\\\"
    else if c == '\U{8}' then "\\b"
    else if c == '\U{C}' then "\\f"
    else if c == '\n' then "\\n"
    else if c == '\r' then "\\r"
    else if c == '\t' then "\\t"
    else if c as nat < 0x20 then "\\u" + HexDigits(c)
    else if c == '/' && escapeSlashes then "\\/"
    else [c]
  }

  function Escape(s: string, escapeSlashes: bool): string {
    if s == "" then "" else EscapeChar(s[0], escapeSlashes) + Escape(s[1..], escapeSlashes)
  }

  function Quote(s: string, escapeSlashes: bool): string {
    "\"" + Escape(s, escapeSlashes) + "\""
  }

  lemma HexDigit(d: nat)
    requires d < 16
    ensures HexValue(SMALL_DIGITS[d]) == Some(d)
    ensures SMALL_DIGITS[d] != '"' && SMALL_DIGITS[d] != '\\' && SMALL_DIGITS[d] != '\0'
  {
  }

  // An escaped character is skipped as a whole and decodes to the character.
  lemma EscapedStep(c: char, esc: bool, t: string)
    requires c != '\0'
    ensures SkipBody(EscapeChar(c, esc) + t) == SkipBody(t)
    ensures CharAt(EscapeChar(c, esc) + t, 0) != '\0'
    ensures DecodeStep(EscapeChar(c, esc) + t) == Some(Step([c], |EscapeChar(c, esc)|))
  {
    EscapeCharSome(c, esc);
    hide *;
    var n := |EscapeChar(c, esc)|;
    if n == 1 {
      PlainEscape(c, esc, t);
    } else if n == 2 {
      PairEscape(c, esc, t);
    } else {
      HexEscape(c, esc, t);
    }
  }

  lemma PlainEscape(c: char, esc: bool, t: string)
    requires c != '\0' && |EscapeChar(c, esc)| == 1
    ensures var s := EscapeChar(c, esc) + t;
      CharAt(s, 0) != '\0' && SkipBody(s) == SkipBody(t) && DecodeStep(s) == Some(Step([c], 1))
  {
    hide Utf16;
    assert EscapeChar(c, esc) == [c];
    assert ([c] + t)[1..] == t;
  }

  lemma PairEscape(c: char, esc: bool, t: string)
    requires |EscapeChar(c, esc)| == 2
    ensures var s := EscapeChar(c, esc) + t;
      CharAt(s, 0) != '\0' && SkipBody(s) == SkipBody(t) && DecodeStep(s) == Some(Step([c], 2))
  {
    hide Utf16;
    var e := EscapeChar(c, esc);
    assert e[0] == '\\' && e[1] != '\0' && SimpleEscape(e[1]) == Some(c);
    hide EscapeChar, SimpleEscape;
    assert (e + t)[2..] == t;
  }

  // A control character is written with four digits.
  lemma HexEscape(c: char, esc: bool, t: string)
    requires |EscapeChar(c, esc)| > 2
    ensures var s := EscapeChar(c, esc) + t;
      CharAt(s, 0) != '\0' && SkipBody(s) == SkipBody(t) && DecodeStep(s) == Some(Step([c], |EscapeChar(c, esc)|))
  {
    HexEscapeIs(c, esc);
    hide *;
    HexDecoded(c, t);
    UEscape(HexDigits(c) + t);
    Assoc("\\u", HexDigits(c), t);
  }

  lemma HexEscapeIs(c: char, esc: bool)
    requires |EscapeChar(c, esc)| > 2
    ensures c as nat < 0x20 && EscapeChar(c, esc) == "\\u" + HexDigits(c)
  {
  }

  lemma HexDecoded(c: char, t: string)
    requires c as nat < 0x20
    ensures SkipBody(HexDigits(c) + t) == SkipBody(t) && Utf16(HexDigits(c) + t) == Some(Step([c], 4))
  {
    var n := c as nat;
    HexDigit(n / 16);
    HexDigit(n % 16);
    HexDigit(0);
    var u := HexDigits(c) + t;
    assert u[0] == '0' && u[1] == '0' && u[2] == SMALL_DIGITS[n / 16] && u[3] == SMALL_DIGITS[n % 16];
    assert Hex4(u) == Some(n);
    hide Hex4, HexValue;
    SkipPlain(u, 4);
    assert u[4..] == t;
  }

  lemma UEscape(u: string)
    requires Utf16(u).Some?
    ensures CharAt("\\u" + u, 0) != '\0' && SkipBody("\\u" + u) == SkipBody(u)
    ensures DecodeStep("\\u" + u) == Some(Step(Utf16(u).value.out, Utf16(u).value.used + 2))
  {
    hide Utf16;
    assert ("\\u" + u)[2..] == u;
  }

  lemma DecodeOn(e: string, t: string, c: char, n: nat)
    requires e != "" && CharAt(e + t, 0) != '\0' && DecodeStep(e + t) == Some(Step([c], |e|))
    ensures Decode(e + t, |e| + n) == match Decode(t, n)
      case None => None
      case Some(rest) => Some([c] + rest)
  {
    hide DecodeStep;
    assert (e + t)[|e|..] == t;
  }

  lemma Assoc(a: string, b: string, c: string)
    ensures (a + b) + c == a + (b + c)
  {
  }

  lemma EscapeCharSome(c: char, esc: bool)
    ensures EscapeChar(c, esc) != "" && |EscapeChar(c, esc)| <= 6
  {
  }

  lemma EscapeUnfolds(s: string, esc: bool, t: string)
    requires s != "" && NulFree(s)
    ensures s[0] != '\0' && NulFree(s[1..]) && EscapeChar(s[0], esc) != ""
    ensures |Escape(s, esc)| == |EscapeChar(s[0], esc)| + |Escape(s[1..], esc)|
    ensures Escape(s, esc) + t == EscapeChar(s[0], esc) + (Escape(s[1..], esc) + t)
  {
    hide EscapeChar;
    EscapeCharSome(s[0], esc);
    assert NulFree(s[1..]);
    assert Escape(s, esc) == EscapeChar(s[0], esc) + Escape(s[1..], esc);
    hide *;
    Assoc(EscapeChar(s[0], esc), Escape(s[1..], esc), t);
  }

  lemma EscapedNone(esc: bool, t: string)
    ensures Escape("", esc) == "" && "" + t == t && Decode(t, 0) == Some("")
  {
  }

  // The scan passes an escaped text, and the decoder reads it back, whatever follows.
  lemma {:induction false} EscapedDecodes(s: string, esc: bool, t: string)
    requires NulFree(s)
    ensures SkipBody(Escape(s, esc) + t) == SkipBody(t)
    ensures Decode(Escape(s, esc) + t, |Escape(s, esc)|) == Some(s)
  {
    hide *;
    if s == "" {
      EscapedNone(esc, t);
    } else {
      EscapeUnfolds(s, esc, t);
      EscapedStep(s[0], esc, Escape(s[1..], esc) + t);
      EscapedDecodes(s[1..], esc, t);
      DecodeOn(EscapeChar(s[0], esc), Escape(s[1..], esc) + t, s[0], |Escape(s[1..], esc)|);
      assert [s[0]] + s[1..] == s;
    }
  }

  lemma QuotedBy(text: string, body: string, s: string, n: nat, rest: string)
    requires text == "\"" + body && SkipBody(body) == Some(rest) && Decode(body, n) == Some(s)
    requires |body| == n + 1 + |rest| && NulFree(s)
    ensures GetQuoted(text) == Some(Quoted(s, rest))
  {
    hide SkipBody, Decode;
    CStringNulFree(s);
    hide CString, NulFree;
    assert text[1..] == body && CharAt(text, 0) == '"';
  }

  lemma QuoteIs(s: string, esc: bool)
    ensures Quote(s, esc) == "\"" + Escape(s, esc) + "\""
  {
  }

  // A quoted string is read back, and the cursor is left behind its closing quote.
  lemma QuotedRoundTrip(s: string, esc: bool, rest: string)
    requires NulFree(s)
    ensures GetQuoted(Quote(s, esc) + rest) == Some(Quoted(s, rest))
  {
    var e, q, t := Escape(s, esc), "\"", "\"" + rest;
    assert SkipBody(t) == Some(rest) by {
      assert t[1..] == rest;
    }
    hide *;
    EscapedDecodes(s, esc, t);
    Assoc(q + e, q, rest);
    Assoc(q, e, t);
    QuotedBy(q + (e + t), e + t, s, |e|, rest);
    QuoteIs(s, esc);
  }
}
