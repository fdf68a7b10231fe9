/** The string literals that the parser reads, piece by piece (RFC 8259 section 7). */
module ParsonGrammar {
  import opened CStrings
  import opened Results
  import opened ParsonText
  import Utf8

  // One character of a literal: itself, a short escape, or a code point in hexadecimal.
  datatype Piece = Plain(c: char) | Short(letter: char, c: char) | Unicode(digits: string, code: nat)

  // The short escapes and what they stand for.
  const SHORT_ESCAPES: map<char, char> :=
    map['"' := '"', '\\' := '\\', '/' := '/',
        'b' := '\U{8}', 'f' := '\U{C}', 'n' := '\U{A}', 'r' := '\U{D}', 't' := '\U{9}']

  ghost predicate GoodPiece(p: Piece) {
    match p
    case Plain(c) => c as nat >= 0x20 && c != '"' && c != '\\'
    case Short(letter, c) => letter in SHORT_ESCAPES && SHORT_ESCAPES[letter] == c
    case Unicode(digits, code) => Denotes(digits, code, |digits|)
  }

  function PieceText(p: Piece): string {
    match p
    case Plain(c) => [c]
    case Short(letter, _) => ['\\', letter]
    case Unicode(digits, _) => "\\u" + digits
  }

  // A code point stands for its bytes.
  function PieceBytes(p: Piece): string {
    match p
    case Plain(c) => [c]
    case Short(_, c) => [c]
    case Unicode(_, code) => if code <= 0x10FFFF then Utf8.Encode(code) else ""
  }

  function Text(pieces: seq<Piece>): string {
    if pieces == [] then "" else PieceText(pieces[0]) + Text(pieces[1..])
  }

  function Bytes(pieces: seq<Piece>): string {
    if pieces == [] then "" else PieceBytes(pieces[0]) + Bytes(pieces[1..])
  }

  ghost predicate GoodPieces(pieces: seq<Piece>) { forall i | 0 <= i < |pieces| :: GoodPiece(pieces[i]) }

  function Literal(pieces: seq<Piece>): string { "\"" + (Text(pieces) + "\"") }

  // ------------------------------------------------------------- a single piece

  lemma ShortExactly(letter: char, c: char)
    ensures SimpleEscape(letter) == Some(c) <==> letter in SHORT_ESCAPES && SHORT_ESCAPES[letter] == c
  {
  }

  // What an escape denotes depends on its own characters only.
  lemma DenotesHere(digits: string, t: string, code: nat)
    ensures Denotes(digits, code, |digits|) ==> Denotes(digits + t, code, |digits|)
  {
    hide IsHexNumeral;
    var s := digits + t;
    if |digits| == 4 { assert s[..4] == digits[..4]; }
    if |digits| == 10 { assert s[..4] == digits[..4] && s[4..6] == digits[4..6] && s[6..10] == digits[6..10]; }
  }

  lemma DenotesAlone(s: string, code: nat, n: nat)
    requires Denotes(s, code, n)
    ensures n <= |s| && (n == 4 || n == 10) && Denotes(s[..n], code, n)
  {
    hide IsHexNumeral;
    var digits := s[..n];
    if n == 4 { assert digits[..4] == s[..4]; }
    if n == 10 { assert digits[..4] == s[..4] && digits[4..6] == s[4..6] && digits[6..10] == s[6..10]; }
  }

  lemma UnicodeStep(digits: string, code: nat, t: string)
    requires GoodPiece(Unicode(digits, code))
    ensures var s := "\\u" + digits + t;
      CharAt(s, 0) != '\0' && DecodeStep(s) == Some(Step(PieceBytes(Unicode(digits, code)), 2 + |digits|))
  {
    var s := "\\u" + digits + t;
    assert s[2..] == digits + t && s[0] == '\\' && s[1] == 'u' && SimpleEscape('u') == None;
    hide Denotes, Utf16, SimpleEscape, PieceBytes, Utf8.Encode;
    UnicodeIs(digits, code);
    DenotesHere(digits, t, code);
    Utf16Exact(digits + t, code, |digits|);
  }

  // A piece is decoded to its bytes, whatever follows.
  lemma PieceStep(p: Piece, t: string)
    requires GoodPiece(p)
    ensures var s := PieceText(p) + t;
      s != "" && s[0] != '"' && CharAt(s, 0) != '\0' && DecodeStep(s) == Some(Step(PieceBytes(p), |PieceText(p)|))
  {
    hide Utf16, Denotes;
    match p
    case Plain(c) =>
    case Short(letter, c) => ShortExactly(letter, c);
    case Unicode(digits, code) => UnicodeStep(digits, code, t);
  }

  // Where the decoder takes a step, there is a piece.
  lemma StepPiece(s: string, step: Step) returns (p: Piece)
    requires CharAt(s, 0) != '\0' && s[0] != '"' && DecodeStep(s) == Some(step)
    ensures GoodPiece(p) && step.used <= |s| && PieceText(p) == s[..step.used] && PieceBytes(p) == step.out
  {
    hide Utf16;
    if s[0] != '\\' {
      p := Plain(s[0]);
    } else if SimpleEscape(CharAt(s, 1)).Some? {
      p := Short(s[1], SimpleEscape(s[1]).value);
      ShortExactly(p.letter, p.c);
    } else {
      p := UnicodePiece(s, step);
    }
  }

  lemma UnicodeIs(digits: string, code: nat)
    ensures GoodPiece(Unicode(digits, code)) <==> Denotes(digits, code, |digits|)
    ensures PieceText(Unicode(digits, code)) == "\\u" + digits
    ensures Utf8.IsScalar(code) ==> PieceBytes(Unicode(digits, code)) == Utf8.Encode(code) && code <= 0x10FFFF
  {
  }

  lemma UnicodePiece(s: string, step: Step) returns (p: Piece)
    requires |s| >= 2 && s[0] == '\\' && s[1] == 'u'
    requires Utf16(s[2..]).Some? && step == Step(Utf16(s[2..]).value.out, Utf16(s[2..]).value.used + 2)
    ensures GoodPiece(p) && step.used <= |s| && PieceText(p) == s[..step.used] && PieceBytes(p) == step.out
  {
    hide *;
    var t := s[2..];
    Utf16Exact(t, 0, 0);
    var code: nat, n: nat :| Denotes(t, code, n);
    DenotesAlone(t, code, n);
    Utf16Exact(t, code, n);
    p := Unicode(t[..n], code);
    UnicodeIs(t[..n], code);
    assert s[..n + 2] == "\\u" + t[..n];
  }

  // ---------------------------------------------------------------- whole literals

  lemma TextStep(pieces: seq<Piece>, t: string)
    requires pieces != [] && GoodPieces(pieces)
    ensures GoodPiece(pieces[0]) && GoodPieces(pieces[1..]) && PieceText(pieces[0]) != ""
    ensures Text(pieces) + t == PieceText(pieces[0]) + (Text(pieces[1..]) + t)
    ensures |Text(pieces)| == |PieceText(pieces[0])| + |Text(pieces[1..])|
    ensures Bytes(pieces) == PieceBytes(pieces[0]) + Bytes(pieces[1..])
  {
    var p, later := pieces[0], pieces[1..];
    assert GoodPiece(p);
    hide GoodPiece, PieceBytes;
    PiecePositive(p);
    hide PieceText;
    assert Text(pieces) == PieceText(p) + Text(later);
    Assoc(PieceText(p), Text(later), t);
  }

  lemma DecodeMore(e: string, t: string, out: string, n: nat)
    requires e != "" && CharAt(e + t, 0) != '\0' && DecodeStep(e + t) == Some(Step(out, |e|))
    ensures Decode(e + t, |e| + n) == match Decode(t, n)
      case None => None
      case Some(rest) => Some(out + rest)
  {
    hide DecodeStep;
    assert (e + t)[|e|..] == t;
  }

  lemma {:induction false} TextDecodes(pieces: seq<Piece>, t: string)
    requires GoodPieces(pieces)
    ensures Decode(Text(pieces) + t, |Text(pieces)|) == Some(Bytes(pieces))
  {
    if pieces == [] {
      assert Text(pieces) == "" && Bytes(pieces) == "";
    } else {
      hide *;
      TextStep(pieces, t);
      PieceStep(pieces[0], Text(pieces[1..]) + t);
      TextDecodes(pieces[1..], t);
      DecodeMore(PieceText(pieces[0]), Text(pieces[1..]) + t, PieceBytes(pieces[0]), |Text(pieces[1..])|);
    }
  }

  // The scan for the closing quote passes over a piece.
  lemma PieceSkipped(p: Piece, t: string)
    requires GoodPiece(p)
    ensures SkipBody(PieceText(p) + t) == SkipBody(t)
  {
    match p
    case Plain(c) => assert ([c] + t)[1..] == t;
    case Short(letter, c) =>
      assert letter != '\0' && (['\\', letter] + t)[2..] == t;
    case Unicode(digits, code) =>
      DigitsSkipped(digits, code, t);
      assert ("\\u" + digits + t)[2..] == digits + t;
  }

  lemma DigitsSkipped(digits: string, code: nat, t: string)
    requires Denotes(digits, code, |digits|)
    ensures SkipBody(digits + t) == SkipBody(t)
  {
    var s := digits + t;
    if |digits| == 4 {
      assert digits[..4] == digits;
      FourPlain(digits, code);
      SkipPlain(s, 4);
      assert s[4..] == t;
    } else {
      var lead, trail :| IsHexNumeral(digits[..4], lead) && IsHexNumeral(digits[6..10], trail);
      FourPlain(digits[..4], lead);
      FourPlain(digits[6..10], trail);
      assert digits == digits[..4] + digits[4..6] + digits[6..10];
      hide IsHexNumeral;
      SkipPlain(s, 4);
      assert s[4..][0] == '\\' == digits[4..6][0] && s[4..][1] == 'u' == digits[4..6][1];
      assert s[4..][2..] == s[6..];
      SkipPlain(s[6..], 4);
      assert s[6..][4..] == t;
    }
  }

  lemma FourPlain(digits: string, code: nat)
    requires |digits| == 4 && IsHexNumeral(digits, code)
    ensures forall i | 0 <= i < 4 :: digits[i] != '"' && digits[i] != '\\' && digits[i] != '\0'
  {
    assert digits[..4] == digits;
    Hex4Exactly(digits, code);
    HexPlain(digits);
  }

  lemma {:induction false} TextSkipped(pieces: seq<Piece>, t: string)
    requires GoodPieces(pieces)
    ensures SkipBody(Text(pieces) + t) == SkipBody(t)
  {
    if pieces == [] {
      assert Text(pieces) + t == t;
    } else {
      hide *;
      TextStep(pieces, t);
      PieceSkipped(pieces[0], Text(pieces[1..]) + t);
      TextSkipped(pieces[1..], t);
    }
  }

  // A literal is read as the bytes of its pieces, up to a NUL among them.
  lemma ReadLiteral(pieces: seq<Piece>, rest: string)
    requires GoodPieces(pieces)
    ensures GetQuoted(Literal(pieces) + rest) == Some(Quoted(CString(Bytes(pieces)), rest))
  {
    var text, t := Text(pieces), "\"" + rest;
    assert SkipBody(t) == Some(rest) by { assert t[1..] == rest; }
    hide SkipBody, Decode, Text, Bytes, CString, GoodPieces;
    TextSkipped(pieces, t);
    TextDecodes(pieces, t);
    assert Literal(pieces) + rest == "\"" + (text + t);
    hide Literal;
    QuotedAs("\"" + (text + t), text + t, Bytes(pieces), |text|, rest);
  }

  lemma QuotedAs(s: string, body: string, bytes: string, n: nat, rest: string)
    requires s == "\"" + body && SkipBody(body) == Some(rest) && Decode(body, n) == Some(bytes)
    requires |body| == n + 1 + |rest|
    ensures GetQuoted(s) == Some(Quoted(CString(bytes), rest))
  {
    hide SkipBody, Decode, CString;
    assert s[1..] == body && CharAt(s, 0) == '"';
  }

  // Whatever is decoded up to the closing quote consists of pieces.
  lemma {:induction false} DecodedPieces(s: string, rest: string, out: string) returns (pieces: seq<Piece>)
    requires SkipBody(s) == Some(rest) && |s| > |rest| && Decode(s, |s| - |rest| - 1) == Some(out)
    ensures GoodPieces(pieces) && Bytes(pieces) == out && s == Text(pieces) + ("\"" + rest)
    decreases |s|
  {
    hide *;
    var len := |s| - |rest| - 1;
    SkipBodyEnd(s, rest);
    var k := SkipBodyStep(s, rest);
    if len == 0 {
      NoPieces();
      DecodeStops(s, 0);
      pieces := [];
      assert s == "\"" + rest;
    } else {
      if DecodeStep(s).None? { DecodeStops(s, len); }
      var step := DecodeStep(s).value;
      DecodeWithin(s, rest);
      StepSkips(s, rest);
      var p := StepPiece(s, step);
      var t := s[step.used..];
      PiecePositive(p);
      DecodeOnce(s, len, step);
      var later := DecodedPieces(t, rest, Decode(t, len - step.used).value);
      pieces := [p] + later;
      PrependPiece(p, later);
      assert s == s[..step.used] + t;
      Assoc(PieceText(p), Text(later), "\"" + rest);
    }
  }

  lemma NoPieces()
    ensures GoodPieces([]) && Bytes([]) == "" && Text([]) == ""
  {
  }

  lemma PiecePositive(p: Piece)
    ensures PieceText(p) != ""
  {
  }

  lemma PrependPiece(p: Piece, later: seq<Piece>)
    requires GoodPiece(p) && GoodPieces(later)
    ensures GoodPieces([p] + later) && Text([p] + later) == PieceText(p) + Text(later)
    ensures Bytes([p] + later) == PieceBytes(p) + Bytes(later)
  {
    hide GoodPiece, PieceBytes;
    assert ([p] + later)[1..] == later;
  }

  lemma DecodeOnce(s: string, len: nat, step: Step)
    requires CharAt(s, 0) != '\0' && DecodeStep(s) == Some(step) && 0 < len && step.used <= len && step.used <= |s|
    ensures Decode(s, len).Some? ==>
      Decode(s[step.used..], len - step.used).Some?
      && Decode(s, len).value == step.out + Decode(s[step.used..], len - step.used).value
  {
    hide DecodeStep;
  }

  // A string is read exactly where a literal made of such pieces stands, and as its bytes
  // up to a NUL among them.
  lemma QuotedExactly(s: string, content: string, rest: string)
    ensures GetQuoted(s) == Some(Quoted(content, rest)) <==>
      exists pieces :: GoodPieces(pieces) && s == Literal(pieces) + rest && content == CString(Bytes(pieces))
  {
    hide Literal, CString, Bytes, GoodPieces;
    if GetQuoted(s) == Some(Quoted(content, rest)) {
      var pieces := QuotedPieces(s, content, rest);
    }
    forall pieces | GoodPieces(pieces) && s == Literal(pieces) + rest ensures
      GetQuoted(s) == Some(Quoted(CString(Bytes(pieces)), rest))
    {
      ReadLiteral(pieces, rest);
    }
  }

  lemma QuotedPieces(s: string, content: string, rest: string) returns (pieces: seq<Piece>)
    requires GetQuoted(s) == Some(Quoted(content, rest))
    ensures GoodPieces(pieces) && s == Literal(pieces) + rest && content == CString(Bytes(pieces))
  {
    hide SkipBody, Decode, Text, Bytes, CString, GoodPieces;
    var t := s[1..];
    pieces := DecodedPieces(t, rest, Decode(t, |t| - |rest| - 1).value);
    assert s == ['"'] + t;
    assert s == "\"" + (Text(pieces) + ("\"" + rest));
  }
}
