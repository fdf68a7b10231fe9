/** cgiParseFormInput and cgiUnescapeChars: url-encoded forms (RFC 1866 section 8.2.1). */
module UrlEncodedForm {
  import opened CStrings

  // ------------------------------------------------------------- unescaping

  datatype EscapeState = EscapeRest | EscapeFirst | EscapeSecond

  // The table cgiHexValue: zero for everything that is not a hexadecimal digit.
  function HexValue(c: char): (v: nat)
    ensures v < 16
  {
    if '0' <= c <= '9' then c as nat - '0' as nat
    else if 'A' <= c <= 'F' then c as nat - 'A' as nat + 10
    else if 'a' <= c <= 'f' then c as nat - 'a' as nat + 10
    else 0
  }

  // The state of the decoder, with the value of the first hexadecimal digit.
  datatype Machine = Machine(state: EscapeState, high: nat)

  const START := Machine(EscapeRest, 0)

  function Next(m: Machine, c: char): Machine {
    match m.state
    case EscapeRest => if c == '%' then Machine(EscapeFirst, 0) else START
    case EscapeFirst => Machine(EscapeSecond, HexValue(c))
    case EscapeSecond => START
  }

  // What is written on reading c; the value is stored in a char, hence taken modulo 256.
  function Emit(m: Machine, c: char): string {
    match m.state
    case EscapeRest => if c == '%' then "" else if c == '+' then " " else [c]
    case EscapeFirst => ""
    case EscapeSecond => [((m.high * 16 + HexValue(c)) % 256) as char]
  }

  function Unescape(s: string, m: Machine): string {
    if s == "" then "" else Emit(m, s[0]) + Unescape(s[1..], Next(m, s[0]))
  }

  function Unescaped(s: string): string {
    Unescape(s, START)
  }

  // The decoded text, with its NUL, fits into the len + 1 characters allocated for it.
  lemma {:induction false} NeverLonger(s: string, m: Machine)
    ensures |Unescape(s, m)| <= |s|
  {
    if s != "" {
      NeverLonger(s[1..], Next(m, s[0]));
    }
  }

  lemma UnescapeFrom(cp: string, pos: nat, m: Machine)
    requires pos < |cp|
    ensures Unescape(cp[pos..], m) == Emit(m, cp[pos]) + Unescape(cp[pos + 1..], Next(m, cp[pos]))
  {
    assert cp[pos..][1..] == cp[pos + 1..];
  }

  // The switch over the state.
  method UnescapeChar(s: array<char>, to: nat, oldState: EscapeState, oldValue: nat, ch: char)
    returns (dstPos: nat, state: EscapeState, escapedValue: nat)
    requires to < s.Length && oldValue % 16 == 0 && (oldState != EscapeSecond ==> oldValue == 0)
    modifies s
    ensures to <= dstPos <= to + 1 && escapedValue % 16 == 0 && (state != EscapeSecond ==> escapedValue == 0)
    ensures Machine(state, escapedValue / 16) == Next(Machine(oldState, oldValue / 16), ch)
    ensures s[..dstPos] == old(s[..to]) + Emit(Machine(oldState, oldValue / 16), ch)
  {
    hide HexValue;
    dstPos, state, escapedValue := to, oldState, oldValue;
    match state {
      case EscapeRest =>
        if ch == '%' {
          state := EscapeFirst;
        } else {
          s[dstPos] := if ch == '+' then ' ' else ch;
          dstPos := dstPos + 1;
        }
      case EscapeFirst =>
        escapedValue := HexValue(ch) * 16;
        state := EscapeSecond;
      case EscapeSecond =>
        s[dstPos] := ((escapedValue + HexValue(ch)) % 256) as char;
        dstPos := dstPos + 1;
        escapedValue := 0;
        state := EscapeRest;
    }
  }

  method UnescapeChars(cp: string) returns (s: array<char>, length: nat)
    ensures fresh(s) && length < s.Length == |cp| + 1
    ensures s[..length] == Unescaped(cp) && s[length] == '\0'
  {
    hide Unescape, HexValue, Next, Emit;
    s := new char[|cp| + 1](_ => '\0');
    var state, escapedValue := EscapeRest, 0;
    var srcPos, dstPos := 0, 0;
    assert cp[0..] == cp;
    while srcPos < |cp|
      invariant 0 <= srcPos <= |cp| && 0 <= dstPos <= srcPos && 0 <= escapedValue
      invariant state != EscapeSecond ==> escapedValue == 0
      invariant escapedValue % 16 == 0
      invariant s[..dstPos] + Unescape(cp[srcPos..], Machine(state, escapedValue / 16)) == Unescaped(cp)
    {
      UnescapeFrom(cp, srcPos, Machine(state, escapedValue / 16));
      dstPos, state, escapedValue := UnescapeChar(s, dstPos, state, escapedValue, cp[srcPos]);
      srcPos := srcPos + 1;
    }
    Exhausted(Machine(state, escapedValue / 16));
    assert cp[srcPos..] == "" && s[..dstPos] == Unescaped(cp);
    ghost var done := s[..dstPos];
    s[dstPos] := '\0';
    assert s[..dstPos] == done;
    length := dstPos;
  }

  lemma Exhausted(m: Machine)
    ensures Unescape("", m) == ""
  {
  }

  // ------------------------------------------------- the look-ups in the table

  // The index into cgiHexValue is a char, which is signed.
  function TableIndex(c: char): (i: int)
    requires c as nat < 256
    ensures -128 <= i < 128 && i % 256 == c as int
  {
    if c as nat < 128 then c as int else c as int - 256
  }

  predicate IsBytes(s: string) { forall i | 0 <= i < |s| :: s[i] as nat < 256 }

  // Every look-up in the table of 256 values stays inside it.
  predicate LooksInside(s: string, m: Machine)
    requires IsBytes(s)
  {
    s == ""
    || ((m.state == EscapeRest || 0 <= TableIndex(s[0]) < 256) && LooksInside(s[1..], Next(m, s[0])))
  }

  // An escape starts at a '%' that is not one of the two characters of another escape.
  predicate EscapeAt(s: string, i: nat) {
    i < |s| && s[i] == '%' && (i >= 1 ==> !EscapeAt(s, i - 1)) && (i >= 2 ==> !EscapeAt(s, i - 2))
  }

  function MachineAt(s: string, i: nat): Machine
    requires i <= |s|
  {
    if i == 0 then START else Next(MachineAt(s, i - 1), s[i - 1])
  }

  lemma {:induction false} MachineKnows(s: string, i: nat)
    requires i <= |s|
    ensures MachineAt(s, i).state == EscapeFirst <==> i >= 1 && EscapeAt(s, i - 1)
    ensures MachineAt(s, i).state == EscapeSecond <==> i >= 2 && EscapeAt(s, i - 2)
  {
    if i > 0 { MachineKnows(s, i - 1); }
  }

  // The character at j is looked up in the table, at an index outside it.
  predicate OutsideAt(s: string, j: nat)
    requires IsBytes(s) && j < |s|
  {
    MachineAt(s, j).state != EscapeRest && TableIndex(s[j]) < 0
  }

  lemma {:induction false} LooksFrom(s: string, i: nat)
    requires IsBytes(s) && i <= |s|
    ensures LooksInside(s[i..], MachineAt(s, i)) <==> forall j | i <= j < |s| :: !OutsideAt(s, j)
    decreases |s| - i
  {
    if i < |s| {
      LooksFrom(s, i + 1);
      assert s[i..][1..] == s[i + 1..] && MachineAt(s, i + 1) == Next(MachineAt(s, i), s[i]);
      assert LooksInside(s[i..], MachineAt(s, i)) <==> !OutsideAt(s, i) && LooksInside(s[i + 1..], MachineAt(s, i + 1));
    }
  }

  lemma OutsideExactly(s: string, j: nat)
    requires IsBytes(s) && j < |s|
    ensures OutsideAt(s, j) <==>
      s[j] as nat >= 128 && ((j >= 1 && EscapeAt(s, j - 1)) || (j >= 2 && EscapeAt(s, j - 2)))
  {
    hide EscapeAt, MachineAt;
    MachineKnows(s, j);
  }

  // A look-up leaves the table exactly when a byte from 128 on is one of the two
  // characters of an escape.
  lemma LooksOutsideExactly(s: string)
    requires IsBytes(s)
    ensures !LooksInside(s, START) <==>
      exists i, j | 0 <= i < j <= i + 2 && j < |s| :: EscapeAt(s, i) && s[j] as nat >= 128
  {
    assert s[0..] == s;
    LooksFrom(s, 0);
    hide LooksInside, EscapeAt, MachineAt, OutsideAt;
    if i, j :| 0 <= i < j <= i + 2 && j < |s| && EscapeAt(s, i) && s[j] as nat >= 128 {
      OutsideExactly(s, j);
    }
    if !LooksInside(s, START) {
      var j :| 0 <= j < |s| && OutsideAt(s, j);
      OutsideExactly(s, j);
      var i := if j >= 1 && EscapeAt(s, j - 1) then j - 1 else j - 2;
      assert EscapeAt(s, i) && s[j] as nat >= 128;
    }
  }

  // --------------------------------------------------------------- entries

  // A name and its value, as C strings.
  datatype Pair = Pair(attr: string, value: string)

  function DecodePair(name: string, value: string): Pair {
    Pair(CString(Unescaped(name)), CString(Unescaped(value)))
  }

  // Text split at the first stop character, if there is one.
  datatype Split = Split(head: string, found: bool, rest: string)

  function SplitAt(s: string, stop: char): (r: Split)
    ensures r.found ==> |r.rest| < |s|
  {
    var head := Upto(s, stop);
    if |head| == |s| then Split(head, false, "") else Split(head, true, s[|head| + 1..])
  }

  lemma SplitIs(head: string, stop: char, rest: string)
    requires stop !in head
    ensures SplitAt(head, stop) == Split(head, false, "")
    ensures SplitAt(head + [stop] + rest, stop) == Split(head, true, rest)
  {
    var s := head + [stop] + rest;
    forall i | 0 <= i < |head| ensures head[i] != stop { assert head[i] in head; }
    UptoIs(head, |head|, stop);
    UptoIs(s, |head|, stop);
    assert s[..|head|] == head && head[..|head|] == head && s[|head| + 1..] == rest;
  }

  // The pairs of url-encoded data. Data without '=' ends the list.
  function FormPairs(data: string): seq<Pair>
    decreases |data|
  {
    var name := SplitAt(data, '=');
    if !name.found then []
    else
      var value := SplitAt(name.rest, '&');
      [DecodePair(name.head, value.head)] + (if value.found then FormPairs(value.rest) else [])
  }

  lemma SplitWithin(data: string, start: nat, pos: nat, stop: char)
    requires start <= pos <= |data| && (forall i | start <= i < pos :: data[i] != stop)
    requires pos < |data| ==> data[pos] == stop
    ensures SplitAt(data[start..], stop) ==
      Split(data[start..pos], pos < |data|, if pos < |data| then data[pos + 1..] else "")
  {
    UptoIs(data[start..], pos - start, stop);
    assert data[start..][..pos - start] == data[start..pos];
    if pos < |data| {
      assert data[start..][pos - start + 1..] == data[pos + 1..];
    }
  }

  // The inner loops: the text up to the next stop character, which is consumed.
  method ScanTo(data: string, start: nat, stop: char) returns (len: nat, found: bool, pos: nat)
    requires start <= |data|
    ensures start + len <= pos <= |data| && (found ==> start < pos)
    ensures !found ==> pos == |data|
    ensures SplitAt(data[start..], stop) == Split(data[start..start + len], found, if found then data[pos..] else "")
  {
    hide SplitAt;
    pos, len := start, 0;
    while pos != |data|
      invariant start <= pos <= |data| && len == pos - start
      invariant forall i | start <= i < pos :: data[i] != stop
      decreases |data| - pos
    {
      if data[pos] == stop {
        SplitWithin(data, start, pos, stop);
        return len, true, pos + 1;
      }
      pos, len := pos + 1, len + 1;
    }
    SplitWithin(data, start, pos, stop);
    found := false;
  }

  method ParseFormInput(data: string) returns (entries: seq<Pair>)
    ensures entries == FormPairs(data)
  {
    hide SplitAt, FormPairs, CString;
    entries := [];
    var pos := 0;
    assert data[0..] == data;
    while pos != |data|
      invariant 0 <= pos <= |data|
      invariant FormPairs(data) == entries + FormPairs(data[pos..])
      decreases |data| - pos
    {
      FormPairsStep(data[pos..]);
      var start := pos;
      var len, foundEq, foundAmp;
      len, foundEq, pos := ScanTo(data, start, '=');
      if !foundEq {
        return;
      }
      var attr, n := UnescapeChars(data[start..start + len]);
      start := pos;
      len, foundAmp, pos := ScanTo(data, start, '&');
      var value, m := UnescapeChars(data[start..start + len]);
      var pair := Pair(CString(attr[..n]), CString(value[..m]));
      assert entries + ([pair] + FormPairs(data[pos..])) == entries + [pair] + FormPairs(data[pos..]);
      entries := entries + [pair];
      if !foundAmp {
        return;
      }
    }
    NoPairs();
    assert data[pos..] == "";
  }

  lemma FormPairsStep(data: string)
    ensures var name := SplitAt(data, '=');
      FormPairs(data) ==
        if !name.found then []
        else
          var value := SplitAt(name.rest, '&');
          [DecodePair(name.head, value.head)] + (if value.found then FormPairs(value.rest) else [])
  {
  }

  lemma NoPairs()
    ensures FormPairs("") == []
  {
  }

  // --------------------------------------------------------------- encodings

  // One character of encoded text: itself, '+' for a space, or the two hexadecimal digits
  // of its code, with small or capital letters.
  datatype Piece = Literal(c: char) | Plus | Percent(high: char, low: char, code: nat)

  predicate GoodPiece(p: Piece) {
    match p
    case Literal(c) => c !in {'%', '+', '&', '=', '\0'}
    case Plus => true
    case Percent(h, l, code) => 0 < code < 256 && IsHexNumeral([h, l], code)
  }

  function PieceText(p: Piece): string {
    match p
    case Literal(c) => [c]
    case Plus => "+"
    case Percent(h, l, _) => ['%', h, l]
  }

  function PieceMeaning(p: Piece): char
    requires GoodPiece(p)
  {
    match p
    case Literal(c) => c
    case Plus => ' '
    case Percent(_, _, code) => code as char
  }

  function Text(pieces: seq<Piece>): string {
    if pieces == [] then "" else PieceText(pieces[0]) + Text(pieces[1..])
  }

  function Meaning(pieces: seq<Piece>): (r: string)
    requires GoodPieces(pieces)
    ensures |r| == |pieces|
  {
    seq(|pieces|, i requires 0 <= i < |pieces| => PieceMeaning(pieces[i]))
  }

  predicate GoodPieces(pieces: seq<Piece>) {
    forall i | 0 <= i < |pieces| :: GoodPiece(pieces[i])
  }

  lemma {:induction false} UnescapeText(pieces: seq<Piece>)
    requires GoodPieces(pieces)
    ensures Unescaped(Text(pieces)) == Meaning(pieces)
    ensures forall i | 0 <= i < |pieces| :: Meaning(pieces)[i] != '\0'
    ensures '&' !in Text(pieces) && '=' !in Text(pieces)
  {
    if pieces != [] {
      var p, rest, t := pieces[0], pieces[1..], Text(pieces[1..]);
      assert GoodPiece(p) && GoodPieces(rest);
      UnescapeText(rest);
      assert Meaning(pieces) == [PieceMeaning(p)] + Meaning(rest);
      UnescapePiece(p, t);
      assert Text(pieces) == PieceText(p) + t;
      hide Text, Meaning, GoodPieces;
    }
  }

  lemma UnescapePiece(p: Piece, t: string)
    requires GoodPiece(p)
    ensures Unescaped(PieceText(p) + t) == [PieceMeaning(p)] + Unescaped(t)
    ensures PieceMeaning(p) != '\0' && '&' !in PieceText(p) && '=' !in PieceText(p)
  {
    match p
    case Literal(c) =>
      assert ([c] + t)[1..] == t;
    case Plus =>
      assert ("+" + t)[1..] == t;
    case Percent(h, l, code) =>
      PercentText(h, l, code);
      hide HexValue, Unescape, IsHexNumeral;
      UnescapePercent(h, l, code, t);
  }

  // The table gives the digits back, whatever the case of their letters.
  lemma HexValueOf(c: char, d: nat)
    requires IsHexDigit(c, d)
    ensures HexValue(c) == d && c as nat < 128 && c != '&' && c != '='
  {
  }

  lemma PercentText(h: char, l: char, code: nat)
    requires GoodPiece(Percent(h, l, code))
    ensures HexValue(h) * 16 + HexValue(l) == code && h as nat < 128 && l as nat < 128
    ensures '&' !in ['%', h, l] && '=' !in ['%', h, l]
  {
    var s := [h, l];
    assert s[..1] == [h] && [h][..0] == "";
    assert IsHexDigit(l, code % 16) && IsHexNumeral([h], code / 16);
    assert IsHexDigit(h, code / 16 % 16);
    HexValueOf(l, code % 16);
    HexValueOf(h, code / 16 % 16);
    hide HexValue, IsHexDigit;
  }

  lemma UnescapePercent(h: char, l: char, code: nat, t: string)
    requires GoodPiece(Percent(h, l, code))
    ensures Unescaped(['%', h, l] + t) == [code as char] + Unescaped(t)
  {
    PercentText(h, l, code);
    hide HexValue, IsHexNumeral;
    var first, second := [h, l] + t, [l] + t;
    assert (['%', h, l] + t)[1..] == first && first[1..] == second && second[1..] == t;
    assert Unescape(second, Machine(EscapeSecond, HexValue(h))) == [code as char] + Unescape(t, START);
    assert Unescape(first, Machine(EscapeFirst, 0)) == Unescape(second, Machine(EscapeSecond, HexValue(h)));
    assert Unescape(['%', h, l] + t, START) == Unescape(first, Machine(EscapeFirst, 0));
  }

  // An escape that breaks off at the end of the text is dropped.
  lemma UnescapeBrokenOff(c: char)
    ensures Unescaped("%") == "" && Unescaped(['%', c]) == ""
  {
    hide HexValue;
    assert "%"[1..] == "" && ['%', c][1..] == [c] && [c][1..] == "";
    assert Unescape([c], Machine(EscapeFirst, 0)) == Unescape("", Machine(EscapeSecond, HexValue(c)));
    assert Unescape(['%', c], START) == Unescape([c], Machine(EscapeFirst, 0));
  }

  // Characters that are no digits count as zero, so that an escape without digits is a
  // NUL, at which the name or value ends.
  lemma UnescapeNoDigits(h: char, l: char, t: string)
    requires forall d :: !IsHexDigit(h, d) && !IsHexDigit(l, d)
    ensures Unescaped(['%', h, l] + t) == ['\0'] + Unescaped(t)
    ensures CString(Unescaped(['%', h, l] + t)) == ""
  {
    NoDigit(h);
    NoDigit(l);
    hide HexValue;
    var first, second := [h, l] + t, [l] + t;
    assert (['%', h, l] + t)[1..] == first && first[1..] == second && second[1..] == t;
    assert Unescape(second, Machine(EscapeSecond, 0)) == ['\0'] + Unescape(t, START);
    assert Unescape(first, Machine(EscapeFirst, 0)) == Unescape(second, Machine(EscapeSecond, 0));
    assert Unescape(['%', h, l] + t, START) == Unescape(first, Machine(EscapeFirst, 0));
  }

  lemma NoDigit(c: char)
    requires forall d :: !IsHexDigit(c, d)
    ensures HexValue(c) == 0
  {
    if HexValue(c) != 0 { assert IsHexDigit(c, HexValue(c)); }
  }

  // In an encoded text every look-up stays inside the table.
  lemma {:induction false} EncodedInside(pieces: seq<Piece>)
    requires GoodPieces(pieces) && IsBytes(Text(pieces))
    ensures LooksInside(Text(pieces), START)
  {
    if pieces != [] {
      var p, t := pieces[0], Text(pieces[1..]);
      assert GoodPiece(p) && forall i | 0 <= i < |t| :: t[i] == (PieceText(p) + t)[|PieceText(p)| + i];
      EncodedInside(pieces[1..]);
      PieceInside(p, t);
    }
  }

  lemma PieceInside(p: Piece, t: string)
    requires GoodPiece(p) && IsBytes(PieceText(p) + t) && IsBytes(t) && LooksInside(t, START)
    ensures LooksInside(PieceText(p) + t, START)
  {
    match p
    case Literal(c) => assert ([c] + t)[1..] == t;
    case Plus => assert ("+" + t)[1..] == t;
    case Percent(h, l, code) =>
      PercentText(h, l, code);
      hide GoodPiece;
      PercentInside(h, l, t);
  }

  lemma PercentInside(h: char, l: char, t: string)
    requires h as nat < 128 && l as nat < 128 && IsBytes(['%', h, l] + t) && IsBytes(t) && LooksInside(t, START)
    ensures LooksInside(['%', h, l] + t, START)
  {
    hide HexValue;
    var s := ['%', h, l] + t;
    assert s[0] == '%' && s[1..] == [h, l] + t && s[1..][1..] == [l] + t && ([l] + t)[1..] == t;
    assert LooksInside([l] + t, Machine(EscapeSecond, HexValue(h)));
    assert LooksInside([h, l] + t, Machine(EscapeFirst, 0));
  }

  // An encoding of a name and of a value.
  datatype Field = Field(name: seq<Piece>, value: seq<Piece>)

  function FormText(fields: seq<Field>): string {
    if fields == [] then ""
    else
      Text(fields[0].name) + "=" + Text(fields[0].value)
      + (if |fields| == 1 then "" else "&" + FormText(fields[1..]))
  }

  predicate GoodFields(fields: seq<Field>) {
    forall i | 0 <= i < |fields| :: GoodPieces(fields[i].name) && GoodPieces(fields[i].value)
  }

  function Meanings(fields: seq<Field>): seq<Pair>
    requires GoodFields(fields)
  {
    seq(|fields|, i requires 0 <= i < |fields| => Pair(Meaning(fields[i].name), Meaning(fields[i].value)))
  }

  // Every encoding of a list of NUL-free pairs is parsed to that list, in order.
  lemma {:induction false} ParseFormText(fields: seq<Field>)
    requires GoodFields(fields)
    ensures FormPairs(FormText(fields)) == Meanings(fields)
  {
    if fields == [] {
      NoPairs();
    } else {
      var f, later := fields[0], fields[1..];
      forall i | 0 <= i < |later| ensures GoodPieces(later[i].name) && GoodPieces(later[i].value) {
        assert later[i] == fields[i + 1];
      }
      ParseFormText(later);
      FirstField(fields);
      FormTextStep(fields);
      assert |fields| == 1 ==> Meanings(later) == [];
      hide Text, Meaning, GoodPieces, SplitAt, FormPairs, FormText, Meanings;
    }
  }

  lemma FirstField(fields: seq<Field>)
    requires fields != [] && GoodFields(fields)
    ensures var f, later := fields[0], fields[1..];
      var first := Text(f.name) + "=" + Text(f.value);
      FormPairs(first) == Meanings([f])
      && FormPairs(first + "&" + FormText(later)) == Meanings([f]) + FormPairs(FormText(later))
    ensures Meanings(fields) == Meanings(fields[..1]) + Meanings(fields[1..])
    ensures fields[..1] == [fields[0]]
  {
    hide Text, Meaning, GoodPieces, SplitAt, FormPairs, FormText;
    PairDecodes(fields[0]);
    SplitPair(Text(fields[0].name), Text(fields[0].value), FormText(fields[1..]));
    assert Meanings([fields[0]]) == [Pair(Meaning(fields[0].name), Meaning(fields[0].value))];
  }

  lemma FormTextStep(fields: seq<Field>)
    requires fields != []
    ensures var first := Text(fields[0].name) + "=" + Text(fields[0].value);
      FormText(fields) == if |fields| == 1 then first else first + "&" + FormText(fields[1..])
  {
    hide Text;
    var first := Text(fields[0].name) + "=" + Text(fields[0].value);
    assert first + "" == first;
    assert first + ("&" + FormText(fields[1..])) == first + "&" + FormText(fields[1..]);
  }

  lemma PairDecodes(f: Field)
    requires GoodPieces(f.name) && GoodPieces(f.value)
    ensures DecodePair(Text(f.name), Text(f.value)) == Pair(Meaning(f.name), Meaning(f.value))
    ensures '=' !in Text(f.name) && '&' !in Text(f.value)
  {
    UnescapeText(f.name);
    UnescapeText(f.value);
    CStringPlain(Meaning(f.name));
    CStringPlain(Meaning(f.value));
  }

  lemma SplitPair(name: string, value: string, later: string)
    requires '=' !in name && '&' !in value
    ensures FormPairs(name + "=" + value) == [DecodePair(name, value)]
    ensures FormPairs(name + "=" + value + "&" + later) == [DecodePair(name, value)] + FormPairs(later)
  {
    hide Unescape, DecodePair, SplitAt;
    SplitIs(name, '=', value);
    SplitIs(name, '=', value + "&" + later);
    SplitIs(value, '&', later);
    assert name + "=" + (value + "&" + later) == name + "=" + value + "&" + later;
  }

  // --------------------------------------------------- a canonical encoding

  predicate NeedsEscape(c: char) {
    !('0' <= c <= '9' || 'A' <= c <= 'Z' || 'a' <= c <= 'z')
  }

  function EncodeChar(c: char): Piece
    requires c as nat < 256
  {
    if c == ' ' then Plus
    else if NeedsEscape(c) then Percent(CAPITAL_DIGITS[c as nat / 16], CAPITAL_DIGITS[c as nat % 16], c as nat)
    else Literal(c)
  }

  function EncodeText(s: string): seq<Piece>
    requires forall i | 0 <= i < |s| :: s[i] as nat < 256
  {
    seq(|s|, i requires 0 <= i < |s| => EncodeChar(s[i]))
  }

  // Every NUL-free text has an encoding, so that the theorem speaks of all of them.
  lemma EncodeTextGood(s: string)
    requires forall i | 0 <= i < |s| :: 0 < s[i] as nat < 256
    ensures GoodPieces(EncodeText(s)) && Meaning(EncodeText(s)) == s
  {
    hide EncodeChar, GoodPiece, PieceMeaning;
    forall i | 0 <= i < |s|
      ensures GoodPiece(EncodeText(s)[i]) && PieceMeaning(EncodeText(s)[i]) == s[i]
    {
      EncodeCharGood(s[i]);
    }
  }

  lemma EncodeCharGood(c: char)
    requires 0 < c as nat < 256
    ensures GoodPiece(EncodeChar(c)) && PieceMeaning(EncodeChar(c)) == c
  {
    TwoDigits(CAPITAL_DIGITS[c as nat / 16], CAPITAL_DIGITS[c as nat % 16], c as nat);
    hide IsHexNumeral;
  }

  lemma TwoDigits(high: char, low: char, code: nat)
    requires code < 256 && IsHexDigit(high, code / 16) && IsHexDigit(low, code % 16)
    ensures IsHexNumeral([high, low], code)
  {
    hide IsHexDigit;
    assert [high, low][..1] == [high] && [high][..0] == "" && code / 16 / 16 == 0 && code / 16 % 16 == code / 16;
    assert IsHexNumeral([high], code / 16);
  }

  // The canonical encoding of a list of pairs is parsed to that list.
  lemma ParseEncodedPairs(pairs: seq<Pair>)
    requires forall i | 0 <= i < |pairs| ::
      (forall j | 0 <= j < |pairs[i].attr| :: 0 < pairs[i].attr[j] as nat < 256)
      && (forall j | 0 <= j < |pairs[i].value| :: 0 < pairs[i].value[j] as nat < 256)
    ensures var fields := seq(|pairs|, i requires 0 <= i < |pairs| =>
        Field(EncodeText(pairs[i].attr), EncodeText(pairs[i].value)));
      FormPairs(FormText(fields)) == pairs
  {
    var fields := seq(|pairs|, i requires 0 <= i < |pairs| =>
      Field(EncodeText(pairs[i].attr), EncodeText(pairs[i].value)));
    forall i | 0 <= i < |fields|
      ensures GoodPieces(fields[i].name) && GoodPieces(fields[i].value)
      ensures Meaning(fields[i].name) == pairs[i].attr && Meaning(fields[i].value) == pairs[i].value
    {
      EncodeTextGood(pairs[i].attr);
      EncodeTextGood(pairs[i].value);
    }
    ParseFormText(fields);
    assert Meanings(fields) == pairs;
  }
}
