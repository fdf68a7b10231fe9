/** The parser as it runs: a cursor that moves over the text. */
module ParsonCursor {
  import opened Results
  import C = CStrings
  import P = ParsonParser
  import T = ParsonText
  import opened ParsonTable
  import opened ParsonValue

  // ------------------------------------------------------------ process_string

  ghost predicate Stored(output: array<char>, before: string, at: nat, bytes: string)
    reads output
  {
    |before| == output.Length && at + |bytes| <= output.Length
    && output[..] == before[..at] + bytes + before[at + |bytes|..]
  }

  // parse_utf16, from behind the 'u'. The output has room for what it decodes to.
  method ParseUtf16(s: string, output: array<char>, at: nat) returns (step: Option<T.Step>)
    requires T.Utf16(s).Some? ==> at + |T.Utf16(s).value.out| <= output.Length
    modifies output
    ensures step == T.Utf16(s)
    ensures step.Some? ==> Stored(output, old(output[..]), at, step.value.out)
    ensures step.None? ==> output[..] == old(output[..])
  {
    hide T.Hex4, Stored;
    var parsed := T.Hex4(s);
    if parsed.None? { return None; }
    var cp := parsed.value;
    var bytes, used := "", 4;
    if cp < 0x80 {
      bytes := [cp as char];
    } else if cp < 0x800 {
      bytes := [(0xC0 + cp / 64 % 32) as char, (0x80 + cp % 64) as char];
    } else if cp < 0xD800 || cp > 0xDFFF {
      bytes := [(0xE0 + cp / 4096 % 16) as char, (0x80 + cp / 64 % 64) as char, (0x80 + cp % 64) as char];
    } else if cp <= 0xDBFF {
      if T.CharAt(s, 4) != '\\' || T.CharAt(s, 5) != 'u' { return None; }
      var trail := T.Hex4(s[6..]);
      if trail.None? || trail.value < 0xDC00 || trail.value > 0xDFFF { return None; }
      cp := (cp - 0xD800) % 1024 * 1024 + (trail.value - 0xDC00) % 1024 + 0x10000;
      bytes := [(0xF0 + cp / 262144 % 8) as char, (0x80 + cp / 4096 % 64) as char,
                (0x80 + cp / 64 % 64) as char, (0x80 + cp % 64) as char];
      used := 10;
    } else {
      return None;
    }
    step := Some(T.Step(bytes, used));
    assert step == T.Utf16(s);
    hide *;
    Store(bytes, output, at);
  }

  method Store(bytes: string, output: array<char>, at: nat)
    requires at + |bytes| <= output.Length
    modifies output
    ensures Stored(output, old(output[..]), at, bytes)
  {
    var i := 0;
    while i < |bytes|
      invariant i <= |bytes|
      invariant forall j | 0 <= j < output.Length ::
        output[j] == if at <= j < at + i then bytes[j - at] else old(output[j])
    {
      output[at + i] := bytes[i];
      i := i + 1;
    }
  }

  // One turn of the loop of process_string.
  method ProcessChar(s: string, output: array<char>, at: nat) returns (step: Option<T.Step>)
    requires T.CharAt(s, 0) != '\0'
    requires T.DecodeStep(s).Some? ==> at + |T.DecodeStep(s).value.out| <= output.Length
    modifies output
    ensures step == T.DecodeStep(s)
    ensures step.Some? ==> Stored(output, old(output[..]), at, step.value.out)
  {
    hide T.Utf16, Stored;
    if s[0] == '\\' {
      var simple := T.SimpleEscape(T.CharAt(s, 1));
      if simple.Some? {
        hide T.SimpleEscape;
        Store([simple.value], output, at);
        step := Some(T.Step([simple.value], 2));
      } else if T.CharAt(s, 1) == 'u' {
        var unicode := ParseUtf16(s[2..], output, at);
        if unicode.None? { return None; }
        step := Some(T.Step(unicode.value.out, unicode.value.used + 2));
      } else {
        return None;
      }
    } else if s[0] as nat < 0x20 {
      return None;
    } else {
      Store([s[0]], output, at);
      step := Some(T.Step([s[0]], 1));
    }
  }

  function Prepend(s: string, r: Option<string>): Option<string> {
    match r case None => None case Some(t) => Some(s + t)
  }

  lemma DecodeTurn(s: string, len: nat, rest: string)
    requires T.SkipBody(s) == Some(rest) && len == |s| - |rest| - 1 && len > 0
    ensures T.CharAt(s, 0) != '\0' && s[0] != '"'
    ensures match T.DecodeStep(s)
      case None => T.Decode(s, len) == None
      case Some(step) =>
        |step.out| <= step.used <= len && T.SkipBody(s[step.used..]) == Some(rest)
        && T.Decode(s, len) == Prepend(step.out, T.Decode(s[step.used..], len - step.used))
  {
    T.SkipBodyEnd(s, rest);
    hide T.DecodeStep;
    assert s[0] != '"' by { BodyGoesOn(s, rest); }
    T.DecodeWithin(s, rest);
    if T.DecodeStep(s).Some? { T.StepSkips(s, rest); }
    hide T.SkipBody;
  }

  lemma BodyGoesOn(s: string, rest: string)
    requires T.SkipBody(s) == Some(rest) && |s| - |rest| - 1 > 0
    ensures T.CharAt(s, 0) != '\0' && s[0] != '"'
  {
  }

  lemma PrependTwice(a: string, b: string, r: Option<string>)
    ensures Prepend(a, Prepend(b, r)) == Prepend(a + b, r)
  {
    if r.Some? { assert a + (b + r.value) == a + b + r.value; }
  }

  lemma StoredOn(output: array<char>, before: string, at: nat, bytes: string)
    requires Stored(output, before, at, bytes)
    ensures output[..at + |bytes|] == before[..at] + bytes
  {
  }

  // process_string: the output buffer has one byte more than the literal between its
  // quotes, and that is enough.
  method ProcessString(input: string, len: nat, ghost rest: string) returns (r: Option<string>)
    requires T.SkipBody(input) == Some(rest) && len == |input| - |rest| - 1
    ensures r == match T.Decode(input, len) case None => None case Some(s) => Some(C.CString(s))
  {
    hide T.SkipBody, T.Decode, T.DecodeStep, C.CString, Stored, Prepend;
    var output := new char[len + 1];
    var i: nat, o: nat := 0, 0;
    assert input[0..] == input;
    PrependNothing(T.Decode(input, len));
    assert output[..0] == "";
    while T.CharAt(input, i) != '\0' && i < len
      invariant o <= i <= len < |input| && output.Length == len + 1
      invariant T.SkipBody(input[i..]) == Some(rest)
      invariant T.Decode(input, len) == Prepend(output[..o], T.Decode(input[i..], len - i))
      decreases len - i
    {
      ghost var before := output[..];
      var s := input[i..];
      DecodeTurn(s, len - i, rest);
      var step := ProcessChar(s, output, o);
      if step.None? {
        PrependNone(before[..o]);
        return None;
      }
      StoredOn(output, before, o, step.value.out);
      PrependTwice(before[..o], step.value.out, T.Decode(s[step.value.used..], len - i - step.value.used));
      assert s[step.value.used..] == input[i + step.value.used..];
      i, o := i + step.value.used, o + |step.value.out|;
    }
    assert i < len ==> T.CharAt(input, i) != '\0' by {
      if i < len { DecodeTurn(input[i..], len - i, rest); }
    }
    DecodeDone(output[..o], input[i..]);
    output[o] := '\0';
    r := Some(C.CString(output[..o]));
  }

  lemma PrependNothing(r: Option<string>)
    ensures Prepend("", r) == r
  {
    if r.Some? { assert "" + r.value == r.value; }
  }

  lemma PrependNone(s: string)
    ensures Prepend(s, None) == None
  {
  }

  lemma DecodeDone(s: string, left: string)
    ensures Prepend(s, T.Decode(left, 0)) == Some(s)
  {
    assert s + "" == s;
  }

  lemma QuotedFrom(s: string)
    ensures match T.SkipQuotes(s)
      case None => T.GetQuoted(s) == None
      case Some(rest) =>
        s != "" && T.SkipBody(s[1..]) == Some(rest)
        && T.GetQuoted(s) == match T.Decode(s[1..], |s| - |rest| - 2)
             case None => None
             case Some(content) => Some(T.Quoted(C.CString(content), rest))
  {
  }

  // ------------------------------------------------------------------- parsing

  datatype Separator = Comma | Closing | Neither

  class Cursor {
    const text: string
    var at: nat

    ghost predicate InText()
      reads this
    {
      at <= |text|
    }

    ghost function Rest(): string
      requires InText()
      reads this
    {
      text[at..]
    }

    function Char(): (c: char)
      requires InText()
      reads this
      ensures c == T.CharAt(Rest(), 0)
    {
      if at < |text| then text[at] else '\0'
    }

    constructor (s: string)
      ensures InText() && text == s && Rest() == s
    {
      text := s;
      at := 0;
    }

    // SKIP_CHAR
    method SkipChar()
      requires InText() && at < |text|
      modifies this
      ensures at == old(at) + 1 && InText() && Rest() == old(Rest())[1..]
    {
      at := at + 1;
    }

    // SKIP_WHITESPACES
    method SkipWhitespace()
      requires InText()
      modifies this
      ensures InText() && at >= old(at) && Rest() == C.SkipWs(old(Rest()))
    {
      while C.IsSpace(Char())
        invariant InText() && at >= old(at)
        invariant C.SkipWs(Rest()) == C.SkipWs(old(Rest()))
        decreases |text| - at
      {
        SkipChar();
      }
    }

    // skip_quotes
    method SkipQuotes() returns (ok: bool)
      requires InText()
      modifies this
      ensures InText() && at >= old(at)
      ensures ok <==> T.SkipQuotes(old(Rest())).Some?
      ensures ok ==> Rest() == T.SkipQuotes(old(Rest())).value
    {
      if Char() != '"' { return false; }
      SkipChar();
      ghost var spec := T.SkipBody(Rest());
      while Char() != '"'
        invariant InText() && at >= old(at) && T.SkipBody(Rest()) == spec
        decreases |text| - at
      {
        ghost var before := Rest();
        if Char() == '\0' { return false; }
        if Char() == '\\' {
          SkipChar();
          assert T.CharAt(before, 1) == Char();
          if Char() == '\0' { return false; }
          assert Rest()[1..] == before[2..];
        }
        SkipChar();
      }
      SkipChar();
      ok := true;
    }

    // get_quoted_string
    method GetQuoted() returns (r: Option<string>)
      requires InText()
      modifies this
      ensures InText() && at >= old(at)
      ensures match T.GetQuoted(old(Rest()))
        case None => r == None
        case Some(quoted) => r == Some(quoted.content) && Rest() == quoted.rest
    {
      var start := at;
      ghost var rest := Rest();
      hide T.SkipBody, T.Decode, C.CString, T.GetQuoted, T.SkipQuotes;
      var ok := SkipQuotes();
      QuotedFrom(rest);
      if !ok { return None; }
      assert rest[1..] == text[start + 1..];
      r := ProcessString(text[start + 1..], at - start - 2, Rest());
    }

    // Whether a parsing method returned and moved as specified.
    ghost predicate Reached(r: Option<Value>, spec: Option<P.Parsed>)
      requires InText()
      reads this
    {
      match spec
      case None => r == None
      case Some(parsed) => r == Some(parsed.value) && Rest() == parsed.rest
    }

    method StartsWith(token: string) returns (ok: bool)
      requires InText()
      ensures ok == P.StartsWith(Rest(), token)
    {
      ok := at + |token| <= |text| && text[at..at + |token|] == token;
      assert at + |token| <= |text| ==> Rest()[..|token|] == text[at..at + |token|];
    }

    // parse_string_value
    method ParseString() returns (r: Option<Value>)
      requires InText()
      modifies this
      ensures InText() && at >= old(at) && Reached(r, P.ParseString(old(Rest())))
    {
      hide T.GetQuoted;
      var content := GetQuoted();
      if content.None? { return None; }
      r := Some(String(content.value));
    }

    // parse_boolean_value
    method ParseBoolean() returns (r: Option<Value>)
      requires InText()
      modifies this
      ensures InText() && at >= old(at) && Reached(r, P.ParseBoolean(old(Rest())))
    {
      ghost var rest := Rest();
      var isTrue := StartsWith("true");
      if isTrue {
        at := at + 4;
        assert Rest() == rest[4..];
        return Some(Boolean(true));
      }
      var isFalse := StartsWith("false");
      if isFalse {
        at := at + 5;
        assert Rest() == rest[5..];
        return Some(Boolean(false));
      }
      r := None;
    }

    // parse_number_value
    method ParseNumber(codec: Codec) returns (r: Option<Value>)
      requires InText()
      modifies this
      ensures InText() && at >= old(at) && Reached(r, P.ParseNumber(codec, old(Rest())))
    {
      ghost var rest := Rest();
      var reading := codec.read(text[at..]);
      if reading.None? { return None; }
      var length := reading.value.length;
      assert length <= |rest|;
      assert text[at..][..length] == rest[..length];
      if !IsDecimal(text[at..][..length]) { return None; }
      at := at + length;
      assert Rest() == rest[length..];
      r := Some(Number(reading.value.number));
    }

    // parse_null_value
    method ParseNull() returns (r: Option<Value>)
      requires InText()
      modifies this
      ensures InText() && at >= old(at) && Reached(r, P.ParseNull(old(Rest())))
    {
      ghost var rest := Rest();
      var isNull := StartsWith("null");
      if isNull {
        at := at + 4;
        assert Rest() == rest[4..];
        return Some(Null);
      }
      r := None;
    }

    // parse_value
    method ParseValue(codec: Codec, nesting: nat) returns (r: Option<Value>)
      requires InText()
      modifies this
      ensures InText() && at >= old(at) && Reached(r, P.ParseValue(codec, old(Rest()), nesting))
      decreases |text| - at, 1
    {
      if nesting > P.MAX_NESTING { return None; }
      SkipWhitespace();
      hide Reached, C.SkipWs, P.ParseObject, P.ParseArray, P.ParseString, P.ParseBoolean, P.ParseNumber, P.ParseNull;
      var c := Char();
      if c == '{' {
        r := ParseObject(codec, nesting + 1);
      } else if c == '[' {
        r := ParseArray(codec, nesting + 1);
      } else if c == '"' {
        r := ParseString();
      } else if c == 'f' || c == 't' {
        r := ParseBoolean();
      } else if NumberStart(c) {
        r := ParseNumber(codec);
      } else if c == 'n' {
        r := ParseNull();
      } else {
        r := None;
        ReachedNone();
      }
    }

    lemma ReachedNone()
      requires InText()
      ensures Reached(None, None)
    {
    }

    // parse_array_value
    method ParseArray(codec: Codec, nesting: nat) returns (r: Option<Value>)
      requires InText() && Char() == '['
      modifies this
      ensures InText() && at >= old(at) && Reached(r, P.ParseArray(codec, old(Rest())[1..], nesting))
      decreases |text| - at, 0
    {
      SkipChar();
      SkipWhitespace();
      if Char() == ']' {
        SkipChar();
        return Some(Array([]));
      }
      hide C.SkipWs, P.ParseValue;
      ghost var spec := P.ParseItems(codec, Rest(), nesting, []);
      var items := [];
      while Char() != '\0'
        invariant InText() && at > old(at)
        invariant P.ParseItems(codec, Rest(), nesting, items) == spec
        decreases |text| - at
      {
        var item := ParseValue(codec, nesting);
        if item.None? { return None; }
        items := items + [item.value];
        var separator := TakeSeparator(']');
        if separator == Closing { return Some(Array(items)); }
        if separator != Comma { return None; }
      }
      r := None;
    }

    // What follows an item or a member: a comma and the white space behind it, or the
    // closing bracket.
    method TakeSeparator(close: char) returns (separator: Separator)
      requires InText() && close != ',' && close != '\0'
      modifies this
      ensures InText() && at >= old(at)
      ensures var t := C.SkipWs(old(Rest()));
        match separator
        case Comma => T.CharAt(t, 0) == ',' && Rest() == C.SkipWs(t[1..]) && at > old(at)
        case Closing => T.CharAt(t, 0) == close && Rest() == t[1..]
        case Neither => T.CharAt(t, 0) != ',' && T.CharAt(t, 0) != close
    {
      hide C.SkipWs;
      SkipWhitespace();
      if Char() == ',' {
        SkipChar();
        SkipWhitespace();
        return Comma;
      }
      if Char() != close { return Neither; }
      SkipChar();
      separator := Closing;
    }

    // parse_object_value
    method ParseObject(codec: Codec, nesting: nat) returns (r: Option<Value>)
      requires InText() && Char() == '{'
      modifies this
      ensures InText() && at >= old(at) && Reached(r, P.ParseObject(codec, old(Rest())[1..], nesting))
      decreases |text| - at, 0
    {
      SkipChar();
      SkipWhitespace();
      if Char() == '}' {
        SkipChar();
        return Some(Object([]));
      }
      var table := new ObjectTable();
      r := ParseMembers(table, codec, nesting);
    }

    // Its loop.
    method ParseMembers(table: ObjectTable, codec: Codec, nesting: nat) returns (r: Option<Value>)
      requires InText() && table.Valid() && this !in table.Repr
      modifies this, table.Repr
      ensures InText() && at >= old(at)
      ensures Reached(r, P.ParseMembers(codec, old(Rest()), nesting, old(table.Members())))
      decreases |text| - at, 5
    {
      ghost var spec := P.ParseMembers(codec, Rest(), nesting, table.Members());
      P.MembersEnd(codec, Rest(), nesting, table.Members());
      hide P.ParseMembers, Reached, ObjectTable.Valid, ObjectTable.Members;
      var more := Char() != '\0';
      r := None;
      ReachedNone();
      while more
        invariant InText() && at >= old(at)
        invariant table.Valid() && this !in table.Repr && fresh(table.Repr - old(table.Repr))
        invariant more ==> Char() != '\0' && P.ParseMembers(codec, Rest(), nesting, table.Members()) == spec
        invariant !more ==> Reached(r, spec)
        decreases |text| - at, more
      {
        more, r := MembersTurn(table, codec, nesting);
      }
    }

    // One turn: a member, and a comma or the closing brace. At the end the table is trimmed.
    method MembersTurn(table: ObjectTable, codec: Codec, nesting: nat) returns (more: bool, r: Option<Value>)
      requires InText() && table.Valid() && this !in table.Repr && Char() != '\0'
      modifies this, table.Repr
      ensures InText() && at >= old(at) && table.Valid() && fresh(table.Repr - old(table.Repr))
      ensures more ==>
        at > old(at) && Char() != '\0'
        && P.ParseMembers(codec, old(Rest()), nesting, old(table.Members()))
           == P.ParseMembers(codec, Rest(), nesting, table.Members())
      ensures !more ==> Reached(r, P.ParseMembers(codec, old(Rest()), nesting, old(table.Members())))
      decreases |text| - at, 4
    {
      hide C.SkipWs, P.ParseMember, P.ParseMembers, Get, ObjectTable.Valid, ObjectTable.Members;
      P.MembersUnfold(codec, Rest(), nesting, table.Members());
      var ok := TakeMember(table, codec, nesting);
      if !ok { return false, None; }
      var separator := TakeSeparator('}');
      if separator == Comma {
        P.MembersEnd(codec, Rest(), nesting, table.Members());
        return Char() != '\0', None;
      }
      if separator != Closing { return false, None; }
      var trimmed := table.Resize(table.count);
      return false, Some(Object(table.Members()));
    }

    // A member is parsed and added to the table, which refuses a name that it has.
    method TakeMember(table: ObjectTable, codec: Codec, nesting: nat) returns (ok: bool)
      requires InText() && table.Valid() && this !in table.Repr
      modifies this, table.Repr
      ensures InText() && at >= old(at) && table.Valid() && fresh(table.Repr - old(table.Repr))
      ensures match P.ParseMember(codec, old(Rest()), nesting)
        case None => !ok
        case Some(named) =>
          ok == Get(old(table.Members()), named.member.name).None?
          && (ok ==> table.Members() == old(table.Members()) + [named.member] && Rest() == named.rest)
      decreases |text| - at, 3
    {
      hide P.ParseMember, Get;
      var member := ParseMember(codec, nesting);
      if member.None? { return false; }
      AddedOnce(table.Members(), member.value);
      ok := table.Add(member.value.name, member.value.value);
    }

    // The name, the colon and the value of a member.
    method ParseMember(codec: Codec, nesting: nat) returns (r: Option<Member>)
      requires InText()
      modifies this
      ensures InText() && at >= old(at)
      ensures match P.ParseMember(codec, old(Rest()), nesting)
        case None => r == None
        case Some(named) => r == Some(named.member) && Rest() == named.rest
      decreases |text| - at, 2
    {
      hide C.SkipWs, P.ParseValue, T.GetQuoted;
      var key := GetQuoted();
      if key.None? { return None; }
      SkipWhitespace();
      if Char() != ':' { return None; }
      SkipChar();
      var value := ParseValue(codec, nesting);
      if value.None? { return None; }
      r := Some(Member(key.value, value.value));
    }
  }

  // json_object_add accepts a name exactly when it is new.
  lemma AddedOnce(members: seq<Member>, member: Member)
    ensures AddMember(members, member.name, member.value)
      == if Get(members, member.name).Some? then None else Some(members + [member])
  {
    GetSlot(members, member.name);
  }

  // json_parse_string: what follows the value is not looked at.
  method JsonParseString(codec: Codec, s: string) returns (r: Option<Value>)
    ensures r == match P.ParseText(codec, s) case None => None case Some(parsed) => Some(parsed.value)
  {
    var start := 0;
    if T.CharAt(s, 0) == '\U{EF}' && T.CharAt(s, 1) == '\U{BB}' && T.CharAt(s, 2) == '\U{BF}' {
      start := 3;
    }
    assert s[0..] == s;
    var cursor := new Cursor(s[start..]);
    r := cursor.ParseValue(codec, 0);
  }
}
