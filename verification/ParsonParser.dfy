/** What the recursive descent parser accepts, and what it leaves unread. */
module ParsonParser {
  import opened CStrings
  import opened Results
  import opened ParsonText
  import opened ParsonValue

  const MAX_NESTING: nat := 2048

  datatype Parsed = Parsed(value: Value, rest: string)

  predicate StartsWith(s: string, token: string) {
    |token| <= |s| && s[..|token|] == token
  }

  // parse_boolean_value
  function ParseBoolean(s: string): (r: Option<Parsed>)
    ensures r.Some? ==> |r.value.rest| <= |s|
  {
    if StartsWith(s, "true") then Some(Parsed(Boolean(true), s[4..]))
    else if StartsWith(s, "false") then Some(Parsed(Boolean(false), s[5..]))
    else None
  }

  // parse_null_value
  function ParseNull(s: string): (r: Option<Parsed>)
    ensures r.Some? ==> |r.value.rest| <= |s|
  {
    if StartsWith(s, "null") then Some(Parsed(Null, s[4..])) else None
  }

  // parse_number_value
  function ParseNumber(codec: Codec, s: string): (r: Option<Parsed>)
    ensures r.Some? ==> |r.value.rest| <= |s|
  {
    match codec.read(s)
    case None => None
    case Some(reading) =>
      if IsDecimal(s[..reading.length]) then Some(Parsed(Number(reading.number), s[reading.length..]))
      else None
  }

  // parse_string_value
  function ParseString(s: string): (r: Option<Parsed>)
    ensures r.Some? ==> |r.value.rest| <= |s|
  {
    match GetQuoted(s)
    case None => None
    case Some(quoted) => Some(Parsed(String(quoted.content), quoted.rest))
  }

  // parse_value
  function ParseValue(codec: Codec, s: string, nesting: nat): (r: Option<Parsed>)
    ensures r.Some? ==> |r.value.rest| <= |s|
    decreases |s|, 0
  {
    if nesting > MAX_NESTING then None
    else
      var t := SkipWs(s);
      var c := CharAt(t, 0);
      if c == '{' then ParseObject(codec, t[1..], nesting + 1)
      else if c == '[' then ParseArray(codec, t[1..], nesting + 1)
      else if c == '"' then ParseString(t)
      else if c == 'f' || c == 't' then ParseBoolean(t)
      else if NumberStart(c) then ParseNumber(codec, t)
      else if c == 'n' then ParseNull(t)
      else None
  }

  // parse_array_value, behind the bracket
  function ParseArray(codec: Codec, s: string, nesting: nat): (r: Option<Parsed>)
    ensures r.Some? ==> |r.value.rest| < |s|
    decreases |s|, 2
  {
    var t := SkipWs(s);
    if CharAt(t, 0) == ']' then Some(Parsed(Array([]), t[1..]))
    else ParseItems(codec, t, nesting, [])
  }

  // The loop of parse_array_value, with the items read before.
  function ParseItems(codec: Codec, s: string, nesting: nat, items: seq<Value>): (r: Option<Parsed>)
    ensures r.Some? ==> |r.value.rest| < |s|
    decreases |s|, 1
  {
    if CharAt(s, 0) == '\0' then None
    else match ParseValue(codec, s, nesting)
      case None => None
      case Some(parsed) =>
        var t := SkipWs(parsed.rest);
        if CharAt(t, 0) == ',' then
          ParseItems(codec, SkipWs(t[1..]), nesting, items + [parsed.value])
        else if CharAt(t, 0) == ']' then Some(Parsed(Array(items + [parsed.value]), t[1..]))
        else None
  }

  // parse_object_value, behind the brace
  function ParseObject(codec: Codec, s: string, nesting: nat): (r: Option<Parsed>)
    ensures r.Some? ==> |r.value.rest| < |s|
    decreases |s|, 3
  {
    var t := SkipWs(s);
    if CharAt(t, 0) == '}' then Some(Parsed(Object([]), t[1..]))
    else ParseMembers(codec, t, nesting, [])
  }

  datatype ReadMember = ReadMember(member: Member, rest: string)

  // The name, the colon and the value of a member.
  function ParseMember(codec: Codec, s: string, nesting: nat): (r: Option<ReadMember>)
    ensures r.Some? ==> |r.value.rest| < |s|
    decreases |s|, 1
  {
    match GetQuoted(s)
    case None => None
    case Some(quoted) =>
      var colon := SkipWs(quoted.rest);
      if CharAt(colon, 0) != ':' then None
      else match ParseValue(codec, colon[1..], nesting)
        case None => None
        case Some(parsed) => Some(ReadMember(Member(quoted.content, parsed.value), parsed.rest))
  }

  // The loop of parse_object_value, with the members read before. A repeated name fails.
  function ParseMembers(codec: Codec, s: string, nesting: nat, members: seq<Member>): (r: Option<Parsed>)
    ensures r.Some? ==> |r.value.rest| < |s|
    decreases |s|, 2
  {
    if CharAt(s, 0) == '\0' then None
    else match ParseMember(codec, s, nesting)
      case None => None
      case Some(named) =>
        if Get(members, named.member.name).Some? then None
        else
          var t := SkipWs(named.rest);
          if CharAt(t, 0) == ',' then ParseMembers(codec, SkipWs(t[1..]), nesting, members + [named.member])
          else if CharAt(t, 0) == '}' then Some(Parsed(Object(members + [named.member]), t[1..]))
          else None
  }

  // One turn of the loop.
  lemma MembersUnfold(codec: Codec, s: string, nesting: nat, members: seq<Member>)
    requires CharAt(s, 0) != '\0'
    ensures ParseMembers(codec, s, nesting, members) ==
      match ParseMember(codec, s, nesting)
      case None => None
      case Some(named) =>
        if Get(members, named.member.name).Some? then None
        else
          var t := SkipWs(named.rest);
          if CharAt(t, 0) == ',' then ParseMembers(codec, SkipWs(t[1..]), nesting, members + [named.member])
          else if CharAt(t, 0) == '}' then Some(Parsed(Object(members + [named.member]), t[1..]))
          else None
  {
    hide ParseMember, SkipWs, Get;
  }

  lemma MembersEnd(codec: Codec, s: string, nesting: nat, members: seq<Member>)
    ensures CharAt(s, 0) == '\0' ==> ParseMembers(codec, s, nesting, members) == None
  {
  }

  // json_parse_string: a byte order mark is passed over.
  function ParseText(codec: Codec, s: string): Option<Parsed> {
    if CharAt(s, 0) == '\U{EF}' && CharAt(s, 1) == '\U{BB}' && CharAt(s, 2) == '\U{BF}' then
      ParseValue(codec, s[3..], 0)
    else ParseValue(codec, s, 0)
  }
}
