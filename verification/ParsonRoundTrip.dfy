/** Parsing undoes printing, in every style, and leaves the cursor behind the text. */
module ParsonRoundTrip {
  import opened CStrings
  import opened Results
  import opened ParsonParser
  import opened ParsonPrinter
  import opened ParsonText
  import opened ParsonValue

  // ------------------------------------------------------------------ nesting

  // The parser's nesting check passes at every value.
  predicate Fits(v: Value, nesting: nat) {
    nesting <= MAX_NESTING
    && match v
       case Array(items) => forall i | 0 <= i < |items| :: Fits(items[i], nesting + 1)
       case Object(members) => forall i | 0 <= i < |members| :: Fits(members[i].value, nesting + 1)
       case _ => true
  }

  lemma {:induction false} TallestItemBounds(items: seq<Value>, bound: int)
    requires bound >= 0
    ensures TallestItem(items) <= bound <==> forall i | 0 <= i < |items| :: Height(items[i]) <= bound
  {
    if items != [] {
      TallestItemBounds(items[1..], bound);
      assert forall i | 0 < i < |items| :: items[i] == items[1..][i - 1];
    }
  }

  lemma {:induction false} TallestMemberBounds(members: seq<Member>, bound: int)
    requires bound >= 0
    ensures TallestMember(members) <= bound <==> forall i | 0 <= i < |members| :: Height(members[i].value) <= bound
  {
    if members != [] {
      TallestMemberBounds(members[1..], bound);
      assert forall i | 0 < i < |members| :: members[i] == members[1..][i - 1];
    }
  }

  lemma {:induction false} FitsHeight(v: Value, nesting: nat)
    ensures Fits(v, nesting) <==> nesting + Height(v) <= 2048
  {
    match v
    case Array(items) =>
      forall i | 0 <= i < |items|
        ensures Fits(items[i], nesting + 1) <==> nesting + 1 + Height(items[i]) <= MAX_NESTING {
        FitsHeight(items[i], nesting + 1);
      }
      if items != [] && nesting < MAX_NESTING { TallestItemBounds(items, MAX_NESTING - nesting - 1); }
      if items != [] { assert nesting == MAX_NESTING ==> !Fits(items[0], nesting + 1); }
    case Object(members) =>
      forall i | 0 <= i < |members|
        ensures Fits(members[i].value, nesting + 1) <==> nesting + 1 + Height(members[i].value) <= MAX_NESTING {
        FitsHeight(members[i].value, nesting + 1);
      }
      if members != [] && nesting < MAX_NESTING { TallestMemberBounds(members, MAX_NESTING - nesting - 1); }
      if members != [] { assert nesting == MAX_NESTING ==> !Fits(members[0].value, nesting + 1); }
    case _ =>
  }

  // --------------------------------------------------------------- white space

  predicate Blank(b: string) { forall i | 0 <= i < |b| :: IsSpace(b[i]) }

  lemma {:induction false} SkipBlank(b: string, t: string)
    requires Blank(b)
    ensures SkipWs(b + t) == SkipWs(t)
  {
    if b == "" {
      assert b + t == t;
    } else {
      assert Blank(b[1..]);
      SkipBlank(b[1..], t);
      assert (b + t)[1..] == b[1..] + t;
    }
  }

  lemma {:induction false} IndentBlank(pretty: bool, level: nat)
    ensures Blank(Indent(pretty, level)) && Blank(NewLine(pretty))
  {
    if level > 0 { IndentBlank(pretty, level - 1); }
  }

  lemma NoSkip(t: string)
    requires t != "" && !IsSpace(t[0])
    ensures SkipWs(t) == t
  {
  }

  lemma SkipFirst(b: string, t: string)
    requires Blank(b) && t != "" && !IsSpace(t[0])
    ensures SkipWs(b + t) == t
  {
    SkipBlank(b, t);
  }

  lemma ParseSkips(codec: Codec, b: string, t: string, nesting: nat)
    requires Blank(b)
    ensures ParseValue(codec, b + t, nesting) == ParseValue(codec, t, nesting)
  {
    SkipBlank(b, t);
  }

  // ------------------------------------------------------------ starts and ends

  // How the text of a value starts.
  predicate Opens(c: char) {
    c == 'n' || c == 't' || c == 'f' || c == '"' || c == '[' || c == '{' || NumberStart(c)
  }

  lemma PrintOpens(style: Style, v: Value, level: nat)
    requires Lawful(style.codec) && Valid(style.codec, v)
    ensures Print(style, v, level) != "" && Opens(Print(style, v, level)[0])
  {
    hide ArrayRest, ObjectRest, Escape;
    if v.Number? { LawAt(style.codec, v.number, ""); }
  }

  // The end of a value's line and what follows the line.
  function Tail(pretty: bool, more: bool, next: string, rest: string): string {
    (Comma(more) + NewLine(pretty)) + (next + rest)
  }

  lemma TailMore(pretty: bool, next: string, rest: string)
    ensures var t := Tail(pretty, true, next, rest);
      Delimits(t) && t != "" && SkipWs(t) == t && t[0] == ',' && SkipWs(t[1..]) == SkipWs(next + rest)
  {
    var t := Tail(pretty, true, next, rest);
    assert t[0] == ',' && t[1..] == NewLine(pretty) + (next + rest);
    hide Tail, NewLine, Blank;
    NoSkip(t);
    IndentBlank(pretty, 0);
    SkipBlank(NewLine(pretty), next + rest);
    hide SkipWs;
  }

  lemma TailLast(pretty: bool, level: nat, bracket: string, rest: string)
    requires bracket == "]" || bracket == "}"
    ensures var t := Tail(pretty, false, Indent(pretty, level) + bracket, rest);
      Delimits(t) && SkipWs(t) == bracket + rest
  {
    var t := Tail(pretty, false, Indent(pretty, level) + bracket, rest);
    var b := NewLine(pretty) + Indent(pretty, level);
    IndentBlank(pretty, level);
    assert t == b + (bracket + rest);
    SkipFirst(b, bracket + rest);
  }

  lemma LineSplit(head: string, value: string, end: string, next: string, rest: string)
    ensures head + (value + end) + next + rest == head + (value + (end + (next + rest)))
  {
    Assoc(head + (value + end), next, rest);
    Assoc(head, value + end, next + rest);
    Assoc(value, end, next + rest);
  }

  // ------------------------------------------------------------------- scalars

  lemma WordParsed(style: Style, v: Value, level: nat, nesting: nat, rest: string)
    requires (v.Null? || v.Boolean?) && nesting <= MAX_NESTING
    ensures ParseValue(style.codec, Print(style, v, level) + rest, nesting) == Some(Parsed(v, rest))
  {
    var word := Print(style, v, level);
    var s := word + rest;
    assert s[..|word|] == word && s[|word|..] == rest;
    NoSkip(s);
  }

  lemma NumberParsed(style: Style, x: real, level: nat, nesting: nat, rest: string)
    requires Lawful(style.codec) && style.codec.covers(x) && Delimits(rest) && nesting <= MAX_NESTING
    ensures ParseValue(style.codec, Print(style, Number(x), level) + rest, nesting) == Some(Parsed(Number(x), rest))
  {
    LawAt(style.codec, x, rest);
    hide Lawful, IsDecimal;
    var t := style.codec.show(x);
    var s := t + rest;
    assert s[..|t|] == t && s[|t|..] == rest;
    NoSkip(s);
  }

  lemma StringParsed(style: Style, s: string, level: nat, nesting: nat, rest: string)
    requires NulFree(s) && nesting <= MAX_NESTING
    ensures ParseValue(style.codec, Print(style, String(s), level) + rest, nesting) == Some(Parsed(String(s), rest))
  {
    QuotedRoundTrip(s, style.escapeSlashes, rest);
    var t := Print(style, String(s), level) + rest;
    assert t[0] == '"';
    NoSkip(t);
    hide GetQuoted, Quote, SkipWs;
  }

  // -------------------------------------------------------------------- values

  function Outcome(fits: bool, v: Value, rest: string): Option<Parsed> {
    if fits then Some(Parsed(v, rest)) else None
  }

  // The items from an index on fit.
  predicate ItemsFit(items: seq<Value>, i: nat, nesting: nat) {
    forall j | i <= j < |items| :: Fits(items[j], nesting)
  }

  predicate MembersFit(members: seq<Member>, i: nat, nesting: nat) {
    forall j | i <= j < |members| :: Fits(members[j].value, nesting)
  }

  lemma {:induction false} ValueParsed(style: Style, v: Value, level: nat, nesting: nat, rest: string)
    requires Lawful(style.codec) && Valid(style.codec, v) && (v.Number? ==> Delimits(rest))
    ensures ParseValue(style.codec, Print(style, v, level) + rest, nesting) == Outcome(Fits(v, nesting), v, rest)
    decreases v, 2
  {
    if nesting <= MAX_NESTING {
      match v
      case Number(x) => NumberParsed(style, x, level, nesting, rest);
      case String(s) => StringParsed(style, s, level, nesting, rest);
      case Array(items) => ArrayParsed(style, items, level, nesting, rest);
      case Object(members) => ObjectParsed(style, members, level, nesting, rest);
      case _ => WordParsed(style, v, level, nesting, rest);
    }
  }

  lemma {:induction false} ArrayParsed(style: Style, items: seq<Value>, level: nat, nesting: nat, rest: string)
    requires Lawful(style.codec) && Valid(style.codec, Array(items)) && nesting <= MAX_NESTING
    ensures ParseValue(style.codec, Print(style, Array(items), level) + rest, nesting)
      == Outcome(Fits(Array(items), nesting), Array(items), rest)
    decreases items, 1
  {
    var start := SkipWs(ArrayRest(style, items, 0, level) + rest);
    ArrayOpens(style, items, level, nesting, rest);
    if items == [] {
      hide *;
      assert Fits(Array(items), nesting) by { FitsEmpty(nesting); }
      assert Outcome(true, Array([]), rest) == Some(Parsed(Array([]), rest)) by { Outcomes(Array([]), rest); }
    } else {
      ItemOpens(style, items, 0, level, rest);
      ItemsParsed(style, items, 0, level, nesting + 1, rest);
      assert items[..0] == [];
      FitsItems(items, nesting);
    }
  }

  lemma FitsEmpty(nesting: nat)
    requires nesting <= MAX_NESTING
    ensures Fits(Array([]), nesting) && Fits(Object([]), nesting)
  {
  }

  lemma FitsItems(items: seq<Value>, nesting: nat)
    requires nesting <= MAX_NESTING
    ensures Fits(Array(items), nesting) <==> ItemsFit(items, 0, nesting + 1)
  {
  }

  lemma Outcomes(v: Value, rest: string)
    ensures Outcome(true, v, rest) == Some(Parsed(v, rest)) && Outcome(false, v, rest) == None
  {
  }

  lemma Bracketed(codec: Codec, t: string, nesting: nat)
    requires nesting <= MAX_NESTING
    ensures ParseValue(codec, "[" + t, nesting) == ParseArray(codec, t, nesting + 1)
    ensures ParseValue(codec, "{" + t, nesting) == ParseObject(codec, t, nesting + 1)
  {
    NoSkip("[" + t);
    NoSkip("{" + t);
    assert ("[" + t)[1..] == t && ("{" + t)[1..] == t;
    hide ParseArray, ParseObject, SkipWs;
  }

  lemma ArrayLineIs(style: Style, items: seq<Value>, i: nat, level: nat)
    requires i < |items|
    ensures ArrayRest(style, items, i, level)
      == Indent(style.pretty, level + 1)
         + (Print(style, items[i], level + 1) + (Comma(i < |items| - 1) + NewLine(style.pretty)))
         + ArrayRest(style, items, i + 1, level)
    ensures i == |items| - 1 ==> ArrayRest(style, items, i + 1, level) == Indent(style.pretty, level) + "]"
  {
    hide Print, Indent, Comma, NewLine;
    assert ArrayLine(style, items, i, level)
      == Indent(style.pretty, level + 1) + ValueText(style, items[i], i < |items| - 1, level + 1);
  }

  lemma ItemsFitOn(items: seq<Value>, i: nat, nesting: nat)
    requires i < |items|
    ensures ItemsFit(items, i, nesting)
      == (Fits(items[i], nesting) && (i < |items| - 1 ==> ItemsFit(items, i + 1, nesting)))
  {
    hide Fits;
  }

  lemma Opened(bracket: string, nl: string, body: string, rest: string)
    ensures bracket + nl + body + rest == bracket + (nl + (body + rest))
  {
    Assoc(bracket + nl, body, rest);
    Assoc(bracket, nl, body + rest);
  }

  lemma Closing(bracket: string, rest: string)
    requires bracket == "]" || bracket == "}"
    ensures SkipWs(bracket + rest) == bracket + rest
    ensures CharAt(bracket + rest, 0) == bracket[0] && (bracket + rest)[1..] == rest
  {
    NoSkip(bracket + rest);
  }

  // The parser gets from the opening bracket to the first item.
  lemma ArrayOpens(style: Style, items: seq<Value>, level: nat, nesting: nat, rest: string)
    requires nesting <= MAX_NESTING
    ensures var start := SkipWs(ArrayRest(style, items, 0, level) + rest);
      ParseValue(style.codec, Print(style, Array(items), level) + rest, nesting)
      == if items == [] then Some(Parsed(Array([]), rest))
         else if CharAt(start, 0) == ']' then Some(Parsed(Array([]), start[1..]))
         else ParseItems(style.codec, start, nesting + 1, [])
  {
    var more := style.pretty && items != [];
    var body := ArrayRest(style, items, 0, level) + rest;
    var nl := NewLine(more);
    PrintArrayIs(style, items, level);
    hide *;
    Opened("[", nl, ArrayRest(style, items, 0, level), rest);
    Bracketed(style.codec, nl + body, nesting);
    IndentBlank(more, level);
    SkipBlank(nl, body);
    ParseArrayIs(style.codec, nl + body, nesting + 1);
    if items == [] { Closing("]", rest); }
  }

  lemma PrintArrayIs(style: Style, items: seq<Value>, level: nat)
    ensures Print(style, Array(items), level)
      == "[" + NewLine(style.pretty && items != []) + ArrayRest(style, items, 0, level)
    ensures items == [] ==> ArrayRest(style, items, 0, level) == "]"
  {
  }

  lemma ParseArrayIs(codec: Codec, s: string, nesting: nat)
    ensures var t := SkipWs(s);
      ParseArray(codec, s, nesting)
      == if CharAt(t, 0) == ']' then Some(Parsed(Array([]), t[1..])) else ParseItems(codec, t, nesting, [])
  {
    hide ParseItems, SkipWs;
  }

  // Where a line of an array starts, and what follows the value in it.
  lemma ItemOpens(style: Style, items: seq<Value>, i: nat, level: nat, rest: string)
    requires i < |items| && Lawful(style.codec) && Valid(style.codec, Array(items))
    ensures var value := Print(style, items[i], level + 1);
      value != "" && Opens(value[0])
      && SkipWs(ArrayRest(style, items, i, level) + rest)
         == value + Tail(style.pretty, i < |items| - 1, ArrayRest(style, items, i + 1, level), rest)
  {
    PrintOpens(style, items[i], level + 1);
    IndentBlank(style.pretty, level + 1);
    var more := i < |items| - 1;
    var head, value, end, next := Indent(style.pretty, level + 1), Print(style, items[i], level + 1),
      Comma(more) + NewLine(style.pretty), ArrayRest(style, items, i + 1, level);
    ArrayLineIs(style, items, i, level);
    hide Print, ArrayRest, Indent, Comma, NewLine, Lawful, Valid, Blank;
    LineSplit(head, value, end, next, rest);
    SkipFirst(head, value + (end + (next + rest)));
  }

  lemma {:induction false} ItemsParsed(style: Style, items: seq<Value>, i: nat, level: nat, nesting: nat, rest: string)
    requires i < |items| && Lawful(style.codec) && Valid(style.codec, Array(items))
    ensures ParseItems(style.codec, SkipWs(ArrayRest(style, items, i, level) + rest), nesting, items[..i])
      == Outcome(ItemsFit(items, i, nesting), Array(items), rest)
    decreases items, 0, |items| - i
  {
    var more, next := i < |items| - 1, ArrayRest(style, items, i + 1, level);
    var value, tail := Print(style, items[i], level + 1), Tail(style.pretty, more, next, rest);
    ItemOpens(style, items, i, level, rest);
    TailMore(style.pretty, next, rest);
    TailLast(style.pretty, level, "]", rest);
    ArrayLineIs(style, items, i, level);
    ItemsFitOn(items, i, nesting);
    hide Print, ArrayRest, Tail, ParseValue, ParseItems, Fits, ItemsFit, Lawful, SkipWs, Delimits, Outcome;
    ValueParsed(style, items[i], level + 1, nesting, tail);
    if more { ItemsParsed(style, items, i + 1, level, nesting, rest); }
    ItemTurn(style.codec, value, tail, nesting, items, i,
             Fits(items[i], nesting), ItemsFit(items, i + 1, nesting), rest);
  }

  // One turn of the loop of parse_array_value.
  lemma ItemTurn(codec: Codec, value: string, tail: string, nesting: nat, items: seq<Value>, i: nat,
                 fits: bool, fitsOn: bool, rest: string)
    requires i < |items| && value != "" && Opens(value[0])
    requires ParseValue(codec, value + tail, nesting) == Outcome(fits, items[i], tail)
    requires var t := SkipWs(tail);
      if i < |items| - 1 then
        t != "" && t[0] == ','
        && ParseItems(codec, SkipWs(t[1..]), nesting, items[..i + 1]) == Outcome(fitsOn, Array(items), rest)
      else t == "]" + rest
    ensures ParseItems(codec, value + tail, nesting, items[..i])
      == Outcome(fits && (i < |items| - 1 ==> fitsOn), Array(items), rest)
  {
    hide ParseValue, SkipWs;
    assert items[..i] + [items[i]] == items[..i + 1];
    assert items[..|items|] == items;
    assert ("]" + rest)[1..] == rest;
  }

  // ------------------------------------------------------------------- objects

  lemma {:induction false} ObjectParsed(style: Style, members: seq<Member>, level: nat, nesting: nat, rest: string)
    requires Lawful(style.codec) && Valid(style.codec, Object(members)) && nesting <= MAX_NESTING
    ensures ParseValue(style.codec, Print(style, Object(members), level) + rest, nesting)
      == Outcome(Fits(Object(members), nesting), Object(members), rest)
    decreases members, 1
  {
    ObjectOpens(style, members, level, nesting, rest);
    if members == [] {
      hide *;
      assert Fits(Object(members), nesting) by { FitsEmpty(nesting); }
      assert Outcome(true, Object([]), rest) == Some(Parsed(Object([]), rest)) by { Outcomes(Object([]), rest); }
    } else {
      MemberOpens(style, members, 0, level, rest);
      MembersParsed(style, members, 0, level, nesting + 1, rest);
      assert members[..0] == [];
      FitsMembers(members, nesting);
    }
  }

  lemma FitsMembers(members: seq<Member>, nesting: nat)
    requires nesting <= MAX_NESTING
    ensures Fits(Object(members), nesting) <==> MembersFit(members, 0, nesting + 1)
  {
  }

  lemma ObjectLineIs(style: Style, members: seq<Member>, i: nat, level: nat)
    requires i < |members|
    ensures ObjectRest(style, members, i, level)
      == (Indent(style.pretty, level + 1) + (Quote(members[i].name, style.escapeSlashes) + Colon(style.pretty)))
         + (Print(style, members[i].value, level + 1) + (Comma(i < |members| - 1) + NewLine(style.pretty)))
         + ObjectRest(style, members, i + 1, level)
    ensures i == |members| - 1 ==> ObjectRest(style, members, i + 1, level) == Indent(style.pretty, level) + "}"
  {
    hide Print, Indent, Comma, NewLine, Quote;
    assert ObjectLine(style, members, i, level) == KeyText(style, members[i].name, level + 1)
      + ValueText(style, members[i].value, i < |members| - 1, level + 1);
  }

  lemma MembersFitOn(members: seq<Member>, i: nat, nesting: nat)
    requires i < |members|
    ensures MembersFit(members, i, nesting)
      == (Fits(members[i].value, nesting) && (i < |members| - 1 ==> MembersFit(members, i + 1, nesting)))
  {
    hide Fits;
  }

  // The parser gets from the opening brace to the first name.
  lemma ObjectOpens(style: Style, members: seq<Member>, level: nat, nesting: nat, rest: string)
    requires nesting <= MAX_NESTING
    ensures var start := SkipWs(ObjectRest(style, members, 0, level) + rest);
      ParseValue(style.codec, Print(style, Object(members), level) + rest, nesting)
      == if members == [] then Some(Parsed(Object([]), rest))
         else if CharAt(start, 0) == '}' then Some(Parsed(Object([]), start[1..]))
         else ParseMembers(style.codec, start, nesting + 1, [])
  {
    var more := style.pretty && members != [];
    var body := ObjectRest(style, members, 0, level) + rest;
    var nl := NewLine(more);
    PrintObjectIs(style, members, level);
    hide *;
    Opened("{", nl, ObjectRest(style, members, 0, level), rest);
    Bracketed(style.codec, nl + body, nesting);
    IndentBlank(more, level);
    SkipBlank(nl, body);
    ParseObjectIs(style.codec, nl + body, nesting + 1);
    if members == [] { Closing("}", rest); }
  }

  lemma PrintObjectIs(style: Style, members: seq<Member>, level: nat)
    ensures Print(style, Object(members), level)
      == "{" + NewLine(style.pretty && members != []) + ObjectRest(style, members, 0, level)
    ensures members == [] ==> ObjectRest(style, members, 0, level) == "}"
  {
  }

  lemma ParseObjectIs(codec: Codec, s: string, nesting: nat)
    ensures var t := SkipWs(s);
      ParseObject(codec, s, nesting)
      == if CharAt(t, 0) == '}' then Some(Parsed(Object([]), t[1..])) else ParseMembers(codec, t, nesting, [])
  {
    hide ParseMembers, SkipWs;
  }

  // The text of a line of an object behind its name.
  function Behind(style: Style, members: seq<Member>, i: nat, level: nat, rest: string): string
    requires i < |members|
  {
    Colon(style.pretty) + (Print(style, members[i].value, level + 1)
      + Tail(style.pretty, i < |members| - 1, ObjectRest(style, members, i + 1, level), rest))
  }

  // Where a line of an object starts.
  lemma MemberOpens(style: Style, members: seq<Member>, i: nat, level: nat, rest: string)
    requires i < |members|
    ensures var name := Quote(members[i].name, style.escapeSlashes);
      name != "" && name[0] == '"'
      && SkipWs(ObjectRest(style, members, i, level) + rest) == name + Behind(style, members, i, level, rest)
  {
    IndentBlank(style.pretty, level + 1);
    var more := i < |members| - 1;
    var head, name, colon, value, end, next := Indent(style.pretty, level + 1),
      Quote(members[i].name, style.escapeSlashes), Colon(style.pretty), Print(style, members[i].value, level + 1),
      Comma(more) + NewLine(style.pretty), ObjectRest(style, members, i + 1, level);
    ObjectLineIs(style, members, i, level);
    QuoteOpens(members[i].name, style.escapeSlashes);
    hide Print, ObjectRest, Indent, Comma, NewLine, Blank, Quote, Colon;
    LineSplit(head + (name + colon), value, end, next, rest);
    LineSplit(head, name, colon, value, end + (next + rest));
    Assoc(head + (name + colon), value, end + (next + rest));
    SkipFirst(head, name + (colon + (value + (end + (next + rest)))));
  }

  lemma QuoteOpens(s: string, esc: bool)
    ensures Quote(s, esc) != "" && Quote(s, esc)[0] == '"'
  {
    hide Escape;
  }

  lemma {:induction false} MembersParsed(style: Style, members: seq<Member>, i: nat, level: nat, nesting: nat,
                                         rest: string)
    requires i < |members| && Lawful(style.codec) && Valid(style.codec, Object(members))
    ensures ParseMembers(style.codec, SkipWs(ObjectRest(style, members, i, level) + rest), nesting, members[..i])
      == Outcome(MembersFit(members, i, nesting), Object(members), rest)
    decreases members, 0, |members| - i
  {
    var more, next := i < |members| - 1, ObjectRest(style, members, i + 1, level);
    var value, tail := Print(style, members[i].value, level + 1), Tail(style.pretty, more, next, rest);
    var name := Quote(members[i].name, style.escapeSlashes);
    MemberStarts(style, members, i, level, rest);
    MemberEnds(style, members, i, level, rest);
    MembersFitOn(members, i, nesting);
    assert Distinct(members) && Valid(style.codec, members[i].value);
    hide *;
    ValueParsed(style, members[i].value, level + 1, nesting, tail);
    if more { MembersParsed(style, members, i + 1, level, nesting, rest); }
    MemberTurn(style, name, value, tail, nesting, members, i,
               Fits(members[i].value, nesting), MembersFit(members, i + 1, nesting), rest);
  }

  lemma MemberStarts(style: Style, members: seq<Member>, i: nat, level: nat, rest: string)
    requires i < |members| && NulFree(members[i].name)
    ensures var name, value := Quote(members[i].name, style.escapeSlashes), Print(style, members[i].value, level + 1);
      var tail := Tail(style.pretty, i < |members| - 1, ObjectRest(style, members, i + 1, level), rest);
      var line := name + (Colon(style.pretty) + (value + tail));
      name != "" && name[0] == '"' && SkipWs(ObjectRest(style, members, i, level) + rest) == line
      && GetQuoted(line) == Some(Quoted(members[i].name, Colon(style.pretty) + (value + tail)))
  {
    MemberOpens(style, members, i, level, rest);
    QuotedRoundTrip(members[i].name, style.escapeSlashes, Behind(style, members, i, level, rest));
    hide Print, ObjectRest, Tail, SkipWs, Quote, GetQuoted, Colon;
  }

  lemma MemberEnds(style: Style, members: seq<Member>, i: nat, level: nat, rest: string)
    requires i < |members|
    ensures var next := ObjectRest(style, members, i + 1, level);
      var tail := Tail(style.pretty, i < |members| - 1, next, rest);
      var t := SkipWs(tail);
      Delimits(tail)
      && (i < |members| - 1 ==> t != "" && t[0] == ',' && SkipWs(t[1..]) == SkipWs(next + rest))
      && (i == |members| - 1 ==> t == "}" + rest)
  {
    ObjectLineIs(style, members, i, level);
    TailMore(style.pretty, ObjectRest(style, members, i + 1, level), rest);
    TailLast(style.pretty, level, "}", rest);
    hide Print, ObjectRest, Tail, SkipWs, Indent, Delimits;
  }

  lemma ColonThenValue(codec: Codec, pretty: bool, text: string, nesting: nat)
    ensures var s := Colon(pretty) + text;
      s != "" && s[0] == ':' && SkipWs(s) == s
      && ParseValue(codec, s[1..], nesting) == ParseValue(codec, text, nesting)
  {
    var s := Colon(pretty) + text;
    var b := if pretty then " " else "";
    assert s[1..] == b + text;
    ParseSkips(codec, b, text, nesting);
  }

  lemma PriorNames(members: seq<Member>, i: nat)
    requires i < |members| && Distinct(members)
    ensures Get(members[..i], members[i].name) == None
  {
  }

  // One turn of the loop of parse_object_value.
  lemma MemberTurn(style: Style, name: string, value: string, tail: string, nesting: nat,
                   members: seq<Member>, i: nat, fits: bool, fitsOn: bool, rest: string)
    requires i < |members| && Distinct(members) && name != "" && name[0] == '"'
    requires GetQuoted(name + (Colon(style.pretty) + (value + tail)))
      == Some(Quoted(members[i].name, Colon(style.pretty) + (value + tail)))
    requires ParseValue(style.codec, value + tail, nesting) == Outcome(fits, members[i].value, tail)
    requires var t := SkipWs(tail);
      if i < |members| - 1 then
        t != "" && t[0] == ','
        && ParseMembers(style.codec, SkipWs(t[1..]), nesting, members[..i + 1])
           == Outcome(fitsOn, Object(members), rest)
      else t == "}" + rest
    ensures ParseMembers(style.codec, name + (Colon(style.pretty) + (value + tail)), nesting, members[..i])
      == Outcome(fits && (i < |members| - 1 ==> fitsOn), Object(members), rest)
  {
    MemberRead(style, name, value, tail, nesting, members[i], fits);
    PriorNames(members, i);
    hide *;
    var s := name + (Colon(style.pretty) + (value + tail));
    CharAtStart(s);
    CharAtStart(SkipWs(tail));
    Outcomes(Object(members), rest);
    PrefixGrows(members, i);
    Closing("}", rest);
    MembersUnfold(style.codec, s, nesting, members[..i]);
  }

  lemma CharAtStart(s: string)
    ensures s != "" ==> CharAt(s, 0) == s[0]
  {
  }

  lemma PrefixGrows(members: seq<Member>, i: nat)
    requires i < |members|
    ensures members[..i] + [members[i]] == members[..i + 1]
    ensures i == |members| - 1 ==> members[..i + 1] == members
  {
  }

  lemma MemberRead(style: Style, name: string, value: string, tail: string, nesting: nat, member: Member, fits: bool)
    requires GetQuoted(name + (Colon(style.pretty) + (value + tail)))
      == Some(Quoted(member.name, Colon(style.pretty) + (value + tail)))
    requires ParseValue(style.codec, value + tail, nesting) == Outcome(fits, member.value, tail)
    ensures ParseMember(style.codec, name + (Colon(style.pretty) + (value + tail)), nesting)
      == if fits then Some(ReadMember(member, tail)) else None
  {
    ColonThenValue(style.codec, style.pretty, value + tail, nesting);
    Outcomes(member.value, tail);
    hide ParseValue, SkipWs, GetQuoted, Colon, Outcome;
  }

  // ------------------------------------------------------------------- theorems

  // Parsing what was printed gives the value back and stops right behind it, if and only
  // if the value is not nested too deeply.
  lemma ParsePrint(style: Style, v: Value, nesting: nat, level: nat, rest: string)
    requires Lawful(style.codec) && Valid(style.codec, v) && (v.Number? ==> Delimits(rest))
    ensures ParseValue(style.codec, Print(style, v, level) + rest, nesting)
      == if nesting + Height(v) <= 2048 then Some(Parsed(v, rest)) else None
  {
    FitsHeight(v, nesting);
    ValueParsed(style, v, level, nesting, rest);
  }

  // A serialized value, as a whole text, is parsed to the value.
  lemma ParseTextPrint(style: Style, v: Value)
    requires Lawful(style.codec) && Valid(style.codec, v)
    ensures ParseText(style.codec, Print(style, v, 0)) == if Height(v) <= 2048 then Some(Parsed(v, "")) else None
  {
    ParsePrint(style, v, 0, 0, "");
    PrintOpens(style, v, 0);
    hide Print, ParseValue, Valid, Lawful, Height;
    assert Print(style, v, 0) + "" == Print(style, v, 0);
  }

  // What the parser accepts: a value as the library builds them, within the nesting limit.
  predicate Accepted(r: Option<Parsed>, nesting: nat) {
    r.Some? ==> WellBuilt(r.value.value) && Fits(r.value.value, nesting)
  }

  // Whatever text is parsed, and however numbers are read.
  lemma {:induction false} ParsedAccepted(codec: Codec, s: string, nesting: nat)
    ensures Accepted(ParseValue(codec, s, nesting), nesting)
    decreases |s|, 0
  {
    var t := SkipWs(s);
    var c := CharAt(t, 0);
    if nesting > MAX_NESTING || (c != '{' && c != '[') {
      ScalarAccepted(codec, s, nesting);
    } else {
      assert ParseValue(codec, s, nesting)
        == if c == '{' then ParseObject(codec, t[1..], nesting + 1) else ParseArray(codec, t[1..], nesting + 1);
      EmptyAccepted(nesting);
      hide ParseValue, ParseItems, ParseMembers, SkipWs, WellBuilt, Fits;
      if c == '{' {
        MembersAccepted(codec, SkipWs(t[1..]), nesting, []);
      } else {
        ItemsAccepted(codec, SkipWs(t[1..]), nesting, []);
      }
    }
  }

  lemma EmptyAccepted(nesting: nat)
    requires nesting <= MAX_NESTING
    ensures WellBuilt(Array([])) && Fits(Array([]), nesting) && WellBuilt(Object([])) && Fits(Object([]), nesting)
  {
  }

  lemma ScalarAccepted(codec: Codec, s: string, nesting: nat)
    requires nesting > MAX_NESTING || (CharAt(SkipWs(s), 0) != '{' && CharAt(SkipWs(s), 0) != '[')
    ensures Accepted(ParseValue(codec, s, nesting), nesting)
  {
    ContentNulFree(SkipWs(s));
    hide GetQuoted, SkipWs, IsDecimal, NulFree, StartsWith;
  }

  lemma ContentNulFree(s: string)
    ensures GetQuoted(s).Some? ==> NulFree(GetQuoted(s).value.content)
  {
    hide Decode, SkipQuotes;
    match SkipQuotes(s) {
      case None =>
      case Some(rest) =>
        match Decode(s[1..], |s| - |rest| - 2) {
          case None =>
          case Some(content) => CStringNulFree(content);
        }
    }
  }

  lemma {:induction false} ItemsAccepted(codec: Codec, s: string, nesting: nat, items: seq<Value>)
    requires nesting <= MAX_NESTING && WellBuilt(Array(items)) && Fits(Array(items), nesting)
    ensures Accepted(ParseItems(codec, s, nesting + 1, items), nesting)
    decreases |s|, 1
  {
    hide ParseValue, SkipWs, WellBuilt, Fits;
    ParsedAccepted(codec, s, nesting + 1);
    var parsed := ParseValue(codec, s, nesting + 1);
    if CharAt(s, 0) != '\0' && parsed.Some? {
      var all, t := items + [parsed.value.value], SkipWs(parsed.value.rest);
      ItemAdded(items, parsed.value.value, nesting);
      if CharAt(t, 0) == ',' { ItemsAccepted(codec, SkipWs(t[1..]), nesting, all); }
    }
  }

  lemma ItemAdded(items: seq<Value>, v: Value, nesting: nat)
    requires WellBuilt(Array(items)) && Fits(Array(items), nesting) && WellBuilt(v) && Fits(v, nesting + 1)
    ensures WellBuilt(Array(items + [v])) && Fits(Array(items + [v]), nesting)
  {
  }

  lemma MemberAdded(members: seq<Member>, name: string, v: Value, nesting: nat)
    requires WellBuilt(Object(members)) && Fits(Object(members), nesting)
    requires WellBuilt(v) && Fits(v, nesting + 1) && NulFree(name) && Get(members, name).None?
    ensures var all := Object(members + [Member(name, v)]); WellBuilt(all) && Fits(all, nesting)
  {
    hide NulFree;
  }

  lemma {:induction false} MembersAccepted(codec: Codec, s: string, nesting: nat, members: seq<Member>)
    requires nesting <= MAX_NESTING && WellBuilt(Object(members)) && Fits(Object(members), nesting)
    ensures Accepted(ParseMembers(codec, s, nesting + 1, members), nesting)
    decreases |s|, 2
  {
    hide ParseMember, SkipWs, WellBuilt, Fits, Get, NulFree;
    MemberAccepted(codec, s, nesting);
    var named := ParseMember(codec, s, nesting + 1);
    if CharAt(s, 0) != '\0' && named.Some? && Get(members, named.value.member.name).None? {
      var member, t := named.value.member, SkipWs(named.value.rest);
      MemberAdded(members, member.name, member.value, nesting);
      if CharAt(t, 0) == ',' { MembersAccepted(codec, SkipWs(t[1..]), nesting, members + [member]); }
    }
  }

  lemma {:induction false} MemberAccepted(codec: Codec, s: string, nesting: nat)
    requires nesting <= MAX_NESTING
    ensures var named := ParseMember(codec, s, nesting + 1);
      named.Some? ==>
        NulFree(named.value.member.name) && WellBuilt(named.value.member.value)
        && Fits(named.value.member.value, nesting + 1)
    decreases |s|, 1
  {
    ContentNulFree(s);
    hide ParseValue, SkipWs, WellBuilt, Fits, GetQuoted, NulFree;
    if GetQuoted(s).Some? {
      var colon := SkipWs(GetQuoted(s).value.rest);
      if CharAt(colon, 0) == ':' { ParsedAccepted(codec, colon[1..], nesting + 1); }
    }
  }

  // Whatever text a value was read from, if its numbers are carried over, printing it in
  // any style and reading that gives the same value.
  lemma ReadAgain(style: Style, s: string)
    requires Lawful(style.codec)
    ensures var read := ParseValue(style.codec, s, 0);
      read.Some? && Covered(style.codec, read.value.value) ==>
        ParseValue(style.codec, Print(style, read.value.value, 0), 0) == Some(Parsed(read.value.value, ""))
  {
    var read := ParseValue(style.codec, s, 0);
    ParsedAccepted(style.codec, s, 0);
    if read.Some? && Covered(style.codec, read.value.value) {
      var v := read.value.value;
      ValidSplits(style.codec, v);
      FitsHeight(v, 0);
      hide ParseValue, Print, Valid, WellBuilt, Covered, Fits, Height, Lawful;
      ParsePrint(style, v, 0, 0, "");
      assert Print(style, v, 0) + "" == Print(style, v, 0);
    }
  }
}
