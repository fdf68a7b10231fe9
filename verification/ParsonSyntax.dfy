/** The texts that the parser accepts: JSON with any white space (RFC 8259 sections 2 to 5), up to its nesting limit. */
module ParsonSyntax {
  import opened CStrings
  import opened Results
  import opened ParsonGrammar
  import opened ParsonParser
  import opened ParsonRoundTrip
  import opened ParsonText
  import opened ParsonValue

  // ------------------------------------------------------------------ syntax trees

  // A value as it is written. Items and members carry the white space around them.
  datatype Tree =
    | NullTree
    | BooleanTree(flag: bool)
    | NumberTree(numeral: string, number: real)
    | StringTree(pieces: seq<Piece>)
    | EmptyArray(gap: string)
    | ArrayTree(items: Items)
    | EmptyObject(gap: string)
    | ObjectTree(members: Members)

  // The items up to the closing bracket.
  datatype Items = Items(before: string, item: Tree, after: string, more: MoreItems)

  datatype MoreItems = NoItems | Comma(items: Items)

  datatype Members =
    Members(before: string, name: seq<Piece>, colon: string, gap: string, value: Tree, after: string,
            others: MoreMembers)

  datatype MoreMembers = NoMembers | Comma(members: Members)

  function TreeText(t: Tree): string {
    match t
    case NullTree => "null"
    case BooleanTree(flag) => if flag then "true" else "false"
    case NumberTree(numeral, _) => numeral
    case StringTree(pieces) => Literal(pieces)
    case EmptyArray(gap) => "[" + (gap + "]")
    case ArrayTree(items) => "[" + ItemsText(items)
    case EmptyObject(gap) => "{" + (gap + "}")
    case ObjectTree(members) => "{" + MembersText(members)
  }

  function ItemsText(items: Items): string {
    items.before + (TreeText(items.item) + (items.after + ItemsEnd(items.more)))
  }

  function ItemsEnd(more: MoreItems): string {
    match more case NoItems => "]" case Comma(items) => "," + ItemsText(items)
  }

  function MembersText(m: Members): string {
    m.before + (Literal(m.name) + (m.colon + (":" + (m.gap + (TreeText(m.value) + (m.after + MembersEnd(m.others)))))))
  }

  function MembersEnd(others: MoreMembers): string {
    match others case NoMembers => "}" case Comma(members) => "," + MembersText(members)
  }

  // The value that is written. A name or text ends at a NUL, as C strings do.
  function TreeValue(t: Tree): Value {
    match t
    case NullTree => Null
    case BooleanTree(flag) => Boolean(flag)
    case NumberTree(_, number) => Number(number)
    case StringTree(pieces) => String(CString(Bytes(pieces)))
    case EmptyArray(_) => Array([])
    case ArrayTree(items) => Array(ItemsValue(items))
    case EmptyObject(_) => Object([])
    case ObjectTree(members) => Object(MembersValue(members))
  }

  function ItemsValue(items: Items): seq<Value> {
    [TreeValue(items.item)] + match items.more case NoItems => [] case Comma(more) => ItemsValue(more)
  }

  function MembersValue(m: Members): seq<Member> {
    [Member(CString(Bytes(m.name)), TreeValue(m.value))]
    + match m.others case NoMembers => [] case Comma(more) => MembersValue(more)
  }

  // The tree is well formed where it stands: white space is white space, numerals are read
  // as they are written given what follows them, names are distinct, and the nesting is
  // within its limit.
  ghost predicate Written(codec: Codec, t: Tree, rest: string, nesting: nat) {
    nesting <= 2048
    && match t
       case NullTree => true
       case BooleanTree(_) => true
       case NumberTree(numeral, number) =>
         NumberStart(CharAt(numeral + rest, 0)) && IsDecimal(numeral)
         && codec.read(numeral + rest) == Some(Reading(number, |numeral|))
       case StringTree(pieces) => GoodPieces(pieces)
       case EmptyArray(gap) => Blank(gap)
       case ArrayTree(items) => ItemsWritten(codec, items, rest, nesting + 1)
       case EmptyObject(gap) => Blank(gap)
       case ObjectTree(members) => MembersWritten(codec, members, rest, nesting + 1) && Distinct(MembersValue(members))
  }

  ghost predicate ItemsWritten(codec: Codec, items: Items, rest: string, nesting: nat) {
    Blank(items.before) && Blank(items.after)
    && Written(codec, items.item, items.after + (ItemsEnd(items.more) + rest), nesting)
    && (items.more.Comma? ==> ItemsWritten(codec, items.more.items, rest, nesting))
  }

  ghost predicate MembersWritten(codec: Codec, m: Members, rest: string, nesting: nat) {
    Blank(m.before) && Blank(m.colon) && Blank(m.gap) && Blank(m.after) && GoodPieces(m.name)
    && Written(codec, m.value, m.after + (MembersEnd(m.others) + rest), nesting)
    && (m.others.Comma? ==> MembersWritten(codec, m.others.members, rest, nesting))
  }

  // --------------------------------------------------------- reading what is written

  // A tree starts with a character that starts a value.
  lemma TreeOpens(codec: Codec, t: Tree, rest: string, nesting: nat)
    requires Written(codec, t, rest, nesting)
    ensures var s := TreeText(t) + rest;
      s != "" && Opens(s[0]) && !IsSpace(s[0]) && s[0] != '\0' && s[0] != ']' && s[0] != '}'
  {
    hide ItemsText, MembersText, Text, ItemsWritten, MembersWritten, Blank, IsDecimal, GoodPieces, Distinct;
    if t.NumberTree? { assert TreeText(t) + rest == t.numeral + rest; }
  }

  lemma ReadWord(codec: Codec, t: Tree, rest: string, nesting: nat)
    requires (t.NullTree? || t.BooleanTree?) && nesting <= MAX_NESTING
    ensures ParseValue(codec, TreeText(t) + rest, nesting) == Some(Parsed(TreeValue(t), rest))
  {
    var text := TreeText(t);
    var s := text + rest;
    assert s[..|text|] == text && s[|text|..] == rest && s[0] == text[0];
    NoSkip(s);
    hide SkipWs;
    if t.BooleanTree? && !t.flag { assert !StartsWith(s, "true") by { assert "true"[0] == 't' != s[0]; } }
  }

  lemma ReadNumber(codec: Codec, t: Tree, rest: string, nesting: nat)
    requires t.NumberTree? && Written(codec, t, rest, nesting)
    ensures ParseValue(codec, TreeText(t) + rest, nesting) == Some(Parsed(TreeValue(t), rest))
  {
    var s := t.numeral + rest;
    assert s[..|t.numeral|] == t.numeral && s[|t.numeral|..] == rest;
    NoSkip(s);
    hide SkipWs, IsDecimal;
  }

  lemma StringValue(codec: Codec, s: string, nesting: nat, content: string, rest: string)
    requires nesting <= MAX_NESTING && s != "" && s[0] == '"' && GetQuoted(s) == Some(Quoted(content, rest))
    ensures ParseValue(codec, s, nesting) == Some(Parsed(String(content), rest))
  {
    NoSkip(s);
    hide SkipWs, GetQuoted;
  }

  lemma ReadString(codec: Codec, t: Tree, rest: string, nesting: nat)
    requires t.StringTree? && Written(codec, t, rest, nesting)
    ensures ParseValue(codec, TreeText(t) + rest, nesting) == Some(Parsed(TreeValue(t), rest))
  {
    assert TreeText(t) == Literal(t.pieces) && TreeValue(t) == String(CString(Bytes(t.pieces))) && GoodPieces(t.pieces);
    assert nesting <= MAX_NESTING;
    hide *;
    QuoteStarts(t.pieces, rest);
    ReadLiteral(t.pieces, rest);
    StringValue(codec, Literal(t.pieces) + rest, nesting, CString(Bytes(t.pieces)), rest);
  }

  lemma ReadEmpty(codec: Codec, t: Tree, rest: string, nesting: nat)
    requires (t.EmptyArray? || t.EmptyObject?) && Written(codec, t, rest, nesting)
    ensures ParseValue(codec, TreeText(t) + rest, nesting) == Some(Parsed(TreeValue(t), rest))
  {
    var opening, closing := if t.EmptyArray? then "[" else "{", if t.EmptyArray? then "]" else "}";
    assert TreeText(t) + rest == opening + (t.gap + (closing + rest));
    assert (closing + rest)[1..] == rest;
    hide ParseValue, ParseItems, ParseMembers;
    Bracketed(codec, t.gap + (closing + rest), nesting);
    SkipFirst(t.gap, closing + rest);
    hide SkipWs;
  }

  // What is written is read as its value, and what follows it is left.
  lemma {:induction false} ReadTree(codec: Codec, t: Tree, rest: string, nesting: nat)
    requires Written(codec, t, rest, nesting)
    ensures ParseValue(codec, TreeText(t) + rest, nesting) == Some(Parsed(TreeValue(t), rest))
    decreases t
  {
    match t
    case NullTree => ReadWord(codec, t, rest, nesting);
    case BooleanTree(_) => ReadWord(codec, t, rest, nesting);
    case NumberTree(_, _) => ReadNumber(codec, t, rest, nesting);
    case StringTree(_) => ReadString(codec, t, rest, nesting);
    case EmptyArray(_) => ReadEmpty(codec, t, rest, nesting);
    case EmptyObject(_) => ReadEmpty(codec, t, rest, nesting);
    case ArrayTree(items) =>
      ReadItems(codec, items, rest, nesting + 1, []);
      hide *;
      OpensArray(codec, items, rest, nesting);
    case ObjectTree(members) =>
      ReadMembers(codec, members, rest, nesting + 1, []);
      hide *;
      OpensObject(codec, members, rest, nesting);
  }

  lemma OpensArray(codec: Codec, items: Items, rest: string, nesting: nat)
    requires Written(codec, ArrayTree(items), rest, nesting)
    requires ParseItems(codec, SkipWs(ItemsText(items) + rest), nesting + 1, [])
      == Some(Parsed(Array([] + ItemsValue(items)), rest))
    ensures ParseValue(codec, TreeText(ArrayTree(items)) + rest, nesting)
      == Some(Parsed(TreeValue(ArrayTree(items)), rest))
  {
    var s := ItemsText(items) + rest;
    assert TreeText(ArrayTree(items)) + rest == "[" + s;
    assert [] + ItemsValue(items) == ItemsValue(items);
    ItemStart(codec, items, rest, nesting + 1);
    hide ItemsText, ItemsValue, ItemsWritten, ParseValue, ParseItems, ParseArray, SkipWs;
    Bracketed(codec, s, nesting);
    ParseArrayIs(codec, s, nesting + 1);
  }

  lemma ItemStart(codec: Codec, items: Items, rest: string, nesting: nat)
    requires ItemsWritten(codec, items, rest, nesting)
    ensures var after := items.after + (ItemsEnd(items.more) + rest);
      SkipWs(ItemsText(items) + rest) == TreeText(items.item) + after
      && CharAt(TreeText(items.item) + after, 0) !in {'\0', ']'}
  {
    var after := items.after + (ItemsEnd(items.more) + rest);
    assert ItemsText(items) + rest == items.before + (TreeText(items.item) + after);
    hide TreeText, ItemsEnd, Written, SkipWs;
    TreeOpens(codec, items.item, after, nesting);
    SkipFirst(items.before, TreeText(items.item) + after);
  }

  // The comma or the bracket behind an item.
  lemma ItemEnd(items: Items, rest: string)
    requires Blank(items.after)
    ensures var end := SkipWs(items.after + (ItemsEnd(items.more) + rest));
      end != "" && end == ItemsEnd(items.more) + rest
      && (items.more.NoItems? ==> end[0] == ']' && end[1..] == rest)
      && (items.more.Comma? ==> end[0] == ',' && end[1..] == ItemsText(items.more.items) + rest)
  {
    hide ItemsText;
    SkipFirst(items.after, ItemsEnd(items.more) + rest);
    hide SkipWs;
    if items.more.Comma? {
      assert ("," + ItemsText(items.more.items) + rest)[1..] == ItemsText(items.more.items) + rest;
    }
  }

  lemma ItemsUnfold(codec: Codec, s: string, nesting: nat, done: seq<Value>, v: Value, after: string)
    requires CharAt(s, 0) != '\0' && ParseValue(codec, s, nesting) == Some(Parsed(v, after))
    ensures var end := SkipWs(after);
      (CharAt(end, 0) == ',' ==>
        ParseItems(codec, s, nesting, done) == ParseItems(codec, SkipWs(end[1..]), nesting, done + [v]))
      && (CharAt(end, 0) == ']' ==> ParseItems(codec, s, nesting, done) == Some(Parsed(Array(done + [v]), end[1..])))
  {
    hide ParseValue, SkipWs;
  }

  lemma {:induction false} ReadItems(codec: Codec, items: Items, rest: string, nesting: nat, done: seq<Value>)
    requires ItemsWritten(codec, items, rest, nesting)
    ensures ParseItems(codec, SkipWs(ItemsText(items) + rest), nesting, done)
      == Some(Parsed(Array(done + ItemsValue(items)), rest))
    decreases items
  {
    var v, after := TreeValue(items.item), items.after + (ItemsEnd(items.more) + rest);
    assert Blank(items.after) && Written(codec, items.item, after, nesting);
    ReadTree(codec, items.item, after, nesting);
    if items.more.Comma? { ReadItems(codec, items.more.items, rest, nesting, done + [v]); }
    hide *;
    ItemsValueIs(items);
    ItemStart(codec, items, rest, nesting);
    ItemEnd(items, rest);
    FirstChar(SkipWs(after));
    ItemsUnfold(codec, TreeText(items.item) + after, nesting, done, v, after);
    if items.more.Comma? { Assoc3(done, [v], ItemsValue(items.more.items)); }
  }

  lemma ItemsValueIs(items: Items)
    ensures items.more.NoItems? ==> ItemsValue(items) == [TreeValue(items.item)]
    ensures items.more.Comma? ==> ItemsValue(items) == [TreeValue(items.item)] + ItemsValue(items.more.items)
  {
    hide TreeValue;
  }

  lemma FirstChar(s: string)
    ensures s != "" ==> CharAt(s, 0) == s[0]
  {
  }

  lemma OpensObject(codec: Codec, members: Members, rest: string, nesting: nat)
    requires Written(codec, ObjectTree(members), rest, nesting)
    requires ParseMembers(codec, SkipWs(MembersText(members) + rest), nesting + 1, [])
      == Some(Parsed(Object([] + MembersValue(members)), rest))
    ensures ParseValue(codec, TreeText(ObjectTree(members)) + rest, nesting)
      == Some(Parsed(TreeValue(ObjectTree(members)), rest))
  {
    hide *;
    ObjectTextIs(codec, members, rest, nesting);
    MemberStart(members, rest);
    Bracketed(codec, MembersText(members) + rest, nesting);
    ParseObjectIs(codec, MembersText(members) + rest, nesting + 1);
    NothingBefore(MembersValue(members));
  }

  lemma NothingBefore(members: seq<Member>)
    ensures [] + members == members
  {
  }

  lemma ObjectTextIs(codec: Codec, members: Members, rest: string, nesting: nat)
    requires Written(codec, ObjectTree(members), rest, nesting)
    ensures nesting <= MAX_NESTING && Blank(members.before) && MembersWritten(codec, members, rest, nesting + 1)
    ensures TreeText(ObjectTree(members)) + rest == "{" + (MembersText(members) + rest)
    ensures TreeValue(ObjectTree(members)) == Object(MembersValue(members))
  {
    assert Blank(members.before) by { hide MembersText, MembersValue, Literal, Blank, GoodPieces; }
    hide MembersText, MembersValue, MembersWritten, Distinct, Blank;
  }

  // What follows the name of a member.
  function AfterName(m: Members, rest: string): string {
    m.colon + (":" + (m.gap + (TreeText(m.value) + (m.after + (MembersEnd(m.others) + rest)))))
  }

  lemma MemberStart(m: Members, rest: string)
    requires Blank(m.before)
    ensures SkipWs(MembersText(m) + rest) == Literal(m.name) + AfterName(m, rest)
    ensures CharAt(Literal(m.name) + AfterName(m, rest), 0) == '"'
  {
    MembersTextIs(m, rest);
    QuoteStarts(m.name, AfterName(m, rest));
    hide *;
    SkipFirst(m.before, Literal(m.name) + AfterName(m, rest));
  }

  lemma QuoteStarts(name: seq<Piece>, after: string)
    ensures var s := Literal(name) + after; s != "" && s[0] == '"' && !IsSpace(s[0]) && CharAt(s, 0) == '"'
  {
    hide Text;
  }

  lemma MembersTextIs(m: Members, rest: string)
    ensures MembersText(m) + rest == m.before + (Literal(m.name) + AfterName(m, rest))
  {
    hide TreeText, MembersEnd, Literal;
    var value, after := TreeText(m.value), m.after + MembersEnd(m.others);
    assert after + rest == m.after + (MembersEnd(m.others) + rest);
    Assoc(value, after, rest);
    Assoc(m.gap, value + after, rest);
    Assoc(":", m.gap + (value + after), rest);
    Assoc(m.colon, ":" + (m.gap + (value + after)), rest);
    Assoc(Literal(m.name), m.colon + (":" + (m.gap + (value + after))), rest);
    Assoc(m.before, Literal(m.name) + (m.colon + (":" + (m.gap + (value + after)))), rest);
  }

  lemma MemberEnd(m: Members, rest: string)
    requires Blank(m.after)
    ensures var end := SkipWs(m.after + (MembersEnd(m.others) + rest));
      end != "" && end == MembersEnd(m.others) + rest
      && (m.others.NoMembers? ==> end[0] == '}' && end[1..] == rest)
      && (m.others.Comma? ==> end[0] == ',' && end[1..] == MembersText(m.others.members) + rest)
  {
    hide MembersText;
    SkipFirst(m.after, MembersEnd(m.others) + rest);
    hide SkipWs;
    if m.others.Comma? {
      assert ("," + MembersText(m.others.members) + rest)[1..] == MembersText(m.others.members) + rest;
    }
  }

  lemma MemberRead(codec: Codec, m: Members, rest: string, nesting: nat)
    requires Blank(m.colon) && Blank(m.gap) && GoodPieces(m.name)
    requires var after := m.after + (MembersEnd(m.others) + rest);
      ParseValue(codec, TreeText(m.value) + after, nesting) == Some(Parsed(TreeValue(m.value), after))
    ensures var after := m.after + (MembersEnd(m.others) + rest);
      ParseMember(codec, Literal(m.name) + AfterName(m, rest), nesting)
      == Some(ReadMember(Member(CString(Bytes(m.name)), TreeValue(m.value)), after))
  {
    var value := TreeText(m.value) + (m.after + (MembersEnd(m.others) + rest));
    assert AfterName(m, rest) == m.colon + (":" + (m.gap + value));
    assert (":" + (m.gap + value))[1..] == m.gap + value;
    hide AfterName, TreeText, Literal, GoodPieces, Bytes, CString, GetQuoted, ParseValue;
    ReadLiteral(m.name, AfterName(m, rest));
    SkipFirst(m.colon, ":" + (m.gap + value));
    ParseSkips(codec, m.gap, value, nesting);
    hide SkipWs;
  }

  lemma {:induction false} ReadMembers(codec: Codec, m: Members, rest: string, nesting: nat, done: seq<Member>)
    requires MembersWritten(codec, m, rest, nesting) && Distinct(done + MembersValue(m))
    ensures ParseMembers(codec, SkipWs(MembersText(m) + rest), nesting, done)
      == Some(Parsed(Object(done + MembersValue(m)), rest))
    decreases m
  {
    var member := Member(CString(Bytes(m.name)), TreeValue(m.value));
    var after := m.after + (MembersEnd(m.others) + rest);
    assert Blank(m.before) && Blank(m.after) && Blank(m.colon) && Blank(m.gap) && GoodPieces(m.name);
    assert Written(codec, m.value, after, nesting);
    ReadTree(codec, m.value, after, nesting);
    NewName(done, MembersValue(m), member);
    if m.others.Comma? {
      assert done + [member] + MembersValue(m.others.members) == done + MembersValue(m);
      ReadMembers(codec, m.others.members, rest, nesting, done + [member]);
    } else {
      assert MembersValue(m) == [member];
    }
    hide *;
    MemberRead(codec, m, rest, nesting);
    MemberStart(m, rest);
    MemberEnd(m, rest);
    MembersUnfold(codec, Literal(m.name) + AfterName(m, rest), nesting, done);
  }

  lemma NewName(done: seq<Member>, members: seq<Member>, member: Member)
    requires Distinct(done + members) && members != [] && members[0] == member
    ensures Get(done, member.name).None?
  {
    var all := done + members;
    assert all[|done|] == member;
    forall i | 0 <= i < |done| ensures done[i].name != member.name { assert all[i] == done[i]; }
  }

  // ------------------------------------------------------ everything read is written

  lemma {:induction false} SplitWs(s: string) returns (gap: string)
    ensures Blank(gap) && s == gap + SkipWs(s)
  {
    if s != "" && IsSpace(s[0]) {
      gap := SplitWs(s[1..]);
      assert s == [s[0]] + s[1..];
      gap := [s[0]] + gap;
    } else {
      gap := "";
    }
  }

  lemma FirstIs(s: string, c: char)
    requires CharAt(s, 0) == c != '\0'
    ensures s != "" && s[0] == c && s == [c] + s[1..]
  {
  }

  lemma WordRead(codec: Codec, s: string, nesting: nat, v: Value, rest: string) returns (t: Tree)
    requires s == SkipWs(s) && CharAt(s, 0) !in {'{', '[', '"'} && !NumberStart(CharAt(s, 0))
    requires ParseValue(codec, s, nesting) == Some(Parsed(v, rest))
    ensures s == TreeText(t) + rest && TreeValue(t) == v && Written(codec, t, rest, nesting)
  {
    var word := ReadWordOf(codec, s, nesting);
    hide SkipWs;
    t := if word == "null" then NullTree else BooleanTree(word == "true");
    assert TreeText(t) == word;
    hide TreeText;
    assert s == s[..|word|] + s[|word|..];
  }

  lemma ReadWordOf(codec: Codec, s: string, nesting: nat) returns (word: string)
    requires s == SkipWs(s) && CharAt(s, 0) !in {'{', '[', '"'} && !NumberStart(CharAt(s, 0))
    requires ParseValue(codec, s, nesting).Some?
    ensures nesting <= MAX_NESTING && StartsWith(s, word)
    ensures word == "null" || word == "true" || word == "false"
    ensures ParseValue(codec, s, nesting)
      == Some(Parsed(if word == "null" then Null else Boolean(word == "true"), s[|word|..]))
  {
    hide SkipWs;
    assert |"null"| == 4 && |"true"| == 4 && |"false"| == 5 && "null"[0] != "true"[0];
    if CharAt(s, 0) == 'n' {
      word := "null";
    } else if StartsWith(s, "true") {
      word := "true";
    } else {
      word := "false";
    }
  }

  lemma NumberRead(codec: Codec, s: string, nesting: nat, v: Value, rest: string) returns (t: Tree)
    requires s == SkipWs(s) && NumberStart(CharAt(s, 0))
    requires ParseValue(codec, s, nesting) == Some(Parsed(v, rest))
    ensures s == TreeText(t) + rest && TreeValue(t) == v && Written(codec, t, rest, nesting)
  {
    hide SkipWs, IsDecimal;
    var n := codec.read(s).value.length;
    t := NumberTree(s[..n], v.number);
    assert s == s[..n] + rest;
  }

  lemma StringRead(codec: Codec, s: string, nesting: nat, v: Value, rest: string) returns (t: Tree)
    requires s == SkipWs(s) && CharAt(s, 0) == '"'
    requires ParseValue(codec, s, nesting) == Some(Parsed(v, rest))
    ensures s == TreeText(t) + rest && TreeValue(t) == v && Written(codec, t, rest, nesting)
  {
    hide SkipWs, GetQuoted, Literal, GoodPieces, Bytes, CString;
    var pieces := QuotedPieces(s, GetQuoted(s).value.content, rest);
    t := StringTree(pieces);
  }

  lemma LeafRead(codec: Codec, s: string, nesting: nat, v: Value, rest: string) returns (t: Tree)
    requires s == SkipWs(s) && CharAt(s, 0) !in {'{', '['}
    requires ParseValue(codec, s, nesting) == Some(Parsed(v, rest))
    ensures s == TreeText(t) + rest && TreeValue(t) == v && Written(codec, t, rest, nesting)
  {
    hide *;
    if CharAt(s, 0) == '"' {
      t := StringRead(codec, s, nesting, v, rest);
    } else if NumberStart(CharAt(s, 0)) {
      t := NumberRead(codec, s, nesting, v, rest);
    } else {
      t := WordRead(codec, s, nesting, v, rest);
    }
  }

  // Whatever is read, there is a tree of it, behind white space.
  lemma {:induction false} TreeRead(codec: Codec, s: string, nesting: nat, v: Value, rest: string)
    returns (gap: string, t: Tree)
    requires ParseValue(codec, s, nesting) == Some(Parsed(v, rest))
    ensures Blank(gap) && s == gap + (TreeText(t) + rest) && TreeValue(t) == v && Written(codec, t, rest, nesting)
    decreases |s|, 2
  {
    gap := SplitWs(s);
    var start := SkipWs(s);
    hide *;
    SkippedTwice(s);
    ParseSkips(codec, gap, start, nesting);
    WithinNesting(codec, start, nesting);
    if CharAt(start, 0) == '[' {
      FirstIs(start, '[');
      t := ArrayRead(codec, start[1..], nesting, v, rest);
      Assoc("[", start[1..], "");
    } else if CharAt(start, 0) == '{' {
      FirstIs(start, '{');
      t := ObjectRead(codec, start[1..], nesting, v, rest);
    } else {
      t := LeafRead(codec, start, nesting, v, rest);
    }
  }

  lemma SkippedTwice(s: string)
    ensures SkipWs(SkipWs(s)) == SkipWs(s) && |SkipWs(s)| <= |s|
  {
  }

  lemma WithinNesting(codec: Codec, s: string, nesting: nat)
    ensures ParseValue(codec, s, nesting).Some? ==> nesting <= MAX_NESTING
  {
  }

  lemma {:induction false} ArrayRead(codec: Codec, s: string, nesting: nat, v: Value, rest: string) returns (t: Tree)
    requires nesting <= MAX_NESTING && ParseValue(codec, "[" + s, nesting) == Some(Parsed(v, rest))
    ensures "[" + s == TreeText(t) + rest && TreeValue(t) == v && Written(codec, t, rest, nesting)
    decreases |s|, 4
  {
    hide *;
    Bracketed(codec, s, nesting);
    ParseArrayIs(codec, s, nesting + 1);
    SkippedTwice(s);
    var gap := SplitWs(s);
    var start := SkipWs(s);
    if CharAt(start, 0) == ']' {
      FirstIs(start, ']');
      t := EmptyArray(gap);
      EmptyIs(codec, gap, rest, nesting);
    } else {
      var items := ItemsRead(codec, start, nesting + 1, [], v, rest);
      items := Indented(codec, gap, items, rest, nesting + 1);
      t := ArrayTree(items);
      ArrayIs(codec, items, rest, nesting);
    }
  }

  lemma EmptyIs(codec: Codec, gap: string, rest: string, nesting: nat)
    requires nesting <= MAX_NESTING && Blank(gap)
    ensures Written(codec, EmptyArray(gap), rest, nesting) && Written(codec, EmptyObject(gap), rest, nesting)
    ensures TreeValue(EmptyArray(gap)) == Array([]) && TreeValue(EmptyObject(gap)) == Object([])
    ensures TreeText(EmptyArray(gap)) + rest == "[" + (gap + ("]" + rest))
    ensures TreeText(EmptyObject(gap)) + rest == "{" + (gap + ("}" + rest))
  {
    hide Blank;
    Assoc(gap, "]", rest);
    Assoc(gap, "}", rest);
    Assoc("[", gap + "]", rest);
    Assoc("{", gap + "}", rest);
  }

  lemma ArrayIs(codec: Codec, items: Items, rest: string, nesting: nat)
    requires nesting <= MAX_NESTING && ItemsWritten(codec, items, rest, nesting + 1)
    ensures Written(codec, ArrayTree(items), rest, nesting)
    ensures TreeValue(ArrayTree(items)) == Array(ItemsValue(items))
    ensures TreeText(ArrayTree(items)) + rest == "[" + (ItemsText(items) + rest)
  {
    hide ItemsText, ItemsValue, ItemsWritten;
  }

  // The same items with white space in front.
  lemma Indented(codec: Codec, gap: string, items: Items, rest: string, nesting: nat) returns (r: Items)
    requires Blank(gap) && ItemsWritten(codec, items, rest, nesting)
    ensures ItemsWritten(codec, r, rest, nesting) && ItemsValue(r) == ItemsValue(items)
    ensures ItemsText(r) + rest == gap + (ItemsText(items) + rest)
  {
    r := items.(before := gap + items.before);
    hide TreeText, TreeValue, Written, ItemsEnd;
  }

  lemma {:induction false} ItemsRead(codec: Codec, s: string, nesting: nat, done: seq<Value>, v: Value, rest: string)
    returns (items: Items)
    requires ParseItems(codec, s, nesting, done) == Some(Parsed(v, rest))
    ensures ItemsWritten(codec, items, rest, nesting) && s == ItemsText(items) + rest
    ensures v == Array(done + ItemsValue(items))
    decreases |s|, 3
  {
    hide *;
    ItemsTurn(codec, s, nesting, done);
    var item := ParseValue(codec, s, nesting).value;
    var end := SkipWs(item.rest);
    SkippedTwice(item.rest);
    var before, t := TreeRead(codec, s, nesting, item.value, item.rest);
    var after := SplitWs(item.rest);
    if CharAt(end, 0) == ',' {
      FirstIs(end, ',');
      SkippedTwice(end[1..]);
      var gap := SplitWs(end[1..]);
      var more := ItemsRead(codec, SkipWs(end[1..]), nesting, done + [item.value], v, rest);
      more := Indented(codec, gap, more, rest, nesting);
      items := CommaItems(codec, before, t, after, more, item.rest, rest, nesting);
      Assoc3(done, [item.value], ItemsValue(more));
    } else {
      FirstIs(end, ']');
      items := LastItem(codec, before, t, after, item.rest, rest, nesting);
    }
  }

  lemma Assoc3(a: seq<Value>, b: seq<Value>, c: seq<Value>)
    ensures a + b + c == a + (b + c)
  {
  }

  lemma LastItem(codec: Codec, before: string, t: Tree, after: string, behind: string, rest: string, nesting: nat)
    returns (items: Items)
    requires Blank(before) && Blank(after) && Written(codec, t, behind, nesting)
    requires behind == after + ([']'] + rest)
    ensures ItemsWritten(codec, items, rest, nesting) && ItemsValue(items) == [TreeValue(t)]
    ensures ItemsText(items) + rest == before + (TreeText(t) + behind)
  {
    items := Items(before, t, after, NoItems);
    assert ItemsEnd(NoItems) + rest == [']'] + rest;
    hide TreeText, TreeValue, Written, Blank;
    ItemsTextIs(items, rest);
  }

  lemma CommaItems(codec: Codec, before: string, t: Tree, after: string, more: Items, behind: string, rest: string,
                   nesting: nat)
    returns (items: Items)
    requires Blank(before) && Blank(after) && Written(codec, t, behind, nesting)
    requires ItemsWritten(codec, more, rest, nesting) && behind == after + ([','] + (ItemsText(more) + rest))
    ensures ItemsWritten(codec, items, rest, nesting) && ItemsValue(items) == [TreeValue(t)] + ItemsValue(more)
    ensures ItemsText(items) + rest == before + (TreeText(t) + behind)
  {
    items := Items(before, t, after, MoreItems.Comma(more));
    assert ItemsEnd(items.more) + rest == [','] + (ItemsText(more) + rest) by { hide ItemsText; }
    ItemsAre(codec, items, rest, nesting);
    hide *;
    ItemsTextIs(items, rest);
  }

  lemma ItemsAre(codec: Codec, items: Items, rest: string, nesting: nat)
    requires Blank(items.before) && Blank(items.after) && items.more.Comma?
    requires Written(codec, items.item, items.after + (ItemsEnd(items.more) + rest), nesting)
    requires ItemsWritten(codec, items.more.items, rest, nesting)
    ensures ItemsWritten(codec, items, rest, nesting)
    ensures ItemsValue(items) == [TreeValue(items.item)] + ItemsValue(items.more.items)
  {
    hide TreeText, TreeValue, Written, Blank, ItemsText, ItemsEnd;
  }

  lemma ItemsTextIs(items: Items, rest: string)
    ensures ItemsText(items) + rest
      == items.before + (TreeText(items.item) + (items.after + (ItemsEnd(items.more) + rest)))
  {
    var text, end := TreeText(items.item), ItemsEnd(items.more);
    assert ItemsText(items) == items.before + (text + (items.after + end)) by { hide ItemsEnd, TreeText; }
    hide *;
    Assoc(items.after, end, rest);
    Assoc(text, items.after + end, rest);
    Assoc(items.before, text + (items.after + end), rest);
  }

  lemma ItemsTurn(codec: Codec, s: string, nesting: nat, done: seq<Value>)
    requires ParseItems(codec, s, nesting, done).Some?
    ensures ParseValue(codec, s, nesting).Some? && |ParseValue(codec, s, nesting).value.rest| <= |s| && s != ""
    ensures var parsed := ParseValue(codec, s, nesting).value;
      var end := SkipWs(parsed.rest);
      (CharAt(end, 0) == ',' ==>
        ParseItems(codec, s, nesting, done) == ParseItems(codec, SkipWs(end[1..]), nesting, done + [parsed.value]))
      && (CharAt(end, 0) != ',' ==>
        CharAt(end, 0) == ']'
        && ParseItems(codec, s, nesting, done) == Some(Parsed(Array(done + [parsed.value]), end[1..])))
  {
    hide ParseValue, SkipWs;
  }

  lemma {:induction false} ObjectRead(codec: Codec, s: string, nesting: nat, v: Value, rest: string) returns (t: Tree)
    requires nesting <= MAX_NESTING && ParseValue(codec, "{" + s, nesting) == Some(Parsed(v, rest))
    ensures "{" + s == TreeText(t) + rest && TreeValue(t) == v && Written(codec, t, rest, nesting)
    decreases |s|, 4
  {
    hide *;
    Bracketed(codec, s, nesting);
    ParseObjectIs(codec, s, nesting + 1);
    SkippedTwice(s);
    var gap := SplitWs(s);
    var start := SkipWs(s);
    if CharAt(start, 0) == '}' {
      FirstIs(start, '}');
      t := EmptyObject(gap);
      EmptyIs(codec, gap, rest, nesting);
    } else {
      NoneYet();
      var members := MembersRead(codec, start, nesting + 1, [], v, rest);
      assert [] + MembersValue(members) == MembersValue(members);
      members := MembersIndented(codec, gap, members, rest, nesting + 1);
      t := ObjectTree(members);
      ObjectIs(codec, members, rest, nesting);
    }
  }

  lemma NoneYet()
    ensures Distinct([])
  {
  }

  lemma ObjectIs(codec: Codec, members: Members, rest: string, nesting: nat)
    requires nesting <= MAX_NESTING && MembersWritten(codec, members, rest, nesting + 1)
    requires Distinct(MembersValue(members))
    ensures Written(codec, ObjectTree(members), rest, nesting)
    ensures TreeValue(ObjectTree(members)) == Object(MembersValue(members))
    ensures TreeText(ObjectTree(members)) + rest == "{" + (MembersText(members) + rest)
  {
    hide MembersText, MembersValue, MembersWritten, Distinct;
  }

  lemma MembersIndented(codec: Codec, gap: string, m: Members, rest: string, nesting: nat) returns (r: Members)
    requires Blank(gap) && MembersWritten(codec, m, rest, nesting)
    ensures MembersWritten(codec, r, rest, nesting) && MembersValue(r) == MembersValue(m)
    ensures MembersText(r) + rest == gap + (MembersText(m) + rest)
  {
    r := m.(before := gap + m.before);
    MembersTextIs(m, rest);
    MembersTextIs(r, rest);
    AfterNameIs(m, r, rest);
    assert Blank(r.before);
    hide TreeText, TreeValue, Written, MembersEnd, MembersText, AfterName, GoodPieces;
    Assoc(gap, m.before, Literal(m.name) + AfterName(m, rest));
  }

  lemma AfterNameIs(m: Members, r: Members, rest: string)
    requires r == m.(before := r.before)
    ensures AfterName(m, rest) == AfterName(r, rest)
  {
  }

  lemma {:induction false} MembersRead(codec: Codec, s: string, nesting: nat, done: seq<Member>, v: Value, rest: string)
    returns (members: Members)
    requires ParseMembers(codec, s, nesting, done) == Some(Parsed(v, rest)) && Distinct(done)
    ensures MembersWritten(codec, members, rest, nesting) && s == MembersText(members) + rest
    ensures v == Object(done + MembersValue(members)) && Distinct(done + MembersValue(members))
    decreases |s|, 3
  {
    hide *;
    MembersTurn(codec, s, nesting, done);
    var named := ParseMember(codec, s, nesting).value;
    var end := SkipWs(named.rest);
    SkippedTwice(named.rest);
    Extended(done, named.member);
    var m := MemberTree(codec, s, nesting, named);
    if CharAt(end, 0) == ',' {
      FirstIs(end, ',');
      SkippedTwice(end[1..]);
      var gap := SplitWs(end[1..]);
      var more := MembersRead(codec, SkipWs(end[1..]), nesting, done + [named.member], v, rest);
      more := MembersIndented(codec, gap, more, rest, nesting);
      members := m.(others := MoreMembers.Comma(more));
      MembersAre(codec, members, named.rest, rest, nesting);
      assert done + [named.member] + MembersValue(more) == done + ([named.member] + MembersValue(more));
    } else {
      FirstIs(end, '}');
      members := m;
      MembersAre(codec, members, named.rest, rest, nesting);
    }
  }

  lemma Extended(done: seq<Member>, member: Member)
    requires Distinct(done)
    ensures Get(done, member.name).None? ==> Distinct(done + [member])
  {
  }

  lemma MembersTurn(codec: Codec, s: string, nesting: nat, done: seq<Member>)
    requires ParseMembers(codec, s, nesting, done).Some?
    ensures ParseMember(codec, s, nesting).Some? && |ParseMember(codec, s, nesting).value.rest| < |s|
    ensures var named := ParseMember(codec, s, nesting).value;
      var end := SkipWs(named.rest);
      Get(done, named.member.name).None?
      && (CharAt(end, 0) == ',' ==>
        ParseMembers(codec, s, nesting, done) == ParseMembers(codec, SkipWs(end[1..]), nesting, done + [named.member]))
      && (CharAt(end, 0) != ',' ==>
        CharAt(end, 0) == '}'
        && ParseMembers(codec, s, nesting, done) == Some(Parsed(Object(done + [named.member]), end[1..])))
  {
    hide ParseMember, SkipWs, Get;
  }

  // One member, with nothing but white space behind it yet.
  lemma {:induction false} MemberTree(codec: Codec, s: string, nesting: nat, named: ReadMember) returns (m: Members)
    requires ParseMember(codec, s, nesting) == Some(named)
    ensures m.others.NoMembers? && m.before == "" && GoodPieces(m.name)
    ensures Blank(m.colon) && Blank(m.gap) && Blank(m.after) && named.rest == m.after + SkipWs(named.rest)
    ensures Written(codec, m.value, named.rest, nesting)
    ensures s == Literal(m.name) + (m.colon + (":" + (m.gap + (TreeText(m.value) + named.rest))))
    ensures named.member == Member(CString(Bytes(m.name)), TreeValue(m.value))
    decreases |s|, 2
  {
    hide *;
    MemberParts(codec, s, nesting);
    var quoted := GetQuoted(s).value;
    var name := QuotedPieces(s, quoted.content, quoted.rest);
    var colon := SplitWs(quoted.rest);
    var behind := SkipWs(quoted.rest);
    SkippedTwice(quoted.rest);
    FirstIs(behind, ':');
    var gap, value := TreeRead(codec, behind[1..], nesting, named.member.value, named.rest);
    var after := SplitWs(named.rest);
    m := Members("", name, colon, gap, value, after, NoMembers);
  }

  lemma MemberParts(codec: Codec, s: string, nesting: nat)
    requires ParseMember(codec, s, nesting).Some?
    ensures GetQuoted(s).Some? && |GetQuoted(s).value.rest| < |s|
    ensures var quoted, named := GetQuoted(s).value, ParseMember(codec, s, nesting).value;
      var behind := SkipWs(quoted.rest);
      CharAt(behind, 0) == ':' && named.member.name == quoted.content
      && ParseValue(codec, behind[1..], nesting) == Some(Parsed(named.member.value, named.rest))
  {
    hide GetQuoted, ParseValue, SkipWs;
  }

  lemma MembersAre(codec: Codec, m: Members, after: string, rest: string, nesting: nat)
    requires m.before == "" && Blank(m.colon) && Blank(m.gap) && Blank(m.after) && GoodPieces(m.name)
    requires Written(codec, m.value, after, nesting) && after == m.after + SkipWs(after)
    requires SkipWs(after)
      == if m.others.NoMembers? then ['}'] + rest else [','] + (MembersText(m.others.members) + rest)
    requires m.others.Comma? ==> MembersWritten(codec, m.others.members, rest, nesting)
    ensures MembersWritten(codec, m, rest, nesting)
    ensures MembersText(m) + rest
      == Literal(m.name) + (m.colon + (":" + (m.gap + (TreeText(m.value) + after))))
    ensures var member := Member(CString(Bytes(m.name)), TreeValue(m.value));
      MembersValue(m) == [member] + if m.others.NoMembers? then [] else MembersValue(m.others.members)
  {
    hide *;
    MembersEndIs(m.others, rest);
    BehindName(m, after, rest);
    MembersTextIs(m, rest);
    WrittenMembers(codec, m, rest, nesting);
    MembersValueIs(m);
    assert "" + (Literal(m.name) + AfterName(m, rest)) == Literal(m.name) + AfterName(m, rest);
  }

  lemma MembersEndIs(others: MoreMembers, rest: string)
    ensures MembersEnd(others) + rest
      == if others.NoMembers? then ['}'] + rest else [','] + (MembersText(others.members) + rest)
  {
    hide MembersText;
  }

  lemma BehindName(m: Members, after: string, rest: string)
    requires after == m.after + (MembersEnd(m.others) + rest)
    ensures AfterName(m, rest) == m.colon + (":" + (m.gap + (TreeText(m.value) + after)))
  {
    hide TreeText, MembersEnd;
  }

  lemma WrittenMembers(codec: Codec, m: Members, rest: string, nesting: nat)
    requires m.before == "" && Blank(m.colon) && Blank(m.gap) && Blank(m.after) && GoodPieces(m.name)
    requires Written(codec, m.value, m.after + (MembersEnd(m.others) + rest), nesting)
    requires m.others.Comma? ==> MembersWritten(codec, m.others.members, rest, nesting)
    ensures MembersWritten(codec, m, rest, nesting)
  {
    assert Blank("");
    hide Written, MembersEnd, GoodPieces, Blank;
  }

  lemma MembersValueIs(m: Members)
    ensures var member := Member(CString(Bytes(m.name)), TreeValue(m.value));
      MembersValue(m) == [member] + if m.others.NoMembers? then [] else MembersValue(m.others.members)
  {
    hide TreeValue, Bytes, CString;
  }

  // -------------------------------------------------------------------- main result

  // White space, a text of the value, and then the rest.
  ghost predicate IsText(codec: Codec, s: string, nesting: nat, v: Value, rest: string) {
    exists gap, t ::
      Blank(gap) && s == gap + (TreeText(t) + rest) && TreeValue(t) == v && Written(codec, t, rest, nesting)
  }

  // A value is read exactly where, behind white space, a text of it is written, and what
  // follows the text is left: the parser accepts all such texts, and no others.
  lemma ParseExactly(codec: Codec, s: string, nesting: nat, v: Value, rest: string)
    ensures ParseValue(codec, s, nesting) == Some(Parsed(v, rest)) <==> IsText(codec, s, nesting, v, rest)
  {
    hide *;
    if ParseValue(codec, s, nesting) == Some(Parsed(v, rest)) {
      var gap, t := TreeRead(codec, s, nesting, v, rest);
      TextIs(codec, s, nesting, rest, gap, t);
    }
    if IsText(codec, s, nesting, v, rest) {
      var gap, t := TextOf(codec, s, nesting, v, rest);
      ParseSkips(codec, gap, TreeText(t) + rest, nesting);
      ReadTree(codec, t, rest, nesting);
    }
  }

  lemma TextIs(codec: Codec, s: string, nesting: nat, rest: string, gap: string, t: Tree)
    requires Blank(gap) && s == gap + (TreeText(t) + rest) && Written(codec, t, rest, nesting)
    ensures IsText(codec, s, nesting, TreeValue(t), rest)
  {
    hide Blank, TreeText, TreeValue, Written;
  }

  lemma TextOf(codec: Codec, s: string, nesting: nat, v: Value, rest: string) returns (gap: string, t: Tree)
    requires IsText(codec, s, nesting, v, rest)
    ensures Blank(gap) && s == gap + (TreeText(t) + rest) && TreeValue(t) == v && Written(codec, t, rest, nesting)
  {
    hide Blank, TreeText, TreeValue, Written;
    gap, t :|
      Blank(gap) && s == gap + (TreeText(t) + rest) && TreeValue(t) == v && Written(codec, t, rest, nesting);
  }

  // The bytes EF BB BF.
  const BYTE_ORDER_MARK := ['\U{EF}', '\U{BB}', '\U{BF}']

  lemma NoMark(codec: Codec, s: string)
    requires s != "" && s[0] == '\U{EF}'
    ensures ParseValue(codec, s, 0) == None
  {
    NoSkip(s);
    hide SkipWs;
  }

  predicate Marked(s: string) { BYTE_ORDER_MARK <= s }

  lemma ParseTextIs(codec: Codec, s: string)
    ensures Marked(s) ==> |s| >= 3 && s[0] == '\U{EF}' && ParseText(codec, s) == ParseValue(codec, s[3..], 0)
    ensures !Marked(s) ==> ParseText(codec, s) == ParseValue(codec, s, 0)
  {
    hide ParseValue;
    assert Marked(s) <==> |s| >= 3 && s[0] == '\U{EF}' && s[1] == '\U{BB}' && s[2] == '\U{BF}';
  }

  // json_parse_string reads exactly the texts of values, with a byte order mark in front or
  // without, and ignores what follows.
  lemma ParseTextExactly(codec: Codec, s: string, v: Value, rest: string)
    ensures ParseText(codec, s) == Some(Parsed(v, rest)) <==>
      IsText(codec, s, 0, v, rest) || (Marked(s) && IsText(codec, s[|BYTE_ORDER_MARK|..], 0, v, rest))
  {
    assert |BYTE_ORDER_MARK| == 3;
    hide *;
    ParseTextIs(codec, s);
    ParseExactly(codec, s, 0, v, rest);
    if Marked(s) {
      NoMark(codec, s);
      ParseExactly(codec, s[3..], 0, v, rest);
    }
  }
}
