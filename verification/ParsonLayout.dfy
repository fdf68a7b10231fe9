/** What the two switches of the serializer mean: white space outside strings, and slashes in them. */
module ParsonLayout {
  import opened CStrings
  import opened Results
  import ParsonNumber
  import opened ParsonPrinter
  import opened ParsonRoundTrip
  import opened ParsonText
  import opened ParsonValue

  // The characters of a numeral that "%1.17g" prints.
  predicate IsNumeral(t: string) {
    t != "" && forall i | 0 <= i < |t| :: '0' <= t[i] <= '9' || t[i] in {'-', '+', '.', 'e'}
  }

  ghost predicate Tidy(codec: Codec) { forall x: real | codec.covers(x) :: IsNumeral(codec.show(x)) }

  // Decimal integers are printed so.
  lemma IntegersTidy()
    ensures Tidy(ParsonNumber.IntegerCodec())
  {
    forall x: real ensures IsNumeral(ParsonNumber.ShowInteger(x)) {}
  }

  function Compact(style: Style): Style { style.(pretty := false) }

  lemma QuoteSkipped(s: string, esc: bool, rest: string)
    requires NulFree(s)
    ensures SkipQuotes(Quote(s, esc) + rest) == Some(rest)
    ensures (Quote(s, esc) + rest)[..|Quote(s, esc)|] == Quote(s, esc)
  {
    hide Escape, Decode, SkipBody;
    var t := "\"" + rest;
    EscapedDecodes(s, esc, t);
    assert t[1..] == rest;
    assert (Quote(s, esc) + rest)[1..] == Escape(s, esc) + t;
    assert SkipBody(t) == Some(rest) by { ClosingQuote(rest); }
  }

  lemma ClosingQuote(rest: string)
    ensures SkipBody("\"" + rest) == Some(rest)
  {
    assert ("\"" + rest)[1..] == rest;
  }

  // -------------------------------------------------------------------- squeezing

  // The text without the white space outside its string literals.
  function Squeeze(s: string): string
    decreases |s|
  {
    if s == "" then ""
    else match SkipQuotes(s)
      case Some(rest) => s[..|s| - |rest|] + Squeeze(rest)
      case None => (if IsSpace(s[0]) then "" else [s[0]]) + Squeeze(s[1..])
  }

  lemma SqueezeQuote(s: string, esc: bool, rest: string)
    requires NulFree(s)
    ensures Squeeze(Quote(s, esc) + rest) == Quote(s, esc) + Squeeze(rest)
  {
    hide SkipQuotes;
    QuoteSkipped(s, esc, rest);
    assert |Quote(s, esc) + rest| - |rest| == |Quote(s, esc)|;
  }

  predicate Quoteless(t: string) { forall i | 0 <= i < |t| :: t[i] != '"' }

  lemma {:induction false} PlainSqueezed(t: string, rest: string)
    requires Quoteless(t) && forall i | 0 <= i < |t| :: !IsSpace(t[i])
    ensures Squeeze(t + rest) == t + Squeeze(rest)
  {
    if t == "" {
      assert t + rest == rest;
    } else {
      assert (t + rest)[1..] == t[1..] + rest;
      PlainSqueezed(t[1..], rest);
      assert [t[0]] + (t[1..] + Squeeze(rest)) == t + Squeeze(rest);
    }
  }

  lemma {:induction false} BlankSqueezed(t: string, rest: string)
    requires forall i | 0 <= i < |t| :: IsSpace(t[i])
    ensures Squeeze(t + rest) == Squeeze(rest)
  {
    if t == "" {
      assert t + rest == rest;
    } else {
      assert (t + rest)[1..] == t[1..] + rest;
      BlankSqueezed(t[1..], rest);
    }
  }

  lemma {:induction false} SpacesBlank(level: nat)
    ensures forall i | 0 <= i < |Spaces(level)| :: Spaces(level)[i] == ' '
  {
    if level > 0 { SpacesBlank(level - 1); }
  }

  lemma SqueezeGap(pretty: bool, level: nat, rest: string)
    ensures Squeeze(Indent(pretty, level) + rest) == Squeeze(rest)
    ensures Squeeze(NewLine(pretty) + rest) == Squeeze(rest)
    ensures Squeeze(Colon(pretty) + rest) == ":" + Squeeze(rest)
  {
    hide Squeeze;
    SpacesBlank(level);
    BlankSqueezed(Indent(pretty, level), rest);
    BlankSqueezed(NewLine(pretty), rest);
    PlainSqueezed(":", " " + rest);
    BlankSqueezed(" ", rest);
    PlainSqueezed(":", rest);
    assert ":" + (" " + rest) == ": " + rest;
  }

  lemma SqueezeNumber(codec: Codec, x: real, rest: string)
    requires Tidy(codec) && codec.covers(x)
    ensures Squeeze(codec.show(x) + rest) == codec.show(x) + Squeeze(rest)
  {
    hide Squeeze;
    assert IsNumeral(codec.show(x));
    PlainSqueezed(codec.show(x), rest);
  }

  lemma SqueezeAtom(style: Style, v: Value, level: nat, rest: string)
    requires Tidy(style.codec) && Valid(style.codec, v) && !v.Array? && !v.Object?
    ensures Squeeze(Print(style, v, level) + rest) == Print(Compact(style), v, level) + Squeeze(rest)
  {
    hide Squeeze, Quote, Tidy;
    match v
    case Null => PlainSqueezed("null", rest);
    case Boolean(flag) => PlainSqueezed(if flag then "true" else "false", rest);
    case Number(x) => SqueezeNumber(style.codec, x, rest);
    case String(s) => SqueezeQuote(s, style.escapeSlashes, rest);
  }

  // Without its white space outside strings, a printed value is its compact text.
  lemma {:induction false} SqueezePrint(style: Style, v: Value, level: nat, rest: string)
    requires Tidy(style.codec) && Valid(style.codec, v)
    ensures Squeeze(Print(style, v, level) + rest) == Print(Compact(style), v, level) + Squeeze(rest)
    decreases v, 0
  {
    match v
    case Array(items) =>
      PrintArrayIs(style, items, level);
      PrintArrayIs(Compact(style), items, level);
      hide *;
      SqueezeOpening("[", style.pretty && items != [], ArrayRest(style, items, 0, level), rest);
      SqueezeItems(style, items, 0, level, rest);
      Opens("[", ArrayRest(Compact(style), items, 0, level), Squeeze(rest));
    case Object(members) =>
      PrintObjectIs(style, members, level);
      PrintObjectIs(Compact(style), members, level);
      hide *;
      SqueezeOpening("{", style.pretty && members != [], ObjectRest(style, members, 0, level), rest);
      SqueezeMembers(style, members, 0, level, rest);
      Opens("{", ObjectRest(Compact(style), members, 0, level), Squeeze(rest));
    case _ => SqueezeAtom(style, v, level, rest);
  }

  lemma NoGap(level: nat)
    ensures NewLine(false) == "" && Indent(false, level) == "" && Colon(false) == ":"
  {
  }

  lemma SqueezeOpening(bracket: string, pretty: bool, tail: string, rest: string)
    requires bracket == "[" || bracket == "{"
    ensures Squeeze(bracket + NewLine(pretty) + tail + rest) == bracket + Squeeze(tail + rest)
  {
    hide Squeeze, NewLine;
    assert bracket + NewLine(pretty) + tail + rest == bracket + (NewLine(pretty) + (tail + rest));
    PlainSqueezed(bracket, NewLine(pretty) + (tail + rest));
    SqueezeGap(pretty, 0, tail + rest);
  }

  lemma Opens(bracket: string, tail: string, rest: string)
    ensures bracket + (tail + rest) == bracket + NewLine(false) + tail + rest
  {
  }

  lemma SqueezeClosing(bracket: string, pretty: bool, level: nat, rest: string)
    requires bracket == "]" || bracket == "}"
    ensures Squeeze(Indent(pretty, level) + bracket + rest) == bracket + Squeeze(rest)
  {
    hide Squeeze, Indent;
    assert Indent(pretty, level) + bracket + rest == Indent(pretty, level) + (bracket + rest);
    SqueezeGap(pretty, level, bracket + rest);
    PlainSqueezed(bracket, rest);
  }

  // The end of a line.
  function LineEnd(more: bool, pretty: bool): string { Comma(more) + NewLine(pretty) }

  lemma SqueezeEnd(more: bool, pretty: bool, rest: string)
    ensures Squeeze(LineEnd(more, pretty) + rest) == LineEnd(more, false) + Squeeze(rest)
  {
    hide Squeeze, NewLine;
    NoGap(0);
    assert (Comma(more) + NewLine(pretty)) + rest == Comma(more) + (NewLine(pretty) + rest);
    PlainSqueezed(Comma(more), NewLine(pretty) + rest);
    SqueezeGap(pretty, 0, rest);
    assert Comma(more) + "" == Comma(more);
  }

  // A line of an array or an object: what stands before the value, the value, and the end.
  lemma ArrayLines(style: Style, items: seq<Value>, i: nat, level: nat)
    requires i < |items|
    ensures ArrayRest(style, items, i, level)
      == Indent(style.pretty, level + 1)
         + (Print(style, items[i], level + 1) + LineEnd(i < |items| - 1, style.pretty))
         + ArrayRest(style, items, i + 1, level)
  {
    ArrayLineIs(style, items, i, level);
    hide Print, Indent, Comma, NewLine, ArrayRest;
  }

  lemma ObjectLines(style: Style, members: seq<Member>, i: nat, level: nat)
    requires i < |members|
    ensures ObjectRest(style, members, i, level)
      == KeyText(style, members[i].name, level + 1)
         + (Print(style, members[i].value, level + 1) + LineEnd(i < |members| - 1, style.pretty))
         + ObjectRest(style, members, i + 1, level)
  {
    ObjectLineIs(style, members, i, level);
    hide Print, Indent, Comma, NewLine, ObjectRest, Quote;
  }

  lemma NoIndent(level: nat, s: string)
    ensures Indent(false, level) + s == s
  {
  }

  lemma ClosingArray(style: Style, items: seq<Value>, level: nat)
    ensures ArrayRest(style, items, |items|, level) == Indent(style.pretty && items != [], level) + "]"
  {
  }

  lemma ClosingObject(style: Style, members: seq<Member>, level: nat)
    ensures ObjectRest(style, members, |members|, level) == Indent(style.pretty && members != [], level) + "}"
  {
  }

  lemma SqueezeLine(head: string, text: string, end: string, tail: string, rest: string,
                    head': string, text': string, end': string, tail': string)
    requires Squeeze(head + (text + (end + (tail + rest)))) == head' + Squeeze(text + (end + (tail + rest)))
    requires Squeeze(text + (end + (tail + rest))) == text' + Squeeze(end + (tail + rest))
    requires Squeeze(end + (tail + rest)) == end' + Squeeze(tail + rest)
    requires Squeeze(tail + rest) == tail' + Squeeze(rest)
    ensures Squeeze(head + (text + end) + tail + rest) == head' + (text' + end') + tail' + Squeeze(rest)
  {
    hide *;
    LineSplit(head, text, end, tail, rest);
    LineSplit(head', text', end', tail', Squeeze(rest));
  }

  lemma {:induction false} SqueezeItems(style: Style, items: seq<Value>, i: nat, level: nat, rest: string)
    requires Tidy(style.codec) && i <= |items| && Valid(style.codec, Array(items))
    ensures Squeeze(ArrayRest(style, items, i, level) + rest)
         == ArrayRest(Compact(style), items, i, level) + Squeeze(rest)
    decreases items, 1, |items| - i
  {
    var c := Compact(style);
    if i == |items| {
      ClosingArray(style, items, level);
      ClosingArray(c, items, level);
      hide *;
      CompactIs(style);
      SqueezeClosing("]", style.pretty && items != [], level, rest);
      NoIndent(level, "]");
    } else {
      hide *;
      ItemValid(style.codec, items, i);
      var end, tail := LineEnd(i < |items| - 1, style.pretty), ArrayRest(style, items, i + 1, level);
      SqueezePrint(style, items[i], level + 1, end + (tail + rest));
      SqueezeItems(style, items, i + 1, level, rest);
      SqueezeItem(style, items, i, level, rest);
    }
  }

  lemma SqueezeItem(style: Style, items: seq<Value>, i: nat, level: nat, rest: string)
    requires i < |items|
    requires var end, tail := LineEnd(i < |items| - 1, style.pretty), ArrayRest(style, items, i + 1, level);
      Squeeze(Print(style, items[i], level + 1) + (end + (tail + rest)))
        == Print(Compact(style), items[i], level + 1) + Squeeze(end + (tail + rest))
      && Squeeze(tail + rest) == ArrayRest(Compact(style), items, i + 1, level) + Squeeze(rest)
    ensures Squeeze(ArrayRest(style, items, i, level) + rest)
         == ArrayRest(Compact(style), items, i, level) + Squeeze(rest)
  {
    hide *;
    var c, more := Compact(style), i < |items| - 1;
    ArrayLines(style, items, i, level);
    ArrayLines(c, items, i, level);
    var text, tail := Print(style, items[i], level + 1), ArrayRest(style, items, i + 1, level);
    var after := text + (LineEnd(more, style.pretty) + (tail + rest));
    SqueezeGap(style.pretty, level + 1, after);
    NoIndent(level + 1, Squeeze(after));
    SqueezeEnd(more, style.pretty, tail + rest);
    CompactIs(style);
    SqueezeLine(Indent(style.pretty, level + 1), text, LineEnd(more, style.pretty), tail, rest,
                Indent(false, level + 1), Print(c, items[i], level + 1), LineEnd(more, false),
                ArrayRest(c, items, i + 1, level));
  }

  lemma CompactIs(style: Style)
    ensures !Compact(style).pretty && Compact(style).escapeSlashes == style.escapeSlashes
  {
  }

  lemma ItemValid(codec: Codec, items: seq<Value>, i: nat)
    requires Valid(codec, Array(items)) && i < |items|
    ensures Valid(codec, items[i])
  {
    assert Array(items).items[i] == items[i];
  }

  lemma MemberValid(codec: Codec, members: seq<Member>, i: nat)
    requires Valid(codec, Object(members)) && i < |members|
    ensures NulFree(members[i].name) && Valid(codec, members[i].value)
  {
    assert Object(members).members[i] == members[i];
  }

  lemma SqueezeKey(style: Style, key: string, level: nat, rest: string)
    requires NulFree(key)
    ensures Squeeze(KeyText(style, key, level) + rest) == KeyText(Compact(style), key, level) + Squeeze(rest)
  {
    hide Squeeze, Quote, Indent, Colon;
    var gap, text, colon := Indent(style.pretty, level), Quote(key, style.escapeSlashes), Colon(style.pretty);
    assert (gap + (text + colon)) + rest == gap + (text + (colon + rest));
    NoGap(level);
    SqueezeGap(style.pretty, level, text + (colon + rest));
    SqueezeQuote(key, style.escapeSlashes, colon + rest);
    SqueezeGap(style.pretty, level, rest);
    assert text + (":" + Squeeze(rest)) == ("" + (text + ":")) + Squeeze(rest);
  }

  lemma {:induction false} SqueezeMembers(style: Style, members: seq<Member>, i: nat, level: nat, rest: string)
    requires Tidy(style.codec) && i <= |members| && Valid(style.codec, Object(members))
    ensures Squeeze(ObjectRest(style, members, i, level) + rest)
         == ObjectRest(Compact(style), members, i, level) + Squeeze(rest)
    decreases members, 1, |members| - i
  {
    var c := Compact(style);
    if i == |members| {
      ClosingObject(style, members, level);
      ClosingObject(c, members, level);
      hide *;
      CompactIs(style);
      SqueezeClosing("}", style.pretty && members != [], level, rest);
      NoIndent(level, "}");
    } else {
      hide *;
      MemberValid(style.codec, members, i);
      var end, tail := LineEnd(i < |members| - 1, style.pretty), ObjectRest(style, members, i + 1, level);
      SqueezePrint(style, members[i].value, level + 1, end + (tail + rest));
      SqueezeMembers(style, members, i + 1, level, rest);
      SqueezeMember(style, members, i, level, rest);
    }
  }

  lemma SqueezeMember(style: Style, members: seq<Member>, i: nat, level: nat, rest: string)
    requires i < |members| && NulFree(members[i].name)
    requires var end, tail := LineEnd(i < |members| - 1, style.pretty), ObjectRest(style, members, i + 1, level);
      Squeeze(Print(style, members[i].value, level + 1) + (end + (tail + rest)))
        == Print(Compact(style), members[i].value, level + 1) + Squeeze(end + (tail + rest))
      && Squeeze(tail + rest) == ObjectRest(Compact(style), members, i + 1, level) + Squeeze(rest)
    ensures Squeeze(ObjectRest(style, members, i, level) + rest)
         == ObjectRest(Compact(style), members, i, level) + Squeeze(rest)
  {
    hide *;
    var c, more := Compact(style), i < |members| - 1;
    ObjectLines(style, members, i, level);
    ObjectLines(c, members, i, level);
    var text, tail := Print(style, members[i].value, level + 1), ObjectRest(style, members, i + 1, level);
    SqueezeKey(style, members[i].name, level + 1, text + (LineEnd(more, style.pretty) + (tail + rest)));
    SqueezeEnd(more, style.pretty, tail + rest);
    CompactIs(style);
    SqueezeLine(KeyText(style, members[i].name, level + 1), text, LineEnd(more, style.pretty), tail, rest,
                KeyText(c, members[i].name, level + 1), Print(c, members[i].value, level + 1), LineEnd(more, false),
                ObjectRest(c, members, i + 1, level));
  }

  // Squeezing any text of a value gives its compact text, which has nothing to squeeze.
  lemma SqueezedIsCompact(style: Style, v: Value)
    requires Tidy(style.codec) && Valid(style.codec, v)
    ensures Squeeze(Print(style, v, 0)) == Print(Compact(style), v, 0)
  {
    hide Squeeze, Tidy, Valid, Print;
    SqueezePrint(style, v, 0, "");
    assert Print(style, v, 0) + "" == Print(style, v, 0);
    assert Squeeze("") == "" by { SqueezeNothing(); }
  }

  lemma SqueezeNothing()
    ensures Squeeze("") == ""
  {
  }

  // --------------------------------------------------------------------- slashes

  // The text with a backslash before each slash.
  function Slashed(s: string): string {
    if s == "" then "" else (if s[0] == '/' then "\\/" else [s[0]]) + Slashed(s[1..])
  }

  lemma {:induction false} SlashedConcat(a: string, b: string)
    ensures Slashed(a + b) == Slashed(a) + Slashed(b)
  {
    if a == "" {
      assert a + b == b;
    } else {
      assert (a + b)[1..] == a[1..] + b;
      SlashedConcat(a[1..], b);
      var first := if a[0] == '/' then "\\/" else [a[0]];
      assert first + (Slashed(a[1..]) + Slashed(b)) == (first + Slashed(a[1..])) + Slashed(b);
    }
  }

  lemma {:induction false} NoSlash(t: string)
    requires '/' !in t
    ensures Slashed(t) == t
  {
    if t != "" { NoSlash(t[1..]); }
  }

  lemma SlashedChar(c: char)
    ensures Slashed(EscapeChar(c, false)) == EscapeChar(c, true)
  {
    if c == '/' {
      assert "/"[1..] == "";
    } else {
      var t := EscapeChar(c, false);
      assert '/' !in t by { if c as nat < 0x20 { NoSlashDigits(c); } }
      NoSlash(t);
    }
  }

  lemma NoSlashDigits(c: char)
    requires c as nat < 0x20
    ensures '/' !in HexDigits(c)
  {
    var digits := HexDigits(c);
    forall i | 0 <= i < 4 ensures digits[i] != '/' {
      assert '/' !in SMALL_DIGITS;
    }
  }

  lemma {:induction false} SlashedEscape(s: string)
    ensures Slashed(Escape(s, false)) == Escape(s, true)
  {
    hide EscapeChar;
    if s != "" {
      SlashedEscape(s[1..]);
      SlashedConcat(EscapeChar(s[0], false), Escape(s[1..], false));
      SlashedChar(s[0]);
    }
  }

  lemma SlashedQuote(s: string)
    ensures Slashed(Quote(s, false)) == Quote(s, true)
  {
    hide Slashed, Escape;
    var q := "\"";
    SlashedEscape(s);
    NoSlash(q);
    SlashedConcat(q + Escape(s, false), q);
    SlashedConcat(q, Escape(s, false));
  }

  function Slashing(style: Style, escape: bool): Style { style.(escapeSlashes := escape) }

  lemma GapsSlashless(style: Style, more: bool, level: nat)
    ensures Slashed(LineEnd(more, style.pretty)) == LineEnd(more, style.pretty)
    ensures Slashed(Indent(style.pretty, level)) == Indent(style.pretty, level)
    ensures Slashed(Colon(style.pretty)) == Colon(style.pretty)
  {
    hide Slashed;
    SpacesBlank(level);
    NoSlash(LineEnd(more, style.pretty));
    NoSlash(Indent(style.pretty, level));
    NoSlash(Colon(style.pretty));
  }

  lemma SlashedLine(head: string, text: string, end: string, tail: string)
    ensures Slashed(head + (text + end) + tail) == Slashed(head) + (Slashed(text) + Slashed(end)) + Slashed(tail)
  {
    hide Slashed;
    SlashedConcat(head + (text + end), tail);
    SlashedConcat(head, text + end);
    SlashedConcat(text, end);
  }

  lemma SlashedKey(style: Style, key: string, level: nat)
    ensures Slashed(KeyText(Slashing(style, false), key, level)) == KeyText(Slashing(style, true), key, level)
  {
    hide Slashed, Quote, Indent, Colon;
    GapsSlashless(style, false, level);
    SlashedQuote(key);
    SlashedConcat(Indent(style.pretty, level), Quote(key, false) + Colon(style.pretty));
    SlashedConcat(Quote(key, false), Colon(style.pretty));
  }

  lemma SlashedOpening(bracket: string, pretty: bool, tail: string)
    requires bracket == "[" || bracket == "{"
    ensures Slashed(bracket + NewLine(pretty) + tail) == bracket + NewLine(pretty) + Slashed(tail)
  {
    var opening := bracket + NewLine(pretty);
    assert '/' !in opening;
    hide Slashed, NewLine;
    NoSlash(opening);
    SlashedConcat(opening, tail);
  }

  lemma SlashedClosing(bracket: string, pretty: bool, level: nat)
    requires bracket == "]" || bracket == "}"
    ensures Slashed(Indent(pretty, level) + bracket) == Indent(pretty, level) + bracket
  {
    hide Slashed;
    SpacesBlank(level);
    NoSlash(Indent(pretty, level) + bracket);
  }

  lemma SlashedAtom(style: Style, v: Value, level: nat)
    requires Tidy(style.codec) && Valid(style.codec, v) && !v.Array? && !v.Object?
    ensures Slashed(Print(Slashing(style, false), v, level)) == Print(Slashing(style, true), v, level)
  {
    hide Slashed, Quote;
    match v
    case Null => NoSlash("null");
    case Boolean(flag) => NoSlash(if flag then "true" else "false");
    case Number(x) =>
      assert IsNumeral(style.codec.show(x));
      NoSlash(style.codec.show(x));
    case String(s) => SlashedQuote(s);
  }

  // Escaping slashes puts a backslash before every slash of the text, and changes nothing else.
  lemma {:induction false} SlashedPrint(style: Style, v: Value, level: nat)
    requires Tidy(style.codec) && Valid(style.codec, v)
    ensures Slashed(Print(Slashing(style, false), v, level)) == Print(Slashing(style, true), v, level)
    decreases v, 0
  {
    var plain, escaped := Slashing(style, false), Slashing(style, true);
    match v
    case Array(items) =>
      PrintArrayIs(plain, items, level);
      PrintArrayIs(escaped, items, level);
      hide *;
      SlashedOpening("[", style.pretty && items != [], ArrayRest(plain, items, 0, level));
      SlashedItems(style, items, 0, level);
    case Object(members) =>
      PrintObjectIs(plain, members, level);
      PrintObjectIs(escaped, members, level);
      hide *;
      SlashedOpening("{", style.pretty && members != [], ObjectRest(plain, members, 0, level));
      SlashedMembers(style, members, 0, level);
    case _ => SlashedAtom(style, v, level);
  }

  lemma {:induction false} SlashedItems(style: Style, items: seq<Value>, i: nat, level: nat)
    requires Tidy(style.codec) && i <= |items| && Valid(style.codec, Array(items))
    ensures Slashed(ArrayRest(Slashing(style, false), items, i, level))
         == ArrayRest(Slashing(style, true), items, i, level)
    decreases items, 1, |items| - i
  {
    var plain, escaped := Slashing(style, false), Slashing(style, true);
    if i == |items| {
      ClosingArray(plain, items, level);
      ClosingArray(escaped, items, level);
      hide *;
      SlashedClosing("]", style.pretty && items != [], level);
    } else {
      ItemValid(style.codec, items, i);
      SlashedPrint(style, items[i], level + 1);
      SlashedItems(style, items, i + 1, level);
      ArrayLines(plain, items, i, level);
      ArrayLines(escaped, items, i, level);
      hide *;
      GapsSlashless(style, i < |items| - 1, level + 1);
      SlashedLine(Indent(style.pretty, level + 1), Print(plain, items[i], level + 1),
                  LineEnd(i < |items| - 1, style.pretty), ArrayRest(plain, items, i + 1, level));
    }
  }

  lemma {:induction false} SlashedMembers(style: Style, members: seq<Member>, i: nat, level: nat)
    requires Tidy(style.codec) && i <= |members| && Valid(style.codec, Object(members))
    ensures Slashed(ObjectRest(Slashing(style, false), members, i, level))
         == ObjectRest(Slashing(style, true), members, i, level)
    decreases members, 1, |members| - i
  {
    var plain, escaped := Slashing(style, false), Slashing(style, true);
    if i == |members| {
      ClosingObject(plain, members, level);
      ClosingObject(escaped, members, level);
      hide *;
      SlashedClosing("}", style.pretty && members != [], level);
    } else {
      MemberValid(style.codec, members, i);
      SlashedPrint(style, members[i].value, level + 1);
      SlashedMembers(style, members, i + 1, level);
      ObjectLines(plain, members, i, level);
      ObjectLines(escaped, members, i, level);
      hide *;
      GapsSlashless(style, i < |members| - 1, level + 1);
      SlashedKey(style, members[i].name, level + 1);
      SlashedLine(KeyText(plain, members[i].name, level + 1), Print(plain, members[i].value, level + 1),
                  LineEnd(i < |members| - 1, style.pretty), ObjectRest(plain, members, i + 1, level));
    }
  }

  // ---------------------------------------------------------------------- layout

  predicate IsOpening(c: char) { c == '[' || c == '{' }

  predicate IsClosing(c: char) { c == ']' || c == '}' }

  // Compact text on several lines: a new line behind each comma and inside each pair of
  // brackets that is not empty, four spaces for each pair around it, and a space behind
  // each colon.
  function Lay(s: string, depth: nat): string
    decreases |s|
  {
    if s == "" then ""
    else match SkipQuotes(s)
      case Some(rest) => s[..|s| - |rest|] + Lay(rest, depth)
      case None =>
        if IsOpening(s[0]) && |s| > 1 && IsClosing(s[1]) then s[..2] + Lay(s[2..], depth)
        else if IsOpening(s[0]) then [s[0]] + ("\n" + (Spaces(depth + 1) + Lay(s[1..], depth + 1)))
        else if IsClosing(s[0]) && depth > 0 then "\n" + (Spaces(depth - 1) + ([s[0]] + Lay(s[1..], depth - 1)))
        else if s[0] == ',' then ",\n" + (Spaces(depth) + Lay(s[1..], depth))
        else if s[0] == ':' then ": " + Lay(s[1..], depth)
        else [s[0]] + Lay(s[1..], depth)
  }

  lemma LayQuote(s: string, esc: bool, rest: string, depth: nat)
    requires NulFree(s)
    ensures Lay(Quote(s, esc) + rest, depth) == Quote(s, esc) + Lay(rest, depth)
  {
    hide SkipQuotes;
    QuoteSkipped(s, esc, rest);
    assert |Quote(s, esc) + rest| - |rest| == |Quote(s, esc)|;
  }

  predicate IsWord(t: string) {
    forall i | 0 <= i < |t| :: 'a' <= t[i] <= 'z' || '0' <= t[i] <= '9' || t[i] in {'-', '+', '.'}
  }

  lemma LayLetter(t: string, rest: string, depth: nat)
    requires t != "" && IsWord(t)
    ensures Lay(t + rest, depth) == [t[0]] + Lay(t[1..] + rest, depth)
  {
    hide SkipBody;
    var s := t + rest;
    assert s[0] == t[0] && s[1..] == t[1..] + rest && SkipQuotes(s) == None;
  }

  lemma {:induction false} LayWord(t: string, rest: string, depth: nat)
    requires IsWord(t)
    ensures Lay(t + rest, depth) == t + Lay(rest, depth)
  {
    if t == "" {
      assert t + rest == rest;
    } else {
      assert IsWord(t[1..]);
      hide *;
      LayLetter(t, rest, depth);
      LayWord(t[1..], rest, depth);
      Assoc([t[0]], t[1..], Lay(rest, depth));
      assert [t[0]] + t[1..] == t;
    }
  }

  lemma LaySigns(rest: string, depth: nat)
    ensures Lay("," + rest, depth) == ",\n" + (Spaces(depth) + Lay(rest, depth))
    ensures Lay(":" + rest, depth) == ": " + Lay(rest, depth)
  {
    assert ("," + rest)[1..] == rest && (":" + rest)[1..] == rest;
  }

  lemma LayBrackets(opening: char, closing: char, rest: string, depth: nat)
    requires IsOpening(opening) && IsClosing(closing)
    ensures Lay([opening, closing] + rest, depth) == [opening, closing] + Lay(rest, depth)
    ensures rest != "" && !IsClosing(rest[0]) ==>
      Lay([opening] + rest, depth) == [opening] + ("\n" + (Spaces(depth + 1) + Lay(rest, depth + 1)))
    ensures Lay([closing] + rest, depth + 1) == "\n" + (Spaces(depth) + ([closing] + Lay(rest, depth)))
  {
    var s := [opening, closing] + rest;
    assert s[..2] == [opening, closing] && s[2..] == rest && SkipQuotes(s) == None;
    assert ([opening] + rest)[1..] == rest && ([closing] + rest)[1..] == rest;
  }

  function Pretty(style: Style): Style { style.(pretty := true) }

  lemma LayAtom(style: Style, v: Value, level: nat, rest: string)
    requires Tidy(style.codec) && Valid(style.codec, v) && !v.Array? && !v.Object?
    ensures Lay(Print(Compact(style), v, level) + rest, level) == Print(Pretty(style), v, level) + Lay(rest, level)
  {
    hide Lay, Quote;
    match v
    case Null => LayWord("null", rest, level);
    case Boolean(flag) => LayWord(if flag then "true" else "false", rest, level);
    case Number(x) =>
      assert IsNumeral(style.codec.show(x));
      LayWord(style.codec.show(x), rest, level);
    case String(s) => LayQuote(s, style.escapeSlashes, rest, level);
  }

  // No value starts with a closing bracket.
  lemma FirstOfPrint(style: Style, v: Value, level: nat)
    requires Tidy(style.codec) && Valid(style.codec, v)
    ensures Print(style, v, level) != "" && !IsClosing(Print(style, v, level)[0])
  {
    hide ArrayRest, ObjectRest, Escape;
    if v.Number? { assert IsNumeral(style.codec.show(v.number)); }
  }

  // The compact text, laid out on lines, is the pretty one.
  lemma {:induction false} LayPrint(style: Style, v: Value, level: nat, rest: string)
    requires Tidy(style.codec) && Valid(style.codec, v)
    ensures Lay(Print(Compact(style), v, level) + rest, level) == Print(Pretty(style), v, level) + Lay(rest, level)
    decreases v, 1
  {
    match v
    case Array(items) => LayArray(style, items, level, rest);
    case Object(members) => LayObject(style, members, level, rest);
    case _ => LayAtom(style, v, level, rest);
  }

  lemma LayOpening(opening: char, first: char, tail: string, rest: string, tail': string, level: nat)
    requires IsOpening(opening) && tail != "" && tail[0] == first && !IsClosing(first)
    requires Spaces(level + 1) + Lay(tail + rest, level + 1) == tail' + Lay(rest, level)
    ensures Lay([opening] + NewLine(false) + tail + rest, level) == [opening] + NewLine(true) + tail' + Lay(rest, level)
  {
    assert [opening] + NewLine(false) + tail + rest == [opening] + (tail + rest);
    LayBrackets(opening, ']', tail + rest, level);
    hide Lay, Spaces;
    assert NewLine(true) == "\n";
    assert [opening] + ("\n" + (tail' + Lay(rest, level))) == [opening] + "\n" + tail' + Lay(rest, level);
  }

  lemma LayEmpty(opening: char, closing: char, level: nat, rest: string)
    requires IsOpening(opening) && IsClosing(closing)
    ensures Lay([opening] + NewLine(false) + [closing] + rest, level)
         == [opening] + NewLine(false) + [closing] + Lay(rest, level)
  {
    assert [opening] + NewLine(false) + [closing] == [opening, closing];
    hide Lay;
    LayBrackets(opening, closing, rest, level);
  }

  // A line, given how its value and what follows it are laid out.
  lemma LayLine(head: string, text: string, end: string, tail: string, rest: string, depth: nat,
                head': string, text': string, end': string, tail': string, rest': string)
    requires Spaces(depth) + Lay(head + (text + (end + (tail + rest))), depth)
          == head' + Lay(text + (end + (tail + rest)), depth)
    requires Lay(text + (end + (tail + rest)), depth) == text' + Lay(end + (tail + rest), depth)
    requires Lay(end + (tail + rest), depth) == end' + (tail' + rest')
    ensures Spaces(depth) + Lay(head + (text + end) + tail + rest, depth) == head' + (text' + end') + tail' + rest'
  {
    hide *;
    LineSplit(head, text, end, tail, rest);
    LineSplit(head', text', end', tail', rest');
  }

  // The end of a line: a comma and the lines behind it, or the closing bracket on its own line.
  lemma LayEnd(more: bool, closing: char, tail: string, rest: string, tail': string, level: nat)
    requires IsClosing(closing)
    requires more ==> Spaces(level + 1) + Lay(tail + rest, level + 1) == tail' + Lay(rest, level)
    requires !more ==> tail == Indent(false, level) + [closing] && tail' == Indent(true, level) + [closing]
    ensures Lay(LineEnd(more, false) + (tail + rest), level + 1) == LineEnd(more, true) + (tail' + Lay(rest, level))
  {
    hide *;
    EndIs();
    if more {
      LaySigns(tail + rest, level + 1);
      Assoc(",\n", tail', Lay(rest, level));
    } else {
      NoIndent(level, [closing] + rest);
      Assoc(Indent(false, level), [closing], rest);
      LayClosing(closing, rest, level);
    }
  }

  lemma EndIs()
    ensures LineEnd(true, false) == "," && LineEnd(true, true) == ",\n"
    ensures forall s: string :: LineEnd(false, false) + s == s
  {
  }

  lemma ClosingIs()
    ensures IsOpening('[') && IsOpening('{') && IsClosing(']') && IsClosing('}')
  {
  }

  lemma LayClosing(closing: char, rest: string, level: nat)
    requires IsClosing(closing)
    ensures Lay([closing] + rest, level + 1)
         == LineEnd(false, true) + (Indent(true, level) + [closing] + Lay(rest, level))
  {
    hide Lay, Spaces;
    LayBrackets('[', closing, rest, level);
    assert LineEnd(false, true) == "\n";
    assert Indent(true, level) + [closing] + Lay(rest, level) == Spaces(level) + ([closing] + Lay(rest, level));
  }

  lemma LayIndent(text: string, depth: nat)
    ensures Spaces(depth) + Lay(Indent(false, depth) + text, depth) == Indent(true, depth) + Lay(text, depth)
  {
    hide Lay, Spaces;
    assert Indent(false, depth) + text == text;
  }

  lemma LayKey(style: Style, key: string, text: string, depth: nat)
    requires NulFree(key)
    ensures Spaces(depth) + Lay(KeyText(Compact(style), key, depth) + text, depth)
         == KeyText(Pretty(style), key, depth) + Lay(text, depth)
  {
    hide Lay, Quote, Spaces;
    var q := Quote(key, style.escapeSlashes);
    assert KeyText(Compact(style), key, depth) + text == q + (":" + text);
    LayQuote(key, style.escapeSlashes, ":" + text, depth);
    LaySigns(text, depth);
    assert Spaces(depth) + (q + (": " + Lay(text, depth))) == (Spaces(depth) + (q + ": ")) + Lay(text, depth);
  }

  lemma {:induction false} LayArray(style: Style, items: seq<Value>, level: nat, rest: string)
    requires Tidy(style.codec) && Valid(style.codec, Array(items))
    ensures Lay(Print(Compact(style), Array(items), level) + rest, level)
         == Print(Pretty(style), Array(items), level) + Lay(rest, level)
    decreases items, 1, |items| + 1
  {
    hide *;
    var c, p := Compact(style), Pretty(style);
    PrintArrayIs(c, items, level);
    PrintArrayIs(p, items, level);
    StyleIs(style);
    if items == [] {
      ClosingIs();
      LayEmpty('[', ']', level, rest);
    } else {
      LayItems(style, items, 0, level, rest);
      ItemStarts(style, items, level);
      var tail := ArrayRest(c, items, 0, level);
      LayOpening('[', tail[0], tail, rest, ArrayRest(p, items, 0, level), level);
    }
  }

  lemma ItemStarts(style: Style, items: seq<Value>, level: nat)
    requires Tidy(style.codec) && Valid(style.codec, Array(items)) && items != []
    ensures var tail := ArrayRest(Compact(style), items, 0, level);
      tail != "" && !IsClosing(tail[0]) && IsOpening('[')
  {
    var c := Compact(style);
    ArrayLines(c, items, 0, level);
    ItemValid(style.codec, items, 0);
    FirstOfPrint(c, items[0], level + 1);
    NoIndent(level + 1, Print(c, items[0], level + 1));
    hide Print, ArrayRest, Indent, LineEnd, Tidy, Valid;
    FirstOfLine(Indent(false, level + 1), Print(c, items[0], level + 1), LineEnd(0 < |items| - 1, false),
                ArrayRest(c, items, 1, level));
  }

  lemma StyleIs(style: Style)
    ensures !Compact(style).pretty && Pretty(style).pretty
    ensures Compact(style).codec == Pretty(style).codec == style.codec
    ensures Compact(style).escapeSlashes == Pretty(style).escapeSlashes == style.escapeSlashes
  {
  }

  lemma FirstOfLine(head: string, text: string, end: string, tail: string)
    requires text != "" && head + text == text
    ensures var line := head + (text + end) + tail; line != "" && line[0] == text[0]
  {
    assert head == "";
  }

  lemma {:induction false} LayItems(style: Style, items: seq<Value>, i: nat, level: nat, rest: string)
    requires Tidy(style.codec) && i < |items| && Valid(style.codec, Array(items))
    ensures Spaces(level + 1) + Lay(ArrayRest(Compact(style), items, i, level) + rest, level + 1)
         == ArrayRest(Pretty(style), items, i, level) + Lay(rest, level)
    decreases items, 1, |items| - i
  {
    hide *;
    var more, tail := i < |items| - 1, ArrayRest(Compact(style), items, i + 1, level);
    ItemValid(style.codec, items, i);
    LayPrint(style, items[i], level + 1, LineEnd(more, false) + (tail + rest));
    if more { LayItems(style, items, i + 1, level, rest); }
    LayItem(style, items, i, level, rest);
  }

  lemma LayItem(style: Style, items: seq<Value>, i: nat, level: nat, rest: string)
    requires i < |items|
    requires var more, tail := i < |items| - 1, ArrayRest(Compact(style), items, i + 1, level);
      var after := LineEnd(more, false) + (tail + rest);
      Lay(Print(Compact(style), items[i], level + 1) + after, level + 1)
        == Print(Pretty(style), items[i], level + 1) + Lay(after, level + 1)
      && (more ==>
        Spaces(level + 1) + Lay(tail + rest, level + 1)
        == ArrayRest(Pretty(style), items, i + 1, level) + Lay(rest, level))
    ensures Spaces(level + 1) + Lay(ArrayRest(Compact(style), items, i, level) + rest, level + 1)
         == ArrayRest(Pretty(style), items, i, level) + Lay(rest, level)
  {
    hide *;
    var c, p, more := Compact(style), Pretty(style), i < |items| - 1;
    var tail, tail' := ArrayRest(c, items, i + 1, level), ArrayRest(p, items, i + 1, level);
    var text, text' := Print(c, items[i], level + 1), Print(p, items[i], level + 1);
    var after := LineEnd(more, false) + (tail + rest);
    if !more { ClosingArray(c, items, level); ClosingArray(p, items, level); }
    ArrayLines(c, items, i, level);
    ArrayLines(p, items, i, level);
    StyleIs(style);
    ClosingIs();
    LayEnd(more, ']', tail, rest, tail', level);
    LayIndent(text + after, level + 1);
    LayLine(Indent(false, level + 1), text, LineEnd(more, false), tail, rest, level + 1,
            Indent(true, level + 1), text', LineEnd(more, true), tail', Lay(rest, level));
  }

  lemma {:induction false} LayObject(style: Style, members: seq<Member>, level: nat, rest: string)
    requires Tidy(style.codec) && Valid(style.codec, Object(members))
    ensures Lay(Print(Compact(style), Object(members), level) + rest, level)
         == Print(Pretty(style), Object(members), level) + Lay(rest, level)
    decreases members, 1, |members| + 1
  {
    hide *;
    var c, p := Compact(style), Pretty(style);
    PrintObjectIs(c, members, level);
    PrintObjectIs(p, members, level);
    StyleIs(style);
    if members == [] {
      ClosingIs();
      LayEmpty('{', '}', level, rest);
    } else {
      LayMembers(style, members, 0, level, rest);
      MemberStarts(style, members, level);
      LayOpening('{', '"', ObjectRest(c, members, 0, level), rest, ObjectRest(p, members, 0, level), level);
    }
  }

  lemma MemberStarts(style: Style, members: seq<Member>, level: nat)
    requires members != []
    ensures var tail := ObjectRest(Compact(style), members, 0, level);
      tail != "" && tail[0] == '"' && IsOpening('{') && !IsClosing('"')
  {
    var c := Compact(style);
    ObjectLines(c, members, 0, level);
    KeyStarts(style, members[0].name, level + 1);
    hide KeyText, Print, ObjectRest;
    FirstOf(KeyText(c, members[0].name, level + 1),
            Print(c, members[0].value, level + 1) + LineEnd(0 < |members| - 1, c.pretty),
            ObjectRest(c, members, 1, level));
  }

  lemma KeyStarts(style: Style, key: string, level: nat)
    ensures KeyText(Compact(style), key, level) != "" && KeyText(Compact(style), key, level)[0] == '"'
  {
    hide Escape;
  }

  lemma FirstOf(head: string, text: string, tail: string)
    requires head != ""
    ensures head + text + tail != "" && (head + text + tail)[0] == head[0]
  {
  }

  lemma {:induction false} LayMembers(style: Style, members: seq<Member>, i: nat, level: nat, rest: string)
    requires Tidy(style.codec) && i < |members| && Valid(style.codec, Object(members))
    ensures Spaces(level + 1) + Lay(ObjectRest(Compact(style), members, i, level) + rest, level + 1)
         == ObjectRest(Pretty(style), members, i, level) + Lay(rest, level)
    decreases members, 1, |members| - i
  {
    hide *;
    var more, tail := i < |members| - 1, ObjectRest(Compact(style), members, i + 1, level);
    MemberValid(style.codec, members, i);
    LayPrint(style, members[i].value, level + 1, LineEnd(more, false) + (tail + rest));
    if more { LayMembers(style, members, i + 1, level, rest); }
    LayMember(style, members, i, level, rest);
  }

  lemma LayMember(style: Style, members: seq<Member>, i: nat, level: nat, rest: string)
    requires i < |members| && NulFree(members[i].name)
    requires var more, tail := i < |members| - 1, ObjectRest(Compact(style), members, i + 1, level);
      var after := LineEnd(more, false) + (tail + rest);
      Lay(Print(Compact(style), members[i].value, level + 1) + after, level + 1)
        == Print(Pretty(style), members[i].value, level + 1) + Lay(after, level + 1)
      && (more ==>
        Spaces(level + 1) + Lay(tail + rest, level + 1)
        == ObjectRest(Pretty(style), members, i + 1, level) + Lay(rest, level))
    ensures Spaces(level + 1) + Lay(ObjectRest(Compact(style), members, i, level) + rest, level + 1)
         == ObjectRest(Pretty(style), members, i, level) + Lay(rest, level)
  {
    hide *;
    var c, p, more := Compact(style), Pretty(style), i < |members| - 1;
    var tail, tail' := ObjectRest(c, members, i + 1, level), ObjectRest(p, members, i + 1, level);
    var text, text' := Print(c, members[i].value, level + 1), Print(p, members[i].value, level + 1);
    var after := LineEnd(more, false) + (tail + rest);
    if !more { ClosingObject(c, members, level); ClosingObject(p, members, level); }
    ObjectLines(c, members, i, level);
    ObjectLines(p, members, i, level);
    StyleIs(style);
    ClosingIs();
    LayEnd(more, '}', tail, rest, tail', level);
    LayKey(style, members[i].name, text + after, level + 1);
    LayLine(KeyText(c, members[i].name, level + 1), text, LineEnd(more, false), tail, rest, level + 1,
            KeyText(p, members[i].name, level + 1), text', LineEnd(more, true), tail', Lay(rest, level));
  }

  // The pretty text of a value is the layout of its compact text.
  lemma LaidOutIsPretty(style: Style, v: Value)
    requires Tidy(style.codec) && Valid(style.codec, v)
    ensures Lay(Print(Compact(style), v, 0), 0) == Print(Pretty(style), v, 0)
  {
    hide Lay, Tidy, Valid, Print;
    LayPrint(style, v, 0, "");
    assert Print(Compact(style), v, 0) + "" == Print(Compact(style), v, 0);
    assert Lay("", 0) == "" by { LayNothing(); }
  }

  lemma LayNothing()
    ensures Lay("", 0) == ""
  {
  }
}
