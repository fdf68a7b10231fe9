/** The serializer: one routine that either measures a value's text or writes it into a
    buffer. */
module ParsonSerializer {
  import opened Results
  import opened ParsonPrinter
  import opened ParsonText
  import opened ParsonValue

  // ------------------------------------------------------------------ buffers

  // A buffer after writing a C string at an offset.
  function Written(before: string, at: nat, text: string): string
    requires at + |text| < |before|
  {
    before[..at] + text + "\0" + before[at + |text| + 1..]
  }

  // The buffer holds the text, but maybe not yet the NUL behind it.
  predicate Holds(before: string, after: string, at: nat, text: string) {
    |after| == |before| && at + |text| < |before|
    && (forall i | 0 <= i < |text| :: after[at + i] == text[i])
    && (forall i | 0 <= i < |before| && !(at <= i <= at + |text|) :: after[i] == before[i])
  }

  lemma WrittenHolds(before: string, at: nat, text: string)
    requires at + |text| < |before|
    ensures |Written(before, at, text)| == |before|
    ensures Holds(before, Written(before, at, text), at, text)
  {
  }

  lemma HoldsOn(before: string, middle: string, at: nat, t1: string, t2: string)
    requires Holds(before, middle, at, t1) && at + |t1| + |t2| < |before|
    ensures Written(middle, at + |t1|, t2) == Written(before, at, t1 + t2)
  {
    var w, x := Written(middle, at + |t1|, t2), Written(before, at, t1 + t2);
    assert |w| == |x|;
    forall i | 0 <= i < |w| ensures w[i] == x[i] {
      if i < at {
      } else if i < at + |t1| {
        assert middle[at + (i - at)] == t1[i - at];
      }
    }
  }

  lemma WrittenTwice(before: string, at: nat, t1: string, t2: string)
    requires at + |t1| + |t2| < |before|
    ensures |Written(before, at, t1)| == |before|
    ensures Written(Written(before, at, t1), at + |t1|, t2) == Written(before, at, t1 + t2)
  {
    WrittenHolds(before, at, t1);
    HoldsOn(before, Written(before, at, t1), at, t1, t2);
  }

  // append_string: a null buffer only measures.
  method AppendString(buf: array?<char>, at: nat, text: string) returns (written: nat)
    requires buf != null ==> at + |text| < buf.Length
    modifies buf
    ensures written == |text|
    ensures buf != null ==> buf[..] == Written(old(buf[..]), at, text)
  {
    written := |text|;
    if buf == null { return; }
    var i := 0;
    while i < |text|
      invariant i <= |text|
      invariant forall j | 0 <= j < i :: buf[at + j] == text[j]
      invariant forall j | 0 <= j < buf.Length && !(at <= j < at + i) :: buf[j] == old(buf[j])
    {
      buf[at + i] := text[i];
      i := i + 1;
    }
    buf[at + i] := '\0';
    assert buf[..] == Written(old(buf[..]), at, text);
  }

  // A buffer after a run of append_string calls that wrote a text: an empty run leaves
  // it alone.
  function Appended(before: string, at: nat, text: string): string
    requires at + |text| < |before|
  {
    if text == "" then before else Written(before, at, text)
  }

  lemma AppendedTwice(before: string, at: nat, t1: string, t2: string)
    requires at + |t1| + |t2| < |before|
    ensures |Appended(before, at, t1)| == |before|
    ensures Appended(Appended(before, at, t1), at + |t1|, t2) == Appended(before, at, t1 + t2)
  {
    hide Written;
    WrittenTwice(before, at, t1, t2);
    assert t2 == "" ==> t1 + t2 == t1;
    assert t1 == "" ==> t1 + t2 == t2;
  }

  lemma {:induction false} SpacesGrow(i: nat, j: nat)
    requires i <= j
    ensures |Spaces(i)| <= |Spaces(j)|
  {
    if i < j { SpacesGrow(i, j - 1); }
  }

  lemma {:induction false} EscapeSplit(a: string, b: string, esc: bool)
    ensures Escape(a + b, esc) == Escape(a, esc) + Escape(b, esc)
  {
    hide EscapeChar;
    if a == "" {
      assert a + b == b;
    } else {
      EscapeSplit(a[1..], b, esc);
      assert (a + b)[1..] == a[1..] + b;
      assert Escape(a + b, esc) == EscapeChar(a[0], esc) + Escape(a[1..] + b, esc);
      assert Escape(a, esc) == EscapeChar(a[0], esc) + Escape(a[1..], esc);
      hide *;
      Assoc(EscapeChar(a[0], esc), Escape(a[1..], esc), Escape(b, esc));
    }
  }

  // The opening quote and the first characters.
  function QuotePrefix(s: string, i: nat, esc: bool): string
    requires i <= |s|
  {
    "\"" + Escape(s[..i], esc)
  }

  lemma QuotePrefixOn(s: string, i: nat, esc: bool)
    requires i < |s|
    ensures QuotePrefix(s, i + 1, esc) == QuotePrefix(s, i, esc) + EscapeChar(s[i], esc)
    ensures |QuotePrefix(s, i + 1, esc)| < |Quote(s, esc)|
  {
    hide EscapeChar;
    assert s[..i + 1] == s[..i] + [s[i]];
    assert s == s[..i + 1] + s[i + 1..];
    assert Escape([s[i]], esc) == EscapeChar(s[i], esc);
    EscapeSplit(s[..i], [s[i]], esc);
    EscapeSplit(s[..i + 1], s[i + 1..], esc);
  }

  lemma QuoteEnds(s: string, esc: bool)
    ensures QuotePrefix(s, 0, esc) == "\""
    ensures Quote(s, esc) == QuotePrefix(s, |s|, esc) + "\""
    ensures |Quote(s, esc)| > 1
  {
    assert s[..|s|] == s;
  }

  lemma PutHolds(before: string, middle: string, after: string, at: nat, done: string, c: char)
    requires Holds(before, middle, at, done) && at + |done| + 1 < |before|
    requires after == middle[at + |done| := c]
    ensures Holds(before, after, at, done + [c])
  {
    var text := done + [c];
    forall i | 0 <= i < |text| ensures after[at + i] == text[i] {
      if i < |done| { assert middle[at + i] == done[i]; }
    }
  }

  // json_serialize_string
  method SerializeString(s: string, esc: bool, buf: array?<char>, at: nat) returns (written: nat)
    requires buf != null ==> at + |Quote(s, esc)| < buf.Length
    modifies buf
    ensures written == |Quote(s, esc)|
    ensures buf != null ==> buf[..] == Written(old(buf[..]), at, Quote(s, esc))
  {
    ghost var before := if buf == null then "" else buf[..];
    QuoteEnds(s, esc);
    hide *;
    written := SerializeChars(s, esc, buf, at);
    var q := "\"";
    if buf != null { HoldsOn(before, buf[..], at, QuotePrefix(s, |s|, esc), q); }
    var n := AppendString(buf, at + written, q);
    written := written + n;
  }

  // All but its closing quote.
  method SerializeChars(s: string, esc: bool, buf: array?<char>, at: nat) returns (written: nat)
    requires buf != null ==> at + |Quote(s, esc)| < buf.Length
    modifies buf
    ensures written == |QuotePrefix(s, |s|, esc)|
    ensures buf != null ==> Holds(old(buf[..]), buf[..], at, QuotePrefix(s, |s|, esc))
  {
    ghost var before := if buf == null then "" else buf[..];
    QuoteEnds(s, esc);
    hide *;
    written := AppendString(buf, at, "\"");
    if buf != null { WrittenHolds(before, at, "\""); }
    var i := 0;
    while i < |s|
      invariant i <= |s|
      invariant written == |QuotePrefix(s, i, esc)| < |Quote(s, esc)|
      invariant buf != null ==> Holds(before, buf[..], at, QuotePrefix(s, i, esc))
    {
      QuotePrefixOn(s, i, esc);
      var n := SerializeChar(s[i], esc, buf, at + written, before, at, QuotePrefix(s, i, esc));
      written := written + n;
      i := i + 1;
    }
  }

  // One turn of its switch: plain characters are stored without a NUL behind them.
  method SerializeChar(c: char, esc: bool, buf: array?<char>, to: nat,
                       ghost before: string, ghost at: nat, ghost done: string)
    returns (written: nat)
    requires to == at + |done|
    requires buf != null ==> to + |EscapeChar(c, esc)| < buf.Length && Holds(before, buf[..], at, done)
    modifies buf
    ensures written == |EscapeChar(c, esc)|
    ensures buf != null ==> Holds(before, buf[..], at, done + EscapeChar(c, esc))
  {
    var e := EscapeChar(c, esc);
    hide EscapeChar, Written;
    if e == [c] && c != '/' {
      if buf != null {
        PutHolds(before, buf[..], buf[..][to := c], at, done, c);
        buf[to] := c;
        assert buf[..] == old(buf[..][to := c]);
      }
      written := 1;
    } else {
      if buf != null {
        HoldsOn(before, buf[..], at, done, e);
        WrittenHolds(before, at, done + e);
      }
      written := AppendString(buf, to, e);
    }
  }

  // ------------------------------------------------------------ the serializer

  // What a run of appends has done to a buffer, if there is one.
  ghost predicate Shows(buf: array?<char>, before: string, at: nat, done: string)
    reads buf
  {
    buf != null ==>
      |before| == buf.Length && at + |done| < |before| && buf[..] == Appended(before, at, done)
  }

  // There is room for a text and the NUL behind it.
  predicate Room(buf: array?<char>, to: nat, text: string) {
    buf != null ==> to + |text| < buf.Length
  }

  lemma ShowsOn(before: string, at: nat, done: string, text: string)
    requires at + |done| + |text| < |before|
    ensures |Appended(before, at, done)| == |before|
    ensures Appended(Appended(before, at, done), at + |done|, text) == Appended(before, at, done + text)
    ensures text != "" ==> Written(Appended(before, at, done), at + |done|, text) == Appended(before, at, done + text)
  {
    hide Written;
    AppendedTwice(before, at, done, text);
  }

  // APPEND_STRING
  method Append(text: string, buf: array?<char>, to: nat, ghost before: string, ghost at: nat, ghost done: string)
    returns (written: nat)
    requires to == at + |done| && text != "" && Room(buf, to, text) && Shows(buf, before, at, done)
    modifies buf
    ensures written == |text| && Shows(buf, before, at, done + text)
  {
    hide Written, Appended;
    if buf != null { ShowsOn(before, at, done, text); }
    written := AppendString(buf, to, text);
  }

  // A quoted string behind what was written before.
  method AppendQuoted(s: string, esc: bool, buf: array?<char>, to: nat,
                      ghost before: string, ghost at: nat, ghost done: string)
    returns (written: nat)
    requires to == at + |done| && Room(buf, to, Quote(s, esc)) && Shows(buf, before, at, done)
    modifies buf
    ensures written == |Quote(s, esc)| && Shows(buf, before, at, done + Quote(s, esc))
  {
    QuoteEnds(s, esc);
    hide Written, Appended, Quote;
    if buf != null { ShowsOn(before, at, done, Quote(s, esc)); }
    written := SerializeString(s, esc, buf, to);
  }

  // append_indent
  method AppendIndent(buf: array?<char>, to: nat, level: nat, ghost before: string, ghost at: nat, ghost done: string)
    returns (written: nat)
    requires to == at + |done| && Room(buf, to, Spaces(level)) && Shows(buf, before, at, done)
    modifies buf
    ensures written == |Spaces(level)| && Shows(buf, before, at, done + Spaces(level))
  {
    hide Shows, Spaces;
    written := 0;
    var i := 0;
    NoSpaces(done);
    while i < level
      invariant i <= level && written == |Spaces(i)|
      invariant Shows(buf, before, at, done + Spaces(i))
    {
      SpacesGrow(i + 1, level);
      MoreSpaces(done, i);
      var n := Append("    ", buf, to + written, before, at, done + Spaces(i));
      written := written + n;
      i := i + 1;
    }
  }

  lemma NoSpaces(done: string)
    ensures Spaces(0) == "" && done + Spaces(0) == done
  {
  }

  lemma MoreSpaces(done: string, i: nat)
    ensures |Spaces(i + 1)| == |Spaces(i)| + 4 && done + Spaces(i) + "    " == done + Spaces(i + 1)
  {
  }

  // The indentation of a line and its end, which only pretty printing has.
  method AppendIndentation(pretty: bool, level: nat, buf: array?<char>, to: nat,
                           ghost before: string, ghost at: nat, ghost done: string)
    returns (written: nat)
    requires to == at + |done| && Room(buf, to, Indent(pretty, level)) && Shows(buf, before, at, done)
    modifies buf
    ensures written == |Indent(pretty, level)| && Shows(buf, before, at, done + Indent(pretty, level))
  {
    hide Written, Appended, Spaces;
    if pretty {
      written := AppendIndent(buf, to, level, before, at, done);
    } else {
      written := 0;
      assert done + "" == done;
    }
  }

  method AppendOptional(wanted: bool, text: string, buf: array?<char>, to: nat,
                        ghost before: string, ghost at: nat, ghost done: string)
    returns (written: nat)
    requires to == at + |done| && text != "" && Room(buf, to, if wanted then text else "")
    requires Shows(buf, before, at, done)
    modifies buf
    ensures written == |if wanted then text else ""|
    ensures Shows(buf, before, at, done + if wanted then text else "")
  {
    hide Shows;
    if wanted {
      written := Append(text, buf, to, before, at, done);
    } else {
      written := 0;
      assert done + "" == done;
    }
  }

  // The rest of a line behind its value.
  method AppendLineEnd(pretty: bool, more: bool, buf: array?<char>, to: nat,
                       ghost before: string, ghost at: nat, ghost done: string)
    returns (written: nat)
    requires to == at + |done| && Room(buf, to, Comma(more) + NewLine(pretty)) && Shows(buf, before, at, done)
    modifies buf
    ensures written == |Comma(more) + NewLine(pretty)|
    ensures Shows(buf, before, at, done + (Comma(more) + NewLine(pretty)))
  {
    hide Shows;
    written := AppendOptional(more, ",", buf, to, before, at, done);
    var n := AppendOptional(pretty, "\n", buf, to + written, before, at, done + Comma(more));
    written := written + n;
    Assoc(done, Comma(more), NewLine(pretty));
  }

  // sprintf with FLOAT_FORMAT: without a buffer the number buffer takes the text.
  method AppendNumber(codec: Codec, x: real, buf: array?<char>, to: nat, numBuf: array?<char>,
                      ghost before: string, ghost at: nat, ghost done: string)
    returns (written: nat)
    requires Lawful(codec) && codec.covers(x)
    requires to == at + |done| && Room(buf, to, codec.show(x)) && Shows(buf, before, at, done)
    requires buf == null ==> numBuf != null && numBuf.Length == NUM_BUF_SIZE
    requires buf != null ==> numBuf == null
    modifies buf, numBuf
    ensures written == |codec.show(x)| && Shows(buf, before, at, done + codec.show(x))
  {
    LawAt(codec, x, "");
    hide Shows, Written;
    if buf != null {
      written := Append(codec.show(x), buf, to, before, at, done);
    } else {
      written := AppendString(numBuf, 0, codec.show(x));
      NothingShown(before, at, done + codec.show(x));
    }
  }

  lemma NothingShown(before: string, at: nat, done: string)
    ensures Shows(null, before, at, done)
  {
  }

  method AppendColon(pretty: bool, buf: array?<char>, to: nat, ghost before: string, ghost at: nat, ghost done: string)
    returns (written: nat)
    requires to == at + |done| && Room(buf, to, Colon(pretty)) && Shows(buf, before, at, done)
    modifies buf
    ensures written == |Colon(pretty)| && Shows(buf, before, at, done + Colon(pretty))
  {
    hide Shows;
    written := Append(":", buf, to, before, at, done);
    var n := AppendOptional(pretty, " ", buf, to + written, before, at, done + ":");
    written := written + n;
    assert done + ":" + (if pretty then " " else "") == done + Colon(pretty);
  }

  predicate NumBufFits(buf: array?<char>, numBuf: array?<char>) {
    if buf == null then numBuf != null && numBuf.Length == NUM_BUF_SIZE else numBuf == null
  }

  // json_serialize_to_buffer_r, behind what was written before.
  method Serialize(style: Style, v: Value, buf: array?<char>, to: nat, level: nat, numBuf: array?<char>,
                   ghost before: string, ghost at: nat, ghost done: string)
    returns (written: nat)
    requires Lawful(style.codec) && Valid(style.codec, v) && NumBufFits(buf, numBuf)
    requires to == at + |done| && Room(buf, to, Print(style, v, level)) && Shows(buf, before, at, done)
    modifies buf, numBuf
    ensures written == |Print(style, v, level)|
    ensures Shows(buf, before, at, done + Print(style, v, level))
    decreases v, 1
  {
    match v
    case Null =>
      hide Shows;
      written := Append("null", buf, to, before, at, done);
    case Boolean(flag) =>
      hide Shows;
      if flag {
        written := Append("true", buf, to, before, at, done);
      } else {
        written := Append("false", buf, to, before, at, done);
      }
    case Number(x) =>
      hide Shows;
      written := AppendNumber(style.codec, x, buf, to, numBuf, before, at, done);
    case String(s) =>
      hide Shows, Quote;
      written := AppendQuoted(s, style.escapeSlashes, buf, to, before, at, done);
    case Array(items) =>
      hide Shows;
      written := SerializeArray(style, items, buf, to, level, numBuf, before, at, done);
    case Object(members) =>
      hide Shows;
      written := SerializeObject(style, members, buf, to, level, numBuf, before, at, done);
  }

  lemma ArrayText(style: Style, items: seq<Value>, i: nat, level: nat)
    requires i <= |items|
    ensures i == |items| ==>
      ArrayRest(style, items, i, level) == Indent(style.pretty && items != [], level) + "]"
    ensures i < |items| ==>
      ArrayRest(style, items, i, level) == ArrayLine(style, items, i, level) + ArrayRest(style, items, i + 1, level)
    ensures Print(style, Array(items), level)
      == "[" + NewLine(style.pretty && items != []) + ArrayRest(style, items, 0, level)
  {
    hide ArrayLine;
  }

  method SerializeArray(style: Style, items: seq<Value>, buf: array?<char>, to: nat, level: nat, numBuf: array?<char>,
                        ghost before: string, ghost at: nat, ghost done: string)
    returns (written: nat)
    requires Lawful(style.codec) && Valid(style.codec, Array(items)) && NumBufFits(buf, numBuf)
    requires to == at + |done| && Room(buf, to, Print(style, Array(items), level)) && Shows(buf, before, at, done)
    modifies buf, numBuf
    ensures written == |Print(style, Array(items), level)|
    ensures Shows(buf, before, at, done + Print(style, Array(items), level))
    decreases items, 2
  {
    hide Shows, Lawful, Print, ArrayRest, ArrayLine, NewLine, Indent;
    ghost var text := Print(style, Array(items), level);
    ArrayText(style, items, 0, level);
    written := Append("[", buf, to, before, at, done);
    ghost var sofar := "[";
    var n := AppendNewLine(style.pretty && items != [], buf, to + written, before, at, done + sofar);
    written := written + n;
    Assoc(done, sofar, NewLine(style.pretty && items != []));
    sofar := sofar + NewLine(style.pretty && items != []);
    var i := 0;
    while i < |items|
      invariant i <= |items|
      invariant written == |sofar|
      invariant sofar + ArrayRest(style, items, i, level) == text
      invariant Shows(buf, before, at, done + sofar)
    {
      ArrayText(style, items, i, level);
      assert |sofar| + |ArrayLine(style, items, i, level)| <= |text|;
      n := SerializeItem(style, items, i, buf, to + written, level, numBuf, before, at, done + sofar);
      Assoc(done, sofar, ArrayLine(style, items, i, level));
      Assoc(sofar, ArrayLine(style, items, i, level), ArrayRest(style, items, i + 1, level));
      sofar := sofar + ArrayLine(style, items, i, level);
      written := written + n;
      i := i + 1;
    }
    ArrayText(style, items, i, level);
    n := AppendClosing(style.pretty && items != [], level, "]", buf, to + written, before, at, done + sofar);
    written := written + n;
    Assoc(done, sofar, ArrayRest(style, items, i, level));
  }

  method AppendNewLine(pretty: bool, buf: array?<char>, to: nat,
                       ghost before: string, ghost at: nat, ghost done: string)
    returns (written: nat)
    requires to == at + |done| && Room(buf, to, NewLine(pretty)) && Shows(buf, before, at, done)
    modifies buf
    ensures written == |NewLine(pretty)| && Shows(buf, before, at, done + NewLine(pretty))
  {
    hide Shows;
    written := AppendOptional(pretty, "\n", buf, to, before, at, done);
  }

  // The last line of a container.
  method AppendClosing(pretty: bool, level: nat, bracket: string, buf: array?<char>, to: nat,
                       ghost before: string, ghost at: nat, ghost done: string)
    returns (written: nat)
    requires bracket != ""
    requires to == at + |done| && Room(buf, to, Indent(pretty, level) + bracket) && Shows(buf, before, at, done)
    modifies buf
    ensures written == |Indent(pretty, level) + bracket|
    ensures Shows(buf, before, at, done + (Indent(pretty, level) + bracket))
  {
    hide Shows, Indent;
    written := AppendIndentation(pretty, level, buf, to, before, at, done);
    var n := Append(bracket, buf, to + written, before, at, done + Indent(pretty, level));
    written := written + n;
    Assoc(done, Indent(pretty, level), bracket);
  }

  method SerializeItem(style: Style, items: seq<Value>, i: nat, buf: array?<char>, to: nat, level: nat,
                       numBuf: array?<char>, ghost before: string, ghost at: nat, ghost done: string)
    returns (written: nat)
    requires i < |items| && Lawful(style.codec) && Valid(style.codec, Array(items)) && NumBufFits(buf, numBuf)
    requires to == at + |done| && Room(buf, to, ArrayLine(style, items, i, level)) && Shows(buf, before, at, done)
    modifies buf, numBuf
    ensures written == |ArrayLine(style, items, i, level)|
    ensures Shows(buf, before, at, done + ArrayLine(style, items, i, level))
    decreases items, 1, 0
  {
    var more := i < |items| - 1;
    ghost var indent := Indent(style.pretty, level + 1);
    ghost var text := ValueText(style, items[i], more, level + 1);
    assert ArrayLine(style, items, i, level) == indent + text;
    hide Shows, ValueText, Indent, ArrayLine;
    written := AppendIndentation(style.pretty, level + 1, buf, to, before, at, done);
    var n := SerializeLine(style, items[i], more, buf, to + written, level + 1, numBuf, before, at, done + indent);
    written := written + n;
    Assoc(done, indent, text);
  }

  // A value and the end of its line.
  method SerializeLine(style: Style, v: Value, more: bool, buf: array?<char>, to: nat, level: nat,
                       numBuf: array?<char>, ghost before: string, ghost at: nat, ghost done: string)
    returns (written: nat)
    requires Lawful(style.codec) && Valid(style.codec, v) && NumBufFits(buf, numBuf)
    requires to == at + |done| && Room(buf, to, ValueText(style, v, more, level)) && Shows(buf, before, at, done)
    modifies buf, numBuf
    ensures written == |ValueText(style, v, more, level)|
    ensures Shows(buf, before, at, done + ValueText(style, v, more, level))
    decreases v, 2
  {
    ghost var text := Print(style, v, level);
    hide Shows, Print, Comma, NewLine;
    written := Serialize(style, v, buf, to, level, numBuf, before, at, done);
    var n := AppendLineEnd(style.pretty, more, buf, to + written, before, at, done + text);
    written := written + n;
    Assoc(done, text, Comma(more) + NewLine(style.pretty));
  }

  lemma ObjectText(style: Style, members: seq<Member>, i: nat, level: nat)
    requires i <= |members|
    ensures i == |members| ==>
      ObjectRest(style, members, i, level) == Indent(style.pretty && members != [], level) + "}"
    ensures i < |members| ==>
      ObjectRest(style, members, i, level)
      == ObjectLine(style, members, i, level) + ObjectRest(style, members, i + 1, level)
    ensures Print(style, Object(members), level)
      == "{" + NewLine(style.pretty && members != []) + ObjectRest(style, members, 0, level)
  {
    hide ObjectLine;
  }

  method SerializeObject(style: Style, members: seq<Member>, buf: array?<char>, to: nat, level: nat,
                         numBuf: array?<char>, ghost before: string, ghost at: nat, ghost done: string)
    returns (written: nat)
    requires Lawful(style.codec) && Valid(style.codec, Object(members)) && NumBufFits(buf, numBuf)
    requires to == at + |done| && Room(buf, to, Print(style, Object(members), level)) && Shows(buf, before, at, done)
    modifies buf, numBuf
    ensures written == |Print(style, Object(members), level)|
    ensures Shows(buf, before, at, done + Print(style, Object(members), level))
    decreases members, 2
  {
    hide Shows, Lawful, Print, ObjectRest, ObjectLine, NewLine, Indent;
    ghost var text := Print(style, Object(members), level);
    ObjectText(style, members, 0, level);
    written := Append("{", buf, to, before, at, done);
    ghost var sofar := "{";
    var n := AppendNewLine(style.pretty && members != [], buf, to + written, before, at, done + sofar);
    written := written + n;
    Assoc(done, sofar, NewLine(style.pretty && members != []));
    sofar := sofar + NewLine(style.pretty && members != []);
    var i := 0;
    while i < |members|
      invariant i <= |members|
      invariant written == |sofar|
      invariant sofar + ObjectRest(style, members, i, level) == text
      invariant Shows(buf, before, at, done + sofar)
    {
      ObjectText(style, members, i, level);
      assert |sofar| + |ObjectLine(style, members, i, level)| <= |text|;
      n := SerializeMember(style, members, i, buf, to + written, level, numBuf, before, at, done + sofar);
      Assoc(done, sofar, ObjectLine(style, members, i, level));
      Assoc(sofar, ObjectLine(style, members, i, level), ObjectRest(style, members, i + 1, level));
      sofar := sofar + ObjectLine(style, members, i, level);
      written := written + n;
      i := i + 1;
    }
    ObjectText(style, members, i, level);
    n := AppendClosing(style.pretty && members != [], level, "}", buf, to + written, before, at, done + sofar);
    written := written + n;
    Assoc(done, sofar, ObjectRest(style, members, i, level));
  }

  lemma MemberAt(codec: Codec, members: seq<Member>, i: nat)
    requires i < |members| && Valid(codec, Object(members))
    ensures Get(members, members[i].name) == Some(members[i].value) && Valid(codec, members[i].value)
    ensures NulFree(members[i].name)
  {
    GetAt(members, i);
  }

  // A line of an object. The value is looked up by its name.
  method SerializeMember(style: Style, members: seq<Member>, i: nat, buf: array?<char>, to: nat, level: nat,
                         numBuf: array?<char>, ghost before: string, ghost at: nat, ghost done: string)
    returns (written: nat)
    requires i < |members| && Lawful(style.codec) && Valid(style.codec, Object(members)) && NumBufFits(buf, numBuf)
    requires to == at + |done| && Room(buf, to, ObjectLine(style, members, i, level)) && Shows(buf, before, at, done)
    modifies buf, numBuf
    ensures written == |ObjectLine(style, members, i, level)|
    ensures Shows(buf, before, at, done + ObjectLine(style, members, i, level))
    decreases members, 1
  {
    var more := i < |members| - 1;
    var key := members[i].name;
    ghost var head := KeyText(style, key, level + 1);
    ghost var text := ValueText(style, members[i].value, more, level + 1);
    assert ObjectLine(style, members, i, level) == head + text;
    MemberAt(style.codec, members, i);
    hide Shows, ValueText, KeyText, ObjectLine, Get;
    written := AppendKey(style, key, level + 1, buf, to, before, at, done);
    var n := SerializeLine(style, Get(members, key).value, more, buf, to + written, level + 1, numBuf,
                           before, at, done + head);
    written := written + n;
    Assoc(done, head, text);
  }

  method AppendKey(style: Style, key: string, level: nat, buf: array?<char>, to: nat,
                   ghost before: string, ghost at: nat, ghost done: string)
    returns (written: nat)
    requires to == at + |done| && Shows(buf, before, at, done)
    requires Room(buf, to, KeyText(style, key, level))
    modifies buf
    ensures written == |KeyText(style, key, level)|
    ensures Shows(buf, before, at, done + KeyText(style, key, level))
  {
    ghost var indent, quoted := Indent(style.pretty, level), Quote(key, style.escapeSlashes);
    hide Shows, Indent, Quote, Colon;
    written := AppendIndentation(style.pretty, level, buf, to, before, at, done);
    var n := AppendQuoted(key, style.escapeSlashes, buf, to + written, before, at, done + indent);
    written := written + n;
    n := AppendColon(style.pretty, buf, to + written, before, at, done + indent + quoted);
    written := written + n;
    Assoc(done + indent, quoted, Colon(style.pretty));
    Assoc(done, indent, quoted + Colon(style.pretty));
  }

  // ---------------------------------------------------------------- entry points

  // json_serialization_size and json_serialization_size_pretty
  method SerializationSize(style: Style, v: Value) returns (size: nat)
    requires Lawful(style.codec) && Valid(style.codec, v)
    ensures size == |Print(style, v, 0)| + 1
  {
    var numBuf := new char[NUM_BUF_SIZE];
    NothingShown("", 0, "");
    var written := Serialize(style, v, null, 0, 0, numBuf, "", 0, "");
    size := written + 1;
  }

  // json_serialize_to_buffer and json_serialize_to_buffer_pretty
  method SerializeToBuffer(style: Style, v: Value, buf: array<char>, size: nat) returns (ok: bool)
    requires Lawful(style.codec) && Valid(style.codec, v) && size <= buf.Length
    modifies buf
    ensures ok <==> |Print(style, v, 0)| < size
    ensures ok ==> buf[..] == Written(old(buf[..]), 0, Print(style, v, 0))
    ensures !ok ==> buf[..] == old(buf[..])
  {
    var needed := SerializationSize(style, v);
    if size < needed { return false; }
    ghost var before := buf[..];
    assert Shows(buf, before, 0, "");
    PrintSome(style, v, 0);
    hide Print, Valid, Lawful;
    var written := Serialize(style, v, buf, 0, 0, null, before, 0, "");
    ok := true;
    assert "" + Print(style, v, 0) == Print(style, v, 0);
  }

  lemma PrintSome(style: Style, v: Value, level: nat)
    requires Lawful(style.codec) && Valid(style.codec, v)
    ensures Print(style, v, level) != ""
  {
    hide ArrayRest, ObjectRest;
    if v.Number? { LawAt(style.codec, v.number, ""); }
  }

  // json_serialize_to_string and json_serialize_to_string_pretty: the buffer is exactly
  // filled, and its last byte is the only one that ends the string.
  method SerializeToString(style: Style, v: Value) returns (buf: array<char>)
    requires Lawful(style.codec) && Valid(style.codec, v)
    ensures fresh(buf) && buf[..] == Print(style, v, 0) + "\0"
  {
    var size := SerializationSize(style, v);
    hide Print, Valid, Lawful;
    buf := new char[size];
    var ok := SerializeToBuffer(style, v, buf, size);
    assert buf[..] == Print(style, v, 0) + "\0";
  }
}
