/** Reading the multipart encoding of a list of form fields gives back the list. */
module MultipartRoundTrip {
  import opened Results
  import opened CStrings
  import opened MultipartStream
  import opened BoundarySearch
  import opened PreambleSearch
  import opened MultipartHeader
  import opened MultipartParser

  datatype FormField = FormField(name: string, body: string)

  // Texts that a header line carries unchanged.
  predicate Plain(s: string) { forall i | 0 <= i < |s| :: s[i] !in {':', '\r', '\n', '\0'} }

  // Names that a header line can carry in quotes, in the space the parser has for it.
  predicate GoodName(name: string) { Plain(name) && '"' !in name && |name| <= 1006 }

  // Bodies in which the delimiter does not occur.
  ghost predicate GoodBody(body: string, boundary: string) {
    forall i: nat :: !OccursAt(Pattern(boundary, false), body, i)
  }

  const ATTRIBUTE := "Content-Disposition"

  function HeaderValue(name: string): string {
    NameValue(name + "\"")
  }

  function NameValue(x: string): string { "form-data; name=\"" + x }

  function EncodePart(f: FormField, boundary: string): string {
    HeaderText(HeaderValue(f.name)) + "\r\n" + f.body + Pattern(boundary, false)
  }

  // What follows a delimiter: another part, or the end mark.
  function EncodeParts(fields: seq<FormField>, boundary: string): string {
    if fields == [] then "--\r\n"
    else "\r\n" + EncodePart(fields[0], boundary) + EncodeParts(fields[1..], boundary)
  }

  function Encode(fields: seq<FormField>, boundary: string): string {
    Pattern(boundary, true) + EncodeParts(fields, boundary)
  }

  function Entries(fields: seq<FormField>): seq<Entry> {
    seq(|fields|, i requires 0 <= i < |fields| => Entry(fields[i].name, "", "", fields[i].body))
  }

  // ------------------------------------------------------------ header line

  lemma {:induction false} ReadAttribute(a: string, rest: string, attr: string)
    requires forall i | 0 <= i < |a| :: a[i] != ':' && !IsSpace(a[i])
    requires |attr| + |a| < SPACE
    ensures ReadHeader(a + rest, Header(attr, "", false)) == ReadHeader(rest, Header(attr + a, "", false))
    decreases |a|
  {
    if a == "" {
      assert a + rest == rest && attr + a == attr;
    } else {
      hide SkipWs;
      assert (a + rest)[0] == a[0] && (a + rest)[1..] == a[1..] + rest;
      assert attr + [a[0]] + a[1..] == attr + a;
      ReadAttribute(a[1..], rest, attr + [a[0]]);
    }
  }

  lemma {:induction false} ReadValue(v: string, rest: string, attr: string, s: string)
    requires Plain(v)
    ensures ReadHeader(v + rest, Header(attr, Truncate(s, SPACE), true))
         == ReadHeader(rest, Header(attr, Truncate(s + v, SPACE), true))
    decreases |v|
  {
    if v == "" {
      assert v + rest == rest && s + v == s;
    } else {
      hide SkipWs, Truncate, Append;
      assert (v + rest)[0] == v[0] && (v + rest)[1..] == v[1..] + rest;
      assert s + [v[0]] + v[1..] == s + v;
      AppendTruncates(s, v[0], SPACE);
      ReadValue(v[1..], rest, attr, s + [v[0]]);
    }
  }

  // Values that a header line carries unchanged, apart from what does not fit the buffer.
  predicate GoodValue(v: string) { v != "" && !IsSpace(v[0]) && Plain(v) }

  // Names of header lines that are carried unchanged.
  predicate GoodAttribute(a: string) {
    a != "" && |a| <= 1023 && forall i | 0 <= i < |a| :: a[i] !in {':', '\0'} && !IsSpace(a[i])
  }

  // White space in which no line ends.
  predicate Blank(s: string) { forall i | 0 <= i < |s| :: IsSpace(s[i]) && s[i] !in {'\r', '\n'} }

  predicate EndsLine(end: string) { end == "\r\n" || end == "\n" }

  function LineText(attr: string, gap: string, v: string, end: string): string {
    attr + (":" + (gap + (v + end)))
  }

  function HeaderText(v: string): string { LineText(ATTRIBUTE, " ", v, "\r\n") }

  // A header line is read back, up to what its buffer holds, and the line after it is next.
  lemma ReadLineText(attr: string, gap: string, v: string, end: string, rest: string)
    requires GoodAttribute(attr) && Blank(gap) && GoodValue(v) && EndsLine(end)
    ensures ReadHeader(LineText(attr, gap, v, end) + rest, Header("", "", false))
         == HeaderLine(true, Header(attr, Truncate(v, SPACE), true), rest)
  {
    assert forall i | 0 <= i < |attr| :: attr[i] != ':' && !IsSpace(attr[i]);
    assert Plain(v) && v != "" && !IsSpace(v[0]) && attr != "" && |attr| < SPACE;
    hide ReadHeader, SkipWs, Plain, EndsLine, Blank;
    assert LineText(attr, gap, v, end) + rest == attr + (":" + (gap + (v + (end + rest))));
    ReadAttribute(attr, ":" + (gap + (v + (end + rest))), "");
    assert "" + attr == attr && "" + v == v;
    AfterColon(attr, gap, v + (end + rest));
    TruncateEmpty(SPACE);
    ReadValue(v, end + rest, attr, "");
    LineEnd(end, rest, Header(attr, Truncate(v, SPACE), true));
  }

  lemma ReadHeaderText(v: string, rest: string)
    requires GoodValue(v)
    ensures ReadHeader(HeaderText(v) + rest, Header("", "", false))
         == HeaderLine(true, Header(ATTRIBUTE, Truncate(v, SPACE), true), rest)
  {
    assert GoodAttribute(ATTRIBUTE) && Blank(" ") && EndsLine("\r\n");
    hide *;
    ReadLineText(ATTRIBUTE, " ", v, "\r\n", rest);
    HeaderTextIs(v);
  }

  lemma HeaderTextIs(v: string)
    ensures HeaderText(v) == LineText(ATTRIBUTE, " ", v, "\r\n")
  {
  }

  lemma {:induction false} SkipBlank(gap: string, t: string)
    requires Blank(gap)
    ensures SkipWs(gap + t) == SkipWs(t)
  {
    if gap == "" {
      assert gap + t == t;
    } else {
      assert (gap + t)[1..] == gap[1..] + t;
      SkipBlank(gap[1..], t);
    }
  }

  lemma AfterColon(attr: string, gap: string, t: string)
    requires attr != "" && Blank(gap) && t != "" && !IsSpace(t[0])
    ensures ReadHeader(":" + (gap + t), Header(attr, "", false)) == ReadHeader(t, Header(attr, "", true))
  {
    var s := ":" + (gap + t);
    assert s[0] == ':' && s[1..] == gap + t;
    SkipBlank(gap, t);
    assert SkipWs(t) == t;
    hide SkipWs, Blank;
  }

  lemma LineEnd(end: string, rest: string, h: Header)
    requires EndsLine(end)
    ensures ReadHeader(end + rest, h) == HeaderLine(h.attr != "" && h.value != "", h, rest)
  {
    var s := end + rest;
    assert end == "\r\n" ==> s[1..] == "\n" + rest && ("\n" + rest)[1..] == rest;
    assert end == "\n" ==> s[1..] == rest;
  }

  lemma HeaderValueShape(name: string)
    requires Plain(name)
    ensures GoodValue(HeaderValue(name))
  {
  }

  // ----------------------------------------------------------- header value

  // What is left of the value in its buffer: of a good name, the closing quote at most is
  // missing.
  lemma HeaderValueFits(name: string)
    ensures Truncate(HeaderValue(name), SPACE) == NameValue(Truncate(name + "\"", SPACE - 17))
  {
    assert |NameValue("")| == 17;
  }

  // The first parameter is the quoted name; others may follow.
  function Named(x: string): Item { Item(Upto(x, '"'), From(x[|Upto(x, '"')|..], ';')) }

  lemma DecomposeNamed(x: string)
    requires Plain(x)
    ensures Decompose(NameValue(x), DISPOSITION_NAMES, SPACE) ==
      match ReadParameters(Named(x).rest, DISPOSITION_NAMES, [Truncate(Named(x).content, SPACE), ""], SPACE)
      case None => None
      case Some(values) => Some(Decomposed("form-data", values))
  {
    var v := NameValue(x);
    CStringPlain(v);
    assert SkipWs(v) == v;
    var params := "; name=\"" + x;
    ValueSplits(x);
    UptoIs(v, 9, ';');
    assert ReadItem(v) == Item("form-data", params);
    ReadNameParameter(x);
    hide ReadItem, ReadParameters, CString, SkipWs, Named;
    assert seq(|DISPOSITION_NAMES|, _ => "") == ["", ""];
  }

  lemma ValueSplits(x: string)
    ensures var v, params := NameValue(x), "; name=\"" + x;
      |v| > 9 && v[..9] == "form-data" && v[9..] == params
  {
    var params := "; name=\"" + x;
    assert NameValue(x) == "form-data" + params;
  }

  lemma ReadNameParameter(x: string)
    ensures ReadParameters("; name=\"" + x, DISPOSITION_NAMES, ["", ""], SPACE)
         == ReadParameters(Named(x).rest, DISPOSITION_NAMES, [Truncate(Named(x).content, SPACE), ""], SPACE)
  {
    var quoted := "\"" + x;
    var s := "; name=" + quoted;
    assert s == "; name=\"" + x && s[1..] == " name=" + quoted;
    NameParameter(x, quoted);
    FindName();
    hide *;
    NextParameter(s, DISPOSITION_NAMES, ["", ""], Parameter(Truncate("name", SPACE), Named(x)));
    assert ["", ""][0 := Truncate(Named(x).content, SPACE)] == [Truncate(Named(x).content, SPACE), ""];
  }

  lemma NextParameter(s: string, names: seq<string>, values: seq<string>, p: Parameter)
    requires s != "" && s[0] == ';' && ReadParameter(s[1..]) == Some(p) && |p.item.rest| < |s|
    requires |names| == |values| && IndexOfName(p.name, names) < |names|
    ensures var i := IndexOfName(p.name, names);
      ReadParameters(s, names, values, SPACE)
      == ReadParameters(p.item.rest, names, values[i := Truncate(p.item.content, SPACE)], SPACE)
  {
    hide ReadParameter, IndexOfName, Truncate;
  }

  lemma NameParameter(x: string, quoted: string)
    requires quoted == "\"" + x
    ensures ReadParameter(" name=" + quoted) == Some(Parameter(Truncate("name", SPACE), Named(x)))
    ensures |Named(x).rest| <= |x|
  {
    NameToken(quoted);
    AfterEquals(quoted);
    QuotedItem(x);
    hide SkipWs, TakeAlnum, ReadItem, Named;
  }

  lemma QuotedItem(x: string)
    ensures ReadItem("\"" + x) == Named(x)
  {
    var quoted, n := "\"" + x, |Upto(x, '"')|;
    assert quoted[1..] == x && quoted[1 + n..] == x[n..];
    hide Upto;
  }

  lemma NameToken(quoted: string)
    ensures var t := SkipWs(" name=" + quoted);
      TakeAlnum(t) == "name" && t[4..] == "=" + quoted
  {
    var t := "name=" + quoted;
    assert " name=" + quoted == " " + t && (" " + t)[1..] == t && SkipWs(t) == t;
    TakeAlnumIs(t, 4);
    assert t[..4] == "name" && t[4..] == "=" + quoted;
  }

  lemma AfterEquals(quoted: string)
    requires quoted != "" && !IsSpace(quoted[0])
    ensures SkipWs("=" + quoted) == "=" + quoted && ("=" + quoted)[1..] == quoted
    ensures SkipWs(quoted) == quoted
  {
  }

  lemma FindName()
    ensures IndexOfName(Truncate("name", SPACE), DISPOSITION_NAMES) == 0
  {
    EqualNoCaseReflexive("name");
  }

  lemma DecomposeHeaderValue(name: string)
    requires GoodName(name)
    ensures Decompose(Truncate(HeaderValue(name), SPACE), DISPOSITION_NAMES, SPACE)
         == Some(Decomposed("form-data", [name, ""]))
  {
    var x := Truncate(name + "\"", SPACE - 17);
    HeaderValueFits(name);
    NameAlone(name, x);
    DecomposeNamed(x);
    hide Decompose, Named, HeaderValue, NameValue;
    assert ReadParameters("", DISPOSITION_NAMES, [name, ""], SPACE) == Some([name, ""]);
  }

  lemma NameAlone(name: string, x: string)
    requires GoodName(name) && x == Truncate(name + "\"", SPACE - 17)
    ensures Plain(x) && Named(x) == Item(name, "") && Truncate(name, SPACE) == name
  {
    assert x == name + "\"" || x == name;
    UptoIs(x, |name|, '"');
    assert x[..|name|] == name;
    var end := x[|name|..];
    assert end == "\"" || end == "";
    UptoIs(end, |end|, ';');
    assert end[|end|..] == "";
    hide Upto;
  }

  // ------------------------------------------------------------------- body

  // A delimiter-free body is what precedes the first delimiter, even where the two meet.
  lemma {:induction false} BodyBeforeDelimiter(pattern: string, body: string, more: string)
    requires Delimiter(pattern) && forall i: nat :: !OccursAt(pattern, body, i)
    ensures Before(pattern, body + pattern + more) == Some(body)
    decreases |body|
  {
    var text := body + pattern + more;
    if body == "" {
      assert text == pattern + more;
    } else {
      if pattern <= text {
        DelimiterNotAcross(pattern, body, more);
      }
      forall i: nat ensures !OccursAt(pattern, body[1..], i) {
        if OccursAt(pattern, body[1..], i) {
          assert body[i + 1..i + 1 + |pattern|] == body[1..][i..i + |pattern|];
          assert OccursAt(pattern, body, i + 1);
        }
      }
      assert text[1..] == body[1..] + pattern + more;
      BodyBeforeDelimiter(pattern, body[1..], more);
      assert body == [text[0]] + body[1..];
    }
  }

  lemma DelimiterNotAcross(pattern: string, body: string, more: string)
    requires Delimiter(pattern) && body != "" && !OccursAt(pattern, body, 0)
    ensures !(pattern <= body + pattern + more)
  {
    var text := body + pattern + more;
    if |pattern| <= |body| {
      assert text[..|pattern|] == body[..|pattern|] == body[0..0 + |pattern|];
    } else {
      assert text[|body|] == pattern[0] == CR;
      assert pattern[|body|] == pattern[1..][|body| - 1];
    }
  }

  // ------------------------------------------------------------- main result

  function AfterDelimiter(fields: seq<FormField>, boundary: string): string {
    if fields == [] then "--\r\n" else EncodePart(fields[0], boundary) + EncodeParts(fields[1..], boundary)
  }

  lemma LineEndBeforePart(fields: seq<FormField>, boundary: string)
    ensures AfterLineEnd(EncodeParts(fields, boundary)) == Some(AfterDelimiter(fields, boundary))
  {
    hide EncodePart, AfterLineEnd;
    if fields == [] {
      AfterDashes();
    } else {
      var rest := EncodePart(fields[0], boundary) + EncodeParts(fields[1..], boundary);
      assert EncodeParts(fields, boundary) == "\r\n" + rest;
      AfterCrLf(rest);
    }
  }

  lemma AfterCrLf(rest: string)
    ensures AfterLineEnd("\r\n" + rest) == Some(rest)
  {
    var s := "\r\n" + rest;
    assert s[..2] == "\r\n" && s[2..] == rest;
  }

  lemma AfterDashes()
    ensures AfterLineEnd("--\r\n") == Some("--\r\n")
  {
    assert "--\r\n"[..2][0] == '-' && "\r\n"[0] == '\r';
  }

  // The headers of an encoded part say what the value in its buffer says.
  lemma ReadHeadersOfPart(f: FormField, after: string)
    requires Plain(f.name)
    ensures ReadHeaders(HeaderText(HeaderValue(f.name)) + ("\r\n" + after), NO_INFO) ==
      match Decompose(Truncate(HeaderValue(f.name), SPACE), DISPOSITION_NAMES, SPACE)
      case None => Headers(None, "\r\n" + after)
      case Some(d) => Headers(Some(PartInfo(d.mvalue, d.argValues[0], d.argValues[1], "")), after)
  {
    hide HeaderValue, Decompose, ReadHeader, HeaderText, GoodValue, Plain, EqualNoCase, CString, Truncate;
    HeaderValueShape(f.name);
    ReadHeaderText(HeaderValue(f.name), "\r\n" + after);
    IsDisposition();
    assert EndsLine("\r\n");
    LineEnd("\r\n", after, Header("", "", false));
  }

  lemma NameIsPlain(name: string)
    ensures GoodName(name) ==> Plain(name)
  {
  }

  lemma PartShape(f: FormField, boundary: string, more: string)
    ensures var after := f.body + Pattern(boundary, false) + more;
      EncodePart(f, boundary) + more == HeaderText(HeaderValue(f.name)) + ("\r\n" + after)
    ensures PartStarts(EncodePart(f, boundary) + more)
  {
    hide HeaderValue, Pattern, PartStarts;
    var head := HeaderText(HeaderValue(f.name));
    hide HeaderText;
    assert EncodePart(f, boundary) + more == head + ("\r\n" + (f.body + Pattern(boundary, false) + more));
    HeaderStarts(HeaderValue(f.name), "\r\n" + (f.body + Pattern(boundary, false) + more));
  }

  predicate PartStarts(stream: string) { |stream| >= 2 && stream[..2] != "--" }

  lemma StartsPart(stream: string)
    ensures PartStarts(stream) ==> |stream| >= 2 && stream[..2] != "--"
  {
  }

  lemma HeaderStarts(v: string, rest: string)
    ensures PartStarts(HeaderText(v) + rest)
  {
    var stream := HeaderText(v) + rest;
    assert stream[..2][0] == stream[0] == 'C';
  }

  // One encoded part, followed by anything that starts as a delimiter may be followed.
  lemma ReadEncodedPart(f: FormField, boundary: string, more: string, rest: string)
    requires CR !in boundary && GoodName(f.name) && GoodBody(f.body, boundary)
    requires AfterLineEnd(more) == Some(rest)
    ensures ReadParts(EncodePart(f, boundary) + more, boundary)
         == Behind([Entry(f.name, "", "", f.body)], ReadParts(rest, boundary))
  {
    hide *;
    ReadPartsStep(EncodePart(f, boundary) + more, boundary);
    PartShape(f, boundary, more);
    StartsPart(EncodePart(f, boundary) + more);
    NameIsPlain(f.name);
    ReadHeadersOfPart(f, f.body + Pattern(boundary, false) + more);
    DecomposeHeaderValue(f.name);
    BodyFound(f.body, boundary, more, rest);
    EqualNoCaseReflexive("form-data");
  }

  lemma BodyFound(body: string, boundary: string, more: string, rest: string)
    requires CR !in boundary && GoodBody(body, boundary) && AfterLineEnd(more) == Some(rest)
    ensures AfterBoundary(Pattern(boundary, false), body + Pattern(boundary, false) + more) == Some(Found(body, rest))
  {
    var pattern := Pattern(boundary, false);
    PatternDelimits(boundary);
    hide Pattern, AfterLineEnd, Before, AfterBoundary;
    BodyBeforeDelimiter(pattern, body, more);
    ExactAfter(pattern, body + pattern + more, Some(Found(body, more)));
  }

  lemma {:induction false} ReadEncodedParts(fields: seq<FormField>, boundary: string)
    requires CR !in boundary
    requires forall i | 0 <= i < |fields| :: GoodName(fields[i].name) && GoodBody(fields[i].body, boundary)
    ensures ReadParts(AfterDelimiter(fields, boundary), boundary) == Parsed(Success, Entries(fields))
  {
    if fields == [] {
      assert "--\r\n"[..2] == "--";
    } else {
      EntriesCons(fields);
      AfterDelimiterIs(fields, boundary);
      hide *;
      LineEndBeforePart(fields[1..], boundary);
      ReadEncodedPart(fields[0], boundary, EncodeParts(fields[1..], boundary), AfterDelimiter(fields[1..], boundary));
      ReadEncodedParts(fields[1..], boundary);
      BehindIs([Entry(fields[0].name, "", "", fields[0].body)], Success, Entries(fields[1..]));
    }
  }

  lemma EntriesCons(fields: seq<FormField>)
    requires fields != []
    ensures Entries(fields) == [Entry(fields[0].name, "", "", fields[0].body)] + Entries(fields[1..])
  {
  }

  lemma AfterDelimiterIs(fields: seq<FormField>, boundary: string)
    requires fields != []
    ensures AfterDelimiter(fields, boundary) == EncodePart(fields[0], boundary) + EncodeParts(fields[1..], boundary)
  {
  }

  lemma BehindIs(entries: seq<Entry>, outcome: Outcome, later: seq<Entry>)
    ensures Behind(entries, Parsed(outcome, later)) == Parsed(outcome, entries + later)
  {
  }

  lemma ParseEncodedBody(fields: seq<FormField>, boundary: string)
    ensures ParseBody(Encode(fields, boundary), boundary) == ReadParts(AfterDelimiter(fields, boundary), boundary)
  {
    var p, body, parts := Pattern(boundary, true), Encode(fields, boundary), EncodeParts(fields, boundary);
    assert body == p + parts == "" + p + parts;
    assert Before(p, body) == Some("");
    StartsClean(p, body);
    ParseBodyFromFirst(body, boundary);
    ExactAfter(p, body, Some(Found("", parts)));
    hide ParseBody, ReadParts, EncodeParts, Pattern;
    LineEndBeforePart(fields, boundary);
  }

  // For any list of fields, whatever their number, names and delimiter-free bodies,
  // parsing the encoding yields exactly those names and bodies, in order.
  lemma ParseEncoded(fields: seq<FormField>, boundary: string)
    requires CR !in boundary
    requires forall i | 0 <= i < |fields| :: GoodName(fields[i].name) && GoodBody(fields[i].body, boundary)
    ensures ParseBody(Encode(fields, boundary), boundary) == Parsed(Success, Entries(fields))
  {
    ParseEncodedBody(fields, boundary);
    ReadEncodedParts(fields, boundary);
  }

  // ------------------------------------------------------------------- faults

  // A body whose first part has a parameter in its disposition other than the name and
  // the file name makes the reader write through a null pointer.
  lemma BodyFaults(v: string, more: string, boundary: string)
    requires GoodValue(v) && Unasked(ReadItem(Truncate(v, SPACE)).rest, DISPOSITION_NAMES)
    ensures ParseBody(Pattern(boundary, true) + ("\r\n" + (HeaderText(v) + more)), boundary) == Parsed(Fault, [])
  {
    var p, part := Pattern(boundary, true), HeaderText(v) + more;
    var body := p + ("\r\n" + part);
    assert body == "" + p + ("\r\n" + part);
    assert Before(p, body) == Some("");
    StartsClean(Pattern(boundary, true), body);
    ParseBodyFromFirst(body, boundary);
    ExactAfter(p, body, Some(Found("", "\r\n" + part)));
    AfterCrLf(part);
    ReadPartsStep(part, boundary);
    HeaderStarts(v, more);
    HeadersFault(v, more);
    hide ParseBody, ReadParts, Pattern, HeaderText, ReadHeaders;
  }

  lemma HeadersFault(v: string, more: string)
    requires GoodValue(v) && Unasked(ReadItem(Truncate(v, SPACE)).rest, DISPOSITION_NAMES)
    ensures ReadHeaders(HeaderText(v) + more, NO_INFO).info == None
  {
    hide *;
    ReadHeaderText(v, more);
    TruncatedGood(v);
    DispositionFaults(Truncate(v, SPACE), NO_INFO);
    FaultingLine(HeaderText(v) + more, NO_INFO, HeaderLine(true, Header(ATTRIBUTE, Truncate(v, SPACE), true), more));
  }

  lemma TruncatedGood(v: string)
    requires GoodValue(v)
    ensures GoodValue(Truncate(v, SPACE))
  {
  }

  lemma DispositionFaults(v: string, info: PartInfo)
    requires GoodValue(v) && Unasked(ReadItem(v).rest, DISPOSITION_NAMES)
    ensures TakeHeader(info, ATTRIBUTE, v) == None
  {
    hide Unasked, Decompose, ReadItem, GoodValue, EqualNoCase, CString;
    IsDisposition();
    ValueFaults(v);
  }

  lemma IsDisposition()
    ensures EqualNoCase(CString(ATTRIBUTE), "Content-Disposition")
  {
    hide EqualNoCase, CString;
    CStringPlain(ATTRIBUTE);
    EqualNoCaseReflexive(ATTRIBUTE);
  }

  lemma FaultingLine(stream: string, info: PartInfo, line: HeaderLine)
    requires ReadHeader(stream, Header("", "", false)) == line && line.ok
    requires TakeHeader(info, line.header.attr, line.header.value) == None
    ensures ReadHeaders(stream, info).info == None
  {
    hide ReadHeader, TakeHeader;
  }

  lemma ValueFaults(v: string)
    requires GoodValue(v) && Unasked(ReadItem(v).rest, DISPOSITION_NAMES)
    ensures Decompose(v, DISPOSITION_NAMES, SPACE) == None
  {
    CStringPlain(v);
    assert SkipWs(v) == v;
    hide Unasked, Decompose, ReadItem, CString, SkipWs;
    DecomposeFaults(v, DISPOSITION_NAMES, SPACE);
  }

  // Such a body is a form field with one more parameter.
  lemma ExtraParameterFaults(more: string, boundary: string)
    ensures ParseBody(Pattern(boundary, true) + ("\r\n" + (HeaderText("form-data; x=1") + more)), boundary)
      == Parsed(Fault, [])
  {
    ExtraParameter();
    BodyFaults("form-data; x=1", more, boundary);
  }

  lemma ExtraParameter()
    ensures var v := "form-data; x=1";
      GoodValue(v) && Truncate(v, SPACE) == v && Unasked(ReadItem(v).rest, DISPOSITION_NAMES)
  {
    var v, s, t := "form-data; x=1", "; x=1", " x=1";
    assert GoodValue(v) && Truncate(v, SPACE) == v;
    assert s[0] == ';' && s[1..] == t;
    hide *;
    ExtraItem();
    ExtraRead();
    NotAskedFor();
    UnaskedStep(s, DISPOSITION_NAMES);
  }

  lemma ExtraItem()
    ensures ReadItem("form-data; x=1").rest == "; x=1"
  {
    var v, s := "form-data; x=1", "; x=1";
    assert v == "form-data" + s && v[..9] == "form-data" && v[9..] == s;
    UptoIs(v, 9, ';');
  }

  lemma ExtraRead()
    ensures ReadParameter(" x=1").Some? && ReadParameter(" x=1").value.name == "x"
  {
    var t := "x=1";
    assert " x=1"[1..] == t && SkipWs(" x=1") == SkipWs(t) == t;
    TakeAlnumIs(t, 1);
    assert t[..1] == "x" && t[1..] == "=1" && SkipWs("=1") == "=1";
    hide SkipWs, TakeAlnum, ReadItem;
  }

  lemma NotAskedFor()
    ensures !AskedFor("x", DISPOSITION_NAMES)
  {
    assert !EqualNoCase("x", "name") && !EqualNoCase("x", "filename");
  }
}
