/** Reading parts with any headers: file names, content types, other headers and parts that are no form data. */
module MultipartFields {
  import opened Results
  import opened CStrings
  import opened MultipartStream
  import opened BoundarySearch
  import opened PreambleSearch
  import opened MultipartHeader
  import opened MultipartParser
  import opened MultipartRoundTrip

  // ------------------------------------------------------------ what is written

  // Equal but for the case of letters.
  predicate Alike(a: string, b: string) {
    |a| == |b| && forall i | 0 <= i < |a| :: ToLower(a[i]) == ToLower(b[i])
  }

  // A parameter behind a semicolon, with white space around its name and its sign, and
  // with quotes or without. What stands behind the quotes is ignored.
  datatype Param = Param(before: string, name: string, between: string, behind: string,
                         content: string, quoted: bool, junk: string)

  function ParamText(p: Param): string {
    ";" + (p.before + (p.name + (p.between + ("=" + (p.behind + ContentText(p))))))
  }

  function ContentText(p: Param): string {
    if p.quoted then "\"" + (p.content + ("\"" + p.junk)) else p.content
  }

  function ParamsText(params: seq<Param>): string {
    if params == [] then "" else ParamText(params[0]) + ParamsText(params[1..])
  }

  // Text that is not taken for the start of a quoted string, nor for white space.
  predicate Bare(s: string) { ';' !in s && (s != "" ==> s[0] != '"' && !IsSpace(s[0])) }

  predicate GoodParam(p: Param) {
    Blank(p.before) && Blank(p.between) && Blank(p.behind)
    && (Alike(p.name, "name") || Alike(p.name, "filename")) && |p.content| <= 1023
    && if p.quoted then '"' !in p.content && ';' !in p.junk else Bare(p.content)
  }

  predicate GoodParams(params: seq<Param>) { forall i | 0 <= i < |params| :: GoodParam(params[i]) }

  // The header lines of a part: a disposition, a content type with anything behind its
  // first semicolon, or any other line.
  datatype Line =
    | Disposition(attr: string, gap: string, kind: string, params: seq<Param>, end: string)
    | ContentType(attr: string, gap: string, kind: string, more: string, end: string)
    | Other(attr: string, gap: string, value: string, end: string)

  function ValueOf(line: Line): string {
    match line
    case Disposition(_, _, kind, params, _) => kind + ParamsText(params)
    case ContentType(_, _, kind, more, _) => kind + more
    case Other(_, _, value, _) => value
  }

  function TextOf(line: Line): string { LineText(line.attr, line.gap, ValueOf(line), line.end) }

  predicate GoodLine(line: Line) {
    GoodAttribute(line.attr) && Blank(line.gap) && EndsLine(line.end)
    && GoodValue(ValueOf(line)) && |ValueOf(line)| <= 1023
    && match line
       case Disposition(attr, _, kind, params, _) =>
         Alike(attr, "Content-Disposition") && Bare(kind) && GoodParams(params)
       case ContentType(attr, _, kind, more, _) =>
         Alike(attr, "Content-Type") && Bare(kind) && (more != "" ==> more[0] == ';')
       case Other(attr, _, _, _) =>
         !Alike(attr, "Content-Disposition") && !Alike(attr, "Content-Type") && !("--" <= attr)
  }

  predicate GoodLines(lines: seq<Line>) { forall i | 0 <= i < |lines| :: GoodLine(lines[i]) }

  // A part, with what stands between the delimiter before it and its header lines.
  datatype Part = Part(behind: string, lines: seq<Line>, body: string)

  // Behind a delimiter comes a line end, or any two characters, or nothing in front of a
  // header that starts with a dash.
  predicate GoodBehind(part: Part) {
    (|part.behind| == 2 && part.behind[0] != '-')
    || (part.behind == "" && part.lines != [] && part.lines[0].attr != "" && part.lines[0].attr[0] == '-')
  }

  function LinesText(lines: seq<Line>): string {
    if lines == [] then "" else TextOf(lines[0]) + LinesText(lines[1..])
  }

  function PartText(part: Part, boundary: string): string {
    LinesText(part.lines) + ("\r\n" + (part.body + Pattern(boundary, false)))
  }

  // What follows a delimiter: another part, or the tail.
  function PartsText(parts: seq<Part>, boundary: string, tail: string): string {
    if parts == [] then tail
    else parts[0].behind + (PartText(parts[0], boundary) + PartsText(parts[1..], boundary, tail))
  }

  // A whole body.
  function BodyText(parts: seq<Part>, boundary: string, tail: string): string {
    Pattern(boundary, true) + PartsText(parts, boundary, tail)
  }

  ghost predicate GoodPart(part: Part, boundary: string) {
    GoodBehind(part) && GoodLines(part.lines) && GoodBody(part.body, boundary)
  }

  // ---------------------------------------------------------------- what it says

  // The value of the last parameter with a name.
  function LastValue(params: seq<Param>, name: string, otherwise: string): string {
    if params == [] then otherwise
    else LastValue(params[1..], name, if Alike(params[0].name, name) then params[0].content else otherwise)
  }

  // What the lines say, the last of its kind where there are several.
  function Told(lines: seq<Line>, info: PartInfo): PartInfo {
    if lines == [] then info
    else Told(lines[1..], match lines[0]
      case Disposition(_, _, kind, params, _) =>
        info.(disposition := kind, name := LastValue(params, "name", ""),
              fileName := LastValue(params, "filename", ""))
      case ContentType(_, _, kind, _, _) => info.(contentType := kind)
      case Other(_, _, _, _) => info)
  }

  // A part that is form data gives an entry, any other part gives none.
  function EntryOf(part: Part): seq<Entry> {
    var info := Told(part.lines, NO_INFO);
    if Alike(info.disposition, "form-data") then [Entry(info.name, info.fileName, info.contentType, part.body)] else []
  }

  function EntriesOf(parts: seq<Part>): seq<Entry> {
    if parts == [] then [] else EntryOf(parts[0]) + EntriesOf(parts[1..])
  }

  // ------------------------------------------------------------------- parameters

  lemma AlikeIs(a: string, b: string)
    ensures Alike(a, b) <==> EqualNoCase(a, b)
  {
    EqualNoCaseExactly(a, b);
  }

  lemma {:induction false} AlnumName(name: string, key: string)
    requires Alike(name, key) && forall i | 0 <= i < |key| :: IsAlnum(key[i])
    ensures forall i | 0 <= i < |name| :: IsAlnum(name[i])
  {
    forall i | 0 <= i < |name| ensures IsAlnum(name[i]) {
      assert IsAlnum(key[i]) && ToLower(name[i]) == ToLower(key[i]);
    }
  }

  lemma NameOf(p: Param)
    requires GoodParam(p)
    ensures p.name != "" && |p.name| <= 8 && forall i | 0 <= i < |p.name| :: IsAlnum(p.name[i])
  {
    if Alike(p.name, "name") { AlnumName(p.name, "name"); } else { AlnumName(p.name, "filename"); }
  }

  // A text that ends a parameter: nothing, or the next semicolon.
  predicate Next(s: string) { s != "" ==> s[0] == ';' }

  lemma UptoAll(s: string, c: char, rest: string)
    requires c !in s && (rest != "" ==> rest[0] == c)
    ensures Upto(s + rest, c) == s
  {
    forall i | 0 <= i < |s| ensures (s + rest)[i] != c { assert s[i] in s; }
    UptoIs(s + rest, |s|, c);
  }

  lemma ReadBare(s: string, rest: string)
    requires Bare(s) && Next(rest)
    ensures ReadItem(s + rest) == Item(s, rest)
  {
    hide Upto;
    UptoAll(s, ';', rest);
    assert (s + rest)[|s|..] == rest;
  }

  lemma ReadQuoted(s: string, junk: string, rest: string)
    requires '"' !in s && ';' !in junk && Next(rest)
    ensures ReadItem("\"" + (s + ("\"" + junk)) + rest) == Item(s, rest)
  {
    hide Upto;
    var tail := "\"" + (junk + rest);
    var text := "\"" + (s + ("\"" + junk)) + rest;
    assert text == "\"" + (s + tail) && text[1..] == s + tail;
    UptoAll(s, '"', tail);
    assert text[1 + |s|..] == tail;
    assert tail == ("\"" + junk) + rest;
    forall c | c in "\"" + junk ensures c != ';' {}
    UptoAll("\"" + junk, ';', rest);
    assert tail[|"\"" + junk|..] == rest;
  }

  lemma ReadContent(p: Param, rest: string)
    requires GoodParam(p) && Next(rest)
    ensures ReadItem(SkipWs(p.behind + (ContentText(p) + rest))) == Item(p.content, rest)
  {
    var text := ContentText(p) + rest;
    SkipBlank(p.behind, text);
    assert SkipWs(text) == text by {
      if p.quoted { assert text[0] == '"'; }
    }
    if p.quoted { ReadQuoted(p.content, p.junk, rest); } else { ReadBare(p.content, rest); }
  }

  lemma ReadName(p: Param, rest: string)
    requires GoodParam(p)
    ensures var s := p.before + (p.name + (p.between + ("=" + rest)));
      var t := SkipWs(s);
      TakeAlnum(t) == p.name && SkipWs(t[|p.name|..]) == "=" + rest
  {
    NameOf(p);
    var u := p.between + ("=" + rest);
    var t := p.name + u;
    SkipBlank(p.before, t);
    assert SkipWs(t) == t by { assert t[0] == p.name[0] && IsAlnum(t[0]); }
    SkipBlank(p.between, "=" + rest);
    assert SkipWs("=" + rest) == "=" + rest;
    assert t[..|p.name|] == p.name && t[|p.name|..] == u;
    assert !IsAlnum(u[0]);
    hide SkipWs, TakeAlnum;
    TakeAlnumIs(t, |p.name|);
  }

  // Behind its semicolon, up to where its content starts.
  function AfterSemicolon(p: Param, rest: string): string {
    p.before + (p.name + (p.between + ("=" + (p.behind + (ContentText(p) + rest)))))
  }

  lemma ParamTextIs(p: Param, rest: string)
    ensures ParamText(p) + rest == ";" + AfterSemicolon(p, rest)
    ensures (ParamText(p) + rest)[1..] == AfterSemicolon(p, rest)
  {
    hide ContentText;
  }

  lemma ShortName(p: Param)
    requires GoodParam(p)
    ensures Truncate(p.name, SPACE) == p.name
  {
    NameOf(p);
  }

  lemma ParameterIs(s: string, name: string, behind: string, item: Item)
    requires var t := SkipWs(s); TakeAlnum(t) == name && SkipWs(t[|name|..]) == "=" + behind
    requires Truncate(name, SPACE) == name && ReadItem(SkipWs(behind)) == item
    ensures ReadParameter(s) == Some(Parameter(name, item))
  {
    hide SkipWs, TakeAlnum, ReadItem, Truncate;
    assert ("=" + behind)[0] == '=' && ("=" + behind)[1..] == behind;
  }

  lemma ReadParam(p: Param, rest: string)
    requires GoodParam(p) && Next(rest)
    ensures ReadParameter((ParamText(p) + rest)[1..]) == Some(Parameter(p.name, Item(p.content, rest)))
  {
    var behind := p.behind + (ContentText(p) + rest);
    assert AfterSemicolon(p, rest) == p.before + (p.name + (p.between + ("=" + behind)));
    hide *;
    ParamTextIs(p, rest);
    ShortName(p);
    ReadName(p, behind);
    ReadContent(p, rest);
    ParameterIs(AfterSemicolon(p, rest), p.name, behind, Item(p.content, rest));
  }

  lemma FoundName(name: string)
    requires Alike(name, "name") || Alike(name, "filename")
    ensures IndexOfName(name, DISPOSITION_NAMES) == if Alike(name, "name") then 0 else 1
    ensures !(Alike(name, "name") && Alike(name, "filename"))
  {
    AlikeIs(name, "name");
    AlikeIs(name, "filename");
    hide EqualNoCase;
    assert DISPOSITION_NAMES[1..] == ["filename"] && ["filename"][0] == "filename";
  }

  lemma StartsNext(params: seq<Param>)
    ensures Next(ParamsText(params))
  {
  }

  lemma {:induction false} ReadParams(params: seq<Param>, name: string, fileName: string)
    requires GoodParams(params)
    ensures ReadParameters(ParamsText(params), DISPOSITION_NAMES, [name, fileName], SPACE)
         == Some([LastValue(params, "name", name), LastValue(params, "filename", fileName)])
    decreases |params|
  {
    if params != [] {
      ParamsUnfold(params);
      var p, later := params[0], params[1..];
      hide *;
      StartsNext(later);
      ReadParam(p, ParamsText(later));
      TakenParam(p, ParamsText(later), name, fileName);
      var isName := Alike(p.name, "name");
      ReadParams(later, if isName then p.content else name, if isName then fileName else p.content);
      LastValueStep(params, "name", name);
      LastValueStep(params, "filename", fileName);
      FoundName(p.name);
    }
  }

  lemma LastValueStep(params: seq<Param>, name: string, otherwise: string)
    requires params != []
    ensures LastValue(params, name, otherwise)
      == LastValue(params[1..], name, if Alike(params[0].name, name) then params[0].content else otherwise)
  {
  }

  lemma ParamsUnfold(params: seq<Param>)
    requires params != [] && GoodParams(params)
    ensures GoodParam(params[0]) && GoodParams(params[1..])
    ensures Alike(params[0].name, "name") || Alike(params[0].name, "filename")
    ensures ParamsText(params) == ParamText(params[0]) + ParamsText(params[1..])
  {
  }

  lemma ShortContent(p: Param)
    requires GoodParam(p)
    ensures Truncate(p.content, SPACE) == p.content && |DISPOSITION_NAMES| == 2
  {
  }

  lemma TakenParam(p: Param, rest: string, name: string, fileName: string)
    requires GoodParam(p) && (Alike(p.name, "name") || Alike(p.name, "filename"))
    requires ReadParameter((ParamText(p) + rest)[1..]) == Some(Parameter(p.name, Item(p.content, rest)))
    ensures ReadParameters(ParamText(p) + rest, DISPOSITION_NAMES, [name, fileName], SPACE)
         == ReadParameters(rest, DISPOSITION_NAMES,
              if Alike(p.name, "name") then [p.content, fileName] else [name, p.content], SPACE)
  {
    ShortContent(p);
    ParamStarts(p, rest);
    hide *;
    FoundName(p.name);
    Replaced(name, fileName, p.content);
    NextParameter(ParamText(p) + rest, DISPOSITION_NAMES, [name, fileName], Parameter(p.name, Item(p.content, rest)));
  }

  lemma Replaced(name: string, fileName: string, content: string)
    ensures [name, fileName][0 := content] == [content, fileName]
    ensures [name, fileName][1 := content] == [name, content]
  {
  }

  lemma ParamStarts(p: Param, rest: string)
    ensures var s := ParamText(p) + rest; s != "" && s[0] == ';' && |rest| < |s|
  {
  }

  // ----------------------------------------------------------------- header values

  lemma ValuePlain(line: Line)
    requires GoodLine(line)
    ensures CString(ValueOf(line)) == ValueOf(line) && SkipWs(ValueOf(line)) == ValueOf(line)
    ensures Truncate(ValueOf(line), SPACE) == ValueOf(line) && CString(line.attr) == line.attr
  {
    CStringPlain(ValueOf(line));
    CStringPlain(line.attr);
  }

  lemma DecomposeDisposition(line: Line)
    requires GoodLine(line) && line.Disposition?
    ensures Decompose(ValueOf(line), DISPOSITION_NAMES, SPACE) ==
      Some(Decomposed(line.kind, [LastValue(line.params, "name", ""), LastValue(line.params, "filename", "")]))
  {
    ValuePlain(line);
    StartsNext(line.params);
    ReadBare(line.kind, ParamsText(line.params));
    ReadParams(line.params, "", "");
    assert Truncate(line.kind, SPACE) == line.kind;
    hide GoodLine, ReadItem, ReadParameters, CString, SkipWs, Truncate, LastValue;
    assert seq(|DISPOSITION_NAMES|, _ => "") == ["", ""];
  }

  lemma DecomposeType(line: Line)
    requires GoodLine(line) && line.ContentType?
    ensures Decompose(ValueOf(line), [], 0).Some? && Decompose(ValueOf(line), [], 0).value.mvalue == line.kind
  {
    ValuePlain(line);
    ReadBare(line.kind, line.more);
    assert Truncate(line.kind, SPACE) == line.kind;
    hide GoodLine, ReadItem, ReadParameters, CString, SkipWs, Truncate, Unasked;
    DecomposeFaults(ValueOf(line), [], 0);
  }

  lemma LineTaken(line: Line, info: PartInfo)
    requires GoodLine(line)
    ensures TakeHeader(info, line.attr, ValueOf(line)) == Some(Told([line], info))
  {
    ValuePlain(line);
    AlikeIs(line.attr, "Content-Disposition");
    AlikeIs(line.attr, "Content-Type");
    OneKind(line.attr);
    assert [line][1..] == [];
    match line
    case Disposition(_, _, _, _, _) =>
      DecomposeDisposition(line);
      hide ValueOf, Decompose, EqualNoCase, CString, LastValue;
    case ContentType(_, _, _, _, _) =>
      DecomposeType(line);
      hide ValueOf, Decompose, EqualNoCase, CString;
    case Other(_, _, _, _) =>
  }

  lemma OneKind(attr: string)
    ensures !(Alike(attr, "Content-Disposition") && Alike(attr, "Content-Type"))
  {
  }

  lemma ToldStep(lines: seq<Line>, info: PartInfo)
    requires lines != []
    ensures Told(lines, info) == Told(lines[1..], Told([lines[0]], info))
  {
    assert [lines[0]][1..] == [];
  }

  // The header lines of a part say what they are meant to say.
  lemma {:induction false} ReadLines(lines: seq<Line>, info: PartInfo, after: string)
    requires GoodLines(lines)
    ensures ReadHeaders(LinesText(lines) + ("\r\n" + after), info) == Headers(Some(Told(lines, info)), after)
    decreases |lines|
  {
    hide GoodLine, ReadHeader, TakeHeader, Told;
    if lines == [] {
      assert LinesText(lines) + ("\r\n" + after) == "\r\n" + after && EndsLine("\r\n");
      LineEnd("\r\n", after, Header("", "", false));
      assert Told([], info) == info by { NothingTold(info); }
    } else {
      var line, rest := lines[0], LinesText(lines[1..]) + ("\r\n" + after);
      LinesUnfold(lines, "\r\n" + after);
      ReadLine(line, rest);
      LineTaken(line, info);
      ReadLines(lines[1..], Told([line], info), after);
      ToldStep(lines, info);
    }
  }

  lemma NothingTold(info: PartInfo)
    ensures Told([], info) == info
  {
  }

  lemma ReadLine(line: Line, rest: string)
    requires GoodLine(line)
    ensures ReadHeader(TextOf(line) + rest, Header("", "", false))
         == HeaderLine(true, Header(line.attr, ValueOf(line), true), rest)
  {
    ValuePlain(line);
    hide ReadHeader, ValueOf, Truncate, GoodValue, EndsLine, Blank, GoodAttribute;
    ReadLineText(line.attr, line.gap, ValueOf(line), line.end, rest);
  }

  // ------------------------------------------------------------------------- parts

  // No header line starts with the end mark.
  lemma LinesStart(lines: seq<Line>, after: string)
    requires GoodLines(lines)
    ensures PartStarts(LinesText(lines) + ("\r\n" + after))
  {
    if lines == [] {
      assert LinesText(lines) + ("\r\n" + after) == "\r\n" + after;
      assert ("\r\n" + after)[..2][0] == '\r';
    } else {
      LinesUnfold(lines, "\r\n" + after);
      hide *;
      NoMark(lines[0]);
      LineStarts(lines[0], LinesText(lines[1..]) + ("\r\n" + after));
    }
  }

  lemma LinesUnfold(lines: seq<Line>, after: string)
    requires lines != [] && GoodLines(lines)
    ensures GoodLine(lines[0]) && GoodLines(lines[1..])
    ensures LinesText(lines) + after == TextOf(lines[0]) + (LinesText(lines[1..]) + after)
  {
    hide GoodLine, TextOf;
  }

  lemma NoMark(line: Line)
    requires GoodLine(line)
    ensures line.attr != "" && !("--" <= line.attr)
  {
    if !line.Other? { assert ToLower(line.attr[0]) == 'c'; }
  }

  lemma LineStarts(line: Line, rest: string)
    requires line.attr != "" && !("--" <= line.attr)
    ensures PartStarts(TextOf(line) + rest)
  {
    hide ValueOf;
    var attr, stream := line.attr, TextOf(line) + rest;
    assert stream[0] == attr[0] && stream[1] == (attr + ":")[1];
    if |attr| >= 2 { assert stream[..2] == attr[..2]; } else { assert stream[..2][1] == ':'; }
  }

  lemma PartTextIs(part: Part, boundary: string, more: string)
    ensures PartText(part, boundary) + more
         == LinesText(part.lines) + ("\r\n" + (part.body + Pattern(boundary, false) + more))
  {
    hide LinesText, Pattern;
  }

  lemma ReadPart(part: Part, boundary: string, more: string, rest: string)
    requires CR !in boundary && GoodPart(part, boundary) && AfterLineEnd(more) == Some(rest)
    ensures ReadParts(PartText(part, boundary) + more, boundary)
         == Behind(EntryOf(part), ReadParts(rest, boundary))
  {
    assert GoodLines(part.lines) && GoodBody(part.body, boundary);
    hide *;
    var after := part.body + Pattern(boundary, false) + more;
    var stream := PartText(part, boundary) + more;
    PartTextIs(part, boundary, more);
    ReadPartsStep(stream, boundary);
    LinesStart(part.lines, after);
    StartsPart(stream);
    ReadLines(part.lines, NO_INFO, after);
    BodyFound(part.body, boundary, more, rest);
    AlikeIs(Told(part.lines, NO_INFO).disposition, "form-data");
    EntryOfIs(part);
    BehindNothing(ReadParts(rest, boundary));
  }

  lemma EntryOfIs(part: Part)
    ensures var info := Told(part.lines, NO_INFO);
      EntryOf(part) == if Alike(info.disposition, "form-data")
        then [Entry(info.name, info.fileName, info.contentType, part.body)] else []
  {
  }

  ghost predicate GoodParts(parts: seq<Part>, boundary: string) {
    forall i | 0 <= i < |parts| :: GoodPart(parts[i], boundary)
  }

  lemma DashStarts(part: Part, boundary: string, more: string)
    requires part.lines != [] && part.lines[0].attr != "" && part.lines[0].attr[0] == '-'
    ensures var s := PartText(part, boundary) + more; |s| >= 2 && s[0] == '-'
  {
    var line := part.lines[0];
    assert LinesText(part.lines) == TextOf(line) + LinesText(part.lines[1..]);
    hide LinesText, ValueOf, Pattern;
    assert TextOf(line)[0] == '-' && |TextOf(line)| >= 2;
  }

  lemma BehindDelimiter(part: Part, boundary: string, more: string)
    requires GoodBehind(part)
    ensures AfterLineEnd(part.behind + (PartText(part, boundary) + more)) == Some(PartText(part, boundary) + more)
  {
    var text := PartText(part, boundary) + more;
    if part.behind == "" {
      DashStarts(part, boundary, more);
      hide PartText;
      assert "" + text == text && text[..2][0] == '-';
    } else {
      hide PartText;
      var s := part.behind + text;
      assert s[0] == part.behind[0] && s[2..] == text;
    }
  }

  lemma PartsStep(parts: seq<Part>, boundary: string, tail: string)
    requires parts != [] && GoodBehind(parts[0])
    ensures AfterLineEnd(PartsText(parts, boundary, tail))
         == Some(PartText(parts[0], boundary) + PartsText(parts[1..], boundary, tail))
  {
    hide PartText, AfterLineEnd, GoodBehind;
    BehindDelimiter(parts[0], boundary, PartsText(parts[1..], boundary, tail));
  }

  lemma PartBehind(part: Part, boundary: string)
    requires GoodPart(part, boundary)
    ensures GoodBehind(part)
  {
  }

  // The parts give their entries, and the tail is read behind them.
  lemma {:induction false} ReadAllParts(parts: seq<Part>, boundary: string, tail: string, rest: string)
    requires CR !in boundary && GoodParts(parts, boundary) && AfterLineEnd(tail) == Some(rest)
    ensures var text := AfterLineEnd(PartsText(parts, boundary, tail));
      text.Some? && ReadParts(text.value, boundary) == Behind(EntriesOf(parts), ReadParts(rest, boundary))
    decreases |parts|
  {
    hide GoodPart, ReadParts, PartText, EntryOf, AfterLineEnd;
    if parts == [] {
      BehindNothing(ReadParts(rest, boundary));
    } else {
      var later := parts[1..];
      assert GoodBehind(parts[0]) by { PartBehind(parts[0], boundary); }
      hide PartsText;
      PartsStep(parts, boundary, tail);
      ReadAllParts(later, boundary, tail, rest);
      var more := PartsText(later, boundary, tail);
      ReadPart(parts[0], boundary, more, AfterLineEnd(more).value);
      BehindTwice(EntryOf(parts[0]), EntriesOf(later), ReadParts(rest, boundary));
    }
  }

  lemma ReadBody(parts: seq<Part>, boundary: string, tail: string, rest: string)
    requires CR !in boundary && GoodParts(parts, boundary) && AfterLineEnd(tail) == Some(rest)
    ensures ParseBody(BodyText(parts, boundary, tail), boundary)
         == Behind(EntriesOf(parts), ReadParts(rest, boundary))
  {
    var p, text := Pattern(boundary, true), PartsText(parts, boundary, tail);
    var body := p + text;
    assert body == "" + p + text;
    assert Before(p, body) == Some("");
    StartsClean(p, body);
    hide GoodParts, ParseBody, ReadParts, PartsText, Pattern, EntriesOf, AfterLineEnd;
    ParseBodyFromFirst(body, boundary);
    ExactAfter(p, body, Some(Found("", text)));
    ReadAllParts(parts, boundary, tail, rest);
  }

  // Any list of parts is read as what its header lines say: names, file names, content
  // types and bodies of the parts that are form data, in order. Names of headers and of
  // parameters may be in any case, parameters in any order and spacing, with quotes or
  // without, lines of other headers may stand anywhere, and any text behind the end mark.
  // A delimiter swallows the two characters behind it even where they are no line end.
  lemma ParseFields(parts: seq<Part>, boundary: string, epilogue: string)
    requires CR !in boundary && GoodParts(parts, boundary)
    ensures ParseBody(BodyText(parts, boundary, "--" + epilogue), boundary) == Parsed(Success, EntriesOf(parts))
  {
    var tail := "--" + epilogue;
    assert tail[..2] == "--" && AfterLineEnd(tail) == Some(tail);
    assert EntriesOf(parts) + [] == EntriesOf(parts);
    hide GoodParts, ParseBody, BodyText, EntriesOf, AfterLineEnd;
    ReadBody(parts, boundary, tail, tail);
  }

  // A body that breaks off within a part is an error, with the entries of the parts before.
  lemma ParseCutShort(parts: seq<Part>, lines: seq<Line>, cut: string, boundary: string)
    requires CR !in boundary && GoodParts(parts, boundary) && GoodLines(lines) && GoodBody(cut, boundary)
    ensures ParseBody(BodyText(parts, boundary, "\r\n" + (LinesText(lines) + ("\r\n" + cut))), boundary)
         == Parsed(IOError, EntriesOf(parts))
  {
    var stream := LinesText(lines) + ("\r\n" + cut);
    assert EntriesOf(parts) + [] == EntriesOf(parts);
    NoDelimiter(cut, boundary);
    hide *;
    AfterCrLf(stream);
    ReadBody(parts, boundary, "\r\n" + stream, stream);
    ReadPartsStep(stream, boundary);
    LinesStart(lines, cut);
    StartsPart(stream);
    ReadLines(lines, NO_INFO, cut);
    BehindIs(EntriesOf(parts), IOError, []);
  }

  lemma NoDelimiter(cut: string, boundary: string)
    requires GoodBody(cut, boundary)
    ensures AfterBoundary(Pattern(boundary, false), cut) == None
  {
    hide Pattern, AfterLineEnd, Before;
    PatternLong(boundary, false);
    OccursBehind(Pattern(boundary, false), cut);
  }

  lemma OccursBehind(pattern: string, text: string)
    requires pattern != ""
    ensures Before(pattern, text).Some? ==> OccursAt(pattern, text, |Before(pattern, text).value|)
  {
    BeforeIsFirst(pattern, text);
  }
}
