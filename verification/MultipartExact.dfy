/** For which fields the multipart encoding is read back: exactly those of MultipartRoundTrip. */
module MultipartExact {
  import opened Results
  import opened CStrings
  import opened MultipartStream
  import opened BoundarySearch
  import opened PreambleSearch
  import opened MultipartHeader
  import opened MultipartParser
  import opened MultipartRoundTrip

  // --------------------------------------- names that are never read from a body

  // No character at which a header line ends or goes on.
  predicate Unbroken(s: string) { forall i | 0 <= i < |s| :: s[i] !in {':', '\r', '\n'} }

  lemma {:induction false} ValueUnbroken(stream: string, h: Header)
    requires Unbroken(h.value) && (h.valueFound ==> h.attr != "")
    ensures Unbroken(ReadHeader(stream, h).header.value)
    decreases |stream|
  {
    hide SkipWs, IsSpace;
    if stream != "" && stream[0] != '\r' && stream[0] != '\n' {
      var c, rest := stream[0], stream[1..];
      if c == ':' && h.attr != "" {
        ValueUnbroken(SkipWs(rest), h.(valueFound := true));
      } else if !h.valueFound {
        ValueUnbroken(rest, if IsSpace(c) then h else h.(attr := Append(h.attr, c, SPACE)));
      } else {
        ValueUnbroken(rest, h.(value := Append(h.value, c, SPACE)));
      }
    }
  }

  lemma {:induction false} CStringUnbroken(s: string)
    requires Unbroken(s)
    ensures Plain(CString(s))
  {
    if s != "" {
      assert Unbroken(s[1..]);
      CStringUnbroken(s[1..]);
    }
  }

  lemma PlainSlice(s: string, i: nat, j: nat)
    requires Plain(s) && i <= j <= |s|
    ensures Plain(s[i..j])
  {
  }

  lemma PlainTo(s: string, t: string)
    requires Plain(s) && t <= s
    ensures Plain(t)
  {
    assert t == s[0..|t|];
    PlainSlice(s, 0, |t|);
  }

  lemma PlainFrom(s: string, i: nat)
    requires Plain(s) && i <= |s|
    ensures Plain(s[i..])
  {
    assert s[i..] == s[i..|s|];
    PlainSlice(s, i, |s|);
  }

  lemma {:induction false} PlainBehindSpaces(s: string)
    requires Plain(s)
    ensures Plain(SkipWs(s))
  {
    if s != "" && IsSpace(s[0]) {
      PlainFrom(s, 1);
      PlainBehindSpaces(s[1..]);
    }
  }

  lemma PlainItem(s: string)
    requires Plain(s)
    ensures Plain(ReadItem(s).content) && Plain(ReadItem(s).rest) && |ReadItem(s).content| <= |s|
  {
    hide Plain, Upto;
    if s != "" && s[0] == '"' {
      var content := Upto(s[1..], '"');
      PlainFrom(s, 1);
      PlainTo(s[1..], content);
      PlainFrom(s, 1 + |content|);
      PlainFrom(s[1 + |content|..], |Upto(s[1 + |content|..], ';')|);
    } else {
      PlainTo(s, Upto(s, ';'));
      PlainFrom(s, |Upto(s, ';')|);
    }
  }

  lemma PlainParameter(s: string)
    requires Plain(s) && ReadParameter(s).Some?
    ensures var item := ReadParameter(s).value.item;
      Plain(item.content) && Plain(item.rest) && |item.content| <= |s|
  {
    var t := SkipWs(s);
    var u := SkipWs(t[|TakeAlnum(t)|..]);
    hide Plain, ReadItem, TakeAlnum, SkipWs;
    PlainBehindSpaces(s);
    PlainFrom(t, |TakeAlnum(t)|);
    PlainBehindSpaces(t[|TakeAlnum(t)|..]);
    PlainFrom(u, 1);
    PlainBehindSpaces(u[1..]);
    PlainItem(SkipWs(u[1..]));
  }

  predicate AllPlain(values: seq<string>) { forall i | 0 <= i < |values| :: Plain(values[i]) }

  // The values of the parameters are plain, and each that is read is shorter than the text.
  lemma {:induction false} PlainParameters(s: string, names: seq<string>, values: seq<string>, space: nat)
    requires |values| == |names| && Plain(s) && AllPlain(values)
    ensures var r := ReadParameters(s, names, values, space);
      r.Some? ==>
        AllPlain(r.value) && forall i | 0 <= i < |names| :: r.value[i] == values[i] || |r.value[i]| < |s|
    decreases |s|
  {
    hide Plain, ReadParameter, IndexOfName, Truncate;
    if s != "" && s[0] == ';' && ReadParameter(s[1..]).Some? {
      var p := ReadParameter(s[1..]).value;
      var i := IndexOfName(p.name, names);
      PlainFrom(s, 1);
      PlainParameter(s[1..]);
      PlainTruncated(p.item.content, space);
      var values' := if i < |names| then values[i := Truncate(p.item.content, space)] else values;
      PlainParameters(p.item.rest, names, values', space);
    }
  }

  lemma PlainTruncated(s: string, space: nat)
    requires Plain(s)
    ensures Plain(Truncate(s, space)) && |Truncate(s, space)| <= |s|
  {
  }

  lemma DecomposedPlain(value: string, names: seq<string>, space: nat)
    requires Unbroken(value)
    ensures Decompose(value, names, space).Some? ==> AllPlain(Decompose(value, names, space).value.argValues)
  {
    hide Unbroken, Plain, CString, SkipWs, ReadItem, ReadParameters, Truncate;
    CStringUnbroken(value);
    PlainBehindSpaces(CString(value));
    PlainItem(SkipWs(CString(value)));
    EmptyPlain(|names|);
    PlainParameters(ReadItem(SkipWs(CString(value))).rest, names, seq(|names|, _ => ""), space);
  }

  lemma EmptyPlain(n: nat)
    ensures AllPlain(seq(n, _ => "")) && Plain("")
  {
  }

  lemma TakenPlain(info: PartInfo, attr: string, value: string)
    requires Plain(info.name) && Unbroken(value)
    ensures TakeHeader(info, attr, value).Some? ==> Plain(TakeHeader(info, attr, value).value.name)
  {
    hide Plain, Unbroken, Decompose, EqualNoCase, CString;
    DecomposedPlain(value, DISPOSITION_NAMES, SPACE);
  }

  lemma {:induction false} HeadersPlain(stream: string, info: PartInfo)
    requires Plain(info.name)
    ensures ReadHeaders(stream, info).info.Some? ==> Plain(ReadHeaders(stream, info).info.value.name)
    decreases |stream|
  {
    hide Plain, TakeHeader, ReadHeader;
    var line := ReadHeader(stream, Header("", "", false));
    ReadHeaderShrinks(stream, Header("", "", false));
    LinePlain(stream);
    if line.ok {
      TakenPlain(info, line.header.attr, line.header.value);
      var next := TakeHeader(info, line.header.attr, line.header.value);
      if next.Some? && stream != "" { HeadersPlain(line.rest, next.value); }
    }
  }

  lemma LinePlain(stream: string)
    ensures Unbroken(ReadHeader(stream, Header("", "", false)).header.value)
  {
    hide ReadHeader;
    ValueUnbroken(stream, Header("", "", false));
  }

  ghost predicate PlainEntries(entries: seq<Entry>) { forall i | 0 <= i < |entries| :: Plain(entries[i].attr) }

  // Whatever the stream, no name with a line end, a colon or a NUL is read from it.
  lemma {:induction false} EntriesPlain(stream: string, boundary: string)
    ensures PlainEntries(ReadParts(stream, boundary).entries)
    decreases |stream|
  {
    hide Plain, ReadHeaders, AfterBoundary, EqualNoCase, Pattern;
    var headers := ReadHeaders(stream, NO_INFO);
    EmptyPlain(0);
    HeadersPlain(stream, NO_INFO);
    if |stream| >= 2 && stream[..2] != "--" && headers.info.Some? {
      PatternLong(boundary, false);
      AfterBoundaryShrinks(Pattern(boundary, false), headers.rest);
      var found := AfterBoundary(Pattern(boundary, false), headers.rest);
      if found.Some? { EntriesPlain(found.value.rest, boundary); }
    }
  }

  // ------------------------------------------------------ fields that are cut short

  // Of a name with a quote, or of one that is too long, less than all is read.
  lemma NameCut(name: string)
    requires Plain(name) && !GoodName(name)
    ensures var d := Decompose(Truncate(HeaderValue(name), SPACE), DISPOSITION_NAMES, SPACE);
      d.Some? ==> d.value.mvalue == "form-data" && |d.value.argValues[0]| < |name|
  {
    HeaderValueFits(name);
    var x := Truncate(name + "\"", SPACE - 17);
    hide *;
    QuotedPlain(name);
    ContentCut(name, x);
    PlainTruncated(name + "\"", SPACE - 17);
    DecomposeNamed(x);
    NamedPlain(x);
    PlainTruncated(Named(x).content, SPACE);
    TwoPlain(Truncate(Named(x).content, SPACE));
    PlainParameters(Named(x).rest, DISPOSITION_NAMES, [Truncate(Named(x).content, SPACE), ""], SPACE);
  }

  lemma TwoPlain(s: string)
    requires Plain(s)
    ensures |DISPOSITION_NAMES| == 2 && AllPlain([s, ""])
  {
  }

  lemma QuotedPlain(name: string)
    requires Plain(name)
    ensures Plain(name + "\"")
  {
  }

  lemma NamedPlain(x: string)
    requires Plain(x)
    ensures Plain(Named(x).content) && Plain(Named(x).rest)
  {
    hide Plain, Upto;
    var n := |Upto(x, '"')|;
    PlainTo(x, Upto(x, '"'));
    PlainFrom(x, n);
    PlainFrom(x[n..], |Upto(x[n..], ';')|);
  }

  lemma ContentCut(name: string, x: string)
    requires Plain(name) && !GoodName(name) && x == Truncate(name + "\"", SPACE - 17)
    ensures |Named(x).content| < |name| && |Named(x).rest| <= |name|
  {
    hide Upto, Plain;
    var n := |Upto(x, '"')|;
    if '"' in name {
      var q :| 0 <= q < |name| && name[q] == '"';
      if q < |x| {
        assert x[q] == '"';
        UptoStops(x, '"', q);
      }
      if n < |x| { UptoSkips(x[n..], ';'); }
    }
  }

  lemma {:induction false} UptoStops(s: string, c: char, i: nat)
    requires i < |s| && s[i] == c
    ensures |Upto(s, c)| <= i
  {
    if i > 0 { UptoStops(s[1..], c, i - 1); }
  }

  lemma UptoSkips(s: string, c: char)
    requires s != "" && s[0] != c
    ensures |Upto(s, c)| > 0
  {
  }

  // Of a body in which the delimiter stands, what precedes it is read.
  lemma BodyCut(body: string, boundary: string, more: string)
    requires !GoodBody(body, boundary)
    ensures var found := AfterBoundary(Pattern(boundary, false), body + Pattern(boundary, false) + more);
      found.Some? ==> |found.value.body| < |body|
  {
    var pattern := Pattern(boundary, false);
    var text := body + pattern + more;
    PatternLong(boundary, false);
    hide Pattern, AfterLineEnd, Before;
    var i: nat :| OccursAt(pattern, body, i);
    assert text[i..i + |pattern|] == body[i..i + |pattern|];
    assert OccursAt(pattern, text, i);
    BeforeIsFirst(pattern, text);
  }

  // So the entry that such a field gives, if any, is another one.
  lemma PartCut(f: FormField, boundary: string, more: string, later: seq<Entry>)
    requires CR !in boundary && Plain(f.name) && (GoodName(f.name) ==> !GoodBody(f.body, boundary))
    ensures ReadParts(EncodePart(f, boundary) + more, boundary)
      != Parsed(Success, [Entry(f.name, "", "", f.body)] + later)
  {
    hide *;
    ReadPartsStep(EncodePart(f, boundary) + more, boundary);
    PartShape(f, boundary, more);
    StartsPart(EncodePart(f, boundary) + more);
    ReadHeadersOfPart(f, f.body + Pattern(boundary, false) + more);
    EqualNoCaseReflexive("form-data");
    if GoodName(f.name) {
      DecomposeHeaderValue(f.name);
      BodyCut(f.body, boundary, more);
    } else {
      NameCut(f.name);
    }
    forall entry: Entry, parsed: Parsed | entry.attr != f.name || entry.content != f.body
      ensures Behind([entry], parsed) != Parsed(Success, [Entry(f.name, "", "", f.body)] + later)
    {
      OtherEntry(entry, parsed, Entry(f.name, "", "", f.body), later);
    }
  }

  lemma OtherEntry(a: Entry, parsed: Parsed, b: Entry, later: seq<Entry>)
    requires a != b
    ensures Behind([a], parsed) != Parsed(Success, [b] + later)
  {
    assert ([a] + parsed.entries)[0] == a && ([b] + later)[0] == b;
  }

  // -------------------------------------------------------------- main result

  ghost predicate Good(f: FormField, boundary: string) { GoodName(f.name) && GoodBody(f.body, boundary) }

  lemma {:induction false} ReadPartsExactly(fields: seq<FormField>, boundary: string)
    requires CR !in boundary && forall i | 0 <= i < |fields| :: Plain(fields[i].name)
    ensures ReadParts(AfterDelimiter(fields, boundary), boundary) == Parsed(Success, Entries(fields))
      <==> forall i | 0 <= i < |fields| :: Good(fields[i], boundary)
  {
    if fields == [] {
      assert "--\r\n"[..2] == "--";
    } else {
      var f, rest := fields[0], fields[1..];
      var later := ReadParts(AfterDelimiter(rest, boundary), boundary);
      EntriesCons(fields);
      AfterDelimiterIs(fields, boundary);
      ReadPartsExactly(rest, boundary);
      hide ReadParts, EncodePart, EncodeParts, AfterDelimiter, Entries, GoodName, GoodBody, Plain;
      if Good(f, boundary) {
        LineEndBeforePart(rest, boundary);
        ReadEncodedPart(f, boundary, EncodeParts(rest, boundary), AfterDelimiter(rest, boundary));
        BehindOne(Entry(f.name, "", "", f.body), later, Entries(rest));
        assert forall i | 0 < i < |fields| :: fields[i] == rest[i - 1];
        assert forall i | 0 <= i < |rest| :: rest[i] == fields[i + 1];
      } else {
        PartCut(f, boundary, EncodeParts(rest, boundary), Entries(rest));
      }
    }
  }

  lemma BehindOne(entry: Entry, later: Parsed, entries: seq<Entry>)
    ensures Behind([entry], later) == Parsed(Success, [entry] + entries) <==> later == Parsed(Success, entries)
  {
    assert ([entry] + later.entries)[1..] == later.entries && ([entry] + entries)[1..] == entries;
  }

  // Parsing the encoding of a list of fields yields the list if and only if every name is
  // good and no body has the delimiter in it.
  lemma ParseEncodedExactly(fields: seq<FormField>, boundary: string)
    requires CR !in boundary
    ensures ParseBody(Encode(fields, boundary), boundary) == Parsed(Success, Entries(fields))
      <==> forall i | 0 <= i < |fields| :: GoodName(fields[i].name) && GoodBody(fields[i].body, boundary)
  {
    ParseEncodedBody(fields, boundary);
    hide ParseBody, ReadParts, GoodBody;
    if forall i | 0 <= i < |fields| :: Plain(fields[i].name) {
      ReadPartsExactly(fields, boundary);
      assert forall f | f in fields :: Good(f, boundary) <==> GoodName(f.name) && GoodBody(f.body, boundary);
    } else {
      EntriesPlain(AfterDelimiter(fields, boundary), boundary);
      var i :| 0 <= i < |fields| && !Plain(fields[i].name);
      assert Entries(fields)[i].attr == fields[i].name && !GoodName(fields[i].name);
    }
  }
}
