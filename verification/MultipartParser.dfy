/** cgiParsePostMultipartInput, and the encoding it undoes (RFC 2046 section 5.1.1, RFC 7578 section 4). */
module MultipartParser {
  import opened Arithmetic
  import opened Results
  import opened CStrings
  import opened MultipartStream
  import opened BoundarySearch
  import opened PreambleSearch
  import opened MultipartHeader

  // A form entry. For a file upload the content is what goes to the temporary file.
  datatype Entry = Entry(attr: string, fileName: string, contentType: string, content: string)

  // Fault: a header parameter made decomposeValue write through a null pointer.
  datatype Outcome = Success | IOError | Fault

  datatype Parsed = Parsed(outcome: Outcome, entries: seq<Entry>)

  // What the headers of a part have said so far.
  datatype PartInfo = PartInfo(disposition: string, name: string, fileName: string, contentType: string)

  const NO_INFO := PartInfo("", "", "", "")

  const DISPOSITION_NAMES := ["name", "filename"]

  function TakeHeader(info: PartInfo, attr: string, value: string): Option<PartInfo> {
    if EqualNoCase(CString(attr), "Content-Disposition") then
      match Decompose(value, DISPOSITION_NAMES, SPACE)
      case None => None
      case Some(d) =>
        Some(info.(disposition := d.mvalue, name := d.argValues[0], fileName := d.argValues[1]))
    else if EqualNoCase(CString(attr), "Content-Type") then
      match Decompose(value, [], 0)
      case None => None
      case Some(Decomposed(mvalue, _)) => Some(info.(contentType := mvalue))
    else Some(info)
  }

  datatype Headers = Headers(info: Option<PartInfo>, rest: string)

  // The header lines up to the one that is not ok.
  function ReadHeaders(stream: string, info: PartInfo): (r: Headers)
    ensures |r.rest| <= |stream|
    decreases |stream|
  {
    ReadHeaderShrinks(stream, Header("", "", false));
    var line := ReadHeader(stream, Header("", "", false));
    if !line.ok then Headers(Some(info), line.rest)
    else match TakeHeader(info, line.header.attr, line.header.value)
      case None => Headers(None, line.rest)
      case Some(info') => if stream == "" then Headers(Some(info'), "") else ReadHeaders(line.rest, info')
  }

  // The parts from a position just behind a boundary.
  function ReadParts(stream: string, boundary: string): Parsed
    decreases |stream|
  {
    if |stream| < 2 || stream[..2] == "--" then Parsed(Success, [])
    else
      var headers := ReadHeaders(stream, NO_INFO);
      match headers.info
      case None => Parsed(Fault, [])
      case Some(info) =>
        match AfterBoundary(Pattern(boundary, false), headers.rest)
        case None => Parsed(IOError, [])
        case Some(found) =>
          AfterBoundaryShrinks(Pattern(boundary, false), headers.rest);
          var more := ReadParts(found.rest, boundary);
          if !EqualNoCase(info.disposition, "form-data") then more
          else Parsed(more.outcome,
                      [Entry(info.name, info.fileName, info.contentType, found.body)] + more.entries)
  }

  lemma AfterBoundaryShrinks(pattern: string, stream: string)
    requires pattern != ""
    ensures match AfterBoundary(pattern, stream)
      case None => true
      case Some(found) => |found.rest| < |stream|
  {
    BeforeIsFirst(pattern, stream);
  }

  // A whole body, from where the search for the first boundary stops.
  function ParseBody(body: string, boundary: string): Parsed {
    match NextBoundary(Pattern(boundary, true), "", body)
    case None => Parsed(Success, [])
    case Some(found) => ReadParts(found.rest, boundary)
  }

  // Whatever the boundary, a body is read from its first delimiter if no false start of it
  // comes before, and so from its beginning if it begins with the delimiter.
  lemma ParseBodyFromFirst(body: string, boundary: string)
    requires NoFalseStart(Pattern(boundary, true), body)
    ensures ParseBody(body, boundary) == match AfterBoundary(Pattern(boundary, true), body)
      case None => Parsed(Success, [])
      case Some(found) => ReadParts(found.rest, boundary)
  {
    NextBoundaryFirst(boundary, body);
  }

  // With dashes at the start of the boundary only: a body is read from its first delimiter
  // behind an even number of false starts, and otherwise as what follows that delimiter,
  // so that everything up to the next one is lost.
  lemma ParseBodyExactly(body: string, boundary: string)
    requires PlainTail(boundary)
    ensures var pattern := Pattern(boundary, true);
      match Before(pattern, body)
      case None => ParseBody(body, boundary) == Parsed(Success, [])
      case Some(preamble) =>
        |preamble| + |pattern| <= |body|
        && var more := body[|preamble| + |pattern|..];
           ParseBody(body, boundary)
           == if FalseStarts(pattern, preamble) % 2 == 1 then ParseBody(more, boundary)
              else match AfterLineEnd(more)
                case None => Parsed(Success, [])
                case Some(rest) => ReadParts(rest, boundary)
  {
    NextBoundaryExactly(boundary, body);
    hide Before, FalseStarts, PlainTail, NextBoundary, ReadParts, AfterLineEnd;
  }

  // ------------------------------------------------------------- the parser

  method TakeHeaders(mpp: MpStream) returns (info: Option<PartInfo>)
    requires mpp.Valid() && |mpp.Ring()| <= 2
    modifies mpp`inPos, mpp`readPos, mpp`writePos, mpp`offset, mpp.putback
    ensures mpp.Valid() && |mpp.Ring()| <= 1
    ensures Headers(info, mpp.Remaining()) == ReadHeaders(old(mpp.Remaining()), NO_INFO)
  {
    hide RingOf, ReadHeader, Decompose, EqualNoCase, CString;
    ghost var stream := mpp.Remaining();
    var part := NO_INFO;
    while true
      invariant mpp.Valid() && |mpp.Ring()| <= 2
      invariant ReadHeaders(mpp.Remaining(), part) == ReadHeaders(stream, NO_INFO)
      decreases |mpp.Remaining()|
    {
      ReadHeaderShrinks(mpp.Remaining(), Header("", "", false));
      ReadNothing();
      var ok, attr, value := ReadHeaderLine(mpp);
      if !ok {
        return Some(part);
      }
      if EqualNoCase(CString(attr), "Content-Disposition") {
        var d := DecomposeValue(value, DISPOSITION_NAMES, SPACE);
        if d == None {
          return None;
        }
        part := part.(disposition := d.value.mvalue, name := d.value.argValues[0], fileName := d.value.argValues[1]);
      } else if EqualNoCase(CString(attr), "Content-Type") {
        var d := DecomposeValue(value, [], 0);
        if d == None {
          return None;
        }
        part := part.(contentType := d.value.mvalue);
      }
    }
  }

  lemma ReadNothing()
    ensures !ReadHeader("", Header("", "", false)).ok
  {
  }

  // Whether the closing "--" or the end of the stream comes next; nothing is consumed otherwise.
  method AtEnd(mpp: MpStream) returns (end: bool)
    requires mpp.Valid() && |mpp.Ring()| <= 2
    modifies mpp`inPos, mpp`readPos, mpp`writePos, mpp`offset, mpp.putback
    ensures mpp.Valid() && |mpp.Ring()| <= 2
    ensures var stream := old(mpp.Remaining());
      end == (|stream| < 2 || stream[..2] == "--") && (!end ==> mpp.Remaining() == stream)
  {
    hide RingOf;
    ghost var stream := mpp.Remaining();
    var got, d := mpp.MpRead(2);
    if got < 2 {
      return true;
    }
    assert stream == d + mpp.Remaining() && d == stream[..2];
    if d[0] == '-' && d[1] == '-' {
      assert d == "--";
      return true;
    }
    assert d[0] == stream[0] && d[1] == stream[1];
    mpp.MpPutBack(d);
    return false;
  }

  // One pass of the loop.
  datatype Part = NoMore | Stopped(outcome: Outcome) | Ignored | Field(entry: Entry)

  method TakePart(mpp: MpStream, boundary: string) returns (part: Part)
    requires mpp.Valid() && |mpp.Ring()| <= 2 && |boundary| < CAPACITY - 4 && CR !in boundary
    modifies mpp`inPos, mpp`readPos, mpp`writePos, mpp`offset, mpp.putback
    ensures mpp.Valid() && |mpp.Ring()| <= 2
    ensures part.Ignored? || part.Field? ==> |mpp.Remaining()| < |old(mpp.Remaining())|
    ensures ReadParts(old(mpp.Remaining()), boundary) == match part
      case NoMore => Parsed(Success, [])
      case Stopped(outcome) => Parsed(outcome, [])
      case Ignored => ReadParts(mpp.Remaining(), boundary)
      case Field(entry) => Behind([entry], ReadParts(mpp.Remaining(), boundary))
  {
    hide RingOf, ReadParts, ReadHeaders, AfterBoundary, NextBoundary, EqualNoCase;
    ghost var stream := mpp.Remaining();
    ReadPartsStep(stream, boundary);
    var end := AtEnd(mpp);
    if end {
      return NoMore;
    }
    var info := TakeHeaders(mpp);
    if info == None {
      return Stopped(Fault);
    }
    assert OnlyLastCR(mpp.Ring());
    var isForm := EqualNoCase(info.value.disposition, "form-data");
    ghost var headers := ReadHeaders(stream, NO_INFO);
    assert headers == Headers(info, mpp.Remaining());
    NextBoundaryIsFirst(boundary, mpp.Ring(), mpp.Unread());
    var result, out := AfterNextBoundary(mpp, boundary, isForm, false);
    if result != ParseSuccess {
      return Stopped(IOError);
    }
    if !isForm {
      return Ignored;
    }
    return Field(Entry(info.value.name, info.value.fileName, info.value.contentType, out));
  }

  method ParsePostMultipartInput(input: string, contentLength: nat, boundary: string) returns (r: Parsed)
    requires |boundary| < CAPACITY - 4 && CR !in boundary
    ensures r == ParseBody(input[..Min(|input|, contentLength)], boundary)
  {
    var entries: seq<Entry> := [];
    if contentLength == 0 {
      assert input[..Min(|input|, contentLength)] == "";
      return Parsed(Success, entries);
    }
    hide RingOf, ReadParts, NextBoundary, Pattern, AfterLineEnd;
    var mpp := new MpStream(input, contentLength);
    assert mpp.Remaining() == mpp.Unread();
    var result, _ := AfterNextBoundary(mpp, boundary, false, true);
    if result == ParseIO {
      return Parsed(Success, entries);
    }
    r := TakeParts(mpp, boundary);
  }

  // The loop over the parts.
  method TakeParts(mpp: MpStream, boundary: string) returns (r: Parsed)
    requires mpp.Valid() && |mpp.Ring()| <= 2 && |boundary| < CAPACITY - 4 && CR !in boundary
    modifies mpp`inPos, mpp`readPos, mpp`writePos, mpp`offset, mpp.putback
    ensures r == ReadParts(old(mpp.Remaining()), boundary)
  {
    hide RingOf, ReadParts;
    var entries: seq<Entry> := [];
    ghost var all := ReadParts(mpp.Remaining(), boundary);
    BehindNothing(all);
    while true
      invariant mpp.Valid() && |mpp.Ring()| <= 2
      invariant all == Behind(entries, ReadParts(mpp.Remaining(), boundary))
      decreases |mpp.Remaining()|
    {
      var part := TakePart(mpp, boundary);
      match part
      case NoMore =>
        assert entries + [] == entries;
        return Parsed(Success, entries);
      case Stopped(outcome) =>
        assert entries + [] == entries;
        return Parsed(outcome, entries);
      case Ignored =>
      case Field(entry) =>
        BehindTwice(entries, [entry], ReadParts(mpp.Remaining(), boundary));
        entries := entries + [entry];
    }
  }

  lemma BehindNothing(later: Parsed)
    ensures Behind([], later) == later
  {
    assert [] + later.entries == later.entries;
  }

  lemma BehindTwice(a: seq<Entry>, b: seq<Entry>, later: Parsed)
    ensures Behind(a, Behind(b, later)) == Behind(a + b, later)
  {
    assert a + (b + later.entries) == a + b + later.entries;
  }

  // What is parsed later comes behind the entries already there.
  function Behind(entries: seq<Entry>, later: Parsed): Parsed {
    Parsed(later.outcome, entries + later.entries)
  }

  lemma ReadPartsStep(stream: string, boundary: string)
    ensures ReadParts(stream, boundary) ==
      if |stream| < 2 || stream[..2] == "--" then Parsed(Success, [])
      else
        var headers := ReadHeaders(stream, NO_INFO);
        match headers.info
        case None => Parsed(Fault, [])
        case Some(info) =>
          match AfterBoundary(Pattern(boundary, false), headers.rest)
          case None => Parsed(IOError, [])
          case Some(found) =>
            if !EqualNoCase(info.disposition, "form-data") then ReadParts(found.rest, boundary)
            else Behind([Entry(info.name, info.fileName, info.contentType, found.body)],
                        ReadParts(found.rest, boundary))
  {
  }
}
