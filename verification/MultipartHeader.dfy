/** readHeaderLine and decomposeValue: the header lines of a part of a multipart body. */
module MultipartHeader {
  import opened Results
  import opened CStrings
  import opened MultipartStream
  import opened BoundarySearch

  // Appending to a buffer of the given size, which keeps room for a NUL.
  function Append(s: string, c: char, space: nat): string {
    if |s| + 1 < space then s + [c] else s
  }

  // ------------------------------------------------------------ header lines

  const SPACE: nat := 1024

  // A header line read so far, the line end consumed or not, and the stream after it.
  datatype Header = Header(attr: string, value: string, valueFound: bool)

  datatype HeaderLine = HeaderLine(ok: bool, header: Header, rest: string)

  // One header line at the start of the stream.
  function ReadHeader(stream: string, h: Header): HeaderLine
    decreases |stream|
  {
    if stream == "" then HeaderLine(false, h, "")
    else
      var c, rest := stream[0], stream[1..];
      if c == '\r' then
        HeaderLine(h.attr != "" && h.value != "", h, if rest != "" && rest[0] == '\n' then rest[1..] else rest)
      else if c == '\n' then HeaderLine(h.attr != "" && h.value != "", h, rest)
      else if c == ':' && h.attr != "" then
        ReadHeader(SkipWs(rest), h.(valueFound := true))
      else if !h.valueFound then
        ReadHeader(rest, if IsSpace(c) then h else h.(attr := Append(h.attr, c, SPACE)))
      else ReadHeader(rest, h.(value := Append(h.value, c, SPACE)))
  }

  lemma {:induction false} ReadHeaderShrinks(stream: string, h: Header)
    ensures |ReadHeader(stream, h).rest| <= |stream|
    ensures stream != "" ==> |ReadHeader(stream, h).rest| < |stream|
    decreases |stream|
  {
    if stream != "" {
      var c, rest := stream[0], stream[1..];
      if c != '\r' && c != '\n' {
        if c == ':' && h.attr != "" {
          ReadHeaderShrinks(SkipWs(rest), h.(valueFound := true));
        } else if !h.valueFound {
          ReadHeaderShrinks(rest, if IsSpace(c) then h else h.(attr := Append(h.attr, c, SPACE)));
        } else {
          ReadHeaderShrinks(rest, h.(value := Append(h.value, c, SPACE)));
        }
      }
    }
  }

  // The loop that skips white space after a colon.
  method SkipSpaces(mpp: MpStream)
    requires mpp.Valid() && mpp.Ring() == ""
    modifies mpp`inPos, mpp`readPos, mpp`writePos, mpp`offset, mpp.putback
    ensures mpp.Valid() && |mpp.Ring()| <= 1
    ensures mpp.Remaining() == SkipWs(old(mpp.Remaining()))
  {
    hide RingOf;
    ghost var stream := mpp.Remaining();
    while true
      invariant mpp.Valid() && mpp.Ring() == ""
      invariant SkipWs(mpp.Remaining()) == SkipWs(stream)
      decreases |mpp.Remaining()|
    {
      ghost var v := mpp.Remaining();
      var ok, d := mpp.ReadChar();
      if !ok {
        return;
      }
      assert v == [d] + mpp.Remaining();
      if !IsSpace(d) {
        mpp.PutBackChar(d);
        return;
      }
    }
  }

  // After a CR: a LF belongs to the same line end, any other character is put back.
  method SkipLineFeed(mpp: MpStream)
    requires mpp.Valid() && |mpp.Ring()| <= 1
    modifies mpp`inPos, mpp`readPos, mpp`writePos, mpp`offset, mpp.putback
    ensures mpp.Valid() && |mpp.Ring()| <= 1
    ensures var v := old(mpp.Remaining());
      mpp.Remaining() == if v != "" && v[0] == '\n' then v[1..] else v
  {
    hide RingOf;
    ghost var v := mpp.Remaining();
    var got, d := mpp.ReadChar();
    if got && d != '\n' {
      assert v == [d] + mpp.Remaining();
      mpp.PutBackChar(d);
    }
  }

  // Reads one header line. The ring holds at most one character afterwards.
  method ReadHeaderLine(mpp: MpStream) returns (ok: bool, attr: string, value: string)
    requires mpp.Valid() && |mpp.Ring()| <= 2
    modifies mpp`inPos, mpp`readPos, mpp`writePos, mpp`offset, mpp.putback
    ensures mpp.Valid() && |mpp.Ring()| <= 1
    ensures var line := ReadHeader(old(mpp.Remaining()), Header("", "", false));
      line == HeaderLine(ok, Header(attr, value, line.header.valueFound), mpp.Remaining())
  {
    hide RingOf;
    ghost var stream := mpp.Remaining();
    var valueFound := false;
    attr, value := "", "";
    while true
      invariant mpp.Valid() && |mpp.Ring()| <= 2 && (attr != "" ==> |mpp.Ring()| <= 1)
      invariant ReadHeader(mpp.Remaining(), Header(attr, value, valueFound))
        == ReadHeader(stream, Header("", "", false))
      decreases |mpp.Remaining()|
    {
      var got, d := mpp.ReadChar();
      if !got {
        return false, attr, value;
      }
      if d == '\r' {
        SkipLineFeed(mpp);
        break;
      } else if d == '\n' {
        break;
      } else if d == ':' && attr != "" {
        valueFound := true;
        SkipSpaces(mpp);
      } else if !valueFound {
        if !IsSpace(d) {
          attr := Append(attr, d, SPACE);
        }
      } else {
        value := Append(value, d, SPACE);
      }
    }
    ok := attr != "" && value != "";
  }

  // ----------------------------------------------------------- header values

  function From(s: string, c: char): string {
    s[|Upto(s, c)|..]
  }

  function TakeAlnum(s: string): (r: string)
    ensures r <= s
  {
    if s == "" || !IsAlnum(s[0]) then "" else [s[0]] + TakeAlnum(s[1..])
  }

  // What fits into a buffer of the given size, with its NUL.
  function Truncate(s: string, space: nat): string {
    if |s| < space then s else if space == 0 then "" else s[..space - 1]
  }

  datatype Item = Item(content: string, rest: string)

  // A quoted or unquoted value, and what follows from the next semicolon on.
  function ReadItem(s: string): (r: Item)
    ensures |r.rest| <= |s|
  {
    if s != "" && s[0] == '"' then
      var content := Upto(s[1..], '"');
      Item(content, From(s[1 + |content|..], ';'))
    else Item(Upto(s, ';'), From(s, ';'))
  }

  function IndexOfName(name: string, names: seq<string>): (i: nat)
    ensures i <= |names|
  {
    if names == [] || EqualNoCase(name, names[0]) then 0 else 1 + IndexOfName(name, names[1..])
  }

  datatype Parameter = Parameter(name: string, item: Item)

  // A parameter behind its semicolon: a name, and a token or quoted string.
  function ReadParameter(s: string): (r: Option<Parameter>)
    ensures r.Some? ==> |r.value.item.rest| <= |s|
  {
    var t := SkipWs(s);
    var name := TakeAlnum(t);
    var u := SkipWs(t[|name|..]);
    if u == "" || u[0] != '=' then None
    else Some(Parameter(Truncate(name, SPACE), ReadItem(SkipWs(u[1..]))))
  }

  // The parameters after a header value. None: a parameter that is not asked for makes
  // the code write its terminating NUL through a null pointer.
  function ReadParameters(s: string, names: seq<string>, values: seq<string>, space: nat): (r: Option<seq<string>>)
    requires |values| == |names|
    ensures r.Some? ==> |r.value| == |names|
    decreases |s|
  {
    if s == "" || s[0] != ';' then Some(values)
    else match ReadParameter(s[1..])
      case None => Some(values)
      case Some(p) =>
        var i := IndexOfName(p.name, names);
        if i < |names| then ReadParameters(p.item.rest, names, values[i := Truncate(p.item.content, space)], space)
        else if space > 0 then None
        else ReadParameters(p.item.rest, names, values, space)
  }

  // The names of the parameters in the text behind a header value, before the first one
  // that is malformed.
  function ParameterNames(s: string): seq<string>
    decreases |s|
  {
    if s == "" || s[0] != ';' then []
    else match ReadParameter(s[1..])
      case None => []
      case Some(p) => [p.name] + ParameterNames(p.item.rest)
  }

  predicate AskedFor(name: string, names: seq<string>) {
    exists i | 0 <= i < |names| :: EqualNoCase(name, names[i])
  }

  // A parameter of the text is not asked for.
  predicate Unasked(s: string, names: seq<string>) {
    exists k | 0 <= k < |ParameterNames(s)| :: !AskedFor(ParameterNames(s)[k], names)
  }

  datatype Decomposed = Decomposed(mvalue: string, argValues: seq<string>)

  function Decompose(value: string, names: seq<string>, space: nat): (r: Option<Decomposed>)
    ensures r.Some? ==> |r.value.argValues| == |names|
  {
    var item := ReadItem(SkipWs(CString(value)));
    match ReadParameters(item.rest, names, seq(|names|, _ => ""), space)
    case None => None
    case Some(values) => Some(Decomposed(Truncate(item.content, SPACE), values))
  }

  lemma {:induction false} IndexOfNameFinds(name: string, names: seq<string>)
    ensures IndexOfName(name, names) < |names| <==> AskedFor(name, names)
  {
    hide EqualNoCase;
    if names != [] {
      IndexOfNameFinds(name, names[1..]);
      if i :| 0 <= i < |names| && EqualNoCase(name, names[i]) {
        if i > 0 { assert names[1..][i - 1] == names[i]; }
      }
      if AskedFor(name, names[1..]) {
        var j :| 0 <= j < |names[1..]| && EqualNoCase(name, names[1..][j]);
        assert EqualNoCase(name, names[j + 1]);
      }
    }
  }

  lemma UnaskedStep(s: string, names: seq<string>)
    requires s != "" && s[0] == ';' && ReadParameter(s[1..]).Some?
    ensures var p := ReadParameter(s[1..]).value;
      Unasked(s, names) <==> !AskedFor(p.name, names) || Unasked(p.item.rest, names)
  {
    hide ReadParameter, AskedFor;
    var p := ReadParameter(s[1..]).value;
    var all, later := ParameterNames(s), ParameterNames(p.item.rest);
    assert all == [p.name] + later;
    if !AskedFor(p.name, names) { assert !AskedFor(all[0], names); }
    if k :| 0 <= k < |later| && !AskedFor(later[k], names) { assert !AskedFor(all[k + 1], names); }
  }

  lemma {:induction false} ParametersFault(s: string, names: seq<string>, values: seq<string>, space: nat)
    requires |values| == |names|
    ensures ReadParameters(s, names, values, space) == None <==> space > 0 && Unasked(s, names)
    decreases |s|
  {
    hide ReadParameter, IndexOfName, Truncate, Unasked, AskedFor;
    if s == "" || s[0] != ';' || ReadParameter(s[1..]).None? {
      NothingUnasked(s, names);
    } else {
      var p := ReadParameter(s[1..]).value;
      var i := IndexOfName(p.name, names);
      IndexOfNameFinds(p.name, names);
      UnaskedStep(s, names);
      var values' := if i < |names| then values[i := Truncate(p.item.content, space)] else values;
      ParametersFault(p.item.rest, names, values', space);
    }
  }

  lemma NothingUnasked(s: string, names: seq<string>)
    requires s == "" || s[0] != ';' || ReadParameter(s[1..]).None?
    ensures !Unasked(s, names)
  {
    hide ReadParameter;
  }

  // decomposeValue writes through a null pointer exactly when values are asked for and
  // the header has a parameter that is not among the names, before any malformed one.
  lemma DecomposeFaults(value: string, names: seq<string>, space: nat)
    ensures Decompose(value, names, space) == None
      <==> space > 0 && Unasked(ReadItem(SkipWs(CString(value))).rest, names)
  {
    hide ReadItem, SkipWs, CString, ReadParameters, Unasked;
    ParametersFault(ReadItem(SkipWs(CString(value))).rest, names, seq(|names|, _ => ""), space);
  }

  lemma TruncateEmpty(space: nat)
    ensures Truncate("", space) == ""
  {
  }

  lemma AppendTruncates(s: string, c: char, space: nat)
    ensures Append(Truncate(s, space), c, space) == Truncate(s + [c], space)
  {
    if 0 < space <= |s| {
      assert (s + [c])[..space - 1] == s[..space - 1];
    }
  }

  lemma {:induction false} TakeAlnumIs(s: string, n: nat)
    requires n <= |s| && (forall i | 0 <= i < n :: IsAlnum(s[i])) && (n < |s| ==> !IsAlnum(s[n]))
    ensures TakeAlnum(s) == s[..n]
  {
    if n > 0 {
      TakeAlnumIs(s[1..], n - 1);
      assert s[..n] == [s[0]] + s[1..][..n - 1];
    }
  }

  method ScanSpaces(v: string, start: nat) returns (pos: nat)
    requires start <= |v|
    ensures start <= pos <= |v| && v[pos..] == SkipWs(v[start..])
  {
    pos := start;
    while pos < |v| && IsSpace(v[pos])
      invariant start <= pos <= |v| && SkipWs(v[pos..]) == SkipWs(v[start..])
    {
      assert v[pos..][1..] == v[pos + 1..];
      pos := pos + 1;
    }
  }

  // Copies up to the next c, as far as the buffer allows.
  method ScanUpto(v: string, start: nat, c: char, space: nat) returns (copy: string, pos: nat)
    requires start <= |v|
    ensures start <= pos <= |v|
    ensures pos == start + |Upto(v[start..], c)| && copy == Truncate(Upto(v[start..], c), space)
  {
    pos, copy := start, "";
    TruncateEmpty(space);
    assert v[start..start] == "";
    hide Truncate, Append, Upto;
    while pos < |v| && v[pos] != c
      invariant start <= pos <= |v|
      invariant forall i | start <= i < pos :: v[i] != c
      invariant copy == Truncate(v[start..pos], space)
    {
      AppendTruncates(v[start..pos], v[pos], space);
      SliceGrows(v, start, pos);
      copy := Append(copy, v[pos], space);
      pos := pos + 1;
    }
    ScannedUpto(v, start, pos, c);
  }

  lemma SliceGrows(v: string, start: nat, pos: nat)
    requires start <= pos < |v|
    ensures v[start..pos + 1] == v[start..pos] + [v[pos]]
  {
  }

  lemma ScannedUpto(v: string, start: nat, pos: nat, c: char)
    requires start <= pos <= |v| && (forall i | start <= i < pos :: v[i] != c) && (pos < |v| ==> v[pos] == c)
    ensures Upto(v[start..], c) == v[start..pos]
  {
    hide Upto;
    UptoIs(v[start..], pos - start, c);
  }

  method ScanAlnum(v: string, start: nat) returns (copy: string, pos: nat)
    requires start <= |v|
    ensures start <= pos <= |v|
    ensures pos == start + |TakeAlnum(v[start..])| && copy == Truncate(TakeAlnum(v[start..]), SPACE)
  {
    pos, copy := start, "";
    TruncateEmpty(SPACE);
    assert v[start..start] == "";
    hide Truncate, Append, TakeAlnum, IsAlnum;
    while pos < |v| && IsAlnum(v[pos])
      invariant start <= pos <= |v|
      invariant forall i | start <= i < pos :: IsAlnum(v[i])
      invariant copy == Truncate(v[start..pos], SPACE)
    {
      AppendTruncates(v[start..pos], v[pos], SPACE);
      SliceGrows(v, start, pos);
      copy := Append(copy, v[pos], SPACE);
      pos := pos + 1;
    }
    ScannedAlnum(v, start, pos);
  }

  lemma ScannedAlnum(v: string, start: nat, pos: nat)
    requires start <= pos <= |v| && forall i | start <= i < pos :: IsAlnum(v[i])
    requires pos < |v| ==> !IsAlnum(v[pos])
    ensures TakeAlnum(v[start..]) == v[start..pos]
  {
    hide TakeAlnum, IsAlnum;
    TakeAlnumIs(v[start..], pos - start);
  }

  method ScanItem(v: string, start: nat, space: nat) returns (copy: string, pos: nat)
    requires start <= |v|
    ensures start <= pos <= |v|
    ensures copy == Truncate(ReadItem(v[start..]).content, space) && v[pos..] == ReadItem(v[start..]).rest
  {
    hide Truncate, Upto;
    var s := v[start..];
    if start < |v| && v[start] == '"' {
      assert v[start + 1..] == s[1..];
      copy, pos := ScanUpto(v, start + 1, '"', space);
      assert v[pos..] == s[1 + |Upto(s[1..], '"')|..];
      var _, semi := ScanUpto(v, pos, ';', 0);
      assert v[semi..] == From(v[pos..], ';');
      pos := semi;
    } else {
      copy, pos := ScanUpto(v, start, ';', space);
    }
  }

  method ScanParameter(v: string, start: nat, space: nat)
    returns (some: bool, name: string, content: string, pos: nat)
    requires start <= |v|
    ensures some <==> ReadParameter(v[start..]).Some?
    ensures some ==>
      var p := ReadParameter(v[start..]).value;
      start <= pos <= |v| && name == p.name && content == Truncate(p.item.content, space) && v[pos..] == p.item.rest
  {
    hide ReadItem, SkipWs, TakeAlnum, Truncate;
    content := "";
    pos := ScanSpaces(v, start);
    ghost var t := v[pos..];
    name, pos := ScanAlnum(v, pos);
    assert v[pos..] == t[|TakeAlnum(t)|..];
    pos := ScanSpaces(v, pos);
    some := pos < |v| && v[pos] == '=';
    if some {
      assert v[pos..][1..] == v[pos + 1..];
      pos := ScanSpaces(v, pos + 1);
      content, pos := ScanItem(v, pos, space);
    }
  }

  method DecomposeValue(value: string, names: seq<string>, space: nat) returns (r: Option<Decomposed>)
    ensures r == Decompose(value, names, space)
  {
    hide ReadItem, SkipWs, Truncate, IndexOfName, ReadParameter, CString;
    var v := CString(value);
    var values := seq(|names|, _ => "");
    var pos := ScanSpaces(v, 0);
    assert v[0..] == v;
    var mvalue;
    mvalue, pos := ScanItem(v, pos, SPACE);
    ghost var item := ReadItem(SkipWs(v));
    ghost var all := ReadParameters(item.rest, names, values, space);
    while pos < |v| && v[pos] == ';'
      invariant 0 <= pos <= |v| && |values| == |names|
      invariant ReadParameters(v[pos..], names, values, space) == all
      decreases |v| - pos
    {
      assert v[pos..][1..] == v[pos + 1..];
      var some, name, content, next := ScanParameter(v, pos + 1, space);
      if !some { return Some(Decomposed(mvalue, values)); }
      var i := IndexOfName(name, names);
      if i < |names| {
        values := values[i := content];
      } else if space > 0 {
        return None;
      }
      pos := next;
    }
    r := Some(Decomposed(mvalue, values));
  }
}
