/** afterNextBoundary: the search for a multipart boundary on the stream with putback. */
module BoundarySearch {
  import opened Results
  import opened MultipartStream

  // ------------------------------------------------------------ what it finds

  ghost predicate OccursAt(pattern: string, text: string, i: nat) {
    i + |pattern| <= |text| && text[i..i + |pattern|] == pattern
  }

  // The text before the first occurrence of the pattern.
  function Before(pattern: string, text: string): Option<string>
    requires pattern != ""
  {
    if pattern <= text then Some("")
    else if text == "" then None
    else match Before(pattern, text[1..])
      case None => None
      case Some(b) => Some([text[0]] + b)
  }

  // Before() finds the first occurrence, and finds one if there is any.
  lemma {:induction false} BeforeIsFirst(pattern: string, text: string)
    requires pattern != ""
    ensures match Before(pattern, text)
      case Some(b) => b + pattern <= text && (forall i: nat | i < |b| :: !OccursAt(pattern, text, i))
      case None => forall i: nat :: !OccursAt(pattern, text, i)
  {
    if pattern <= text {
      assert "" + pattern == pattern;
    } else if text != "" {
      BeforeIsFirst(pattern, text[1..]);
      forall i: nat | OccursAt(pattern, text, i)
        ensures i > 0 && OccursAt(pattern, text[1..], i - 1)
      {
        OccursLater(pattern, text, i);
      }
      if Before(pattern, text).Some? {
        var b := Before(pattern, text[1..]).value;
        PrefixCons(text[0], b + pattern, text[1..]);
        assert text == [text[0]] + text[1..];
        assert [text[0]] + b + pattern == [text[0]] + (b + pattern);
      }
    }
  }

  lemma OccursLater(pattern: string, text: string, i: nat)
    requires OccursAt(pattern, text, i) && |text| >= |pattern| > 0 && !(pattern <= text)
    ensures i > 0 && OccursAt(pattern, text[1..], i - 1)
  {
    assert text[..|pattern|] == text[0..|pattern|];
    if i > 0 {
      assert text[1..][i - 1..i - 1 + |pattern|] == text[i..i + |pattern|];
    }
  }

  lemma PrefixCons(c: char, a: string, b: string)
    requires a <= b
    ensures [c] + a <= [c] + b
  {
  }

  // What is left after a boundary: a line end, or the two characters "--" still to
  // be read, or whatever two other characters the code swallows.
  function AfterLineEnd(rest: string): Option<string> {
    if |rest| < 2 then None
    else if rest[..2] == "\r\n" then Some(rest[2..])
    else if rest[0] == '-' then Some(rest)
    else Some(rest[2..])
  }

  // The body up to the boundary, and the stream after it.
  datatype Found = Found(body: string, rest: string)

  function AfterBoundary(pattern: string, stream: string): Option<Found>
    requires pattern != ""
  {
    match Before(pattern, stream)
    case None => None
    case Some(body) =>
      BeforeIsFirst(pattern, stream);
      match AfterLineEnd(stream[|body| + |pattern|..])
      case None => None
      case Some(rest) => Some(Found(body, rest))
  }

  // -------------------------------------------------------------- the search

  const CR := '\r'

  // A CR can only start the delimiter.
  predicate Delimiter(pattern: string) {
    pattern != "" && pattern[0] == CR && CR !in pattern[1..]
  }

  // The ring as a failed match leaves it: only its last character can be a CR.
  predicate OnlyLastCR(ring: string) {
    forall i | 0 <= i < |ring| - 1 :: ring[i] != CR
  }

  // What has been emitted, followed by what is found in the rest.
  function Prepend(emitted: string, found: Option<string>): Option<string> {
    match found
    case None => None
    case Some(b) => Some(emitted + b)
  }

  lemma EmitOne(pattern: string, emitted: string, text: string)
    requires pattern != "" && text != "" && !(pattern <= text)
    ensures Prepend(emitted, Before(pattern, text)) == Prepend(emitted + [text[0]], Before(pattern, text[1..]))
  {
    var b := Before(pattern, text[1..]);
    if b.Some? {
      assert emitted + ([text[0]] + b.value) == emitted + [text[0]] + b.value;
    }
  }

  lemma {:induction false} BeforeShort(pattern: string, text: string)
    requires |text| < |pattern|
    ensures Before(pattern, text) == None
  {
    if text != "" {
      BeforeShort(pattern, text[1..]);
    }
  }

  // A failed partial match: its first character is emitted, the others are looked at again.
  lemma RetryAfterMismatch(pattern: string, emitted: string, boffset: nat, d: char, rest: string)
    requires boffset < |pattern| && d != pattern[boffset]
    ensures var c := if boffset > 0 then pattern[0] else d;
      var again := if boffset > 0 then pattern[1..boffset] + [d] else "";
      Prepend(emitted, Before(pattern, pattern[..boffset] + [d] + rest))
      == Prepend(emitted + [c], Before(pattern, again + rest))
  {
    var text := pattern[..boffset] + [d] + rest;
    assert text[boffset] == d;
    EmitOne(pattern, emitted, text);
    if boffset > 0 {
      assert text[1..] == pattern[1..boffset] + [d] + rest;
    } else {
      assert text[1..] == "" + rest;
    }
  }

  // The search after some characters: what has been emitted, how much of the pattern
  // is matched, and the virtual stream from here on.
  ghost predicate Searching(pattern: string, stream: string, delimits: bool,
                            emitted: string, boffset: nat, v: string)
  {
    && boffset < |pattern|
    && |v| + boffset <= |stream|
    && (pattern <= stream ==> emitted == "")
    && (pattern <= stream || delimits ==> stream == emitted + (pattern[..boffset] + v))
    && (delimits ==> Before(pattern, stream) == Prepend(emitted, Before(pattern, pattern[..boffset] + v)))
  }

  // What the ring can hold meanwhile: a partial match of a delimiter implies an empty ring.
  ghost predicate RingFits(pattern: string, delimits: bool, boffset: nat, ring: string) {
    && (ring == "" || |ring| + boffset <= 2 || |ring| + boffset < |pattern|)
    && (delimits ==> Delimiter(pattern) && OnlyLastCR(ring) && (boffset > 0 ==> ring == ""))
  }

  lemma SearchingStarts(pattern: string, stream: string)
    requires pattern != ""
    ensures Searching(pattern, stream, true, "", 0, stream)
    ensures Searching(pattern, stream, false, "", 0, stream)
  {
    assert pattern[..0] + stream == stream && "" + stream == stream;
    var b := Before(pattern, stream);
    assert b.Some? ==> "" + b.value == b.value;
  }

  lemma SearchingMatches(pattern: string, stream: string, delimits: bool, emitted: string, boffset: nat, v: string)
    requires Searching(pattern, stream, delimits, emitted, boffset, v)
    requires boffset + 1 < |pattern| && v != "" && v[0] == pattern[boffset]
    ensures Searching(pattern, stream, delimits, emitted, boffset + 1, v[1..])
  {
    assert pattern[..boffset] + v == pattern[..boffset + 1] + v[1..];
  }

  lemma SearchingFinds(pattern: string, stream: string, delimits: bool, emitted: string, boffset: nat, v: string)
    requires Searching(pattern, stream, delimits, emitted, boffset, v)
    requires boffset + 1 == |pattern| && v != "" && v[0] == pattern[boffset]
    ensures pattern <= stream ==> stream == pattern + v[1..] && emitted == ""
    ensures delimits ==> Before(pattern, stream) == Some(emitted) && stream == emitted + pattern + v[1..]
  {
    hide Before;
    assert pattern[..boffset] + v == pattern + v[1..];
    FoundHere(pattern, emitted, v[1..]);
    assert emitted + (pattern + v[1..]) == emitted + pattern + v[1..];
    assert "" + (pattern + v[1..]) == pattern + v[1..];
  }

  // The character read breaks the match: the first matched character is emitted, the
  // others and the one read are looked at again.
  lemma SearchingFails(pattern: string, stream: string, delimits: bool, emitted: string, boffset: nat,
                       v: string, v': string)
    requires Searching(pattern, stream, delimits, emitted, boffset, v)
    requires v != "" && v[0] != pattern[boffset] && |v'| + 1 == |v| + boffset
    requires delimits ==> v' == (if boffset > 0 then pattern[1..boffset] + [v[0]] else "") + v[1..]
    ensures Searching(pattern, stream, delimits, emitted + [if boffset > 0 then pattern[0] else v[0]], 0, v')
  {
    hide Before;
    NotBeginning(pattern, stream, boffset, v);
    if delimits {
      var c := if boffset > 0 then pattern[0] else v[0];
      assert pattern[..boffset] + v == pattern[..boffset] + [v[0]] + v[1..];
      RetryAfterMismatch(pattern, emitted, boffset, v[0], v[1..]);
      assert pattern[..0] + v' == v';
      assert emitted + (pattern[..boffset] + v) == emitted + [c] + v';
    }
  }

  lemma NotBeginning(pattern: string, stream: string, boffset: nat, v: string)
    requires boffset < |pattern| && v != "" && v[0] != pattern[boffset]
    ensures pattern <= stream ==> stream != pattern[..boffset] + v
    ensures pattern <= stream ==> stream != "" + (pattern[..boffset] + v)
  {
    assert (pattern[..boffset] + v)[boffset] == v[0];
    assert "" + (pattern[..boffset] + v) == pattern[..boffset] + v;
  }

  lemma SearchingEnds(pattern: string, stream: string, delimits: bool, emitted: string, boffset: nat)
    requires Searching(pattern, stream, delimits, emitted, boffset, "")
    ensures !(pattern <= stream)
    ensures delimits ==> Before(pattern, stream) == None
  {
    assert pattern[..boffset] + "" == pattern[..boffset];
    BeforeShort(pattern, pattern[..boffset]);
    assert |"" + pattern[..boffset]| < |pattern|;
  }

  lemma RingAfterMatch(pattern: string, delimits: bool, boffset: nat, ring: string, ring': string, d: char)
    requires RingFits(pattern, delimits, boffset, ring) && boffset < |pattern| && |pattern| >= 2
    requires ring' == (if ring == "" then "" else ring[1..]) && (ring != "" ==> ring[0] == d) && d == pattern[boffset]
    ensures RingFits(pattern, delimits, boffset + 1, ring')
    ensures boffset + 1 == |pattern| ==> ring' == ""
  {
  }

  lemma RingAfterMismatch(pattern: string, delimits: bool, boffset: nat, ring: string, ring': string, d: char)
    requires RingFits(pattern, delimits, boffset, ring) && boffset < |pattern| && |pattern| >= 2
    requires ring' == (if ring == "" then "" else ring[1..]) && (ring != "" ==> ring[0] == d)
    ensures RingFits(pattern, delimits, 0, ring' + (if boffset > 0 then pattern[1..boffset] + [d] else ""))
    ensures delimits && boffset > 0 ==> ring' == ""
    ensures ring' == "" || |ring'| + boffset <= 2 || |ring'| + boffset < |pattern|
  {
  }

  // Puts back all but the first of the matched characters, and the one that broke the match.
  method PutBackMatched(mpp: MpStream, pattern: string, boffset: nat, d: char)
    requires mpp.Valid() && boffset < |pattern| && |mpp.Ring()| + boffset < CAPACITY
    modifies mpp`writePos, mpp`offset, mpp.putback
    ensures mpp.Valid() && mpp.Unread() == old(mpp.Unread())
    ensures mpp.Ring() == old(mpp.Ring()) + (if boffset > 0 then pattern[1..boffset] + [d] else "")
    ensures |mpp.Remaining()| == |old(mpp.Remaining())| + boffset
    ensures old(mpp.Ring()) == "" ==>
      mpp.Remaining() == (if boffset > 0 then pattern[1..boffset] + [d] else "") + old(mpp.Remaining())
  {
    hide RingOf;
    if boffset > 0 {
      mpp.MpPutBack(pattern[1..boffset]);
      mpp.MpPutBack([d]);
      assert mpp.Ring() == old(mpp.Ring()) + (pattern[1..boffset] + [d]);
    }
    assert old(mpp.Remaining()) == old(mpp.Ring()) + mpp.Unread();
  }

  // ------------------------------------------------------ the loop as it runs

  // What has been emitted comes ahead of what is emitted later.
  function Ahead(emitted: string, later: Option<Found>): Option<Found> {
    match later
    case None => None
    case Some(found) => Some(Found(emitted + found.body, found.rest))
  }

  lemma AheadTwice(a: string, b: string, later: Option<Found>)
    ensures Ahead(a, Ahead(b, later)) == Ahead(a + b, later)
    ensures Ahead("", later) == later
  {
    if later.Some? {
      assert a + (b + later.value.body) == a + b + later.value.body;
      assert "" + later.value.body == later.value.body;
    }
  }

  function Popped(ring: string): string { if ring == "" then "" else ring[1..] }

  // What goes back to the end of the ring after a mismatch.
  function Again(pattern: string, boffset: nat, d: char): string
    requires boffset < |pattern|
  {
    if boffset > 0 then pattern[1..boffset] + [d] else ""
  }

  // The loop of afterNextBoundary on any pattern and any stream: characters are read
  // from the ring first and are put back behind what it still holds.
  function SearchFrom(pattern: string, boffset: nat, ring: string, unread: string): Option<Found>
    requires boffset < |pattern|
    decreases |ring| + |unread| + boffset, |ring| + |unread|
  {
    if ring + unread == "" then None
    else
      var d, left := (ring + unread)[0], if ring == "" then unread[1..] else unread;
      if d != pattern[boffset] then
        Ahead([if boffset > 0 then pattern[0] else d],
              SearchFrom(pattern, 0, Popped(ring) + Again(pattern, boffset, d), left))
      else if boffset + 1 == |pattern| then Some(Found("", Popped(ring) + left))
      else SearchFrom(pattern, boffset + 1, Popped(ring), left)
  }

  // The result is what the first occurrence in the stream says.
  ghost predicate Exact(pattern: string, stream: string, result: Option<Found>)
    requires pattern != ""
  {
    match Before(pattern, stream)
    case None => result == None
    case Some(body) => result.Some? && result.value.body == body && stream == body + pattern + result.value.rest
  }

  lemma ReadOne(ring: string, unread: string)
    requires ring + unread != ""
    ensures Popped(ring) + (if ring == "" then unread[1..] else unread) == (ring + unread)[1..]
    ensures ring != "" ==> (ring + unread)[0] == ring[0]
  {
    if ring == "" { assert ring + unread == unread; }
  }

  lemma MismatchView(pattern: string, boffset: nat, ring: string, unread: string)
    requires boffset < |pattern| && ring + unread != ""
    ensures var d, left := (ring + unread)[0], if ring == "" then unread[1..] else unread;
      var v := (Popped(ring) + Again(pattern, boffset, d)) + left;
      |v| + 1 == |ring + unread| + boffset
      && (Popped(ring) == "" || boffset == 0 ==> v == Again(pattern, boffset, d) + (ring + unread)[1..])
  {
    ReadOne(ring, unread);
    var d, left := (ring + unread)[0], if ring == "" then unread[1..] else unread;
    if Popped(ring) == "" {
      assert "" + Again(pattern, boffset, d) + left == Again(pattern, boffset, d) + ("" + left);
    } else if boffset == 0 {
      assert Popped(ring) + "" + left == "" + (Popped(ring) + left);
    }
  }

  // From a state in which the matched part and the virtual stream make up the rest of
  // the stream, the loop finds the first occurrence: for a delimiter, because a partial
  // match implies an empty ring.
  lemma {:induction false} FindsDelimiter(pattern: string, stream: string, emitted: string,
                                          boffset: nat, ring: string, unread: string)
    requires |pattern| >= 2 && boffset < |pattern| && RingFits(pattern, true, boffset, ring)
    requires Searching(pattern, stream, true, emitted, boffset, ring + unread)
    ensures Exact(pattern, stream, Ahead(emitted, SearchFrom(pattern, boffset, ring, unread)))
    decreases |ring| + |unread| + boffset, |ring| + |unread|
  {
    hide Before, RingFits, Searching, Again;
    if ring + unread == "" {
      SearchingEnds(pattern, stream, true, emitted, boffset);
    } else {
      ReadOne(ring, unread);
      var v, d, left := ring + unread, (ring + unread)[0], if ring == "" then unread[1..] else unread;
      if d != pattern[boffset] {
        RingAfterMismatch(pattern, true, boffset, ring, Popped(ring), d);
        FindsMismatch(pattern, stream, emitted, boffset, ring, unread);
        AgainIs(pattern, boffset, d);
        var c := [if boffset > 0 then pattern[0] else d];
        FindsDelimiter(pattern, stream, emitted + c, 0, Popped(ring) + Again(pattern, boffset, d), left);
        AheadTwice(emitted, c, SearchFrom(pattern, 0, Popped(ring) + Again(pattern, boffset, d), left));
      } else if boffset + 1 == |pattern| {
        SearchingFinds(pattern, stream, true, emitted, boffset, v);
        assert emitted + "" == emitted;
      } else {
        SearchingMatches(pattern, stream, true, emitted, boffset, v);
        RingAfterMatch(pattern, true, boffset, ring, Popped(ring), d);
        FindsDelimiter(pattern, stream, emitted, boffset + 1, Popped(ring), left);
      }
    }
  }

  lemma AgainIs(pattern: string, boffset: nat, d: char)
    requires boffset < |pattern|
    ensures Again(pattern, boffset, d) == if boffset > 0 then pattern[1..boffset] + [d] else ""
    ensures |Again(pattern, boffset, d)| == boffset
  {
  }

  // A mismatch keeps the view of the stream when the ring is empty or nothing is matched.
  lemma FindsMismatch(pattern: string, stream: string, emitted: string, boffset: nat, ring: string, unread: string)
    requires boffset < |pattern| && ring + unread != "" && (ring + unread)[0] != pattern[boffset]
    requires Popped(ring) == "" || boffset == 0
    requires Searching(pattern, stream, true, emitted, boffset, ring + unread)
    ensures var d, left := (ring + unread)[0], if ring == "" then unread[1..] else unread;
      Searching(pattern, stream, true, emitted + [if boffset > 0 then pattern[0] else d], 0,
                (Popped(ring) + Again(pattern, boffset, d)) + left)
  {
    hide Searching;
    var v, d, left := ring + unread, (ring + unread)[0], if ring == "" then unread[1..] else unread;
    MismatchView(pattern, boffset, ring, unread);
    SearchingFails(pattern, stream, true, emitted, boffset, v, (Popped(ring) + Again(pattern, boffset, d)) + left);
  }

  lemma SearchFindsDelimiter(pattern: string, ring: string, unread: string)
    requires |pattern| >= 2 && Delimiter(pattern) && OnlyLastCR(ring) && |ring| <= 2
    ensures Exact(pattern, ring + unread, SearchFrom(pattern, 0, ring, unread))
  {
    SearchingStarts(pattern, ring + unread);
    FindsDelimiter(pattern, ring + unread, "", 0, ring, unread);
    AheadTwice("", "", SearchFrom(pattern, 0, ring, unread));
  }

  datatype StepResult = Continue | Complete | EndOfStream

  // The body of the loop of afterNextBoundary. A partial match of a delimiter implies an
  // empty ring, and the ring never overflows.
  method SearchStep(mpp: MpStream, pattern: string, boffset: nat, ghost delimits: bool)
    returns (step: StepResult, boffset': nat, emits: string)
    requires mpp.Valid() && 2 <= |pattern| < CAPACITY && boffset < |pattern|
    requires RingFits(pattern, delimits, boffset, mpp.Ring())
    modifies mpp`inPos, mpp`readPos, mpp`writePos, mpp`offset, mpp.putback
    ensures mpp.Valid()
    ensures var before := SearchFrom(pattern, boffset, old(mpp.Ring()), old(mpp.Unread()));
      match step
      case Continue =>
        boffset' < |pattern| && RingFits(pattern, delimits, boffset', mpp.Ring())
        && before == Ahead(emits, SearchFrom(pattern, boffset', mpp.Ring(), mpp.Unread()))
        && |mpp.Remaining()| + boffset' <= |old(mpp.Remaining())| + boffset
        && (|mpp.Remaining()| + boffset' < |old(mpp.Remaining())| + boffset
            || |mpp.Remaining()| < |old(mpp.Remaining())|)
      case Complete =>
        mpp.Ring() == "" && |mpp.Remaining()| < |old(mpp.Remaining())| && before == Some(Found("", mpp.Remaining()))
      case EndOfStream => mpp.Remaining() == "" && mpp.Ring() == "" && before == None
  {
    hide RingFits, RingOf;
    ghost var ring, unread := mpp.Ring(), mpp.Unread();
    boffset', emits := boffset + 1, "";
    var ok, d := mpp.ReadChar();
    if !ok {
      step := EndOfStream;
    } else if d == pattern[boffset] {
      RingAfterMatch(pattern, delimits, boffset, ring, mpp.Ring(), d);
      AheadTwice("", "", SearchFrom(pattern, boffset, ring, unread));
      step := if boffset + 1 == |pattern| then Complete else Continue;
    } else {
      RingAfterMismatch(pattern, delimits, boffset, ring, mpp.Ring(), d);
      PutBackMatched(mpp, pattern, boffset, d);
      boffset', emits := 0, [if boffset > 0 then pattern[0] else d];
      step := Continue;
    }
  }

  // The loop of afterNextBoundary. Whatever the stream, the ring never overflows and the
  // loop ends, with the ring drained, in what the specification of the loop says.
  method Search(mpp: MpStream, pattern: string, store: bool) returns (found: bool, out: string)
    requires mpp.Valid() && 2 <= |pattern| < CAPACITY && |mpp.Ring()| <= 2
    modifies mpp`inPos, mpp`readPos, mpp`writePos, mpp`offset, mpp.putback
    ensures mpp.Valid() && mpp.Ring() == ""
    ensures match SearchFrom(pattern, 0, old(mpp.Ring()), old(mpp.Unread()))
      case None => !found && mpp.Remaining() == ""
      case Some(hit) =>
        found && mpp.Remaining() == hit.rest && out == (if store then hit.body else "")
        && |mpp.Remaining()| < |old(mpp.Remaining())|
  {
    ghost var whole := SearchFrom(pattern, 0, mpp.Ring(), mpp.Unread());
    ghost var delimits := Delimiter(pattern) && OnlyLastCR(mpp.Ring());
    ghost var size := |mpp.Remaining()|;
    ghost var emitted := "";
    var boffset: nat := 0;
    out := "";
    assert RingFits(pattern, delimits, 0, mpp.Ring());
    hide SearchFrom, RingFits, RingOf;
    AheadTwice("", "", whole);
    while true
      invariant mpp.Valid() && boffset < |pattern|
      invariant RingFits(pattern, delimits, boffset, mpp.Ring())
      invariant whole == Ahead(emitted, SearchFrom(pattern, boffset, mpp.Ring(), mpp.Unread()))
      invariant |mpp.Remaining()| + boffset <= size && |mpp.Remaining()| <= size
      invariant out == if store then emitted else ""
      decreases |mpp.Remaining()| + boffset, |mpp.Remaining()|
    {
      var step, next, emits := SearchStep(mpp, pattern, boffset, delimits);
      if step == EndOfStream {
        return false, "";
      }
      if step == Complete {
        assert emitted + "" == emitted;
        return true, out;
      }
      AheadTwice(emitted, emits, SearchFrom(pattern, next, mpp.Ring(), mpp.Unread()));
      if store {
        out := out + emits;
      }
      emitted := emitted + emits;
      boffset := next;
    }
  }

  lemma FoundHere(pattern: string, emitted: string, rest: string)
    requires pattern != ""
    ensures Prepend(emitted, Before(pattern, pattern + rest)) == Some(emitted)
  {
    assert pattern <= pattern + rest;
    assert emitted + "" == emitted;
  }

  // ------------------------------------------------------- the whole function

  datatype ParseResult = ParseSuccess | ParseIO

  function Pattern(boundary: string, first: bool): string {
    (if first then "--" else "\r\n--") + boundary
  }

  lemma PatternDelimits(boundary: string)
    requires CR !in boundary
    ensures Delimiter(Pattern(boundary, false))
  {
    assert Pattern(boundary, false)[1..] == "\n--" + boundary;
  }

  // The whole function, on any pattern and stream.
  function NextBoundary(pattern: string, ring: string, unread: string): Option<Found>
    requires pattern != ""
  {
    match SearchFrom(pattern, 0, ring, unread)
    case None => None
    case Some(hit) =>
      match AfterLineEnd(hit.rest)
      case None => None
      case Some(rest) => Some(Found(hit.body, rest))
  }

  // With first == false the body is exactly what precedes the first delimiter.
  lemma NextBoundaryIsFirst(boundary: string, ring: string, unread: string)
    requires CR !in boundary && OnlyLastCR(ring) && |ring| <= 2
    ensures NextBoundary(Pattern(boundary, false), ring, unread)
      == AfterBoundary(Pattern(boundary, false), ring + unread)
  {
    var pattern := Pattern(boundary, false);
    PatternDelimits(boundary);
    SearchFindsDelimiter(pattern, ring, unread);
    ExactAfter(pattern, ring + unread, SearchFrom(pattern, 0, ring, unread));
  }

  lemma ExactAfter(pattern: string, stream: string, result: Option<Found>)
    requires pattern != "" && Exact(pattern, stream, result)
    ensures AfterBoundary(pattern, stream) == match result
      case None => None
      case Some(hit) =>
        match AfterLineEnd(hit.rest)
        case None => None
        case Some(rest) => Some(Found(hit.body, rest))
  {
    hide AfterLineEnd, Before;
    if result.Some? { assert stream[|result.value.body| + |pattern|..] == result.value.rest; }
  }

  method AfterNextBoundary(mpp: MpStream, boundary: string, store: bool, first: bool)
    returns (result: ParseResult, out: string)
    requires mpp.Valid() && |boundary| < CAPACITY - 4 && |mpp.Ring()| <= 2
    modifies mpp`inPos, mpp`readPos, mpp`writePos, mpp`offset, mpp.putback
    ensures mpp.Valid() && |mpp.Ring()| <= 2
    ensures match NextBoundary(Pattern(boundary, first), old(mpp.Ring()), old(mpp.Unread()))
      case None => result == ParseIO && out == ""
      case Some(found) =>
        result == ParseSuccess && mpp.Remaining() == found.rest && out == (if store then found.body else "")
        && |mpp.Remaining()| < |old(mpp.Remaining())|
  {
    hide SearchFrom, RingOf, Pattern;
    var pattern := Pattern(boundary, first);
    PatternLong(boundary, first);
    ghost var hit := SearchFrom(pattern, 0, mpp.Ring(), mpp.Unread());
    var found;
    found, out := Search(mpp, pattern, store);
    if !found {
      return ParseIO, "";
    }
    var ok := TakeLineEnd(mpp);
    if !ok {
      return ParseIO, "";
    }
    return ParseSuccess, out;
  }

  lemma PatternLong(boundary: string, first: bool)
    ensures 2 <= |Pattern(boundary, first)| <= |boundary| + 4
  {
  }

  // Reads the two characters behind the boundary; a dash is put back with the other one.
  method TakeLineEnd(mpp: MpStream) returns (ok: bool)
    requires mpp.Valid() && mpp.Ring() == ""
    modifies mpp`inPos, mpp`readPos, mpp`writePos, mpp`offset, mpp.putback
    ensures mpp.Valid() && |mpp.Ring()| <= 2
    ensures match AfterLineEnd(old(mpp.Remaining()))
      case None => !ok
      case Some(rest) => ok && mpp.Remaining() == rest && |rest| <= |old(mpp.Remaining())|
  {
    hide RingOf;
    ghost var rest := mpp.Remaining();
    var got, d := mpp.MpRead(2);
    if got != 2 {
      return false;
    }
    if d[0] == '\r' && d[1] == '\n' {
      assert rest[..2] == "\r\n";
    } else {
      assert rest[..2] != "\r\n";
      if d[0] == '-' {
        mpp.MpPutBack(d);
        assert mpp.Remaining() == rest;
      }
    }
    return true;
  }
}
