/** afterNextBoundary with first != 0: where the search for a boundary that starts with dashes ends. */
module PreambleSearch {
  import opened Results
  import opened BoundarySearch

  // The dashes at the start of a pattern; "--" and the boundary has at least two.
  function Dashes(s: string): (m: nat)
    ensures m <= |s| && (forall i | 0 <= i < m :: s[i] == '-') && (m < |s| ==> s[m] != '-')
  {
    if s != "" && s[0] == '-' then 1 + Dashes(s[1..]) else 0
  }

  // No dash stands behind the first ones.
  predicate PlainTail(pattern: string) { '-' !in pattern[Dashes(pattern)..] }

  // How far a text agrees with the pattern.
  function Common(pattern: string, s: string): (b: nat)
    ensures b <= |pattern| && b <= |s| && pattern[..b] == s[..b]
    ensures b < |pattern| && b < |s| ==> pattern[b] != s[b]
  {
    if pattern == "" || s == "" || pattern[0] != s[0] then 0
    else
      var b := 1 + Common(pattern[1..], s[1..]);
      assert pattern[..b] == [pattern[0]] + pattern[1..][..b - 1] && s[..b] == [s[0]] + s[1..][..b - 1];
      b
  }

  function RestOf(found: Option<Found>): Option<string> {
    match found case None => None case Some(hit) => Some(hit.rest)
  }

  lemma RestAhead(emitted: string, later: Option<Found>)
    ensures RestOf(Ahead(emitted, later)) == RestOf(later)
  {
  }

  // ---------------------------------------------------------- turns of the loop

  // A character is read from the ring.
  lemma ReadRing(pattern: string, b: nat, d: char, ring: string, unread: string)
    requires b < |pattern|
    ensures SearchFrom(pattern, b, [d] + ring, unread) ==
      if d != pattern[b] then
        Ahead([if b > 0 then pattern[0] else d], SearchFrom(pattern, 0, ring + Again(pattern, b, d), unread))
      else if b + 1 == |pattern| then Some(Found("", ring + unread))
      else SearchFrom(pattern, b + 1, ring, unread)
  {
    assert ([d] + ring + unread)[0] == d && Popped([d] + ring) == ring;
    hide Again;
  }

  // A character is read from the input.
  lemma ReadInput(pattern: string, b: nat, d: char, unread: string)
    requires b < |pattern|
    ensures SearchFrom(pattern, b, "", [d] + unread) ==
      if d != pattern[b] then
        Ahead([if b > 0 then pattern[0] else d], SearchFrom(pattern, 0, Again(pattern, b, d), unread))
      else if b + 1 == |pattern| then Some(Found("", unread))
      else SearchFrom(pattern, b + 1, "", unread)
  {
    assert "" + ([d] + unread) == [d] + unread && "" + Again(pattern, b, d) == Again(pattern, b, d);
    assert "" + unread == unread && ([d] + unread)[1..] == unread;
    hide Again;
  }

  lemma {:induction false} MatchRing(pattern: string, b: nat, x: string, ring: string, unread: string)
    requires b + |x| < |pattern| && x == pattern[b..b + |x|]
    ensures SearchFrom(pattern, b, x + ring, unread) == SearchFrom(pattern, b + |x|, ring, unread)
    decreases |x|
  {
    hide SearchFrom;
    if x == "" {
      assert x + ring == ring;
    } else {
      assert x + ring == [x[0]] + (x[1..] + ring);
      ReadRing(pattern, b, x[0], x[1..] + ring, unread);
      assert x[1..] == pattern[b + 1..b + 1 + |x[1..]|];
      MatchRing(pattern, b + 1, x[1..], ring, unread);
    }
  }

  lemma {:induction false} MatchInput(pattern: string, b: nat, x: string, unread: string)
    requires b + |x| < |pattern| && x == pattern[b..b + |x|]
    ensures SearchFrom(pattern, b, "", x + unread) == SearchFrom(pattern, b + |x|, "", unread)
    decreases |x|
  {
    hide SearchFrom;
    if x == "" {
      assert x + unread == unread;
    } else {
      assert x + unread == [x[0]] + (x[1..] + unread);
      ReadInput(pattern, b, x[0], x[1..] + unread);
      assert x[1..] == pattern[b + 1..b + 1 + |x[1..]|];
      MatchInput(pattern, b + 1, x[1..], unread);
    }
  }

  // Where all but the last character of the ring matches, the order is kept.
  lemma Drain(pattern: string, x: string, d: char, unread: string)
    requires |x| < |pattern| && x == pattern[..|x|]
    ensures SearchFrom(pattern, 0, x + [d], unread) == SearchFrom(pattern, 0, "", x + ([d] + unread))
  {
    hide *;
    MatchRing(pattern, 0, x, [d], unread);
    MatchInput(pattern, 0, x, [d] + unread);
    DrainLast(pattern, |x|, d, unread);
  }

  lemma DrainLast(pattern: string, b: nat, d: char, unread: string)
    requires b < |pattern|
    ensures SearchFrom(pattern, b, [d], unread) == SearchFrom(pattern, b, "", [d] + unread)
  {
    hide *;
    assert [d] + "" == [d];
    ReadRing(pattern, b, d, "", unread);
    ReadInput(pattern, b, d, unread);
    assert "" + Again(pattern, b, d) == Again(pattern, b, d) && "" + unread == unread;
  }

  lemma FindsHere(pattern: string, rest: string)
    requires pattern != ""
    ensures SearchFrom(pattern, 0, "", pattern + rest) == Some(Found("", rest))
  {
    hide SearchFrom;
    var last := |pattern| - 1;
    assert pattern + rest == pattern[..last] + ([pattern[last]] + rest);
    MatchInput(pattern, 0, pattern[..last], [pattern[last]] + rest);
    ReadInput(pattern, last, pattern[last], rest);
  }

  lemma EndsInside(pattern: string, s: string)
    requires |s| < |pattern| && s == pattern[..|s|]
    ensures SearchFrom(pattern, 0, "", s) == None
  {
    assert s + "" == s;
    MatchInput(pattern, 0, s, "");
  }

  // The match breaks at a place after the given one.
  lemma Breaks(pattern: string, s: string, b: nat)
    requires b == Common(pattern, s) && 0 < b < |pattern| && b < |s|
    ensures SearchFrom(pattern, 0, "", s)
      == Ahead([s[0]], SearchFrom(pattern, 0, pattern[1..b] + [s[b]], s[b + 1..]))
  {
    hide SearchFrom, Common;
    assert s == s[..b] + ([s[b]] + s[b + 1..]) && s[..b][0] == pattern[..b][0];
    MatchInput(pattern, 0, s[..b], [s[b]] + s[b + 1..]);
    ReadInput(pattern, b, s[b], s[b + 1..]);
  }

  // A match that breaks among the dashes, or right behind them, emits one character.
  lemma EmitsOne(pattern: string, s: string)
    requires Common(pattern, s) < |pattern| && Common(pattern, s) < |s| && Common(pattern, s) <= Dashes(pattern)
    ensures SearchFrom(pattern, 0, "", s) == Ahead([s[0]], SearchFrom(pattern, 0, "", s[1..]))
  {
    hide SearchFrom, Common, Dashes;
    var b := Common(pattern, s);
    if b == 0 {
      assert s == [s[0]] + s[1..];
      ReadInput(pattern, 0, s[0], s[1..]);
    } else {
      Breaks(pattern, s, b);
      var x := pattern[1..b];
      assert x == pattern[..b - 1];
      Drain(pattern, x, s[b], s[b + 1..]);
      assert s[1..] == s[..b][1..] + ([s[b]] + s[b + 1..]) && pattern[..b][1..] == x;
    }
  }

  // ---------------------------------------------------- boundaries of any shape

  // A pattern up to the character that follows its dashes.
  function Opening(pattern: string): (q: string)
    ensures q <= pattern
  {
    var m := Dashes(pattern);
    if m < |pattern| then pattern[..m + 1] else pattern
  }

  // The pattern does not start and break off before its first occurrence.
  ghost predicate NoFalseStart(pattern: string, stream: string)
    requires pattern != ""
  {
    forall i: nat | OccursAt(Opening(pattern), stream, i) ::
      Before(pattern, stream).Some? && i >= |Before(pattern, stream).value|
  }

  lemma OpensAt(pattern: string, stream: string)
    requires Dashes(pattern) < Common(pattern, stream)
    ensures OccursAt(Opening(pattern), stream, 0)
  {
    var q, b := Opening(pattern), Common(pattern, stream);
    hide Dashes, Common;
    assert stream[0..|q|] == stream[..b][..|q|] == pattern[..b][..|q|] == q;
  }

  lemma NoFalseStartHere(pattern: string, stream: string)
    requires pattern != "" && NoFalseStart(pattern, stream) && !(pattern <= stream)
    ensures Common(pattern, stream) <= Dashes(pattern)
  {
    if Dashes(pattern) < Common(pattern, stream) {
      OpensAt(pattern, stream);
      BeforeSplits(pattern, stream);
    }
  }

  // The text before the first occurrence is not empty when the pattern stands elsewhere.
  lemma BeforeSplits(pattern: string, stream: string)
    requires pattern != "" && !(pattern <= stream)
    ensures Before(pattern, stream).Some? ==>
      stream != "" && Before(pattern, stream[1..]).Some?
      && Before(pattern, stream).value == [stream[0]] + Before(pattern, stream[1..]).value
    ensures stream != "" && Before(pattern, stream).None? ==> Before(pattern, stream[1..]).None?
  {
  }

  lemma OccursEarlier(q: string, stream: string, i: nat)
    requires stream != "" && OccursAt(q, stream[1..], i)
    ensures OccursAt(q, stream, i + 1)
  {
    assert stream[i + 1..i + 1 + |q|] == stream[1..][i..i + |q|];
  }

  lemma NoFalseStartLater(pattern: string, stream: string)
    requires pattern != "" && NoFalseStart(pattern, stream) && !(pattern <= stream) && stream != ""
    ensures NoFalseStart(pattern, stream[1..])
  {
    hide OccursAt, Opening;
    BeforeSplits(pattern, stream);
    hide Before;
    forall i: nat | OccursAt(Opening(pattern), stream[1..], i)
      ensures Before(pattern, stream[1..]).Some? && i >= |Before(pattern, stream[1..]).value|
    {
      OccursEarlier(Opening(pattern), stream, i);
    }
  }

  // Then the search is exact, for any boundary.
  lemma {:induction false} FindsFirst(pattern: string, stream: string)
    requires pattern != "" && NoFalseStart(pattern, stream)
    ensures Exact(pattern, stream, SearchFrom(pattern, 0, "", stream))
    decreases |stream|
  {
    var b := Common(pattern, stream);
    if pattern <= stream {
      var rest := stream[|pattern|..];
      assert stream == pattern + rest && stream == "" + pattern + rest;
      FindsHere(pattern, rest);
    } else if b == |stream| {
      assert stream[..b] == stream;
      EndsInside(pattern, stream);
      BeforeShort(pattern, stream);
    } else {
      assert b < |pattern| by { assert stream[..b] == pattern[..b]; }
      NoFalseStartHere(pattern, stream);
      NoFalseStartLater(pattern, stream);
      FindsFirst(pattern, stream[1..]);
      EmitsOne(pattern, stream);
      hide *;
      ExactLater(pattern, stream, SearchFrom(pattern, 0, "", stream[1..]));
    }
  }

  lemma ExactLater(pattern: string, stream: string, later: Option<Found>)
    requires pattern != "" && stream != "" && !(pattern <= stream) && Exact(pattern, stream[1..], later)
    ensures Exact(pattern, stream, Ahead([stream[0]], later))
  {
    BeforeSplits(pattern, stream);
    hide Before;
    if later.Some? {
      assert stream == [stream[0]] + stream[1..];
      Regroup([stream[0]], later.value.body, pattern, later.value.rest);
    }
  }

  lemma Regroup(a: string, b: string, c: string, d: string)
    ensures a + (b + c + d) == a + b + c + d
  {
  }

  // ------------------------------------- boundaries with dashes at the start only

  // Dashes that a character which is none follows: all of them are emitted in order.
  lemma {:induction false} Junk(pattern: string, x: string, c: char, unread: string)
    requires |x| < Dashes(pattern) && x == pattern[..|x|] && c != '-'
    ensures RestOf(SearchFrom(pattern, 0, x + [c], unread)) == RestOf(SearchFrom(pattern, 0, "", unread))
    decreases |x|
  {
    hide SearchFrom;
    var j := |x|;
    MatchRing(pattern, 0, x, [c], unread);
    assert [c] + "" == [c];
    ReadRing(pattern, j, c, "", unread);
    if j == 0 {
      assert "" + "" == "";
    } else {
      var y := pattern[1..j];
      assert y == pattern[..j - 1] && "" + (y + [c]) == y + [c];
      Junk(pattern, y, c, unread);
    }
  }

  // Characters that cannot start the pattern.
  lemma {:induction false} Drops(pattern: string, x: string, ring: string, unread: string)
    requires Dashes(pattern) > 0 && '-' !in x
    ensures RestOf(SearchFrom(pattern, 0, x + ring, unread)) == RestOf(SearchFrom(pattern, 0, ring, unread))
    decreases |x|
  {
    hide SearchFrom;
    if x == "" {
      assert x + ring == ring;
    } else {
      assert x + ring == [x[0]] + (x[1..] + ring) && x[1..] + ring + "" == x[1..] + ring;
      ReadRing(pattern, 0, x[0], x[1..] + ring, unread);
      Drops(pattern, x[1..], ring, unread);
    }
  }

  // A match that breaks off behind the dashes: what is put back gets out of order, and
  // nothing of it is left, not even the character that broke the match.
  lemma DropsFalseStart(pattern: string, b: nat, d: char, unread: string)
    requires Dashes(pattern) >= 2 && PlainTail(pattern) && Dashes(pattern) < b < |pattern|
    ensures RestOf(SearchFrom(pattern, 0, pattern[1..b] + [d], unread)) == RestOf(SearchFrom(pattern, 0, "", unread))
  {
    hide *;
    var m := Dashes(pattern);
    var c, x, y, t := pattern[m], pattern[1..m], pattern[1..m - 1], pattern[m + 1..b];
    FalseStartShape(pattern, m, b, d);
    TailChar(pattern, m);
    NoDashIn(pattern, b);
    MatchRing(pattern, 0, x, [c] + (t + [d]), unread);
    ReadRing(pattern, m - 1, c, t + [d], unread);
    RestAhead(['-'], SearchFrom(pattern, 0, t + [d] + (y + [c]), unread));
    Drops(pattern, t, [d] + (y + [c]), unread);
    if d == '-' {
      Junk(pattern, x, c, unread);
    } else {
      Drops(pattern, [d], y + [c], unread);
      Junk(pattern, y, c, unread);
    }
  }

  lemma FalseStartShape(pattern: string, m: nat, b: nat, d: char)
    requires 2 <= m < b < |pattern| && forall i | 0 <= i < m :: pattern[i] == '-'
    ensures var c, x, y, t := pattern[m], pattern[1..m], pattern[1..m - 1], pattern[m + 1..b];
      pattern[1..b] + [d] == x + ([c] + (t + [d])) && x == pattern[..m - 1] && y == pattern[..m - 2]
      && t + [d] + (y + [c]) == t + ([d] + (y + [c])) && ['-'] + (y + [c]) == x + [c]
      && Again(pattern, m - 1, c) == y + [c]
  {
  }

  lemma NoDashIn(pattern: string, b: nat)
    requires PlainTail(pattern) && Dashes(pattern) < b <= |pattern|
    ensures '-' !in pattern[Dashes(pattern) + 1..b]
  {
    hide PlainTail, Dashes;
    var t := pattern[Dashes(pattern) + 1..b];
    forall c | c in t ensures c != '-' {
      var i :| 0 <= i < |t| && t[i] == c;
      TailChar(pattern, Dashes(pattern) + 1 + i);
    }
  }

  lemma AfterFalseStart(pattern: string, s: string)
    requires Dashes(pattern) >= 2 && PlainTail(pattern)
    requires Dashes(pattern) < Common(pattern, s) < |pattern| && Common(pattern, s) < |s|
    ensures RestOf(SearchFrom(pattern, 0, "", s)) == RestOf(SearchFrom(pattern, 0, "", s[Common(pattern, s) + 1..]))
  {
    hide SearchFrom, Common, Dashes, PlainTail;
    var b := Common(pattern, s);
    Breaks(pattern, s, b);
    DropsFalseStart(pattern, b, s[b], s[b + 1..]);
  }

  // The text ends in a false start of the pattern: its dashes and more, but not all of it.
  predicate EndsStarted(pattern: string, text: string, k: nat) {
    Dashes(pattern) < k < |pattern| && k <= |text| && text[|text| - k..] == pattern[..k]
  }

  // The number of false starts at the end of the text, each right behind the one before.
  ghost function FalseStarts(pattern: string, text: string): nat
    decreases |text|
  {
    if exists k: nat :: EndsStarted(pattern, text, k) then
      var k: nat :| EndsStarted(pattern, text, k);
      1 + FalseStarts(pattern, text[..|text| - k])
    else 0
  }

  lemma TailChar(pattern: string, i: nat)
    requires PlainTail(pattern) && Dashes(pattern) <= i < |pattern|
    ensures pattern[i] != '-'
  {
    assert pattern[i] == pattern[Dashes(pattern)..][i - Dashes(pattern)];
  }

  predicate DashesAt(s: string, j: nat, m: nat) {
    j + m <= |s| && forall i | j <= i < j + m :: s[i] == '-'
  }

  // As many dashes as the pattern starts with cannot stand inside a start of it.
  lemma DashesOnce(pattern: string, s: string, b: nat, j: nat)
    requires PlainTail(pattern) && 0 < Dashes(pattern) < b <= |pattern| && pattern[..b] <= s
    requires 0 < j && DashesAt(s, j, Dashes(pattern))
    ensures j >= b
  {
    hide PlainTail, Dashes;
    if j < b {
      var i := if j < Dashes(pattern) then Dashes(pattern) else j;
      StartChar(pattern, s, b, i);
      TailChar(pattern, i);
    }
  }

  lemma StartChar(pattern: string, s: string, b: nat, i: nat)
    requires i < b <= |pattern| && pattern[..b] <= s
    ensures s[i] == pattern[i]
  {
    assert s[i] == pattern[..b][i];
  }

  lemma StartsDashed(pattern: string, s: string, j: nat, k: nat)
    requires Dashes(pattern) <= k <= |pattern| && j + k <= |s| && s[j..j + k] == pattern[..k]
    ensures DashesAt(s, j, Dashes(pattern))
  {
    hide Dashes;
    forall i | j <= i < j + Dashes(pattern) ensures s[i] == '-' {
      assert s[i] == s[j..j + k][i - j] == pattern[i - j];
    }
  }

  lemma StartedOnce(pattern: string, text: string, k: nat, k': nat)
    requires PlainTail(pattern) && 0 < Dashes(pattern)
    requires EndsStarted(pattern, text, k) && EndsStarted(pattern, text, k')
    ensures k >= k'
  {
    hide PlainTail, Dashes;
    if k < k' {
      var s := text[|text| - k'..];
      assert s[k' - k..k' - k + k] == text[|text| - k..];
      StartsDashed(pattern, s, k' - k, k);
      DashesOnce(pattern, s, k', k' - k);
    }
  }

  lemma FalseStartsStep(pattern: string, text: string, k: nat)
    requires PlainTail(pattern) && 0 < Dashes(pattern) && EndsStarted(pattern, text, k)
    ensures FalseStarts(pattern, text) == 1 + FalseStarts(pattern, text[..|text| - k])
  {
    hide PlainTail, Dashes, EndsStarted;
    forall k': nat | EndsStarted(pattern, text, k') ensures k' == k {
      StartedOnce(pattern, text, k, k');
      StartedOnce(pattern, text, k', k);
    }
  }

  // A false start at the end of a text may be looked for in any end of it that is long enough.
  lemma EndsStartedLater(pattern: string, text: string, i: nat, k: nat)
    requires i <= |text| && k <= |text| - i
    ensures EndsStarted(pattern, text, k) <==> EndsStarted(pattern, text[i..], k)
    ensures text[..|text| - k][i..] == text[i..][..|text| - i - k]
  {
    assert text[i..][|text| - i - k..] == text[|text| - k..];
  }

  // Where no false start begins a text, its first character makes no difference.
  lemma {:induction false} FalseStartsTail(pattern: string, text: string)
    requires PlainTail(pattern) && 0 < Dashes(pattern) && text != ""
    requires forall k: nat | Dashes(pattern) < k < |pattern| :: !(pattern[..k] <= text)
    ensures FalseStarts(pattern, text) == FalseStarts(pattern, text[1..])
    decreases |text|
  {
    hide PlainTail, Dashes, FalseStarts;
    if k: nat :| EndsStarted(pattern, text, k) {
      FalseStartsStep(pattern, text, k);
      ShorterThanWhole(pattern, text, k);
      EndsStartedLater(pattern, text, 1, k);
      FalseStartsStep(pattern, text[1..], k);
      NotBegun(pattern, text, |text| - k);
      FalseStartsTail(pattern, text[..|text| - k]);
    } else {
      forall k: nat ensures !EndsStarted(pattern, text[1..], k) {
        if EndsStarted(pattern, text[1..], k) { EndsStartedLater(pattern, text, 1, k); }
      }
      NoFalseStarts(pattern, text);
      NoFalseStarts(pattern, text[1..]);
    }
  }

  lemma ShorterThanWhole(pattern: string, text: string, k: nat)
    requires EndsStarted(pattern, text, k) && !(pattern[..k] <= text)
    ensures k < |text|
  {
    assert text[0..] == text;
  }

  lemma NoFalseStarts(pattern: string, text: string)
    requires forall k: nat :: !EndsStarted(pattern, text, k)
    ensures FalseStarts(pattern, text) == 0
  {
  }

  lemma NotBegun(pattern: string, text: string, n: nat)
    requires n <= |text|
    requires forall k: nat | Dashes(pattern) < k < |pattern| :: !(pattern[..k] <= text)
    ensures forall k: nat | Dashes(pattern) < k < |pattern| :: !(pattern[..k] <= text[..n])
  {
    forall k: nat | Dashes(pattern) < k < |pattern| ensures !(pattern[..k] <= text[..n]) {
      PrefixOfPrefix(pattern[..k], text, n);
    }
  }

  lemma PrefixOfPrefix(q: string, text: string, n: nat)
    requires n <= |text|
    ensures q <= text[..n] ==> q <= text
  {
    if q <= text[..n] { assert text[..|q|] == text[..n][..|q|]; }
  }

  // A false start and the character behind it, whatever that is, leave the parity alone:
  // another false start right behind this one begins with that character.
  lemma {:induction false} FalseStartsBehind(pattern: string, text: string, b: nat)
    requires PlainTail(pattern) && 0 < Dashes(pattern) < b < |pattern|
    requires pattern[..b] <= text && b < |text| && text[b] != pattern[b]
    ensures FalseStarts(pattern, text) % 2 == FalseStarts(pattern, text[b + 1..]) % 2
    decreases |text|
  {
    hide PlainTail, Dashes, FalseStarts, EndsStarted;
    var later := text[b + 1..];
    if k: nat :| EndsStarted(pattern, later, k) {
      StartedFits(pattern, later, k);
      EndsStartedLater(pattern, text, b + 1, k);
      FalseStartsStep(pattern, text, k);
      FalseStartsStep(pattern, later, k);
      var short := text[..|text| - k];
      assert pattern[..b] <= short && short[b] == text[b] by { assert short[..b] == text[..b]; }
      FalseStartsBehind(pattern, short, b);
    } else {
      NoFalseStarts(pattern, later);
      if k: nat :| EndsStarted(pattern, text, k) {
        StartedFits(pattern, text, k);
        if k <= |later| { EndsStartedLater(pattern, text, b + 1, k); }
        StartsAtBreak(pattern, text, b, k);
        FalseStartsStep(pattern, text, k);
        assert text[..b] == pattern[..b];
        WholeStart(pattern, b);
      } else {
        NoFalseStarts(pattern, text);
      }
    }
  }

  lemma StartedFits(pattern: string, text: string, k: nat)
    requires EndsStarted(pattern, text, k)
    ensures Dashes(pattern) < k < |pattern| && k <= |text|
  {
  }

  // A false start that ends behind the broken one begins where that one broke.
  lemma StartsAtBreak(pattern: string, text: string, b: nat, k: nat)
    requires PlainTail(pattern) && 0 < Dashes(pattern) < b < |pattern|
    requires pattern[..b] <= text && b < |text| && text[b] != pattern[b]
    requires EndsStarted(pattern, text, k) && |text| - k <= b
    ensures |text| - k == b
  {
    hide PlainTail, Dashes;
    var j := |text| - k;
    assert text[0..] == text;
    if j == 0 {
      StartChar(pattern, text, k, b);
    } else {
      assert text[j..j + k] == text[j..];
      StartsDashed(pattern, text, j, k);
      DashesOnce(pattern, text, b, j);
    }
  }

  lemma WholeStart(pattern: string, b: nat)
    requires PlainTail(pattern) && 0 < Dashes(pattern) < b < |pattern|
    ensures FalseStarts(pattern, pattern[..b]) == 1
  {
    hide PlainTail, Dashes, FalseStarts;
    var text := pattern[..b];
    assert text[|text| - b..] == text && text[..|text| - b] == "";
    FalseStartsStep(pattern, text, b);
    NoFalseStarts(pattern, "");
  }

  // -------------------------------------------------------------- the outcome

  lemma AfterBefore(pattern: string, stream: string)
    requires pattern != ""
    ensures match Before(pattern, stream)
      case None => true
      case Some(body) =>
        |body| + |pattern| <= |stream| && stream == body + pattern + stream[|body| + |pattern|..]
  {
    BeforeIsFirst(pattern, stream);
  }

  // Behind an odd number of false starts an occurrence is passed over.
  ghost function Skipping(pattern: string, stream: string): Option<string>
    requires pattern != ""
    decreases |stream|
  {
    match Before(pattern, stream)
    case None => None
    case Some(body) =>
      AfterBefore(pattern, stream);
      var more := stream[|body| + |pattern|..];
      if FalseStarts(pattern, body) % 2 == 0 then Some(more) else Skipping(pattern, more)
  }

  lemma SkippingSame(pattern: string, stream: string, n: nat)
    requires pattern != "" && n <= |stream|
    requires match Before(pattern, stream[n..])
      case None => Before(pattern, stream) == None
      case Some(body) =>
        Before(pattern, stream) == Some(stream[..n] + body)
        && FalseStarts(pattern, stream[..n] + body) % 2 == FalseStarts(pattern, body) % 2
    ensures Skipping(pattern, stream) == Skipping(pattern, stream[n..])
  {
    hide Before, FalseStarts;
    match Before(pattern, stream[n..])
    case None =>
    case Some(body) =>
      AfterBefore(pattern, stream[n..]);
      assert stream[n..][|body| + |pattern|..] == stream[n + |body| + |pattern|..];
  }

  // An occurrence that comes right behind an odd number of false starts is passed over,
  // as its first dash is gone.
  lemma PassesOver(pattern: string, more: string)
    requires Dashes(pattern) >= 2 && PlainTail(pattern) && Dashes(pattern) < |pattern|
    ensures RestOf(SearchFrom(pattern, 0, "", pattern[1..] + more)) == RestOf(SearchFrom(pattern, 0, "", more))
  {
    hide SearchFrom, PlainTail;
    var m := Dashes(pattern);
    var x, c, t := pattern[1..m], pattern[m], pattern[m + 1..];
    assert x == pattern[..m - 1] && pattern[1..] == x + [c] + t;
    TailChar(pattern, m);
    NoDashIn(pattern, |pattern|);
    assert pattern[m + 1..|pattern|] == t;
    hide Dashes;
    assert pattern[1..] + more == x + ([c] + (t + more));
    Drain(pattern, x, c, t + more);
    Junk(pattern, x, c, t + more);
    DropsInput(pattern, t, more);
  }

  lemma {:induction false} DropsInput(pattern: string, x: string, unread: string)
    requires Dashes(pattern) > 0 && '-' !in x
    ensures RestOf(SearchFrom(pattern, 0, "", x + unread)) == RestOf(SearchFrom(pattern, 0, "", unread))
    decreases |x|
  {
    hide SearchFrom;
    if x == "" {
      assert x + unread == unread;
    } else {
      assert x + unread == [x[0]] + (x[1..] + unread);
      ReadInput(pattern, 0, x[0], x[1..] + unread);
      DropsInput(pattern, x[1..], unread);
    }
  }

  // Inside a broken start the pattern does not occur.
  lemma NotInside(pattern: string, s: string, b: nat, j: nat)
    requires PlainTail(pattern) && 0 < Dashes(pattern) < b < |pattern|
    requires pattern[..b] <= s && !(pattern <= s) && j <= |s| && pattern <= s[j..]
    ensures j >= b
  {
    hide PlainTail, Dashes;
    StandsAt(pattern, s, j);
    if j > 0 {
      StartsDashed(pattern, s, j, |pattern|);
      DashesOnce(pattern, s, b, j);
    }
  }

  lemma StandsAt(pattern: string, s: string, j: nat)
    requires j <= |s| && pattern <= s[j..]
    ensures j + |pattern| <= |s| && s[j..j + |pattern|] == pattern[..|pattern|]
    ensures j == 0 ==> pattern <= s
  {
    assert s[j..j + |pattern|] == s[j..][..|pattern|];
    assert s[0..] == s;
  }

  lemma {:induction false} BeforeDrop(pattern: string, s: string, n: nat)
    requires pattern != "" && n <= |s| && forall j | 0 <= j < n :: !(pattern <= s[j..])
    ensures Before(pattern, s) == Prepend(s[..n], Before(pattern, s[n..]))
    decreases n
  {
    if n == 0 {
      assert s[0..] == s && s[..0] == "";
      var b := Before(pattern, s);
      assert b.Some? ==> "" + b.value == b.value;
    } else {
      assert s[0..] == s;
      forall j | 0 <= j < n - 1 ensures !(pattern <= s[1..][j..]) {
        assert s[1..][j..] == s[j + 1..];
      }
      BeforeDrop(pattern, s[1..], n - 1);
      assert s[1..][n - 1..] == s[n..];
      var b := Before(pattern, s[n..]);
      assert b.Some? ==> [s[0]] + (s[1..][..n - 1] + b.value) == s[..n] + b.value;
    }
  }

  // One character that starts no false start.
  lemma SkippingOne(pattern: string, s: string)
    requires PlainTail(pattern) && 0 < Dashes(pattern) && s != "" && !(pattern <= s)
    requires Common(pattern, s) <= Dashes(pattern)
    ensures Skipping(pattern, s) == Skipping(pattern, s[1..])
  {
    hide PlainTail, Dashes, Common, FalseStarts;
    BeforeSplits(pattern, s);
    hide Before;
    assert s[..1] == [s[0]];
    if Before(pattern, s[1..]).Some? {
      var body := Before(pattern, s[1..]).value;
      AfterBefore(pattern, s);
      assert ([s[0]] + body)[1..] == body;
      NothingBegun(pattern, s, [s[0]] + body);
      FalseStartsTail(pattern, [s[0]] + body);
    }
    SkippingSame(pattern, s, 1);
  }

  lemma NothingBegun(pattern: string, s: string, body: string)
    requires body <= s && Common(pattern, s) <= Dashes(pattern)
    ensures forall k: nat | Dashes(pattern) < k < |pattern| :: !(pattern[..k] <= body)
  {
    hide Dashes;
    forall k: nat | Dashes(pattern) < k < |pattern| ensures !(pattern[..k] <= body) {
      CommonLongest(pattern, s, body, k);
    }
  }

  lemma CommonLongest(pattern: string, s: string, body: string, k: nat)
    requires body <= s && k <= |pattern|
    ensures pattern[..k] <= body ==> k <= Common(pattern, s)
  {
    var b := Common(pattern, s);
    if pattern[..k] <= body && b < k {
      StartChar(pattern, body, k, b);
    }
  }

  // A false start, and an occurrence further on.
  lemma SkippingFalseStart(pattern: string, s: string, b: nat)
    requires PlainTail(pattern) && 0 < Dashes(pattern) < b < |pattern| && b < |s|
    requires pattern[..b] <= s && s[b] != pattern[b] && !(pattern <= s[b..])
    ensures Skipping(pattern, s) == Skipping(pattern, s[b + 1..])
  {
    hide PlainTail, Dashes, FalseStarts, Before;
    forall j | 0 <= j < b + 1 ensures !(pattern <= s[j..]) {
      NotWithin(pattern, s, b);
      if pattern <= s[j..] { NotInside(pattern, s, b, j); }
    }
    BeforeDrop(pattern, s, b + 1);
    if Before(pattern, s[b + 1..]).Some? {
      var body := s[..b + 1] + Before(pattern, s[b + 1..]).value;
      assert s[..b] == s[..b + 1][..b] == body[..b] && body[b] == s[b];
      assert body[b + 1..] == Before(pattern, s[b + 1..]).value;
      FalseStartsBehind(pattern, body, b);
    }
    SkippingSame(pattern, s, b + 1);
  }

  lemma NotWithin(pattern: string, s: string, b: nat)
    requires b < |pattern| && b < |s| && s[b] != pattern[b]
    ensures !(pattern <= s)
  {
  }

  // A false start right before an occurrence.
  lemma SkippingMissed(pattern: string, b: nat, more: string)
    requires PlainTail(pattern) && 0 < Dashes(pattern) < b < |pattern|
    ensures Skipping(pattern, pattern[..b] + (pattern + more)) == Skipping(pattern, more)
  {
    hide *;
    var s := pattern[..b] + (pattern + more);
    WholeStart(pattern, b);
    BeforeMissed(pattern, b, more);
    assert s == pattern[..b] + pattern + more;
    SkippingAt(pattern, s, pattern[..b], more);
  }

  lemma SkippingAt(pattern: string, s: string, body: string, more: string)
    requires pattern != "" && Before(pattern, s) == Some(body) && s == body + pattern + more
    ensures Skipping(pattern, s) == if FalseStarts(pattern, body) % 2 == 0 then Some(more) else Skipping(pattern, more)
  {
    hide Before, FalseStarts;
    assert s[|body| + |pattern|..] == more;
  }

  lemma BeforeMissed(pattern: string, b: nat, more: string)
    requires PlainTail(pattern) && 0 < Dashes(pattern) < b < |pattern|
    ensures Before(pattern, pattern[..b] + (pattern + more)) == Some(pattern[..b])
  {
    var s := pattern[..b] + (pattern + more);
    DashBreaks(pattern, b, more);
    hide PlainTail, Dashes, Before;
    forall j | 0 <= j < b ensures !(pattern <= s[j..]) {
      if pattern <= s[j..] { NotInside(pattern, s, b, j); }
    }
    BeforeDrop(pattern, s, b);
    assert s[b..] == pattern + more && s[..b] == pattern[..b];
    FoundHere(pattern, pattern[..b], more);
  }

  lemma DashBreaks(pattern: string, b: nat, more: string)
    requires PlainTail(pattern) && 0 < Dashes(pattern) < b < |pattern|
    ensures !(pattern <= pattern[..b] + (pattern + more))
  {
    hide PlainTail;
    var s := pattern[..b] + (pattern + more);
    TailChar(pattern, b);
    assert s[b] == '-';
  }

  // What the loop does with such a boundary, on every stream.
  lemma {:induction false} SearchSkips(pattern: string, s: string)
    requires Dashes(pattern) >= 2 && PlainTail(pattern)
    ensures RestOf(SearchFrom(pattern, 0, "", s)) == Skipping(pattern, s)
    decreases |s|
  {
    hide PlainTail, Dashes, Common, SearchFrom;
    var b := Common(pattern, s);
    if pattern <= s {
      var rest := s[|pattern|..];
      assert s == pattern + rest;
      FindsHere(pattern, rest);
      NoFalseStarts(pattern, "");
    } else if b == |s| {
      assert s[..b] == s;
      EndsInside(pattern, s);
      BeforeShort(pattern, s);
    } else {
      assert b < |pattern| by { assert s[..b] == pattern[..b]; }
      hide *;
      if b <= Dashes(pattern) {
        EmitsOne(pattern, s);
        RestAhead([s[0]], SearchFrom(pattern, 0, "", s[1..]));
        SearchSkips(pattern, s[1..]);
        SkippingOne(pattern, s);
      } else {
        AfterFalseStart(pattern, s);
        assert s == s[..b] + s[b..];
        if pattern <= s[b..] {
          var more := s[b + |pattern|..];
          SplitAt(pattern, s, b);
          PassesOver(pattern, more);
          SearchSkips(pattern, more);
          SkippingMissed(pattern, b, more);
        } else {
          SearchSkips(pattern, s[b + 1..]);
          SkippingFalseStart(pattern, s, b);
        }
      }
    }
  }

  lemma SplitAt(pattern: string, s: string, b: nat)
    requires b < |pattern| && b < |s| && s[..b] == pattern[..b] && pattern <= s[b..]
    ensures var more := s[b + |pattern|..];
      s == pattern[..b] + (pattern + more) && s[b + 1..] == pattern[1..] + more
  {
    var more := s[b + |pattern|..];
    assert s[b..] == pattern + s[b..][|pattern|..] && s[b..][|pattern|..] == more;
    assert s == s[..b] + s[b..];
    assert s[b + 1..] == s[b..][1..];
  }

  lemma {:induction false} RestShorter(pattern: string, b: nat, ring: string, unread: string)
    requires b < |pattern|
    ensures var rest := RestOf(SearchFrom(pattern, b, ring, unread));
      rest.Some? ==> |rest.value| + |pattern| <= |ring| + |unread| + b
    decreases |ring| + |unread| + b, |ring| + |unread|
  {
    if ring + unread != "" {
      var d, left := (ring + unread)[0], if ring == "" then unread[1..] else unread;
      if d != pattern[b] {
        RestShorter(pattern, 0, Popped(ring) + Again(pattern, b, d), left);
      } else if b + 1 < |pattern| {
        RestShorter(pattern, b + 1, Popped(ring), left);
      }
    }
  }

  // The search ends right behind the first occurrence, or at the end of a stream that has
  // none, exactly when an even number of false starts stands before that occurrence.
  lemma SearchFirstExactly(pattern: string, stream: string)
    requires Dashes(pattern) >= 2 && PlainTail(pattern)
    ensures match Before(pattern, stream)
      case None => SearchFrom(pattern, 0, "", stream) == None
      case Some(body) =>
        |body| + |pattern| <= |stream|
        && (RestOf(SearchFrom(pattern, 0, "", stream)) == Some(stream[|body| + |pattern|..])
            <==> FalseStarts(pattern, body) % 2 == 0)
  {
    SearchSkips(pattern, stream);
    AfterBefore(pattern, stream);
    hide SearchFrom, Before, FalseStarts, PlainTail, Dashes;
    if Before(pattern, stream).Some? {
      var more := stream[|Before(pattern, stream).value| + |pattern|..];
      SearchSkips(pattern, more);
      RestShorter(pattern, 0, "", more);
    }
  }

  // One false start is enough to miss an occurrence.
  lemma SearchMisses()
    ensures Before("--ab", "--a--ab") == Some("--a") && SearchFrom("--ab", 0, "", "--a--ab") == None
  {
    var p := "--ab";
    assert p[..3] + (p + "") == "--a--ab" && p[..3] == "--a";
    ShapeOfExample();
    hide *;
    BeforeMissed(p, 3, "");
    SkippingMissed(p, 3, "");
    SearchSkips(p, "--a--ab");
    NothingLeft(p);
    RestNone(SearchFrom(p, 0, "", "--a--ab"));
  }

  lemma ShapeOfExample()
    ensures Dashes("--ab") == 2 && PlainTail("--ab")
  {
    assert "--ab"[1..] == "-ab" && "-ab"[1..] == "ab" && "--ab"[2..] == "ab";
    assert Dashes("ab") == 0 && Dashes("-ab") == 1;
  }

  lemma NothingLeft(pattern: string)
    requires pattern != ""
    ensures Skipping(pattern, "") == None
  {
  }

  lemma RestNone(found: Option<Found>)
    ensures RestOf(found) == None <==> found == None
  {
  }

  // With a dash further on in the boundary, even one that does not occur can be found:
  // what is put back makes it up.
  lemma SearchMakesUp()
    ensures Before("--a-a", "--a---a") == None && SearchFrom("--a-a", 0, "", "--a---a").Some?
  {
    var p := "--a-a";
    NotThere();
    hide SearchFrom;
    assert "--a---a" == "--a-" + (['-'] + "-a") && p[0..4] == "--a-" && p[1..4] + ['-'] == "-a--";
    MatchInput(p, 0, "--a-", ['-'] + "-a");
    ReadInput(p, 4, '-', "-a");
    assert SearchFrom(p, 0, "-a--", "-a").Some? by { MadeUp(); }
  }

  lemma MadeUp()
    ensures SearchFrom("--a-a", 0, "-a--", "-a").Some?
  {
    var p := "--a-a";
    hide SearchFrom;
    assert "-a--" == "-" + (['a'] + "--") && p[0..1] == "-" && "--" + (p[1..1] + ['a']) == "--a" == p[0..3];
    MatchRing(p, 0, "-", ['a'] + "--", "-a");
    ReadRing(p, 1, 'a', "--", "-a");
    assert "--a" + "" == "--a" && "-a" == "-" + (['a'] + "") && p[3..4] == "-";
    MatchRing(p, 0, "--a", "", "-a");
    MatchInput(p, 3, "-", ['a'] + "");
    ReadInput(p, 4, 'a', "");
  }

  lemma NotThere()
    ensures Before("--a-a", "--a---a") == None
  {
    var p, s := "--a-a", "--a---a";
    Differs(p, s, 0, 4);
    Differs(p, s, 1, 2);
    Differs(p, s, 2, 0);
    BeforeDrop(p, s, 3);
    BeforeShort(p, s[3..]);
  }

  lemma Differs(pattern: string, s: string, j: nat, i: nat)
    requires i < |pattern| && j + i < |s| && s[j + i] != pattern[i]
    ensures !(pattern <= s[j..])
  {
    assert s[j..][i] == s[j + i];
  }

  // --------------------------------------------------------- the whole function

  lemma {:induction false} PatternDashes(boundary: string)
    ensures Dashes(Pattern(boundary, true)) == 2 + Dashes(boundary)
    ensures PlainTail(Pattern(boundary, true)) <==> PlainTail(boundary)
  {
    var p := Pattern(boundary, true);
    assert p[1..] == "-" + boundary && p[1..][1..] == boundary;
    assert Dashes(p[1..]) == 1 + Dashes(boundary);
    assert p[2 + Dashes(boundary)..] == boundary[Dashes(boundary)..];
  }

  lemma StartsClean(pattern: string, stream: string)
    requires pattern != "" && pattern <= stream
    ensures NoFalseStart(pattern, stream)
  {
  }

  // Whatever the boundary, the first one is found where no false start comes before it.
  lemma NextBoundaryFirst(boundary: string, stream: string)
    requires NoFalseStart(Pattern(boundary, true), stream)
    ensures NextBoundary(Pattern(boundary, true), "", stream) == AfterBoundary(Pattern(boundary, true), stream)
  {
    var pattern := Pattern(boundary, true);
    FindsFirst(pattern, stream);
    ExactAfter(pattern, stream, SearchFrom(pattern, 0, "", stream));
  }

  // If the boundary has dashes at its start only, the first one is found behind an even
  // number of false starts, and otherwise the search goes on behind it.
  lemma NextBoundaryExactly(boundary: string, stream: string)
    requires PlainTail(boundary)
    ensures var pattern := Pattern(boundary, true);
      match Before(pattern, stream)
      case None => NextBoundary(pattern, "", stream) == None
      case Some(body) =>
        |body| + |pattern| <= |stream|
        && var more := stream[|body| + |pattern|..];
           RestOf(NextBoundary(pattern, "", stream))
           == if FalseStarts(pattern, body) % 2 == 0 then AfterLineEnd(more)
              else RestOf(NextBoundary(pattern, "", more))
  {
    var pattern := Pattern(boundary, true);
    PatternDashes(boundary);
    AfterBefore(pattern, stream);
    hide Before, FalseStarts, PlainTail, Dashes, Pattern, AfterLineEnd;
    SearchSkips(pattern, stream);
    NextRest(pattern, stream);
    if Before(pattern, stream).Some? {
      var more := stream[|Before(pattern, stream).value| + |pattern|..];
      SearchSkips(pattern, more);
      NextRest(pattern, more);
    }
  }

  lemma NextRest(pattern: string, stream: string)
    requires pattern != ""
    ensures RestOf(NextBoundary(pattern, "", stream)) == match RestOf(SearchFrom(pattern, 0, "", stream))
      case None => None
      case Some(rest) => AfterLineEnd(rest)
    ensures SearchFrom(pattern, 0, "", stream) == None ==> NextBoundary(pattern, "", stream) == None
    ensures RestOf(SearchFrom(pattern, 0, "", stream)) == None ==> SearchFrom(pattern, 0, "", stream) == None
  {
    hide SearchFrom, AfterLineEnd;
  }
}
