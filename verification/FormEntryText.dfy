/** cgiFormEntryString: copying a form value with its line ends normalised. */
module FormEntryText {
  import opened Arithmetic
  import opened CStrings

  const CR := '\r'
  const LF := '\n'

  // n line feeds, or none when line ends are not wanted.
  function Feeds(n: nat, newlines: bool): (r: string)
    ensures |r| <= n && forall i | 0 <= i < |r| :: r[i] == LF
  {
    if newlines then seq(n, _ => LF) else ""
  }

  // The text after crs CRs and lfs LFs of a burst, normalised.
  function NormalizeFrom(s: string, crs: nat, lfs: nat, newlines: bool): string {
    if s == "" then Feeds(Max(crs, lfs), newlines)
    else if s[0] == CR then NormalizeFrom(s[1..], crs + 1, lfs, newlines)
    else if s[0] == LF then NormalizeFrom(s[1..], crs, lfs + 1, newlines)
    else Feeds(Max(crs, lfs), newlines) + [s[0]] + NormalizeFrom(s[1..], 0, 0, newlines)
  }

  function Normalize(s: string, newlines: bool): string {
    NormalizeFrom(s, 0, 0, newlines)
  }

  // ------------------------------------------------------- what that means

  function Count(s: string, c: char): nat {
    if s == "" then 0 else (if s[0] == c then 1 else 0) + Count(s[1..], c)
  }

  predicate IsBurst(s: string) {
    forall i | 0 <= i < |s| :: s[i] == CR || s[i] == LF
  }

  predicate StartsWithText(s: string) {
    s == "" || (s[0] != CR && s[0] != LF)
  }

  lemma BurstOver(rest: string, crs: nat, lfs: nat, newlines: bool)
    requires StartsWithText(rest)
    ensures NormalizeFrom(rest, crs, lfs, newlines) == Feeds(Max(crs, lfs), newlines) + Normalize(rest, newlines)
  {
    if rest == "" {
      assert Feeds(0, newlines) == "";
    } else {
      assert Feeds(0, newlines) + [rest[0]] + NormalizeFrom(rest[1..], 0, 0, newlines)
          == [rest[0]] + NormalizeFrom(rest[1..], 0, 0, newlines);
    }
  }

  lemma {:induction false} BurstFrom(burst: string, rest: string, crs: nat, lfs: nat, newlines: bool)
    requires IsBurst(burst) && StartsWithText(rest)
    ensures NormalizeFrom(burst + rest, crs, lfs, newlines)
         == Feeds(Max(crs + Count(burst, CR), lfs + Count(burst, LF)), newlines) + Normalize(rest, newlines)
    decreases |burst|
  {
    if burst == "" {
      assert burst + rest == rest;
      BurstOver(rest, crs, lfs, newlines);
    } else {
      hide Feeds, Max, Normalize;
      assert (burst + rest)[1..] == burst[1..] + rest;
      if burst[0] == CR {
        BurstFrom(burst[1..], rest, crs + 1, lfs, newlines);
      } else {
        BurstFrom(burst[1..], rest, crs, lfs + 1, newlines);
      }
    }
  }

  // A maximal burst of CRs and LFs, in any mixture, becomes as many LFs as the more
  // frequent of the two, and every other character stays.
  lemma BurstNormalized(burst: string, rest: string, newlines: bool)
    requires IsBurst(burst) && StartsWithText(rest)
    ensures var n := if newlines then Max(Count(burst, CR), Count(burst, LF)) else 0;
      Normalize(burst + rest, newlines) == seq(n, _ => '\n') + Normalize(rest, newlines)
    ensures rest != "" ==> Normalize(rest, newlines) == [rest[0]] + Normalize(rest[1..], newlines)
  {
    BurstFrom(burst, rest, 0, 0, newlines);
    assert Feeds(0, newlines) == "";
    var n := Max(Count(burst, CR), Count(burst, LF));
    assert Feeds(n, newlines) == seq(if newlines then n else 0, _ => '\n');
  }

  lemma {:induction false} FeedsCounted(n: nat, rest: string, lfs: nat, newlines: bool)
    ensures NormalizeFrom(Feeds(n, true) + rest, 0, lfs, newlines) == NormalizeFrom(rest, 0, lfs + n, newlines)
    decreases n
  {
    if n == 0 {
      assert Feeds(n, true) + rest == rest;
    } else {
      assert (Feeds(n, true) + rest)[1..] == Feeds(n - 1, true) + rest;
      FeedsCounted(n - 1, rest, lfs + 1, newlines);
    }
  }

  lemma {:induction false} IdempotentFrom(s: string, crs: nat, lfs: nat, newlines: bool)
    ensures Normalize(NormalizeFrom(s, crs, lfs, newlines), newlines) == NormalizeFrom(s, crs, lfs, newlines)
    decreases |s|
  {
    var n := if newlines then Max(crs, lfs) else 0;
    if s == "" {
      assert Feeds(n, true) + "" == Feeds(Max(crs, lfs), newlines);
      FeedsCounted(n, "", 0, newlines);
    } else if s[0] == CR {
      IdempotentFrom(s[1..], crs + 1, lfs, newlines);
    } else if s[0] == LF {
      IdempotentFrom(s[1..], crs, lfs + 1, newlines);
    } else {
      var later := NormalizeFrom(s[1..], 0, 0, newlines);
      IdempotentFrom(s[1..], 0, 0, newlines);
      assert Feeds(Max(crs, lfs), newlines) + [s[0]] + later == Feeds(n, true) + ([s[0]] + later);
      FeedsCounted(n, [s[0]] + later, 0, newlines);
      assert ([s[0]] + later)[1..] == later;
      assert Feeds(Max(0, n), newlines) == Feeds(n, true);
    }
  }

  // Normalising twice is normalising once.
  lemma NormalizeIdempotent(s: string, newlines: bool)
    ensures Normalize(Normalize(s, newlines), newlines) == Normalize(s, newlines)
  {
    IdempotentFrom(s, 0, 0, newlines);
  }

  lemma {:induction false} NormalizeShorter(s: string, crs: nat, lfs: nat, newlines: bool)
    ensures |NormalizeFrom(s, crs, lfs, newlines)| <= |s| + Max(crs, lfs)
    decreases |s|
  {
    if s != "" {
      if s[0] == CR {
        NormalizeShorter(s[1..], crs + 1, lfs, newlines);
      } else if s[0] == LF {
        NormalizeShorter(s[1..], crs, lfs + 1, newlines);
      } else {
        NormalizeShorter(s[1..], 0, 0, newlines);
      }
    }
  }

  // -------------------------------------------------------------- the copy

  datatype FormResult = FormSuccess | FormTruncated | FormEmpty

  function Outcome(full: string, avail: nat): FormResult {
    if |full| > avail then FormTruncated else if full == "" then FormEmpty else FormSuccess
  }

  function Fits(full: string, avail: nat): string {
    if |full| > avail then full[..avail] else full
  }

  // cgiFormStringSpaceNeeded: with that much space nothing is ever truncated.
  function SpaceNeeded(value: string): nat {
    |CString(value)| + 1
  }

  lemma NeverTruncated(value: string, newlines: bool)
    ensures Outcome(Normalize(CString(value), newlines), SpaceNeeded(value) - 1) != FormTruncated
  {
    NormalizeShorter(CString(value), 0, 0, newlines);
  }

  lemma {:induction false} NoReturns(s: string, lfs: nat)
    requires CR !in s
    ensures NormalizeFrom(s, 0, lfs, true) == Feeds(lfs, true) + s
  {
    if s == "" {
      assert Feeds(lfs, true) + s == Feeds(lfs, true);
    } else {
      assert s == [s[0]] + s[1..] && s[0] != CR;
      if s[0] == LF {
        NoReturns(s[1..], lfs + 1);
        assert Feeds(lfs + 1, true) + s[1..] == Feeds(lfs, true) + s;
      } else {
        NoReturns(s[1..], 0);
        assert Feeds(0, true) + s[1..] == s[1..];
        assert Feeds(lfs, true) + [s[0]] + s[1..] == Feeds(lfs, true) + s;
      }
    }
  }

  // No less is enough where nothing is normalised away: a value without CRs, copied with
  // its line ends, is truncated in any smaller space.
  lemma LeastNeeded(value: string, space: nat)
    requires CR !in CString(value) && 0 < space < SpaceNeeded(value)
    ensures Normalize(CString(value), true) == CString(value)
    ensures Outcome(Normalize(CString(value), true), space - 1) == FormTruncated
  {
    NoReturns(CString(value), 0);
    assert Feeds(0, true) + CString(value) == CString(value);
  }

  lemma NextChar(value: string, sp: nat)
    requires sp <= |value|
    ensures CString(value[sp..]) ==
      if sp == |value| || value[sp] == '\0' then "" else [value[sp]] + CString(value[sp + 1..])
  {
    if sp < |value| {
      assert value[sp..][1..] == value[sp + 1..];
    }
  }

  // The inner loop: line feeds as long as there is room.
  method WriteFeeds(result: array<char>, start: nat, avail: nat, count: nat) returns (len: nat, truncated: bool)
    requires start <= avail < result.Length
    modifies result
    ensures start <= len <= avail && truncated == (start + count > avail)
    ensures result[..len] == Fits(old(result[..start]) + Feeds(count, true), avail)
    ensures forall i | len <= i < result.Length :: result[i] == old(result[i])
  {
    len, truncated := start, false;
    var lfsAdd := count;
    while lfsAdd > 0
      invariant 0 <= lfsAdd <= count && start <= len <= avail && len == start + count - lfsAdd
      invariant result[..len] == old(result[..start]) + Feeds(count - lfsAdd, true)
      invariant forall i | len <= i < result.Length :: result[i] == old(result[i])
    {
      if len >= avail {
        truncated := true;
        break;
      }
      ghost var before := result[..len];
      result[len] := LF;
      assert result[..len + 1] == before + [LF];
      assert Feeds(count - lfsAdd, true) + [LF] == Feeds(count - lfsAdd + 1, true);
      lfsAdd := lfsAdd - 1;
      len := len + 1;
    }
    if lfsAdd > 0 {
      assert (old(result[..start]) + Feeds(count, true))[..avail] == old(result[..start]) + Feeds(count - lfsAdd, true);
    }
  }

  // The end of a burst: its line feeds, and the character after it, unless it is the
  // end of the text.
  method EndBurst(result: array<char>, start: nat, avail: nat, count: nat, ch: char) returns (len: nat, truncated: bool)
    requires start <= avail < result.Length
    modifies result
    ensures start <= len <= avail
    ensures var text := old(result[..start]) + Feeds(count, true) + (if ch == '\0' then "" else [ch]);
      truncated == (|text| > avail) && result[..len] == Fits(text, avail)
    ensures forall i | len <= i < result.Length :: result[i] == old(result[i])
  {
    ghost var before := result[..start];
    ghost var feeds := before + Feeds(count, true);
    assert feeds + "" == feeds;
    len, truncated := WriteFeeds(result, start, avail, count);
    if ch == '\0' {
      return;
    }
    if len >= avail {
      truncated := true;
      assert (feeds + [ch])[..avail] == feeds[..avail];
      return;
    }
    result[len] := ch;
    assert result[..len + 1] == feeds + [ch];
    len := len + 1;
  }

  method FormEntryString(value: string, result: array<char>, max: nat, newlines: bool) returns (r: FormResult)
    requires 1 <= max <= result.Length
    modifies result
    ensures var text := Fits(Normalize(CString(value), newlines), max - 1);
      result[..|text|] == text && result[|text|] == '\0'
      && forall i | |text| < i < result.Length :: result[i] == old(result[i])
    ensures r == Outcome(Normalize(CString(value), newlines), max - 1)
  {
    hide CString, Feeds, Normalize, NormalizeFrom, Fits, Max, Outcome;
    ghost var full := Normalize(CString(value), newlines);
    var truncated := false;
    var len, avail, crCount, lfCount, sp := 0, max - 1, 0, 0, 0;
    assert value[0..] == value;
    NormalizeIs(CString(value), newlines);
    OutcomeIs(full, avail);
    while true
      invariant 0 <= sp <= |value| && 0 <= crCount && 0 <= lfCount && 0 <= len <= avail && !truncated
      invariant result[..len] + NormalizeFrom(CString(value[sp..]), crCount, lfCount, newlines) == full
      invariant forall i | len <= i < result.Length :: result[i] == old(result[i])
      decreases |value| - sp
    {
      NormalizeStep(value, sp, crCount, lfCount, newlines);
      var ch := if sp < |value| then value[sp] else '\0';
      if ch == CR {
        crCount := crCount + 1;
      } else if ch == LF {
        lfCount := lfCount + 1;
      } else {
        var lfsAdd := if newlines then Max(crCount, lfCount) else 0;
        ghost var text := result[..len] + Feeds(lfsAdd, true) + (if ch == '\0' then "" else [ch]);
        ghost var later := if ch == '\0' then "" else NormalizeFrom(CString(value[sp + 1..]), 0, 0, newlines);
        TextAndLater(result[..len], Feeds(lfsAdd, true), if ch == '\0' then "" else [ch], later);
        assert full == text + later;
        len, truncated := EndBurst(result, len, avail, lfsAdd, ch);
        FitsPrefix(text, later, avail);
        crCount, lfCount := 0, 0;
        if ch == '\0' || truncated { break; }
      }
      sp := sp + 1;
    }
    ghost var text := result[..len];
    result[len] := '\0';
    assert result[..len] == text;
    if truncated { return FormTruncated; }
    if len == 0 { return FormEmpty; }
    return FormSuccess;
  }

  lemma OutcomeIs(full: string, avail: nat)
    ensures Outcome(full, avail)
      == if |full| > avail then FormTruncated else if full == "" then FormEmpty else FormSuccess
    ensures |Fits(full, avail)| <= avail && (|full| <= avail ==> Fits(full, avail) == full)
  {
  }

  lemma TextAndLater(before: string, feeds: string, last: string, later: string)
    ensures before + (feeds + last + later) == (before + feeds + last) + later
    ensures last == later == "" ==> before + feeds == before + feeds + last + later
  {
  }

  // What was cut off stays cut off, and what fits is all there.
  lemma FitsPrefix(text: string, later: string, avail: nat)
    ensures |text| > avail ==> Fits(text + later, avail) == Fits(text, avail) && |text + later| > avail
    ensures |text| <= avail ==> Fits(text, avail) == text
    ensures later == "" ==> text + later == text
  {
  }

  lemma NormalizeIs(s: string, newlines: bool)
    ensures Normalize(s, newlines) == NormalizeFrom(s, 0, 0, newlines)
    ensures "" + Normalize(s, newlines) == Normalize(s, newlines)
  {
  }

  // One character of the C string.
  lemma NormalizeStep(value: string, sp: nat, crs: nat, lfs: nat, newlines: bool)
    requires sp <= |value|
    ensures NormalizeFrom(CString(value[sp..]), crs, lfs, newlines) ==
      var feeds := Feeds(if newlines then Max(crs, lfs) else 0, true);
      if sp == |value| || value[sp] == '\0' then feeds
      else if value[sp] == CR then NormalizeFrom(CString(value[sp + 1..]), crs + 1, lfs, newlines)
      else if value[sp] == LF then NormalizeFrom(CString(value[sp + 1..]), crs, lfs + 1, newlines)
      else feeds + [value[sp]] + NormalizeFrom(CString(value[sp + 1..]), 0, 0, newlines)
  {
    NextChar(value, sp);
  }
}
