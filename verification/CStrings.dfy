/** C strings and characters of the C locale. */
module CStrings {
  predicate IsSpace(c: char) { c == ' ' || '\t' <= c <= '\r' }

  predicate IsAlpha(c: char) { 'a' <= c <= 'z' || 'A' <= c <= 'Z' }

  predicate IsAlnum(c: char) { IsAlpha(c) || '0' <= c <= '9' }

  function ToLower(c: char): char {
    if 'A' <= c <= 'Z' then c + ('a' - 'A') else c
  }

  const SMALL_LETTERS := "abcdefghijklmnopqrstuvwxyz"
  const CAPITAL_LETTERS := "ABCDEFGHIJKLMNOPQRSTUVWXYZ"

  // The character classes of the C locale (C11, section 7.4.1).
  lemma Classes(c: char)
    ensures IsSpace(c) <==> c in {' ', '\t', '\n', '\U{B}', '\U{C}', '\r'}
    ensures IsAlpha(c) <==> c in SMALL_LETTERS || c in CAPITAL_LETTERS
    ensures IsAlnum(c) <==> IsAlpha(c) || c in "0123456789"
  {
  }

  // Only capital letters change, each into the small one in its place.
  lemma Lowered(c: char, i: nat)
    requires i < 26
    ensures ToLower(CAPITAL_LETTERS[i]) == SMALL_LETTERS[i]
    ensures c !in CAPITAL_LETTERS ==> ToLower(c) == c
  {
    Classes(c);
  }

  // The text behind leading white space.
  function SkipWs(s: string): (r: string)
    ensures |r| <= |s|
    ensures r != "" ==> !IsSpace(r[0])
  {
    if s != "" && IsSpace(s[0]) then SkipWs(s[1..]) else s
  }

  // cgiStrEqNc: equality of C strings without regard to the case of letters.
  predicate EqualNoCase(a: string, b: string) {
    if a == "" || b == "" then a == b
    else
      (if IsAlpha(a[0]) then ToLower(a[0]) == ToLower(b[0]) else a[0] == b[0])
      && EqualNoCase(a[1..], b[1..])
  }

  // A C string ends at its first NUL.
  function CString(s: string): string {
    if s == "" || s[0] == '\0' then "" else [s[0]] + CString(s[1..])
  }

  lemma {:induction false} CStringPlain(s: string)
    requires forall i | 0 <= i < |s| :: s[i] != '\0'
    ensures CString(s) == s
  {
    if s != "" {
      CStringPlain(s[1..]);
    }
  }

  lemma {:induction false} EqualNoCaseReflexive(s: string)
    ensures EqualNoCase(s, s)
  {
    if s != "" {
      EqualNoCaseReflexive(s[1..]);
    }
  }

  // Equality up to the case of letters, all characters at once.
  lemma {:induction false} EqualNoCaseExactly(a: string, b: string)
    ensures EqualNoCase(a, b) <==> |a| == |b| && forall i | 0 <= i < |a| :: ToLower(a[i]) == ToLower(b[i])
  {
    if a != "" && b != "" {
      var s, t := a[1..], b[1..];
      EqualNoCaseExactly(s, t);
      assert (forall i | 0 <= i < |s| :: s[i] == a[i + 1]) && forall i | 0 <= i < |t| :: t[i] == b[i + 1];
      if |a| == |b| && ToLower(a[0]) == ToLower(b[0]) && EqualNoCase(s, t) {
        forall i | 0 <= i < |a| ensures ToLower(a[i]) == ToLower(b[i]) {
          if i > 0 { assert ToLower(s[i - 1]) == ToLower(t[i - 1]); }
        }
      }
      if |a| == |b| && forall i | 0 <= i < |a| :: ToLower(a[i]) == ToLower(b[i]) {
        forall i | 0 <= i < |s| ensures ToLower(s[i]) == ToLower(t[i]) {
          assert ToLower(a[i + 1]) == ToLower(b[i + 1]);
        }
      }
    }
  }

  // What precedes the first c, or everything.
  function Upto(s: string, c: char): (r: string)
    ensures r <= s && c !in r && (r != s ==> s[|r|] == c)
  {
    if s == "" || s[0] == c then "" else [s[0]] + Upto(s[1..], c)
  }

  lemma {:induction false} UptoIs(s: string, n: nat, c: char)
    requires n <= |s| && (forall i | 0 <= i < n :: s[i] != c) && (n < |s| ==> s[n] == c)
    ensures Upto(s, c) == s[..n]
  {
    if n > 0 {
      UptoIs(s[1..], n - 1, c);
      assert s[..n] == [s[0]] + s[1..][..n - 1];
    }
  }

  // ------------------------------------------------------ hexadecimal numerals

  const SMALL_DIGITS := "0123456789abcdef"
  const CAPITAL_DIGITS := "0123456789ABCDEF"

  // The character stands for the digit, with small or capital letters.
  predicate IsHexDigit(c: char, d: nat) {
    d < 16 && (c == SMALL_DIGITS[d] || c == CAPITAL_DIGITS[d])
  }

  // The digits are the number in base 16.
  predicate IsHexNumeral(s: string, n: nat) {
    if s == "" then n == 0
    else IsHexDigit(s[|s| - 1], n % 16) && IsHexNumeral(s[..|s| - 1], n / 16)
  }
}
