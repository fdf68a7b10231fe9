/** JSON pointers: their text form (RFC 6901 sections 3 to 5) and their meaning in a document. */
module JsonPointer {
  import opened Results
  import opened JsonValue

  // The exception classes of nlohmann::json that the modelled code can raise;
  // AssertionFailure is JSON_ASSERT(false).
  datatype Error = ParseError | OutOfRange | TypeError | OtherError | AssertionFailure

  // A parsed pointer: its unescaped reference tokens.
  type Pointer = seq<string>

  // ---------------------------------------------------------------- escaping

  // Every occurrence of f in s, from left to right, replaced by t.
  function ReplaceSubstring(s: string, f: string, t: string): string
    requires f != ""
  {
    if s == "" then ""
    else if f <= s then t + ReplaceSubstring(s[|f|..], f, t)
    else [s[0]] + ReplaceSubstring(s[1..], f, t)
  }

  function Escape(s: string): string {
    ReplaceSubstring(ReplaceSubstring(s, "~", "~0"), "/", "~1")
  }

  function Unescape(s: string): string {
    ReplaceSubstring(ReplaceSubstring(s, "~1", "/"), "~0", "~")
  }

  // Every '~' is followed by '0' or '1'.
  predicate WellEscaped(s: string) {
    forall i | 0 <= i < |s| && s[i] == '~' :: i + 1 < |s| && (s[i + 1] == '0' || s[i + 1] == '1')
  }

  // Replacing a single character works letter by letter.
  lemma ReplaceStep(c: char, s: string, f: string, t: string)
    requires |f| == 1
    ensures ReplaceSubstring([c] + s, f, t) == (if c == f[0] then t else [c]) + ReplaceSubstring(s, f, t)
  {
    assert ([c] + s)[1..] == s;
    assert f <= [c] + s <==> c == f[0];
  }

  // What escaping does to the first letter of a token.
  function EscapeChar(c: char): string {
    if c == '~' then "~0" else if c == '/' then "~1" else [c]
  }

  lemma EscapeStep(c: char, s: string)
    ensures Escape([c] + s) == EscapeChar(c) + Escape(s)
  {
    var rest := ReplaceSubstring(s, "~", "~0");
    ReplaceStep(c, s, "~", "~0");
    if c == '~' {
      assert "~0" + rest == ['~'] + (['0'] + rest);
      ReplaceStep('~', ['0'] + rest, "/", "~1");
      ReplaceStep('0', rest, "/", "~1");
    } else {
      ReplaceStep(c, rest, "/", "~1");
    }
  }

  // The two passes of Unescape, on an escaped first letter.
  lemma UnescapeStep(c: char, s: string)
    requires WellEscaped(s)
    ensures Unescape(EscapeChar(c) + s) == [c] + Unescape(s)
  {
    var pass := ReplaceSubstring(s, "~1", "/");
    if c == '~' {
      assert ("~0" + s)[1..] == "0" + s && ("0" + s)[1..] == s;
      assert ("~0" + s)[..2] == "~0" != "~1" && ("0" + s)[0] != '~';
      assert ReplaceSubstring("~0" + s, "~1", "/") == "~" + ("0" + pass) == "~0" + pass;
      assert ("~0" + pass)[2..] == pass;
    } else {
      var e := EscapeChar(c);
      if c == '/' {
        assert ("~1" + s)[2..] == s;
      } else {
        assert ([c] + s)[1..] == s;
        assert !("~1" <= [c] + s);
      }
      assert ReplaceSubstring(e + s, "~1", "/") == [c] + pass;
      assert ([c] + pass)[1..] == pass;
      assert !("~0" <= [c] + pass);
    }
  }

  lemma WellEscapedStep(c: char, s: string)
    requires WellEscaped(s)
    ensures WellEscaped(EscapeChar(c) + s)
  {
    var e := EscapeChar(c);
    forall i | 0 <= i < |e + s| && (e + s)[i] == '~'
      ensures i + 1 < |e + s| && ((e + s)[i + 1] == '0' || (e + s)[i + 1] == '1')
    {
      if i >= |e| {
        assert s[i - |e|] == '~';
      }
    }
  }

  // Escaping a token yields text without '/', properly escaped, that unescapes to the token.
  lemma {:induction false} EscapeRoundTrip(s: string)
    ensures '/' !in Escape(s)
    ensures WellEscaped(Escape(s))
    ensures Unescape(Escape(s)) == s
  {
    if s != "" {
      var c, rest := s[0], s[1..];
      assert s == [c] + rest;
      EscapeRoundTrip(rest);
      EscapeStep(c, rest);
      UnescapeStep(c, Escape(rest));
      WellEscapedStep(c, Escape(rest));
    }
  }

  // --------------------------------------------------------------- text form

  function FirstSlash(s: string): (i: nat)
    ensures i <= |s|
    ensures '/' !in s[..i]
    ensures i < |s| ==> s[i] == '/'
  {
    if s == "" || s[0] == '/' then 0 else 1 + FirstSlash(s[1..])
  }

  // The tokens of the text after a leading '/'.
  function SplitTokens(s: string): Result<Pointer, Error>
    decreases |s|
  {
    var slash := FirstSlash(s);
    var token := s[..slash];
    if !WellEscaped(token) then Err(ParseError)
    else if slash == |s| then Ok([Unescape(token)])
    else match SplitTokens(s[slash + 1..])
      case Err(e) => Err(e)
      case Ok(rest) => Ok([Unescape(token)] + rest)
  }

  // json_pointer::split
  function ParsePointer(s: string): Result<Pointer, Error> {
    if s == "" then Ok([])
    else if s[0] != '/' then Err(ParseError)
    else SplitTokens(s[1..])
  }

  // json_pointer::to_string
  function Render(p: Pointer): string {
    if p == [] then "" else "/" + Escape(p[0]) + Render(p[1..])
  }

  lemma {:induction false} FirstSlashAfter(a: string, b: string)
    requires '/' !in a
    requires b != "" ==> b[0] == '/'
    ensures FirstSlash(a + b) == |a|
  {
    if a == "" {
      assert a + b == b;
    } else {
      assert (a + b)[1..] == a[1..] + b;
      FirstSlashAfter(a[1..], b);
    }
  }

  lemma SplitTokensStep(token: string, rest: string)
    requires '/' !in token && WellEscaped(token)
    requires rest != "" ==> rest[0] == '/'
    ensures SplitTokens(token + rest) ==
      if rest == "" then Ok([Unescape(token)])
      else match SplitTokens(rest[1..])
        case Err(e) => Err(e)
        case Ok(tokens) => Ok([Unescape(token)] + tokens)
  {
    hide Unescape, WellEscaped;
    FirstSlashAfter(token, rest);
    assert (token + rest)[..|token|] == token;
    if rest != "" {
      assert (token + rest)[|token| + 1..] == rest[1..];
    }
  }

  // Writing a pointer out and reading it back gives the same tokens.
  lemma {:induction false} ParseRender(p: Pointer)
    ensures ParsePointer(Render(p)) == Ok(p)
  {
    hide Escape, Unescape, WellEscaped, FirstSlash;
    if p == [] {
      assert Render(p) == "";
    } else {
      var token, rest := Escape(p[0]), Render(p[1..]);
      assert Render(p)[1..] == token + rest;
      assert WellEscaped(token) && '/' !in token && Unescape(token) == p[0] by { EscapeRoundTrip(p[0]); }
      SplitTokensStep(token, rest);
      ParseRender(p[1..]);
      if rest == "" {
        assert p == [p[0]];
      } else {
        assert SplitTokens(rest[1..]) == Ok(p[1..]);
        assert p == [p[0]] + p[1..];
      }
      assert ParsePointer(Render(p)) == SplitTokens(token + rest);
    }
  }

  // ---------------------------------------------------- which texts are pointers

  // A well escaped token starts with the escaped form of a character.
  lemma FirstEscaped(t: string) returns (c: char, u: string)
    requires t != "" && WellEscaped(t) && '/' !in t
    ensures t == EscapeChar(c) + u && WellEscaped(u) && '/' !in u
  {
    c, u := t[0], t[1..];
    if c == '~' {
      c, u := if t[1] == '0' then '~' else '/', t[2..];
      assert t == [t[0], t[1]] + u;
    }
    var k := |t| - |u|;
    assert forall i | 0 <= i < |u| :: u[i] == t[k + i];
    forall i | 0 <= i < |u| && u[i] == '~' ensures i + 1 < |u| && (u[i + 1] == '0' || u[i + 1] == '1') {
      assert t[k + i] == '~';
    }
  }

  lemma {:induction false} UnescapeRoundTrip(t: string)
    requires WellEscaped(t) && '/' !in t
    ensures Escape(Unescape(t)) == t
    decreases |t|
  {
    if t != "" {
      var c, u := FirstEscaped(t);
      UnescapeRoundTrip(u);
      UnescapeStep(c, u);
      EscapeStep(c, Unescape(u));
    }
  }

  lemma SplitEscapes(s: string, slash: nat)
    requires slash < |s| && s[slash] == '/'
    ensures WellEscaped(s) <==> WellEscaped(s[..slash]) && WellEscaped(s[slash + 1..])
  {
    var head, tail := s[..slash], s[slash + 1..];
    assert forall i | 0 <= i < |tail| :: tail[i] == s[slash + 1 + i];
    if WellEscaped(s) {
      forall i | 0 <= i < |head| && head[i] == '~'
        ensures i + 1 < |head| && (head[i + 1] == '0' || head[i + 1] == '1')
      {
        assert s[i] == '~';
      }
      forall i | 0 <= i < |tail| && tail[i] == '~'
        ensures i + 1 < |tail| && (tail[i + 1] == '0' || tail[i + 1] == '1')
      {
        assert s[slash + 1 + i] == '~';
      }
    }
    if WellEscaped(head) && WellEscaped(tail) {
      forall i | 0 <= i < |s| && s[i] == '~' ensures i + 1 < |s| && (s[i + 1] == '0' || s[i + 1] == '1') {
        if i < slash { assert head[i] == '~'; } else { assert tail[i - slash - 1] == '~'; }
      }
    }
  }

  lemma {:induction false} SplitExactly(s: string)
    ensures SplitTokens(s) == Err(ParseError) || SplitTokens(s).Ok?
    ensures SplitTokens(s).Ok? <==> WellEscaped(s)
    decreases |s|
  {
    hide Unescape, WellEscaped;
    var slash := FirstSlash(s);
    if slash < |s| {
      SplitEscapes(s, slash);
      SplitExactly(s[slash + 1..]);
    } else {
      assert s[..slash] == s;
    }
  }

  lemma SplitLast(s: string)
    requires SplitTokens(s).Ok? && FirstSlash(s) == |s|
    ensures WellEscaped(s) && '/' !in s && SplitTokens(s).value == [Unescape(s)]
  {
    assert s[..|s|] == s;
    hide Unescape, WellEscaped;
  }

  lemma SplitFirst(s: string, token: string, rest: string)
    requires SplitTokens(s).Ok? && FirstSlash(s) < |s|
    requires token == s[..FirstSlash(s)] && rest == s[FirstSlash(s) + 1..]
    ensures WellEscaped(token) && '/' !in token && SplitTokens(rest).Ok?
    ensures SplitTokens(s).value == [Unescape(token)] + SplitTokens(rest).value
  {
    hide Unescape, WellEscaped;
  }

  lemma {:induction false} RenderSplit(s: string)
    requires SplitTokens(s).Ok?
    ensures Render(SplitTokens(s).value) == "/" + s
    decreases |s|
  {
    hide *;
    var slash := FirstSlash(s);
    if slash == |s| {
      SplitLast(s);
      UnescapeRoundTrip(s);
      RenderFirst([Unescape(s)], []);
    } else {
      var token, rest := s[..slash], s[slash + 1..];
      SplitFirst(s, token, rest);
      UnescapeRoundTrip(token);
      RenderSplit(rest);
      RenderFirst([Unescape(token)], SplitTokens(rest).value);
      assert s == token + ("/" + rest);
    }
  }

  lemma RenderFirst(first: Pointer, rest: Pointer)
    requires |first| == 1
    ensures Render(first + rest) == "/" + (Escape(first[0]) + Render(rest))
    ensures rest == [] ==> Render(first) == "/" + Escape(first[0])
  {
    hide Escape;
    assert (first + rest)[1..] == rest && (first + rest)[0] == first[0];
    assert rest == [] ==> first + rest == first && Render(rest) == "";
  }

  // A text is a pointer exactly if it is empty, or starts with a slash and has a zero or a
  // one behind each tilde; written out again, the pointer is the text. Any other text
  // raises a parse_error.
  lemma ParseExactly(s: string)
    ensures ParsePointer(s).Ok? <==> s == "" || (s[0] == '/' && WellEscaped(s))
    ensures ParsePointer(s).Ok? ==> Render(ParsePointer(s).value) == s
    ensures ParsePointer(s).Err? ==> ParsePointer(s).error == ParseError
  {
    if s != "" && s[0] == '/' {
      SplitExactly(s[1..]);
      if SplitTokens(s[1..]).Ok? { RenderSplit(s[1..]); }
      SplitEscapes(s, 0);
      assert s == "/" + s[1..];
    }
  }

  lemma {:induction false} RenderAppend(p: Pointer, token: string)
    ensures Render(p + [token]) == Render(p) + "/" + Escape(token)
  {
    if p == [] {
      assert [token][1..] == [];
    } else {
      assert (p + [token])[1..] == p[1..] + [token];
      RenderAppend(p[1..], token);
    }
  }

  // ----------------------------------------------------------- array indices

  const DIGITS := "0123456789"

  predicate IsDigit(c: char) { '0' <= c <= '9' }

  function DigitValue(c: char): (d: nat)
    requires IsDigit(c)
    ensures d < 10
  {
    c as int - '0' as int
  }

  // std::to_string of an index.
  function IndexToken(n: nat): (s: string)
    ensures s != "" && (forall i | 0 <= i < |s| :: IsDigit(s[i]))
    ensures s[0] == '0' ==> s == "0"
  {
    if n < 10 then [DIGITS[n]] else IndexToken(n / 10) + [DIGITS[n % 10]]
  }

  function DecimalValue(s: string): nat
    requires forall i | 0 <= i < |s| :: IsDigit(s[i])
  {
    if s == "" then 0 else 10 * DecimalValue(s[..|s| - 1]) + DigitValue(s[|s| - 1])
  }

  // json_pointer::array_index. An index past the range of size_type is past the
  // end of every array, so reading it as a number leads to the same exception.
  function ArrayIndex(s: string): Result<nat, Error> {
    if |s| > 1 && s[0] == '0' then Err(ParseError)
    else if |s| > 1 && !('1' <= s[0] <= '9') then Err(ParseError)
    else if s == "" || exists i | 0 <= i < |s| :: !IsDigit(s[i]) then Err(OutOfRange)
    else Ok(DecimalValue(s))
  }

  lemma {:induction false} IndexTokenValue(n: nat)
    ensures DecimalValue(IndexToken(n)) == n
  {
    var s := IndexToken(n);
    if n >= 10 {
      IndexTokenValue(n / 10);
      assert s[..|s| - 1] == IndexToken(n / 10);
    } else {
      assert s[..0] == "";
    }
  }

  predicate IsNumeral(s: string) {
    s != "" && (forall i | 0 <= i < |s| :: IsDigit(s[i])) && (s[0] == '0' ==> s == "0")
  }

  lemma {:induction false} DecimalValuePositive(s: string)
    requires IsNumeral(s) && s != "0"
    ensures DecimalValue(s) > 0
  {
    if |s| > 1 {
      DecimalValuePositive(s[..|s| - 1]);
    }
  }

  lemma {:induction false} DecimalValueToken(s: string)
    requires IsNumeral(s)
    ensures IndexToken(DecimalValue(s)) == s
  {
    var init, last := s[..|s| - 1], s[|s| - 1];
    assert DIGITS[DigitValue(last)] == last;
    assert s == init + [last];
    if |s| == 1 {
      assert DecimalValue(init) == 0;
    } else {
      DecimalValueToken(init);
      DecimalValuePositive(init);
      TokenStep(DecimalValue(init), DigitValue(last));
    }
  }

  lemma TokenStep(n: nat, d: nat)
    requires n > 0 && d < 10
    ensures IndexToken(10 * n + d) == IndexToken(n) + [DIGITS[d]]
  {
  }

  // The decimal numeral is the one token that resolves to an index.
  lemma ArrayIndexToken(s: string, n: nat)
    ensures ArrayIndex(s) == Ok(n) <==> s == IndexToken(n)
  {
    IndexTokenValue(n);
    if ArrayIndex(s).Ok? {
      DecimalValueToken(s);
    }
  }

  // Any other token raises an exception: a parse_error if it has two characters or more and
  // the first is no digit from 1 to 9, and out_of_range otherwise.
  lemma NoArrayIndex(s: string)
    requires forall n :: s != IndexToken(n)
    ensures ArrayIndex(s) == Err(if |s| >= 2 && !('1' <= s[0] <= '9') then ParseError else OutOfRange)
  {
    if ArrayIndex(s).Ok? { ArrayIndexToken(s, ArrayIndex(s).value); }
  }

  lemma {:induction false} EscapePlain(s: string)
    requires '~' !in s && '/' !in s
    ensures Escape(s) == s
  {
    if s != "" {
      assert s == [s[0]] + s[1..];
      EscapeStep(s[0], s[1..]);
      EscapePlain(s[1..]);
    }
  }

  // ------------------------------------------------------------- resolution

  // json_pointer::get_checked: the value a pointer denotes.
  function At(doc: Json, p: Pointer): Result<Json, Error>
    decreases |p|
  {
    if p == [] then Ok(doc)
    else match doc
      case Object(m) => if p[0] in m then At(m[p[0]], p[1..]) else Err(OutOfRange)
      case Array(items) =>
        if p[0] == "-" then Err(OutOfRange)
        else (match ArrayIndex(p[0])
              case Err(e) => Err(e)
              case Ok(i) => if i < |items| then At(items[i], p[1..]) else Err(OutOfRange))
      case _ => Err(OutOfRange)
  }

  // The document after an assignment through the reference At yields.
  function Put(doc: Json, p: Pointer, v: Json): Json
    requires At(doc, p).Ok?
    decreases |p|
  {
    if p == [] then v
    else match doc
      case Object(m) => Object(m[p[0] := Put(m[p[0]], p[1..], v)])
      case Array(items) =>
        var i := ArrayIndex(p[0]).value;
        Array(items[i := Put(items[i], p[1..], v)])
  }

  lemma {:induction false} AtConcat(doc: Json, p: Pointer, q: Pointer)
    requires At(doc, p).Ok?
    ensures At(doc, p + q) == At(At(doc, p).value, q)
    decreases |p|
  {
    if p == [] {
      assert p + q == q;
    } else {
      assert (p + q)[1..] == p[1..] + q;
      match doc
      case Object(m) => AtConcat(m[p[0]], p[1..], q);
      case Array(items) => AtConcat(items[ArrayIndex(p[0]).value], p[1..], q);
    }
  }

  // One step further: to a member, or to an item by its numeral. Everything else is out of
  // range, but for the tokens at an array that no numeral starts with.
  lemma AtStep(doc: Json, p: Pointer, token: string)
    requires At(doc, p).Ok?
    ensures var place, next := At(doc, p).value, At(doc, p + [token]);
      (place.Object? ==> next == if token in place.members then Ok(place.members[token]) else Err(OutOfRange))
      && (place.Array? ==>
        (forall i: nat | token == IndexToken(i) ::
          next == if i < |place.items| then Ok(place.items[i]) else Err(OutOfRange))
        && ((forall i :: token != IndexToken(i)) ==>
          next == Err(if |token| >= 2 && !('1' <= token[0] <= '9') then ParseError else OutOfRange)))
      && (!place.Object? && !place.Array? ==> next == Err(OutOfRange))
  {
    AtConcat(doc, p, [token]);
    var place := At(doc, p).value;
    assert [token][1..] == [];
    if place.Array? {
      forall i: nat | token == IndexToken(i) ensures ArrayIndex(token) == Ok(i) && token != "-" {
        ArrayIndexToken(token, i);
        assert IsDigit(token[0]);
      }
      if forall i :: token != IndexToken(i) { NoArrayIndex(token); }
    }
    hide ArrayIndex, IndexToken;
  }

  // An unresolved prefix makes the whole pointer unresolved, with the same error.
  lemma {:induction false} AtPrefixFails(doc: Json, p: Pointer, q: Pointer)
    requires At(doc, p).Err?
    ensures At(doc, p + q) == At(doc, p)
    decreases |p|
  {
    assert (p + q)[1..] == p[1..] + q;
    match doc
    case Object(m) =>
      if p[0] in m { AtPrefixFails(m[p[0]], p[1..], q); }
    case Array(items) =>
      if p[0] != "-" && ArrayIndex(p[0]).Ok? && ArrayIndex(p[0]).value < |items| {
        AtPrefixFails(items[ArrayIndex(p[0]).value], p[1..], q);
      }
    case _ =>
  }

  // Writing below p is writing the changed subtree at p.
  lemma {:induction false} PutConcat(doc: Json, p: Pointer, q: Pointer, v: Json)
    requires At(doc, p).Ok? && At(At(doc, p).value, q).Ok?
    ensures At(doc, p + q).Ok?
    ensures Put(doc, p + q, v) == Put(doc, p, Put(At(doc, p).value, q, v))
    decreases |p|
  {
    AtConcat(doc, p, q);
    if p == [] {
      assert p + q == q;
    } else {
      assert (p + q)[1..] == p[1..] + q;
      match doc
      case Object(m) => PutConcat(m[p[0]], p[1..], q, v);
      case Array(items) => PutConcat(items[ArrayIndex(p[0]).value], p[1..], q, v);
    }
  }

  lemma {:induction false} AtPut(doc: Json, p: Pointer, v: Json)
    requires At(doc, p).Ok?
    ensures At(Put(doc, p, v), p) == Ok(v)
    decreases |p|
  {
    if p != [] {
      match doc
      case Object(m) => AtPut(m[p[0]], p[1..], v);
      case Array(items) => AtPut(items[ArrayIndex(p[0]).value], p[1..], v);
    }
  }

  lemma {:induction false} PutPut(doc: Json, p: Pointer, v: Json, w: Json)
    requires At(doc, p).Ok?
    ensures At(Put(doc, p, v), p).Ok?
    ensures Put(Put(doc, p, v), p, w) == Put(doc, p, w)
    decreases |p|
  {
    AtPut(doc, p, v);
    if p != [] {
      match doc
      case Object(m) =>
        PutPut(m[p[0]], p[1..], v, w);
        assert m[p[0] := Put(m[p[0]], p[1..], v)][p[0] := Put(m[p[0]], p[1..], w)]
            == m[p[0] := Put(m[p[0]], p[1..], w)];
      case Array(items) =>
        var i := ArrayIndex(p[0]).value;
        PutPut(items[i], p[1..], v, w);
        assert items[i := Put(items[i], p[1..], v)][i := Put(items[i], p[1..], w)]
            == items[i := Put(items[i], p[1..], w)];
    }
  }

  lemma {:induction false} PutSame(doc: Json, p: Pointer)
    requires At(doc, p).Ok?
    ensures Put(doc, p, At(doc, p).value) == doc
    decreases |p|
  {
    if p != [] {
      match doc
      case Object(m) =>
        PutSame(m[p[0]], p[1..]);
        assert m[p[0] := m[p[0]]] == m;
      case Array(items) =>
        PutSame(items[ArrayIndex(p[0]).value], p[1..]);
    }
  }

  // Neither pointer is a prefix of the other.
  predicate Diverge(p: Pointer, q: Pointer) {
    !(p <= q) && !(q <= p)
  }

  lemma DivergeNonempty(p: Pointer, q: Pointer)
    requires Diverge(p, q)
    ensures p != [] && q != []
  {
  }

  lemma DivergeTail(p: Pointer, q: Pointer)
    requires p != [] && q != [] && Diverge(p, q) && p[0] == q[0]
    ensures Diverge(p[1..], q[1..])
  {
    assert p == [p[0]] + p[1..] && q == [q[0]] + q[1..];
  }

  // Writing at p changes nothing that a diverging pointer denotes.
  lemma {:induction false} PutFrame(doc: Json, p: Pointer, v: Json, q: Pointer)
    requires At(doc, p).Ok?
    requires Diverge(p, q)
    ensures At(Put(doc, p, v), q) == At(doc, q)
    decreases |p|
  {
    hide ArrayIndex, Diverge;
    assert p != [] && q != [] by { DivergeNonempty(p, q); }
    if p[0] == q[0] {
      DivergeTail(p, q);
      match doc
      case Object(m) => PutFrame(m[p[0]], p[1..], v, q[1..]);
      case Array(items) => PutFrame(items[ArrayIndex(p[0]).value], p[1..], v, q[1..]);
    } else if doc.Array? && ArrayIndex(q[0]).Ok? {
      ArrayIndexToken(p[0], ArrayIndex(p[0]).value);
      ArrayIndexToken(q[0], ArrayIndex(q[0]).value);
    }
  }
}
