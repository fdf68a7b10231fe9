/** Parson values, and the number conversions its parser and printer are built on. */
module ParsonValue {
  import opened Arithmetic
  import opened Results
  import opened ParsonText

  datatype Value =
    | Null
    | Boolean(flag: bool)
    | Number(number: real)
    | String(text: string)
    | Array(items: seq<Value>)
    | Object(members: seq<Member>)

  datatype Member = Member(name: string, value: Value)

  // The first member with a name, as json_object_getn_value finds it.
  function Get(members: seq<Member>, name: string): (r: Option<Value>)
    ensures r.None? <==> forall i | 0 <= i < |members| :: members[i].name != name
    ensures r.Some? ==> exists i | 0 <= i < |members| :: members[i] == Member(name, r.value)
  {
    if members == [] then None
    else if members[0].name == name then
      assert members[0] == Member(name, members[0].value);
      Some(members[0].value)
    else
      var rest := Get(members[1..], name);
      assert forall i | 0 < i < |members| :: members[i] == members[1..][i - 1];
      rest
  }

  predicate Distinct(members: seq<Member>) {
    forall i, j | 0 <= i < j < |members| :: members[i].name != members[j].name
  }

  // With distinct names, looking up the name in a slot gives the value in the slot.
  lemma GetAt(members: seq<Member>, i: nat)
    requires i < |members| && Distinct(members)
    ensures Get(members, members[i].name) == Some(members[i].value)
  {
  }

  // ---------------------------------------------------------------- numbers

  // What strtod leaves: the number, and how many characters it used.
  datatype Reading = Reading(number: real, length: nat)

  ghost predicate Bounded(read: string -> Option<Reading>) {
    forall s: string :: read(s).Some? ==> read(s).value.length <= |s|
  }

  function NoReading(s: string): Option<Reading> { None }

  // strtod, with None where errno is set or the result is not finite.
  type Reader = read: string -> Option<Reading> | Bounded(read) witness NoReading

  // The number conversions: sprintf with "%1.17g", strtod, and the numbers that they
  // carry over.
  datatype Codec = Codec(show: real -> string, read: Reader, covers: real -> bool)

  // is_decimal of the characters that strtod used.
  predicate IsDecimal(t: string) {
    !(|t| > 1 && t[0] == '0' && t[1] != '.')
    && !(|t| > 2 && t[0] == '-' && t[1] == '0' && t[2] != '.')
    && forall i | 0 <= i < |t| :: t[i] != 'x' && t[i] != 'X' && t[i] != '\0'
  }

  predicate NumberStart(c: char) { c == '-' || '0' <= c <= '9' }

  // No number goes on with this text.
  predicate Delimits(rest: string) {
    rest != "" ==>
      var c := rest[0];
      c != '.' && !('0' <= c <= '9') && !('a' <= c <= 'z') && !('A' <= c <= 'Z')
  }

  const NUM_BUF_SIZE: nat := 64

  // A printed number is a decimal numeral that fits the number buffer, and reading it
  // gives the number back and stops behind it.
  ghost predicate Lawful(codec: Codec) {
    forall x: real, rest: string | codec.covers(x) && Delimits(rest) ::
      var t := codec.show(x);
      0 < |t| < NUM_BUF_SIZE && NumberStart(t[0]) && IsDecimal(t) && NulFree(t)
      && codec.read(t + rest) == Some(Reading(x, |t|))
  }

  lemma LawAt(codec: Codec, x: real, rest: string)
    requires Lawful(codec) && codec.covers(x) && Delimits(rest)
    ensures var t := codec.show(x);
      0 < |t| < NUM_BUF_SIZE && NumberStart(t[0]) && IsDecimal(t) && NulFree(t)
      && codec.read(t + rest) == Some(Reading(x, |t|))
  {
  }

  // ------------------------------------------------------------ whole values

  // The values the library builds: names distinct, C strings, finite numbers.
  predicate Valid(codec: Codec, v: Value) {
    match v
    case Null => true
    case Boolean(_) => true
    case Number(x) => codec.covers(x)
    case String(s) => NulFree(s)
    case Array(items) => forall i | 0 <= i < |items| :: Valid(codec, items[i])
    case Object(members) =>
      Distinct(members)
      && forall i | 0 <= i < |members| :: NulFree(members[i].name) && Valid(codec, members[i].value)
  }

  // Names are distinct in every object.
  predicate Named(v: Value) {
    match v
    case Array(items) => forall i | 0 <= i < |items| :: Named(items[i])
    case Object(members) => Distinct(members) && forall i | 0 <= i < |members| :: Named(members[i].value)
    case _ => true
  }

  // Names are distinct in every object, and no name or string has a NUL in it.
  predicate WellBuilt(v: Value) {
    match v
    case String(s) => NulFree(s)
    case Array(items) => forall i | 0 <= i < |items| :: WellBuilt(items[i])
    case Object(members) =>
      Distinct(members)
      && forall i | 0 <= i < |members| :: NulFree(members[i].name) && WellBuilt(members[i].value)
    case _ => true
  }

  // Every number in the value is one that the conversions carry over.
  predicate Covered(codec: Codec, v: Value) {
    match v
    case Number(x) => codec.covers(x)
    case Array(items) => forall i | 0 <= i < |items| :: Covered(codec, items[i])
    case Object(members) => forall i | 0 <= i < |members| :: Covered(codec, members[i].value)
    case _ => true
  }

  lemma {:induction false} ValidSplits(codec: Codec, v: Value)
    ensures Valid(codec, v) <==> WellBuilt(v) && Covered(codec, v)
  {
    hide Distinct, NulFree;
    match v
    case Array(items) =>
      forall i | 0 <= i < |items| ensures Valid(codec, items[i]) <==> WellBuilt(items[i]) && Covered(codec, items[i]) {
        ValidSplits(codec, items[i]);
      }
    case Object(members) =>
      forall i | 0 <= i < |members|
        ensures Valid(codec, members[i].value) <==> WellBuilt(members[i].value) && Covered(codec, members[i].value)
      {
        ValidSplits(codec, members[i].value);
      }
    case _ =>
  }

  // How many containers are around the innermost value.
  function Height(v: Value): nat {
    match v
    case Array(items) => if items == [] then 0 else 1 + TallestItem(items)
    case Object(members) => if members == [] then 0 else 1 + TallestMember(members)
    case _ => 0
  }

  function TallestItem(items: seq<Value>): nat {
    if items == [] then 0 else Max(Height(items[0]), TallestItem(items[1..]))
  }

  function TallestMember(members: seq<Member>): nat {
    if members == [] then 0 else Max(Height(members[0].value), TallestMember(members[1..]))
  }
}
