/** Comparing, copying and checking values against a schema. */
module ParsonCompare {
  import opened Results
  import opened ParsonValue
  import opened ParsonTable

  const EPSILON := 0.000001

  function Abs(x: real): real { if x < 0.0 then -x else x }

  // The values of different C types.
  predicate SameType(a: Value, b: Value) {
    match a
    case Null => b.Null?
    case Boolean(_) => b.Boolean?
    case Number(_) => b.Number?
    case String(_) => b.String?
    case Array(_) => b.Array?
    case Object(_) => b.Object?
  }

  // A member's value is smaller than its object.
  lemma GetSmaller(members: seq<Member>, name: string)
    ensures Get(members, name).Some? ==> exists i | 0 <= i < |members| :: members[i].value == Get(members, name).value
  {
  }

  // json_value_equals. Only the keys of the first object are walked.
  predicate Equals(a: Value, b: Value)
    decreases a
  {
    SameType(a, b)
    && match a
       case Array(items) =>
         |items| == |b.items| && forall i | 0 <= i < |items| :: Equals(items[i], b.items[i])
       case Object(members) =>
         |members| == |b.members|
         && forall i | 0 <= i < |members| ::
              (GetSmaller(members, members[i].name);
               Get(b.members, members[i].name).Some?
               && Equals(Get(members, members[i].name).value, Get(b.members, members[i].name).value))
       case String(s) => s == b.text
       case Boolean(flag) => flag == b.flag
       case Number(x) => Abs(x - b.number) < EPSILON
       case Null => true
  }

  // The member of the first object is equal to the one of that name in the second.
  predicate MemberEquals(a: seq<Member>, b: seq<Member>, i: nat)
    requires i < |a|
  {
    Get(b, a[i].name).Some? && Equals(Get(a, a[i].name).value, Get(b, a[i].name).value)
  }

  lemma EqualsMembers(a: seq<Member>, b: seq<Member>)
    ensures Equals(Object(a), Object(b)) <==> |a| == |b| && forall i | 0 <= i < |a| :: MemberEquals(a, b, i)
  {
    if Equals(Object(a), Object(b)) {
      forall i | 0 <= i < |a| ensures MemberEquals(a, b, i) { MemberEqual(a, b, i); }
    }
    if |a| == |b| && forall i | 0 <= i < |a| :: MemberEquals(a, b, i) {
      assert forall i | 0 <= i < |a| ::
        MemberEquals(a, b, i) ==>
          Get(b, a[i].name).Some? && Equals(Get(a, a[i].name).value, Get(b, a[i].name).value);
    }
  }

  lemma MemberEqual(a: seq<Member>, b: seq<Member>, i: nat)
    requires i < |a| && Equals(Object(a), Object(b))
    ensures MemberEquals(a, b, i)
  {
    var members := Object(a).members;
    assert members[i] == a[i];
  }

  method ValueEquals(a: Value, b: Value) returns (equal: bool)
    ensures equal == Equals(a, b)
    decreases a, 1
  {
    if !SameType(a, b) { return false; }
    match a
    case Array(items) => equal := ItemsEqual(items, b.items);
    case Object(members) =>
      EqualsMembers(members, b.members);
      equal := MembersEqual(members, b.members);
    case String(s) => equal := s == b.text;
    case Boolean(flag) => equal := flag == b.flag;
    case Number(x) => equal := Abs(x - b.number) < EPSILON;
    case Null => equal := true;
  }

  method ItemsEqual(a: seq<Value>, b: seq<Value>) returns (equal: bool)
    ensures equal == Equals(Array(a), Array(b))
    decreases a, 0
  {
    if |a| != |b| { return false; }
    var i := 0;
    while i < |a|
      invariant i <= |a|
      invariant forall j | 0 <= j < i :: Equals(a[j], b[j])
    {
      var same := ValueEquals(a[i], b[i]);
      if !same { return false; }
      i := i + 1;
    }
    equal := true;
  }

  method MembersEqual(a: seq<Member>, b: seq<Member>) returns (equal: bool)
    ensures equal <==> |a| == |b| && forall i | 0 <= i < |a| :: MemberEquals(a, b, i)
    decreases a, 0
  {
    if |a| != |b| { return false; }
    hide Get, Equals;
    var i := 0;
    while i < |a|
      invariant i <= |a|
      invariant forall j | 0 <= j < i :: MemberEquals(a, b, j)
    {
      var key := a[i].name;
      GetSmaller(a, key);
      var other := Get(b, key);
      if other.None? {
        assert !MemberEquals(a, b, i);
        return false;
      }
      var same := ValueEquals(Get(a, key).value, other.value);
      assert same == MemberEquals(a, b, i);
      if !same { return false; }
      i := i + 1;
    }
    equal := true;
  }

  lemma {:induction false} EqualsReflexive(v: Value)
    ensures Equals(v, v)
  {
    match v
    case Array(items) => forall i | 0 <= i < |items| ensures Equals(items[i], items[i]) { EqualsReflexive(items[i]); }
    case Object(members) =>
      forall i | 0 <= i < |members| ensures MemberEquals(members, members, i) {
        GetSmaller(members, members[i].name);
        EqualsReflexive(Get(members, members[i].name).value);
      }
      EqualsMembers(members, members);
    case _ =>
  }

  // ---------------------------------------------------------------- pigeonhole

  function Names(members: seq<Member>): set<string> { set i | 0 <= i < |members| :: members[i].name }

  lemma {:induction false} NamesSize(members: seq<Member>)
    ensures |Names(members)| <= |members|
    ensures Distinct(members) ==> |Names(members)| == |members|
  {
    if members == [] {
    } else {
      var last := |members| - 1;
      var front := members[..last];
      NamesSize(front);
      assert Names(members) == Names(front) + {members[last].name};
      if Distinct(members) {
        assert Distinct(front) && members[last].name !in Names(front);
      }
    }
  }

  // As many distinct names as the other has slots, and all of them there: then the other
  // has no further name.
  lemma Pigeonhole(a: seq<Member>, b: seq<Member>)
    requires Distinct(a) && |a| >= |b|
    requires forall i | 0 <= i < |a| :: Get(b, a[i].name).Some?
    ensures |a| == |b| && forall j | 0 <= j < |b| :: Get(a, b[j].name).Some?
  {
    NamesSize(a);
    NamesSize(b);
    assert Names(a) <= Names(b) by {
      forall i | 0 <= i < |a| ensures a[i].name in Names(b) {
        assert Get(b, a[i].name).Some?;
      }
    }
    SubsetOfSameSize(Names(a), Names(b));
    forall j | 0 <= j < |b| ensures Get(a, b[j].name).Some? {
      assert b[j].name in Names(b);
    }
  }

  lemma SubsetOfSameSize(s: set<string>, t: set<string>)
    requires s <= t && |s| >= |t|
    ensures s == t
  {
    if exists x :: x in t && x !in s {
      var x :| x in t && x !in s;
      Subset(s, t - {x});
    } else {
      assert forall x | x in t :: x in s;
    }
  }

  lemma {:induction false} Subset(s: set<string>, t: set<string>)
    requires s <= t
    ensures |s| <= |t|
  {
    if s != {} {
      var x :| x in s;
      Subset(s - {x}, t - {x});
    }
  }

  lemma {:induction false} EqualsTurned(a: Value, b: Value)
    requires Named(a) && Equals(a, b)
    ensures Equals(b, a)
    decreases a
  {
    match a
    case Array(items) =>
      forall i | 0 <= i < |items| ensures Equals(b.items[i], items[i]) { EqualsTurned(items[i], b.items[i]); }
    case Object(members) =>
      EqualsMembers(members, b.members);
      EqualsMembers(b.members, members);
      assert forall i | 0 <= i < |members| ::
        MemberEquals(members, b.members, i) && Get(b.members, members[i].name).Some?;
      Pigeonhole(members, b.members);
      forall j | 0 <= j < |b.members|
        ensures MemberEquals(b.members, members, j) {
        var name := b.members[j].name;
        GetSmaller(members, name);
        var i :| 0 <= i < |members| && members[i] == Member(name, Get(members, name).value);
        assert MemberEquals(members, b.members, i);
        EqualsTurned(Get(members, name).value, Get(b.members, name).value);
      }
    case _ =>
  }

  // The comparison is symmetric although it only walks one of the two objects.
  lemma EqualsSymmetric(a: Value, b: Value)
    requires Named(a) && Named(b)
    ensures Equals(a, b) <==> Equals(b, a)
  {
    if Equals(a, b) { EqualsTurned(a, b); }
    if Equals(b, a) { EqualsTurned(b, a); }
  }

  // Both objects have a member of the name, with equal values, or neither has one.
  predicate AgreeOn(a: seq<Member>, b: seq<Member>, name: string) {
    (Get(a, name).Some? <==> Get(b, name).Some?)
    && (Get(a, name).Some? ==> Equals(Get(a, name).value, Get(b, name).value))
  }

  // Objects are equal exactly when they have the same names, with equal values.
  lemma EqualsObjects(a: seq<Member>, b: seq<Member>)
    requires Distinct(a) && Distinct(b)
    ensures Equals(Object(a), Object(b)) <==> forall name: string :: AgreeOn(a, b, name)
  {
    EqualsMembers(a, b);
    hide Distinct, Equals;
    if |a| == |b| && forall i | 0 <= i < |a| :: MemberEquals(a, b, i) {
      assert forall i | 0 <= i < |a| :: MemberEquals(a, b, i) && Get(b, a[i].name).Some?;
      Pigeonhole(a, b);
      forall name: string ensures AgreeOn(a, b, name) {
        if Get(a, name).Some? {
          var i :| 0 <= i < |a| && a[i] == Member(name, Get(a, name).value);
          assert MemberEquals(a, b, i);
        }
      }
    }
    if forall name: string :: AgreeOn(a, b, name) {
      forall i | 0 <= i < |a| ensures MemberEquals(a, b, i) { assert AgreeOn(a, b, a[i].name); }
      forall i | 0 <= i < |b| ensures Get(a, b[i].name).Some? { assert AgreeOn(a, b, b[i].name); }
      assert forall i | 0 <= i < |a| :: MemberEquals(a, b, i) && Get(b, a[i].name).Some?;
      if |a| >= |b| { Pigeonhole(a, b); } else { Pigeonhole(b, a); }
    }
  }

  // ------------------------------------------------------ equal place by place

  datatype Step = Key(name: string) | Index(i: nat)

  // What a way through members and items leads to.
  function Look(v: Value, way: seq<Step>): Option<Value> {
    if way == [] then Some(v)
    else if v.Object? && way[0].Key? && Get(v.members, way[0].name).Some? then
      Look(Get(v.members, way[0].name).value, way[1..])
    else if v.Array? && way[0].Index? && way[0].i < |v.items| then Look(v.items[way[0].i], way[1..])
    else None
  }

  // Nothing on both sides, or containers of the same kind, or the same text, truth value
  // or null, or two numbers less than one millionth apart.
  predicate Alike(x: Option<Value>, y: Option<Value>) {
    match (x, y)
    case (None, None) => true
    case (Some(Object(_)), Some(Object(_))) => true
    case (Some(Array(_)), Some(Array(_))) => true
    case (Some(Number(p)), Some(Number(q))) => -0.000001 < p - q < 0.000001
    case (Some(String(_)), Some(String(_))) => x == y
    case (Some(Boolean(_)), Some(Boolean(_))) => x == y
    case (Some(Null), Some(Null)) => true
    case _ => false
  }

  ghost predicate AlikeEverywhere(a: Value, b: Value) {
    forall way :: Alike(Look(a, way), Look(b, way))
  }

  lemma {:induction false} EqualsLooks(a: Value, b: Value, way: seq<Step>)
    requires Named(a) && Named(b) && Equals(a, b)
    ensures Alike(Look(a, way), Look(b, way))
    decreases way
  {
    if way != [] {
      if a.Array? && way[0].Index? && way[0].i < |a.items| {
        EqualsLooks(a.items[way[0].i], b.items[way[0].i], way[1..]);
      }
      if a.Object? && way[0].Key? {
        var name := way[0].name;
        EqualsObjects(a.members, b.members);
        assert AgreeOn(a.members, b.members, name);
        if Get(a.members, name).Some? {
          NamedMember(a.members, name);
          NamedMember(b.members, name);
          EqualsLooks(Get(a.members, name).value, Get(b.members, name).value, way[1..]);
        }
      }
    }
  }

  lemma NamedMember(members: seq<Member>, name: string)
    requires Named(Object(members)) && Get(members, name).Some?
    ensures Named(Get(members, name).value)
  {
    GetSmaller(members, name);
  }

  lemma LookOn(v: Value, step: Step, way: seq<Step>)
    ensures Look(v, [step] + way) == match Look(v, [step])
      case None => None
      case Some(inner) => Look(inner, way)
  {
    assert ([step] + way)[1..] == way && [step][1..] == [];
  }

  lemma AlikeBelow(a: Value, b: Value, step: Step)
    requires AlikeEverywhere(a, b)
    ensures Look(a, [step]).Some? <==> Look(b, [step]).Some?
    ensures Look(a, [step]).Some? ==> AlikeEverywhere(Look(a, [step]).value, Look(b, [step]).value)
  {
    hide Look;
    assert Alike(Look(a, [step]), Look(b, [step]));
    if Look(a, [step]).Some? {
      forall way ensures Alike(Look(Look(a, [step]).value, way), Look(Look(b, [step]).value, way)) {
        LookOn(a, step, way);
        LookOn(b, step, way);
        assert Alike(Look(a, [step] + way), Look(b, [step] + way));
      }
    }
  }

  lemma OneStep(v: Value)
    ensures v.Array? ==> forall i: nat :: Look(v, [Index(i)]) == if i < |v.items| then Some(v.items[i]) else None
    ensures v.Object? ==> forall name: string :: Look(v, [Key(name)]) == Get(v.members, name)
  {
    assert forall step: Step :: [step][1..] == [];
  }

  lemma {:induction false} AlikeEquals(a: Value, b: Value)
    requires Named(a) && Named(b) && AlikeEverywhere(a, b)
    ensures Equals(a, b)
    decreases a
  {
    assert Alike(Look(a, []), Look(b, []));
    OneStep(a);
    OneStep(b);
    match a
    case Array(items) =>
      hide Look, AlikeEverywhere;
      AlikeBelow(a, b, Index(|items|));
      if |items| > |b.items| { AlikeBelow(a, b, Index(|b.items|)); }
      forall i | 0 <= i < |items| ensures Equals(items[i], b.items[i]) {
        AlikeBelow(a, b, Index(i));
        assert Look(a, [Index(i)]) == Some(items[i]) && Look(b, [Index(i)]) == Some(b.items[i]);
        AlikeEquals(items[i], b.items[i]);
      }
    case Object(members) =>
      hide Look, AlikeEverywhere, Equals;
      forall name: string ensures AgreeOn(members, b.members, name) {
        AlikeBelow(a, b, Key(name));
        assert Look(a, [Key(name)]) == Get(members, name) && Look(b, [Key(name)]) == Get(b.members, name);
        if Get(members, name).Some? {
          GetSmaller(members, name);
          NamedMember(members, name);
          NamedMember(b.members, name);
          AlikeEquals(Get(members, name).value, Get(b.members, name).value);
        }
      }
      EqualsObjects(members, b.members);
    case _ =>
  }

  // Two values are equal exactly when every way leads to the same on both sides: nothing,
  // an object, an array, the same leaf, or numbers less than one millionth apart.
  lemma EqualsExactly(a: Value, b: Value)
    requires Named(a) && Named(b)
    ensures Equals(a, b) <==> AlikeEverywhere(a, b)
  {
    if Equals(a, b) {
      forall way ensures Alike(Look(a, way), Look(b, way)) { EqualsLooks(a, b, way); }
    }
    if AlikeEverywhere(a, b) { AlikeEquals(a, b); }
  }

  // ---------------------------------------------------------------- deep copies

  // json_value_deep_copy gives a value equal to its input, and fails on repeated names,
  // which no object has.
  method DeepCopy(v: Value) returns (copy: Option<Value>)
    ensures copy == if Named(v) then Some(v) else None
    decreases v, 1
  {
    match v
    case Array(items) =>
      var all := [];
      var i := 0;
      while i < |items|
        invariant i <= |items| && all == items[..i]
        invariant forall j | 0 <= j < i :: Named(items[j])
      {
        var item := DeepCopy(items[i]);
        if item.None? { return None; }
        all := all + [item.value];
        i := i + 1;
      }
      assert items[..i] == items;
      copy := Some(Array(all));
    case Object(members) =>
      copy := CopyMembers(members);
    case _ => copy := Some(v);
  }

  method CopyMembers(members: seq<Member>) returns (copy: Option<Value>)
    ensures copy == if Named(Object(members)) then Some(Object(members)) else None
    decreases members, 0
  {
    hide SlotOf;
    var all := [];
    var i := 0;
    while i < |members|
      invariant i <= |members| && all == members[..i] && Distinct(members[..i])
      invariant forall j | 0 <= j < i :: Named(members[j].value)
    {
      var key := members[i].name;
      GetSmaller(members, key);
      FirstOrRepeated(members, i);
      var value := DeepCopy(Get(members, key).value);
      if value.None? { return None; }
      var added := AddMember(all, key, value.value);
      if added.None? { return None; }
      all := added.value;
      i := i + 1;
    }
    assert members[..i] == members;
    copy := Some(Object(all));
  }

  lemma FirstOrRepeated(members: seq<Member>, i: nat)
    requires i < |members| && Distinct(members[..i])
    ensures SlotOf(members[..i], members[i].name) == i ==>
      Get(members, members[i].name) == Some(members[i].value) && Distinct(members[..i + 1])
    ensures SlotOf(members[..i], members[i].name) < i ==> !Distinct(members)
  {
    var front, name := members[..i], members[i].name;
    var k := SlotOf(front, name);
    hide SlotOf, Get;
    if k == i {
      var upTo := members[..i + 1];
      assert Distinct(upTo) by { DistinctOn(members, i); }
      hide Distinct;
      GetAt(upTo, i);
      GetPrefix(members, i + 1, name);
    } else {
      assert members[k].name == front[k].name == name;
    }
  }

  lemma DistinctOn(members: seq<Member>, i: nat)
    requires i < |members| && Distinct(members[..i])
    requires forall j | 0 <= j < i :: members[..i][j].name != members[i].name
    ensures Distinct(members[..i + 1])
  {
    var front, upTo := members[..i], members[..i + 1];
    assert forall j | 0 <= j < i :: upTo[j] == front[j];
  }

  lemma {:induction false} GetPrefix(members: seq<Member>, n: nat, name: string)
    requires n <= |members| && Get(members[..n], name).Some?
    ensures Get(members, name) == Get(members[..n], name)
  {
    if members[0].name != name {
      assert members[..n][1..] == members[1..][..n - 1];
      GetPrefix(members[1..], n - 1, name);
    }
  }
}
