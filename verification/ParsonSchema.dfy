/** Schema validation, and for which schemas in the middle it is transitive. */
module ParsonSchema {
  import opened Results
  import opened ParsonCompare
  import opened ParsonValue

  // json_validate
  predicate Validate(schema: Value, value: Value)
    decreases schema
  {
    (schema.Null? || SameType(schema, value))
    && match schema
       case Array(s) => s == [] || forall i | 0 <= i < |value.items| :: Validate(s[0], value.items[i])
       case Object(s) =>
         s == []
         || (|value.members| >= |s|
             && forall i | 0 <= i < |s| ::
                  (GetSmaller(s, s[i].name);
                   Get(value.members, s[i].name).Some?
                   && Validate(Get(s, s[i].name).value, Get(value.members, s[i].name).value)))
       case _ => true
  }

  // If the schema object has the name, the value has it, too, and passes.
  predicate Accepts(s: seq<Member>, v: seq<Member>, name: string) {
    Get(s, name).Some? ==> Get(v, name).Some? && Validate(Get(s, name).value, Get(v, name).value)
  }

  // The check of the number of members never rejects what the checks of the keys would
  // accept: an object passes exactly when every name of the schema passes.
  lemma ValidateObjects(s: seq<Member>, v: seq<Member>)
    requires Distinct(s)
    ensures Validate(Object(s), Object(v)) <==> forall name: string :: Accepts(s, v, name)
  {
    if Validate(Object(s), Object(v)) {
      forall name: string ensures Accepts(s, v, name) {
        if Get(s, name).Some? {
          var i :| 0 <= i < |s| && s[i] == Member(name, Get(s, name).value);
          KeyPassed(s, v, i);
        }
      }
    }
    if forall name: string :: Accepts(s, v, name) {
      forall i | 0 <= i < |s| ensures Get(v, s[i].name).Some? {
        assert Accepts(s, v, s[i].name);
      }
      if |s| >= |v| { Pigeonhole(s, v); }
      assert forall i | 0 <= i < |s| :: Accepts(s, v, s[i].name) && Get(s, s[i].name).Some?;
    }
  }

  // The check of one key of the schema.
  predicate KeyPasses(s: seq<Member>, v: seq<Member>, i: nat)
    requires i < |s|
  {
    Get(v, s[i].name).Some? && Validate(Get(s, s[i].name).value, Get(v, s[i].name).value)
  }

  lemma ValidateKeys(s: seq<Member>, v: seq<Member>)
    ensures Validate(Object(s), Object(v)) <==>
      s == [] || (|v| >= |s| && forall i | 0 <= i < |s| :: KeyPasses(s, v, i))
  {
    if Validate(Object(s), Object(v)) {
      forall i | 0 <= i < |s| ensures KeyPasses(s, v, i) { KeyPassed(s, v, i); }
    }
    if |v| >= |s| && forall i | 0 <= i < |s| :: KeyPasses(s, v, i) {
      assert forall i | 0 <= i < |s| ::
        KeyPasses(s, v, i) ==> Get(v, s[i].name).Some? && Validate(Get(s, s[i].name).value, Get(v, s[i].name).value);
    }
  }

  lemma KeyPassed(s: seq<Member>, v: seq<Member>, i: nat)
    requires i < |s| && Validate(Object(s), Object(v))
    ensures KeyPasses(s, v, i)
  {
    var members := Object(s).members;
    assert members[i] == s[i];
  }

  method JsonValidate(schema: Value, value: Value) returns (ok: bool)
    ensures ok == Validate(schema, value)
    decreases schema, 1
  {
    if !SameType(schema, value) && !schema.Null? { return false; }
    match schema
    case Array(s) =>
      if |s| == 0 { return true; }
      var i := 0;
      while i < |value.items|
        invariant i <= |value.items|
        invariant forall j | 0 <= j < i :: Validate(s[0], value.items[j])
      {
        var passed := JsonValidate(s[0], value.items[i]);
        if !passed { return false; }
        i := i + 1;
      }
      ok := true;
    case Object(s) => ok := ValidateMembers(s, value.members);
    case _ => ok := true;
  }

  method ValidateMembers(s: seq<Member>, v: seq<Member>) returns (ok: bool)
    ensures ok == Validate(Object(s), Object(v))
    decreases s, 0
  {
    ValidateKeys(s, v);
    if |s| == 0 { return true; }
    if |v| < |s| { return false; }
    hide Get, Validate;
    var i := 0;
    while i < |s|
      invariant i <= |s|
      invariant forall j | 0 <= j < i :: KeyPasses(s, v, j)
    {
      var key := s[i].name;
      GetSmaller(s, key);
      var member := Get(v, key);
      if member.None? {
        assert !KeyPasses(s, v, i);
        return false;
      }
      var passed := JsonValidate(Get(s, key).value, member.value);
      assert passed == KeyPasses(s, v, i);
      if !passed { return false; }
      i := i + 1;
    }
    ok := true;
  }

  // -------------------------------------------------------------- place by place

  // What the schema asks for at a way: the first item of an array stands for all items.
  function Asked(schema: Value, way: seq<Step>): Option<Value> {
    if way == [] then Some(schema)
    else if schema.Object? && way[0].Key? && Get(schema.members, way[0].name).Some? then
      Asked(Get(schema.members, way[0].name).value, way[1..])
    else if schema.Array? && way[0].Index? && schema.items != [] then Asked(schema.items[0], way[1..])
    else None
  }

  // Where a way leads in a value: to a value, behind the end of an array, or nowhere.
  datatype Reached = Found(value: Value) | Beyond | Nowhere

  function Reach(v: Value, way: seq<Step>): Reached {
    if way == [] then Found(v)
    else if v.Object? && way[0].Key? && Get(v.members, way[0].name).Some? then
      Reach(Get(v.members, way[0].name).value, way[1..])
    else if v.Array? && way[0].Index? then
      if way[0].i < |v.items| then Reach(v.items[way[0].i], way[1..]) else Beyond
    else Nowhere
  }

  // What is asked for is there, with its type unless null is asked for.
  predicate Answers(schema: Value, v: Value, way: seq<Step>) {
    Asked(schema, way).Some? ==>
      match Reach(v, way)
      case Found(value) => Asked(schema, way).value.Null? || SameType(Asked(schema, way).value, value)
      case Beyond => true
      case Nowhere => false
  }

  lemma {:induction false} ValidateAnswers(schema: Value, v: Value, way: seq<Step>)
    requires Named(schema) && Validate(schema, v)
    ensures Answers(schema, v, way)
    decreases way
  {
    if way != [] {
      if schema.Array? && way[0].Index? && schema.items != [] && way[0].i < |v.items| {
        ValidateAnswers(schema.items[0], v.items[way[0].i], way[1..]);
      }
      if schema.Object? && way[0].Key? && Get(schema.members, way[0].name).Some? {
        var name := way[0].name;
        ValidateObjects(schema.members, v.members);
        assert Accepts(schema.members, v.members, name);
        NamedMember(schema.members, name);
        ValidateAnswers(Get(schema.members, name).value, Get(v.members, name).value, way[1..]);
      }
    }
  }

  ghost predicate AnswersAll(schema: Value, v: Value) { forall way :: Answers(schema, v, way) }

  lemma StepOn(step: Step, way: seq<Step>)
    ensures ([step] + way)[0] == step && ([step] + way)[1..] == way
  {
  }

  lemma AnswersItem(schema: Value, v: Value, i: nat)
    requires schema.Array? && v.Array? && schema.items != [] && i < |v.items| && AnswersAll(schema, v)
    ensures AnswersAll(schema.items[0], v.items[i])
  {
    forall way ensures Answers(schema.items[0], v.items[i], way) {
      StepOn(Index(i), way);
      assert Answers(schema, v, [Index(i)] + way);
    }
  }

  lemma KeyAlone(schema: Value, v: Value, name: string)
    requires schema.Object? && v.Object? && Get(schema.members, name).Some?
    ensures Asked(schema, [Key(name)]) == Get(schema.members, name)
    ensures Get(v.members, name).None? ==> Reach(v, [Key(name)]) == Nowhere
  {
    var way := [Key(name)];
    assert way[0].Key? && way[0].name == name && way[1..] == [];
    assert Asked(Get(schema.members, name).value, []) == Get(schema.members, name);
  }

  lemma AnswersMember(schema: Value, v: Value, name: string)
    requires schema.Object? && v.Object? && Get(schema.members, name).Some? && AnswersAll(schema, v)
    ensures Get(v.members, name).Some?
    ensures AnswersAll(Get(schema.members, name).value, Get(v.members, name).value)
  {
    KeyAlone(schema, v, name);
    assert Answers(schema, v, [Key(name)]);
    forall way ensures Answers(Get(schema.members, name).value, Get(v.members, name).value, way) {
      StepOn(Key(name), way);
      assert Answers(schema, v, [Key(name)] + way);
    }
  }

  lemma {:induction false} AnswersValidate(schema: Value, v: Value)
    requires Named(schema) && AnswersAll(schema, v)
    ensures Validate(schema, v)
    decreases schema
  {
    assert Answers(schema, v, []);
    match schema
    case Array(s) =>
      if s != [] {
        forall i | 0 <= i < |v.items| ensures Validate(s[0], v.items[i]) {
          AnswersItem(schema, v, i);
          AnswersValidate(s[0], v.items[i]);
        }
      }
    case Object(s) =>
      forall name: string ensures Accepts(s, v.members, name) {
        if Get(s, name).Some? {
          AnswersMember(schema, v, name);
          NamedMember(s, name);
          GetSmaller(s, name);
          AnswersValidate(Get(s, name).value, Get(v.members, name).value);
        }
      }
      ValidateObjects(s, v.members);
    case _ =>
  }

  // A value passes exactly when every place that the schema speaks of is there in the value,
  // but for items behind the end of an array, and has the type of the schema or any type
  // where the schema has null.
  lemma ValidateExactly(schema: Value, v: Value)
    requires Named(schema)
    ensures Validate(schema, v) <==> AnswersAll(schema, v)
  {
    if Validate(schema, v) {
      forall way ensures Answers(schema, v, way) { ValidateAnswers(schema, v, way); }
    }
    if AnswersAll(schema, v) { AnswersValidate(schema, v); }
  }

  // ------------------------------------------------------------- transitivity

  // A schema that accepts several values at once: what it must accept in their place
  // in a container.
  function AllItems(ts: seq<Value>): seq<Value>
    requires forall i | 0 <= i < |ts| :: ts[i].Array?
  {
    if ts == [] then [] else ts[0].items + AllItems(ts[1..])
  }

  predicate AllHave(ts: seq<Value>, name: string)
    requires forall i | 0 <= i < |ts| :: ts[i].Object?
  {
    forall i | 0 <= i < |ts| :: Get(ts[i].members, name).Some?
  }

  function AllAt(ts: seq<Value>, name: string): (r: seq<Value>)
    requires forall i | 0 <= i < |ts| :: ts[i].Object?
    requires AllHave(ts, name)
    ensures |r| == |ts| && forall i | 0 <= i < |r| :: r[i] == Get(ts[i].members, name).value
  {
    seq(|ts|, i requires 0 <= i < |ts| => Get(ts[i].members, name).value)
  }

  predicate OneType(ts: seq<Value>) {
    forall i | 0 <= i < |ts| :: SameType(ts[0], ts[i])
  }

  // Only null accepts all of these.
  predicate OnlyNull(ts: seq<Value>) {
    ts != [] && (!OneType(ts) || ts[0].Null?)
  }

  // Whatever accepts all of these values accepts everything that the first one accepts:
  // an empty array must not stand where a schema could say more.
  predicate Settled(ts: seq<Value>)
    requires ts != []
    decreases ts[0]
  {
    OneType(ts) ==>
      match ts[0]
      case Array(items) =>
        if items == [] then OnlyNull(AllItems(ts)) else Settled(AllItems(ts))
      case Object(members) =>
        forall name | name in Names(members) && AllHave(ts, name) ::
          (NameSmaller(members, name); Settled(AllAt(ts, name)))
      case _ => true
  }

  lemma NameSmaller(members: seq<Member>, name: string)
    requires name in Names(members)
    ensures Get(members, name).Some?
    ensures exists i | 0 <= i < |members| :: members[i].value == Get(members, name).value
  {
  }

  predicate AcceptsAll(s: Value, ts: seq<Value>) { forall i | 0 <= i < |ts| :: Validate(s, ts[i]) }

  predicate AllNamed(ts: seq<Value>) { forall i | 0 <= i < |ts| :: Named(ts[i]) }

  lemma {:induction false} ItemsAccepted(s: Value, ts: seq<Value>)
    requires forall i | 0 <= i < |ts| :: ts[i].Array?
    ensures AcceptsAll(s, AllItems(ts)) <==> forall i | 0 <= i < |ts| :: AcceptsAll(s, ts[i].items)
    ensures AllNamed(ts) ==> AllNamed(AllItems(ts))
  {
    hide Validate;
    if ts != [] {
      var head, tail := ts[0].items, AllItems(ts[1..]);
      ItemsAccepted(s, ts[1..]);
      assert forall i | 0 < i < |ts| :: ts[i] == ts[1..][i - 1];
      AcceptsBoth(s, head, tail);
      if AllNamed(ts) {
        assert AllNamed(ts[1..]);
        assert Named(ts[0]) && AllNamed(head);
      }
    }
  }

  lemma AcceptsBoth(s: Value, a: seq<Value>, b: seq<Value>)
    ensures AcceptsAll(s, a + b) <==> AcceptsAll(s, a) && AcceptsAll(s, b)
    ensures AllNamed(a) && AllNamed(b) ==> AllNamed(a + b)
  {
    hide Validate, Named;
    if AcceptsAll(s, a + b) {
      assert forall i | 0 <= i < |a| :: a[i] == (a + b)[i];
      assert forall i | 0 <= i < |b| :: b[i] == (a + b)[|a| + i];
    }
  }

  lemma OnlyNullMeans(s: Value, ts: seq<Value>)
    requires OnlyNull(ts) && AcceptsAll(s, ts)
    ensures s.Null?
  {
    if !s.Null? { SameTypeAll(s, ts); }
  }

  lemma SameTypeAll(s: Value, ts: seq<Value>)
    requires ts != [] && AcceptsAll(s, ts) && !s.Null?
    ensures OneType(ts) && forall i | 0 <= i < |ts| :: SameType(s, ts[i])
  {
    assert forall i | 0 <= i < |ts| :: Validate(s, ts[i]) && SameType(s, ts[i]);
  }

  lemma FirstItem(ts: seq<Value>)
    requires ts != [] && forall i | 0 <= i < |ts| :: ts[i].Array?
    ensures ts[0].items != [] ==> AllItems(ts) != [] && AllItems(ts)[0] == ts[0].items[0]
  {
  }

  lemma ArraysAccepted(s: Value, ts: seq<Value>)
    requires s.Array? && s.items != [] && forall i | 0 <= i < |ts| :: ts[i].Array?
    ensures AcceptsAll(s, ts) <==> AcceptsAll(s.items[0], AllItems(ts))
  {
    ItemsAccepted(s.items[0], ts);
    forall i | 0 <= i < |ts| ensures Validate(s, ts[i]) <==> AcceptsAll(s.items[0], ts[i].items) {
    }
  }

  lemma {:induction false} SettledPasses(ts: seq<Value>, s: Value, v: Value)
    requires ts != [] && Settled(ts) && AllNamed(ts) && Named(s)
    requires AcceptsAll(s, ts) && Validate(ts[0], v)
    ensures Validate(s, v)
    decreases ts[0]
  {
    if !s.Null? {
      SameTypeAll(s, ts);
      match s
      case Array(ss) => if ss != [] { SettledArray(ts, s, v); }
      case Object(ss) => SettledObject(ts, s, v);
      case _ =>
    }
  }

  lemma {:induction false} SettledArray(ts: seq<Value>, s: Value, v: Value)
    requires ts != [] && Settled(ts) && AllNamed(ts) && Named(s) && OneType(ts)
    requires s.Array? && s.items != [] && forall i | 0 <= i < |ts| :: ts[i].Array?
    requires AcceptsAll(s, ts) && Validate(ts[0], v)
    ensures Validate(s, v)
    decreases ts[0], 0
  {
    var s0, all := s.items[0], AllItems(ts);
    ArraysAccepted(s, ts);
    FirstItem(ts);
    ItemsAccepted(s0, ts);
    if ts[0].items == [] {
      OnlyNullMeans(s0, all);
    } else {
      assert forall j | 0 <= j < |v.items| :: Validate(ts[0].items[0], v.items[j]);
      forall j | 0 <= j < |v.items| ensures Validate(s0, v.items[j]) {
        SettledPasses(all, s0, v.items[j]);
      }
    }
  }

  // Every object that is accepted has the names of the schema.
  lemma ObjectsAccepted(s: Value, ts: seq<Value>, name: string)
    requires s.Object? && Named(s) && AllNamed(ts) && forall i | 0 <= i < |ts| :: ts[i].Object?
    requires AcceptsAll(s, ts) && Get(s.members, name).Some?
    ensures AllHave(ts, name) && AcceptsAll(Get(s.members, name).value, AllAt(ts, name)) && AllNamed(AllAt(ts, name))
  {
    forall i | 0 <= i < |ts|
      ensures Get(ts[i].members, name).Some?
        && Validate(Get(s.members, name).value, Get(ts[i].members, name).value)
        && Named(Get(ts[i].members, name).value) {
      assert Validate(s, ts[i]) && Named(ts[i]);
      ValidateObjects(s.members, ts[i].members);
      assert s == Object(s.members) && ts[i] == Object(ts[i].members);
      assert Accepts(s.members, ts[i].members, name);
    }
  }

  lemma {:induction false} SettledObject(ts: seq<Value>, s: Value, v: Value)
    requires ts != [] && Settled(ts) && AllNamed(ts) && Named(s) && OneType(ts)
    requires s.Object? && forall i | 0 <= i < |ts| :: ts[i].Object?
    requires AcceptsAll(s, ts) && Validate(ts[0], v)
    ensures Validate(s, v)
    decreases ts[0], 0
  {
    var ss, t0 := s.members, ts[0].members;
    assert s == Object(ss) && ts[0] == Object(t0) && v == Object(v.members) && Named(ts[0]);
    ValidateObjects(t0, v.members);
    ValidateObjects(ss, v.members);
    forall name: string ensures Accepts(ss, v.members, name) {
      if Get(ss, name).Some? {
        ObjectsAccepted(s, ts, name);
        assert Accepts(t0, v.members, name);
        var all := AllAt(ts, name);
        assert Settled(all) by { SettledAt(ts, name); }
        assert all[0] == Get(t0, name).value;
        NameIn(t0, name);
        GetSmaller(ss, name);
        SettledPasses(all, Get(ss, name).value, Get(v.members, name).value);
      }
    }
  }

  lemma NameIn(members: seq<Member>, name: string)
    ensures Get(members, name).Some? <==> name in Names(members)
    ensures Get(members, name).Some? ==> exists i | 0 <= i < |members| :: members[i].value == Get(members, name).value
  {
  }

  lemma SettledAt(ts: seq<Value>, name: string)
    requires ts != [] && Settled(ts) && OneType(ts) && ts[0].Object?
    requires forall i | 0 <= i < |ts| :: ts[i].Object?
    requires AllHave(ts, name)
    ensures Settled(AllAt(ts, name))
  {
    NameIn(ts[0].members, name);
  }

  // ------------------------------------------------------------ counterexamples

  // A value that a schema accepts.
  function Sample(t: Value): (v: Value)
    requires Named(t)
    ensures Named(v) && SameType(t, v)
    decreases t, 0
  {
    match t
    case Array(_) => Array([])
    case Object(members) => Object(Samples(members))
    case _ => t
  }

  function Samples(members: seq<Member>): (r: seq<Member>)
    requires Named(Object(members))
    ensures |r| == |members| && forall i | 0 <= i < |r| :: r[i].name == members[i].name && Named(r[i].value)
    ensures forall i | 0 <= i < |r| :: r[i].value == Sample(members[i].value)
    decreases members, 0
  {
    seq(|members|, i requires 0 <= i < |members| =>
      assert Named(Object(members)) && Named(members[i].value);
      Member(members[i].name, Sample(members[i].value)))
  }

  // With the same names slot by slot, an object is accepted when its values are.
  lemma SlotsAccepted(s: seq<Member>, v: seq<Member>)
    requires Distinct(s) && |v| == |s|
    requires forall i | 0 <= i < |s| :: v[i].name == s[i].name && Validate(s[i].value, v[i].value)
    ensures Validate(Object(s), Object(v)) && Distinct(v)
  {
    assert Distinct(v);
    forall name: string ensures Accepts(s, v, name) {
      if Get(s, name).Some? {
        var i :| 0 <= i < |s| && s[i] == Member(name, Get(s, name).value);
        GetAt(v, i);
      }
    }
    ValidateObjects(s, v);
  }

  lemma {:induction false} SampleAccepted(t: Value)
    requires Named(t)
    ensures Validate(t, Sample(t))
  {
    if t.Object? {
      var members := t.members;
      assert t == Object(members);
      forall i | 0 <= i < |members| ensures Validate(members[i].value, Samples(members)[i].value) {
        SampleAccepted(members[i].value);
      }
      SlotsAccepted(members, Samples(members));
    }
  }

  // A schema that accepts some values and not another.
  lemma Refusing(us: seq<Value>) returns (s: Value, w: Value)
    requires !OnlyNull(us)
    ensures Named(s) && Named(w) && AcceptsAll(s, us) && !Validate(s, w)
  {
    if us == [] {
      s, w := String(""), Null;
    } else {
      var u := us[0];
      s, w := if u.Array? then Array([]) else if u.Object? then Object([]) else u, Null;
    }
  }

  // A schema and a value that fail when the values in the middle are not settled.
  lemma {:induction false} Unsettled(ts: seq<Value>) returns (s: Value, v: Value)
    requires ts != [] && !Settled(ts) && AllNamed(ts)
    ensures Named(s) && Named(v) && AcceptsAll(s, ts) && Validate(ts[0], v) && !Validate(s, v)
    decreases ts[0]
  {
    if ts[0].Array? {
      s, v := UnsettledArray(ts);
    } else {
      s, v := UnsettledObject(ts);
    }
  }

  lemma {:induction false} UnsettledArray(ts: seq<Value>) returns (s: Value, v: Value)
    requires ts != [] && !Settled(ts) && AllNamed(ts) && ts[0].Array?
    ensures Named(s) && Named(v) && AcceptsAll(s, ts) && Validate(ts[0], v) && !Validate(s, v)
    decreases ts[0], 0
  {
    var items, all := ts[0].items, AllItems(ts);
    assert forall i | 0 <= i < |ts| :: SameType(ts[0], ts[i]) && ts[i].Array?;
    assert if items == [] then !OnlyNull(all) else !Settled(all);
    hide Settled, OnlyNull, AllItems;
    FirstItem(ts);
    ItemsAccepted(Null, ts);
    var s0, w;
    if items == [] {
      s0, w := Refusing(all);
    } else {
      s0, w := Unsettled(all);
    }
    s, v := Array([s0]), Array([w]);
    ArraysAccepted(s, ts);
    OneItem(s0, w, ts[0]);
  }

  lemma OneItem(s0: Value, w: Value, t: Value)
    requires t.Array? && Named(s0) && Named(w) && !Validate(s0, w) && (t.items != [] ==> Validate(t.items[0], w))
    ensures Named(Array([s0])) && Named(Array([w])) && Validate(t, Array([w])) && !Validate(Array([s0]), Array([w]))
  {
    assert Array([w]).items[0] == w;
  }

  lemma {:induction false} UnsettledObject(ts: seq<Value>) returns (s: Value, v: Value)
    requires ts != [] && !Settled(ts) && AllNamed(ts) && !ts[0].Array?
    ensures Named(s) && Named(v) && AcceptsAll(s, ts) && Validate(ts[0], v) && !Validate(s, v)
    decreases ts[0], 0
  {
    var members := ts[0].members;
    assert Named(ts[0]) && ts[0] == Object(members);
    assert forall i | 0 <= i < |ts| :: SameType(ts[0], ts[i]) && ts[i].Object?;
    var name :| name in Names(members) && AllHave(ts, name) && !Settled(AllAt(ts, name));
    NameSmaller(members, name);
    AllAtNamed(ts, name);
    hide Settled, Names, Validate, AllNamed;
    var s0, w := Unsettled(AllAt(ts, name));
    s, v := Object([Member(name, s0)]), Object(Replaced(members, name, w));
    OneKeyAccepted(name, s0, ts);
    ReplacedAccepted(members, name, s0, w);
    OneKeyNamed(name, s0);
  }

  lemma OneKeyNamed(name: string, s0: Value)
    requires Named(s0)
    ensures Named(Object([Member(name, s0)]))
  {
  }

  lemma AllAtNamed(ts: seq<Value>, name: string)
    requires AllNamed(ts) && forall i | 0 <= i < |ts| :: ts[i].Object?
    requires AllHave(ts, name)
    ensures AllNamed(AllAt(ts, name))
  {
    forall i | 0 <= i < |ts| ensures Named(Get(ts[i].members, name).value) {
      assert Named(ts[i]) && ts[i] == Object(ts[i].members);
    }
  }

  lemma OneKey(name: string, s0: Value, v: seq<Member>)
    ensures Validate(Object([Member(name, s0)]), Object(v))
      <==> Get(v, name).Some? && Validate(s0, Get(v, name).value)
  {
    var s := [Member(name, s0)];
    assert Distinct(s) && Get(s, name) == Some(s0);
    ValidateObjects(s, v);
    if Validate(Object(s), Object(v)) { assert Accepts(s, v, name); }
    assert forall x: string | x != name :: Get(s, x).None?;
  }

  lemma OneKeyAccepted(name: string, s0: Value, ts: seq<Value>)
    requires forall i | 0 <= i < |ts| :: ts[i].Object?
    requires AllHave(ts, name) && AcceptsAll(s0, AllAt(ts, name))
    ensures AcceptsAll(Object([Member(name, s0)]), ts)
  {
    var all := AllAt(ts, name);
    forall i | 0 <= i < |ts| ensures Validate(Object([Member(name, s0)]), ts[i]) {
      OneKey(name, s0, ts[i].members);
      assert Validate(s0, all[i]) && ts[i] == Object(ts[i].members);
    }
  }

  // A sample with another value at a name.
  function Replaced(members: seq<Member>, name: string, w: Value): (r: seq<Member>)
    requires Named(Object(members))
    ensures |r| == |members|
    ensures forall i | 0 <= i < |r| ::
      r[i] == Member(members[i].name, if members[i].name == name then w else Samples(members)[i].value)
  {
    seq(|members|, i requires 0 <= i < |members| =>
      Member(members[i].name, if members[i].name == name then w else Samples(members)[i].value))
  }

  lemma ReplacedAccepted(members: seq<Member>, name: string, s0: Value, w: Value)
    requires Named(Object(members)) && Get(members, name).Some? && Named(w)
    requires Validate(Get(members, name).value, w) && !Validate(s0, w)
    ensures var r := Replaced(members, name, w);
      Named(Object(r)) && Validate(Object(members), Object(r)) && !Validate(Object([Member(name, s0)]), Object(r))
  {
    NamedMembers(members);
    hide *;
    var r := Replaced(members, name, w);
    forall i | 0 <= i < |members| ensures Validate(members[i].value, r[i].value) && Named(r[i].value) {
      ReplacedSlot(members, name, w, i);
    }
    SlotsAccepted(members, r);
    NamedMembers(r);
    ReplacedGets(members, name, w);
    OneKey(name, s0, r);
  }

  lemma NamedMembers(members: seq<Member>)
    ensures Named(Object(members)) <==>
      Distinct(members) && forall i | 0 <= i < |members| :: Named(members[i].value)
  {
    hide Distinct;
  }

  lemma ReplacedGets(members: seq<Member>, name: string, w: Value)
    requires Named(Object(members)) && Get(members, name).Some?
    ensures Get(Replaced(members, name, w), name) == Some(w)
  {
    var r := Replaced(members, name, w);
    assert Distinct(members);
    assert Distinct(r);
    var k :| 0 <= k < |members| && members[k] == Member(name, Get(members, name).value);
    hide Distinct, Get;
    GetAt(r, k);
  }

  lemma ReplacedSlot(members: seq<Member>, name: string, w: Value, i: nat)
    requires Named(Object(members)) && Get(members, name).Some? && Named(w) && i < |members|
    requires Validate(Get(members, name).value, w)
    ensures Validate(members[i].value, Replaced(members, name, w)[i].value)
    ensures Named(Replaced(members, name, w)[i].value)
  {
    GetAt(members, i);
    assert Named(members[i].value);
    hide Validate, Get, Distinct;
    SampleAccepted(members[i].value);
  }

  // ------------------------------------------------------------------- theorems

  // Two schemas in a row are as good as the first one, for every first schema and every
  // value, exactly when the one in the middle is settled.
  lemma TransitiveExactly(t: Value)
    requires Named(t)
    ensures Settled([t]) <==>
      forall s: Value, v: Value | Named(s) && Named(v) && Validate(s, t) && Validate(t, v) :: Validate(s, v)
  {
    if Settled([t]) {
      forall s: Value, v: Value | Named(s) && Named(v) && Validate(s, t) && Validate(t, v) ensures Validate(s, v) {
        SettledPasses([t], s, v);
      }
    } else {
      var s, v := Unsettled([t]);
      assert Validate(s, [t][0]);
    }
  }

  // An empty array in the middle lets through what the first schema refuses.
  lemma EmptyArrayUnsettled()
    ensures !Settled([Array([])])
    ensures var s, t, v := Array([String("")]), Array([]), Array([Number(1.0)]);
      Validate(s, t) && Validate(t, v) && !Validate(s, v)
  {
    assert AllItems([Array([])]) == [];
    assert Array([Number(1.0)]).items[0] == Number(1.0);
  }

  // There is no empty array, at any depth.
  predicate NoEmptyArray(t: Value) {
    match t
    case Array(items) => items != [] && forall i | 0 <= i < |items| :: NoEmptyArray(items[i])
    case Object(members) => forall i | 0 <= i < |members| :: NoEmptyArray(members[i].value)
    case _ => true
  }

  lemma {:induction false} NoEmptyArraySettled(ts: seq<Value>)
    requires ts != [] && NoEmptyArray(ts[0])
    ensures Settled(ts)
    decreases ts[0]
  {
    if OneType(ts) {
      match ts[0]
      case Array(items) =>
        assert forall i | 0 <= i < |ts| :: SameType(ts[0], ts[i]) && ts[i].Array?;
        FirstItem(ts);
        NoEmptyArraySettled(AllItems(ts));
      case Object(members) =>
        assert forall i | 0 <= i < |ts| :: SameType(ts[0], ts[i]) && ts[i].Object?;
        forall name | name in Names(members) && AllHave(ts, name) ensures Settled(AllAt(ts, name)) {
          NameSmaller(members, name);
          NoEmptyArraySettled(AllAt(ts, name));
        }
      case _ =>
    }
  }

  // Validation is transitive whenever the schema in the middle has no empty array.
  lemma {:induction false} Transitive(s: Value, t: Value, v: Value)
    requires Named(s) && Named(t) && NoEmptyArray(t)
    requires Validate(s, t) && Validate(t, v)
    ensures Validate(s, v)
  {
    NoEmptyArraySettled([t]);
    SettledPasses([t], s, v);
  }
}
