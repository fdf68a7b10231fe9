/** The growable, unordered key table of a Parson object. */
module ParsonTable {
  import opened Arithmetic
  import opened Results
  import opened ParsonValue

  const STARTING_CAPACITY: nat := 16

  // -------------------------------------------- the operations on the slots in use

  // The slot of a name, or the number of slots.
  function SlotOf(members: seq<Member>, name: string): (i: nat)
    ensures i <= |members|
    ensures i < |members| ==> members[i].name == name
    ensures forall j | 0 <= j < i :: members[j].name != name
  {
    if members == [] || members[0].name == name then 0
    else
      var i := 1 + SlotOf(members[1..], name);
      assert forall j | 0 < j < i :: members[j] == members[1..][j - 1];
      i
  }

  // json_object_set_value: overwrite in place, or append. The operation refuses a value
  // that is attached to a container already.
  function SetMember(members: seq<Member>, name: string, v: Value): seq<Member> {
    var i := SlotOf(members, name);
    if i < |members| then members[i := Member(name, v)] else members + [Member(name, v)]
  }

  // json_object_add: a name that is there is an error.
  function AddMember(members: seq<Member>, name: string, v: Value): Option<seq<Member>> {
    if SlotOf(members, name) < |members| then None else Some(members + [Member(name, v)])
  }

  // A slot is emptied: the last one moves into the gap.
  function Vacate(members: seq<Member>, i: nat): (left: seq<Member>)
    requires i < |members|
    ensures |left| == |members| - 1
    ensures forall j | 0 <= j < |left| :: left[j] == members[if j == i then |members| - 1 else j]
  {
    var last := |members| - 1;
    if i == last then members[..last] else members[..last][i := members[last]]
  }

  // json_object_remove
  function RemoveMember(members: seq<Member>, name: string): Option<seq<Member>> {
    var i := SlotOf(members, name);
    if i == |members| then None else Some(Vacate(members, i))
  }

  datatype Operation =
    | Set(name: string, value: Value, attached: bool)
    | Add(name: string, value: Value)
    | Remove(name: string)
    | Clear
    | Trim

  // The slots after an operation, and its status.
  datatype Effect = Effect(members: seq<Member>, ok: bool)

  function Perform(members: seq<Member>, op: Operation): Effect {
    match op
    case Set(name, value, attached) =>
      if attached then Effect(members, false) else Effect(SetMember(members, name, value), true)
    case Add(name, value) =>
      (match AddMember(members, name, value) case None => Effect(members, false) case Some(all) => Effect(all, true))
    case Remove(name) =>
      (match RemoveMember(members, name) case None => Effect(members, false) case Some(left) => Effect(left, true))
    case Clear => Effect([], true)
    case Trim => Effect(members, members != [])
  }

  // The statuses of a run are collected in order.
  datatype Outcome = Outcome(members: seq<Member>, statuses: seq<bool>)

  function Run(members: seq<Member>, ops: seq<Operation>): Outcome {
    if ops == [] then Outcome(members, [])
    else
      var before := Run(members, ops[..|ops| - 1]);
      var effect := Perform(before.members, ops[|ops| - 1]);
      Outcome(effect.members, before.statuses + [effect.ok])
  }

  // -------------------------------------------------------------- as a finite map

  function Bindings(members: seq<Member>): map<string, Value> {
    if members == [] then map[] else Bindings(members[1..])[members[0].name := members[0].value]
  }

  lemma {:induction false} BindingsGet(members: seq<Member>, name: string)
    ensures name in Bindings(members) <==> SlotOf(members, name) < |members|
    ensures Get(members, name) == if name in Bindings(members) then Some(Bindings(members)[name]) else None
  {
    if members != [] { BindingsGet(members[1..], name); }
  }

  lemma SlotIs(members: seq<Member>, i: nat)
    requires i < |members| && Distinct(members)
    ensures SlotOf(members, members[i].name) == i && Get(members, members[i].name) == Some(members[i].value)
  {
    GetAt(members, i);
  }

  lemma {:induction false} GetSlot(members: seq<Member>, name: string)
    ensures var i := SlotOf(members, name);
      Get(members, name) == if i < |members| then Some(members[i].value) else None
  {
    if members != [] { GetSlot(members[1..], name); }
  }

  // What a run does to the map a table stands for.
  function PerformMap(m: map<string, Value>, op: Operation): (map<string, Value>, bool) {
    match op
    case Set(name, value, attached) => if attached then (m, false) else (m[name := value], true)
    case Add(name, value) => if name in m then (m, false) else (m[name := value], true)
    case Remove(name) => (m - {name}, name in m)
    case Clear => (map[], true)
    case Trim => (m, m != map[])
  }

  function RunMap(m: map<string, Value>, ops: seq<Operation>): (map<string, Value>, seq<bool>) {
    if ops == [] then (m, [])
    else
      var before := RunMap(m, ops[..|ops| - 1]);
      var effect := PerformMap(before.0, ops[|ops| - 1]);
      (effect.0, before.1 + [effect.1])
  }

  // Two tables with distinct names are the same map when they find the same things.
  lemma SameBindings(members: seq<Member>, m: map<string, Value>)
    requires forall name :: Get(members, name) == if name in m then Some(m[name]) else None
    ensures Bindings(members) == m
  {
    forall name
      ensures name in Bindings(members) <==> name in m
      ensures name in m ==> Bindings(members)[name] == m[name]
    {
      BindingsGet(members, name);
    }
  }

  lemma SlotUnique(members: seq<Member>, name: string, i: nat)
    requires i <= |members| && (forall j | 0 <= j < i :: members[j].name != name)
    requires i < |members| ==> members[i].name == name
    ensures SlotOf(members, name) == i
  {
  }

  lemma SetGet(members: seq<Member>, name: string, v: Value, x: string)
    ensures Get(SetMember(members, name, v), x) == if x == name then Some(v) else Get(members, x)
  {
    var after, i, k := SetMember(members, name, v), SlotOf(members, name), SlotOf(members, x);
    GetSlot(members, x);
    GetSlot(after, x);
    hide Get, SlotOf;
    if x == name {
      SlotUnique(after, x, i);
    } else {
      SlotUnique(after, x, if k < |members| then k else |after|);
    }
  }

  lemma SetDistinct(members: seq<Member>, name: string, v: Value)
    requires Distinct(members)
    ensures Distinct(SetMember(members, name, v))
  {
  }

  lemma SetIsUpdate(members: seq<Member>, name: string, v: Value)
    requires Distinct(members)
    ensures Distinct(SetMember(members, name, v))
    ensures Bindings(SetMember(members, name, v)) == Bindings(members)[name := v]
  {
    SetDistinct(members, name, v);
    hide *;
    var m := Bindings(members)[name := v];
    forall x ensures Get(SetMember(members, name, v), x) == if x in m then Some(m[x]) else None {
      SetGet(members, name, v, x);
      BindingsGet(members, x);
    }
    SameBindings(SetMember(members, name, v), m);
  }

  lemma VacateGets(members: seq<Member>, i: nat, x: string)
    requires Distinct(members) && i < |members|
    ensures Distinct(Vacate(members, i))
    ensures Get(Vacate(members, i), x) == if x == members[i].name then None else Get(members, x)
  {
    var after := Vacate(members, i);
    hide Vacate, Get;
    if Get(members, x).Some? && x != members[i].name {
      var j :| 0 <= j < |members| && members[j] == Member(x, Get(members, x).value);
      var k := if j == |members| - 1 then i else j;
      assert after[k] == members[j];
      GetAt(after, k);
    }
  }

  lemma RemoveIsErase(members: seq<Member>, name: string)
    requires Distinct(members) && SlotOf(members, name) < |members|
    ensures Distinct(RemoveMember(members, name).value)
    ensures Bindings(RemoveMember(members, name).value) == Bindings(members) - {name}
  {
    var i := SlotOf(members, name);
    var after := RemoveMember(members, name).value;
    assert after == Vacate(members, i);
    VacateGets(members, i, name);
    hide Vacate, Get, SlotOf, Distinct, Bindings;
    forall x
      ensures Get(after, x) == if x in Bindings(members) - {name} then Some((Bindings(members) - {name})[x]) else None
    {
      VacateGets(members, i, x);
      BindingsGet(members, x);
    }
    SameBindings(after, Bindings(members) - {name});
  }

  lemma PerformIsMap(members: seq<Member>, op: Operation)
    requires Distinct(members)
    ensures Distinct(Perform(members, op).members)
    ensures (Bindings(Perform(members, op).members), Perform(members, op).ok) == PerformMap(Bindings(members), op)
  {
    hide SetMember, Bindings, Distinct, SlotOf;
    match op
    case Set(name, value, attached) => SetIsUpdate(members, name, value);
    case Add(name, value) =>
      BindingsGet(members, name);
      if SlotOf(members, name) == |members| { AddIsSet(members, name, value); }
      SetIsUpdate(members, name, value);
    case Remove(name) =>
      BindingsGet(members, name);
      if SlotOf(members, name) < |members| { RemoveIsErase(members, name); }
      assert name !in Bindings(members) ==> Bindings(members) - {name} == Bindings(members);
    case Clear => EmptyBindings([]);
    case Trim => EmptyBindings(members);
  }

  lemma AddIsSet(members: seq<Member>, name: string, v: Value)
    requires SlotOf(members, name) == |members|
    ensures AddMember(members, name, v) == Some(SetMember(members, name, v))
  {
  }

  lemma EmptyBindings(members: seq<Member>)
    ensures Bindings(members) == map[] <==> members == []
    ensures Distinct([])
  {
    if members != [] { assert members[0].name in Bindings(members); }
  }

  // Every run leaves distinct names and does what it would do to a finite map, with the
  // same statuses.
  lemma {:induction false} RunIsMap(members: seq<Member>, ops: seq<Operation>)
    requires Distinct(members)
    ensures Distinct(Run(members, ops).members)
    ensures (Bindings(Run(members, ops).members), Run(members, ops).statuses) == RunMap(Bindings(members), ops)
    decreases |ops|
  {
    if ops != [] {
      RunIsMap(members, ops[..|ops| - 1]);
      PerformIsMap(Run(members, ops[..|ops| - 1]).members, ops[|ops| - 1]);
    }
  }

  // ----------------------------------------------------------------- the table

  function Zip(names: seq<string>, values: seq<Value>): (members: seq<Member>)
    requires |names| == |values|
    ensures |members| == |names|
    ensures forall i | 0 <= i < |members| :: members[i] == Member(names[i], values[i])
  {
    seq(|names|, i requires 0 <= i < |names| => Member(names[i], values[i]))
  }

  lemma ZipShort(names: seq<string>, values: seq<Value>)
    requires |names| == |values| > 0
    ensures Zip(names[..|names| - 1], values[..|names| - 1]) == Zip(names, values)[..|names| - 1]
  {
  }

  lemma VacateIs(members: seq<Member>, i: nat)
    requires i < |members|
    ensures Vacate(members, i)
      == (if i == |members| - 1 then members else members[i := members[|members| - 1]])[..|members| - 1]
  {
  }

  // json_object_t: parallel arrays, null until the first name is added.
  class ObjectTable {
    var names: array?<string>
    var values: array?<Value>
    var count: nat
    var capacity: nat
    ghost var Repr: set<object>

    ghost predicate Valid()
      reads this, Repr
    {
      this in Repr
      && (names == null <==> values == null) && (names == null <==> capacity == 0)
      && (names != null ==> names in Repr && values in Repr && names.Length == values.Length == capacity)
      && count <= capacity
      && Distinct(Members())
    }

    function Members(): seq<Member>
      reads this, names, values
    {
      if names == null || values == null || count > names.Length || count > values.Length then []
      else Zip(names[..count], values[..count])
    }

    // json_object_init
    constructor ()
      ensures Valid() && fresh(Repr) && Members() == [] && capacity == 0
    {
      names, values, count, capacity := null, null, 0, 0;
      Repr := {this};
    }

    // The loops over the names, from json_object_getn_value, json_object_set_value and
    // json_object_remove_internal.
    method FindSlot(name: string) returns (i: nat)
      requires Valid()
      ensures i == SlotOf(Members(), name)
    {
      i := 0;
      while i < count
        invariant i <= count
        invariant forall j | 0 <= j < i :: Members()[j].name != name
      {
        assert Members()[i].name == names[i];
        if names[i] == name {
          SlotIs(Members(), i);
          return;
        }
        i := i + 1;
      }
    }

    // json_object_resize
    method Resize(newCapacity: nat) returns (ok: bool)
      requires Valid() && newCapacity >= count
      modifies Repr
      ensures Valid() && fresh(Repr - old(Repr))
      ensures Members() == old(Members()) && count == old(count)
      ensures ok <==> newCapacity != 0
      ensures capacity == if ok then newCapacity else old(capacity)
    {
      if newCapacity == 0 { return false; }
      var newNames := new string[newCapacity];
      var newValues := new Value[newCapacity];
      if names != null && values != null && count > 0 { Copy(newNames, newValues); }
      assert count > 0 ==> Zip(newNames[..count], newValues[..count]) == Members();
      hide Zip, Distinct;
      names, values, capacity := newNames, newValues, newCapacity;
      Repr := Repr + {newNames, newValues};
      assert Members() == old(Members());
      ok := true;
    }

    // memcpy of the slots in use.
    method Copy(newNames: array<string>, newValues: array<Value>)
      requires Valid() && names != null && values != null
      requires count <= newNames.Length && count <= newValues.Length && newNames != names && newValues != values
      modifies newNames, newValues
      ensures newNames[..count] == names[..count] && newValues[..count] == values[..count]
      ensures names[..] == old(names[..]) && values[..] == old(values[..])
    {
      hide Distinct;
      var i := 0;
      while i < count
        invariant i <= count
        invariant newNames[..i] == names[..i] && newValues[..i] == values[..i]
      {
        newNames[i], newValues[i] := names[i], values[i];
        i := i + 1;
      }
    }

    // json_object_addn
    method Add(name: string, value: Value) returns (ok: bool)
      requires Valid()
      modifies Repr
      ensures Valid() && fresh(Repr - old(Repr))
      ensures Effect(Members(), ok) == Perform(old(Members()), Operation.Add(name, value))
      ensures capacity ==
        if ok && old(count) == old(capacity) then Max(2 * old(capacity), 16) else old(capacity)
    {
      var i := FindSlot(name);
      if i < count { return false; }
      hide Zip, Distinct;
      if count >= capacity {
        ok := Resize(Max(capacity * 2, STARTING_CAPACITY));
      }
      Store(name, value);
      ok := true;
    }

    // A new name goes into the first slot that is not in use.
    method Store(name: string, value: Value)
      requires Valid() && count < capacity && SlotOf(Members(), name) == count
      modifies names, values, this`count
      ensures Valid() && Members() == old(Members()) + [Member(name, value)]
    {
      names[count] := name;
      values[count] := value;
      count := count + 1;
      assert Members() == old(Members()) + [Member(name, value)];
      SetDistinct(old(Members()), name, value);
    }

    // json_object_set_value
    method Set(name: string, value: Value, attached: bool) returns (ok: bool)
      requires Valid()
      modifies Repr
      ensures Valid() && fresh(Repr - old(Repr))
      ensures Effect(Members(), ok) == Perform(old(Members()), Operation.Set(name, value, attached))
    {
      if attached { return false; }
      var i := FindSlot(name);
      if i < count {
        Overwrite(i, value);
        ok := true;
      } else {
        ok := Add(name, value);
      }
    }

    method Overwrite(i: nat, value: Value)
      requires Valid() && i < count
      modifies values
      ensures Valid() && Members() == old(Members())[i := Member(old(Members())[i].name, value)]
    {
      ghost var before := Members();
      hide Distinct;
      values[i] := value;
      assert Members() == before[i := Member(before[i].name, value)];
      OverwrittenDistinct(before, i, value);
    }

    // json_object_remove_internal
    method Remove(name: string) returns (ok: bool)
      requires Valid()
      modifies Repr
      ensures Valid() && Repr == old(Repr) && capacity == old(capacity)
      ensures Effect(Members(), ok) == Perform(old(Members()), Operation.Remove(name))
    {
      var i := FindSlot(name);
      if i == count { return false; }
      hide SlotOf, Vacate, Distinct, Zip;
      Drop(i);
      ok := true;
    }

    // The last slot moves into the gap.
    method Drop(i: nat)
      requires Valid() && i < count
      modifies names, values, this`count
      ensures Valid() && Members() == Vacate(old(Members()), i)
    {
      ghost var before := Members();
      hide Distinct, Get, Zip, Vacate;
      VacateGets(before, i, "");
      VacateIs(before, i);
      if i != count - 1 { MoveLast(i); }
      Shorten();
    }

    method Shorten()
      requires names != null && values != null && names in Repr && values in Repr && this in Repr
      requires 0 < count <= names.Length == values.Length == capacity
      requires Distinct(Members()[..|Members()| - 1])
      modifies this`count
      ensures count == old(count) - 1 && Members() == old(Members())[..count] && Valid()
    {
      hide Distinct, Zip;
      ZipShort(names[..count], values[..count]);
      count := count - 1;
      assert names[..count] == names[..count + 1][..count] && values[..count] == values[..count + 1][..count];
    }

    method MoveLast(i: nat)
      requires Valid() && i < count - 1
      modifies names, values
      ensures |Members()| == count && Members() == old(Members())[i := old(Members())[count - 1]]
      ensures names != null && values != null && names == old(names) && values == old(values) && count == old(count)
    {
      hide Distinct;
      ghost var before := Members();
      var last := count - 1;
      names[i] := names[last];
      values[i] := values[last];
      assert Members() == before[i := before[last]];
    }

    // json_object_clear
    method Clear()
      requires Valid()
      modifies Repr
      ensures Valid() && Repr == old(Repr) && Members() == [] && capacity == old(capacity)
    {
      count := 0;
    }

    // json_object_get_value
    method GetValue(name: string) returns (r: Option<Value>)
      requires Valid()
      ensures r == Get(Members(), name)
    {
      var i := FindSlot(name);
      GetSlot(Members(), name);
      if i < count { r := Some(values[i]); } else { r := None; }
    }

    method Do(op: Operation) returns (ok: bool)
      requires Valid()
      modifies Repr
      ensures Valid() && fresh(Repr - old(Repr))
      ensures Effect(Members(), ok) == Perform(old(Members()), op)
    {
      match op
      case Set(name, value, attached) => ok := Set(name, value, attached);
      case Add(name, value) => ok := Add(name, value);
      case Remove(name) => ok := Remove(name);
      case Clear => Clear(); ok := true;
      case Trim => ok := Resize(count);
    }

    // Any sequence of operations, from parsing on.
    method DoAll(ops: seq<Operation>) returns (statuses: seq<bool>)
      requires Valid()
      modifies Repr
      ensures Valid() && fresh(Repr - old(Repr))
      ensures Outcome(Members(), statuses) == Run(old(Members()), ops)
      ensures (Bindings(Members()), statuses) == RunMap(Bindings(old(Members())), ops)
    {
      hide Perform;
      statuses := [];
      assert ops[..0] == [];
      var i := 0;
      while i < |ops|
        invariant i <= |ops| && Valid() && fresh(Repr - old(Repr))
        invariant Outcome(Members(), statuses) == Run(old(Members()), ops[..i])
      {
        var ok := Do(ops[i]);
        assert ops[..i + 1][..i] == ops[..i];
        statuses := statuses + [ok];
        i := i + 1;
      }
      assert ops[..i] == ops;
      RunIsMap(old(Members()), ops);
    }
  }

  lemma OverwrittenDistinct(members: seq<Member>, i: nat, v: Value)
    requires Distinct(members) && i < |members|
    ensures Distinct(members[i := Member(members[i].name, v)])
  {
  }
}
