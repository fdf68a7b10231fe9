/** JSON Merge Patch (RFC 7386 section 2) and update(): the two in-place merges of json.hpp. */
module JsonMerge {
  import opened Results
  import opened JsonValue
  import opened JsonPointer

  function Members(j: Json): map<string, Json> {
    if j.Object? then j.members else map[]
  }

  // The value of a member, null standing for one that is missing.
  function Lookup(m: map<string, Json>, k: string): Json {
    if k in m then m[k] else Null
  }

  // MergePatch of RFC 7386 section 2.
  function Merge(target: Json, patch: Json): Json
    decreases patch
  {
    match patch
    case Object(p) =>
      var t := Members(target);
      Object(map k | k in t.Keys + p.Keys && !(k in p && p[k].Null?) ::
        if k in p then Merge(Lookup(t, k), p[k]) else t[k])
    case _ => patch
  }

  // No member of the value, at any depth of nested objects, is null.
  predicate NoNullMembers(j: Json) {
    j.Object? ==> forall k | k in j.members :: !j.members[k].Null? && NoNullMembers(j.members[k])
  }

  // ----------------------------------------------------------- merge_patch

  // A patch merged into nothing is the patch without its null members.
  lemma {:induction false} MergeIntoNull(patch: Json)
    ensures NoNullMembers(Merge(Null, patch))
    ensures Merge(Null, patch) == patch <==> NoNullMembers(patch)
  {
    if patch.Object? {
      var p, r := patch.members, Merge(Null, patch).members;
      forall k | k in p && !p[k].Null?
        ensures k in r && r[k] == Merge(Null, p[k]) && NoNullMembers(r[k])
        ensures !r[k].Null? && (r[k] == p[k] <==> NoNullMembers(p[k]))
      {
        MergeIntoNull(p[k]);
      }
      if NoNullMembers(patch) {
        assert r == p;
      }
    }
  }

  // Merging the same patch a second time changes nothing.
  lemma {:induction false} MergeIdempotent(target: Json, patch: Json)
    ensures Merge(Merge(target, patch), patch) == Merge(target, patch)
    decreases patch
  {
    if patch.Object? {
      var p, t := patch.members, Members(target);
      var once := Merge(target, patch).members;
      var twice := Merge(Merge(target, patch), patch).members;
      forall k | k in p && !p[k].Null?
        ensures twice[k] == once[k]
      {
        MergeIdempotent(Lookup(t, k), p[k]);
      }
      assert twice == once;
    }
  }

  // ------------------------------------------------------- merge_patch by places

  // A way through members of objects, and of nothing else.
  predicate Leads(j: Json, p: Pointer) {
    p == [] || (j.Object? && p[0] in j.members && Leads(j.members[p[0]], p[1..]))
  }

  // What such a way leads to.
  function Place(j: Json, p: Pointer): Json
    requires Leads(j, p)
  {
    if p == [] then j else Place(j.members[p[0]], p[1..])
  }

  lemma {:induction false} PlaceIsAt(j: Json, p: Pointer)
    requires Leads(j, p)
    ensures At(j, p) == Ok(Place(j, p))
  {
    if p != [] { PlaceIsAt(j.members[p[0]], p[1..]); }
  }

  lemma MergeMember(target: Json, patch: Json, k: string)
    requires patch.Object? && k in patch.members && !patch.members[k].Null?
    ensures var r, t := Merge(target, patch), Lookup(Members(target), k);
      r.Object? && k in r.members && r.members[k] == Merge(t, patch.members[k])
  {
  }

  // Where the patch has a value that is neither an object nor null, the result has it.
  lemma {:induction false} MergeSets(target: Json, patch: Json, p: Pointer)
    requires Leads(patch, p) && !Place(patch, p).Object? && !Place(patch, p).Null?
    ensures At(Merge(target, patch), p) == Ok(Place(patch, p))
    decreases p
  {
    if p != [] {
      MergeMember(target, patch, p[0]);
      MergeSets(Lookup(Members(target), p[0]), patch.members[p[0]], p[1..]);
    }
  }

  // Where the patch has a null member, the result has none.
  lemma {:induction false} MergeRemoves(target: Json, patch: Json, p: Pointer)
    requires p != [] && Leads(patch, p) && Place(patch, p).Null?
    ensures At(Merge(target, patch), p) == Err(OutOfRange)
    decreases p
  {
    var k := p[0];
    if |p| == 1 {
      assert p[1..] == [] && patch.members[k].Null? && k !in Merge(target, patch).members;
    } else {
      assert !patch.members[k].Null?;
      MergeMember(target, patch, k);
      MergeRemoves(Lookup(Members(target), k), patch.members[k], p[1..]);
    }
  }

  // Where an object of the patch lacks a member, the result has what the target has there,
  // if the target has an object there, and nothing otherwise.
  lemma {:induction false} MergeKeeps(target: Json, patch: Json, p: Pointer, k: string, q: Pointer)
    requires Leads(patch, p) && Place(patch, p).Object? && k !in Place(patch, p).members
    ensures At(Merge(target, patch), p + [k] + q)
      == if Leads(target, p) && Place(target, p).Object? then At(target, p + [k] + q) else Err(OutOfRange)
    decreases p
  {
    if p == [] {
      assert p + [k] + q == [k] + q && ([k] + q)[1..] == q;
      assert k in Merge(target, patch).members <==> k in Members(target);
    } else {
      assert (p + [k] + q)[1..] == p[1..] + [k] + q;
      MergeMember(target, patch, p[0]);
      MergeKeeps(Lookup(Members(target), p[0]), patch.members[p[0]], p[1..], k, q);
    }
  }

  // ---------------------------------------------------------------- update

  // Nothing on the way is neither an object nor absent where update() descends.
  predicate Updatable(target: Json, j: Json)
    decreases j
  {
    j.Object? && (target.Object? || target.Null?) &&
    forall k | k in j.members && j.members[k].Object? && k in Members(target) ::
      Updatable(Members(target)[k], j.members[k])
  }

  lemma {:induction false} UpdatableLeads(target: Json, j: Json, p: Pointer)
    requires Updatable(target, j) && Leads(j, p) && Place(j, p).Object? && Leads(target, p)
    ensures Place(target, p).Object? || Place(target, p).Null?
    decreases p
  {
    if p != [] { UpdatableLeads(target.members[p[0]], j.members[p[0]], p[1..]); }
  }

  // Wherever j has an object and the target has a value, that is an object or null.
  ghost predicate Unobstructed(target: Json, j: Json) {
    forall p | Leads(j, p) && Place(j, p).Object? && Leads(target, p) ::
      Place(target, p).Object? || Place(target, p).Null?
  }

  lemma LeadsInto(j: Json, k: string, p: Pointer)
    requires j.Object? && k in j.members
    ensures Leads(j, [k] + p) <==> Leads(j.members[k], p)
    ensures Leads(j.members[k], p) ==> Place(j, [k] + p) == Place(j.members[k], p)
  {
    assert ([k] + p)[1..] == p;
  }

  lemma {:induction false} UnobstructedUpdatable(target: Json, j: Json)
    requires j.Object? && Unobstructed(target, j)
    ensures Updatable(target, j)
    decreases j
  {
    assert Leads(j, []) && Leads(target, []);
    forall k | k in j.members && j.members[k].Object? && k in Members(target)
      ensures Updatable(Members(target)[k], j.members[k])
    {
      forall p | Leads(j.members[k], p) && Place(j.members[k], p).Object? && Leads(target.members[k], p)
        ensures Place(target.members[k], p).Object? || Place(target.members[k], p).Null?
      {
        LeadsInto(j, k, p);
        LeadsInto(target, k, p);
      }
      UnobstructedUpdatable(target.members[k], j.members[k]);
    }
  }

  // update(j, true) goes through exactly if j is an object that nowhere meets a value which
  // is neither an object nor null.
  lemma UpdatableExactly(target: Json, j: Json)
    ensures Updatable(target, j) <==> j.Object? && Unobstructed(target, j)
  {
    if Updatable(target, j) {
      forall p | Leads(j, p) && Place(j, p).Object? && Leads(target, p)
        ensures Place(target, p).Object? || Place(target, p).Null?
      {
        UpdatableLeads(target, j, p);
      }
    }
    if j.Object? && Unobstructed(target, j) { UnobstructedUpdatable(target, j); }
  }

  // The object after update(j, true).
  function Updated(target: Json, j: Json): Json
    requires Updatable(target, j)
    decreases j
  {
    var t, m := Members(target), j.members;
    Object(map k | k in t.Keys + m.Keys ::
      if k in m then (if m[k].Object? && k in t then Updated(t[k], m[k]) else m[k]) else t[k])
  }

  // Where update(j, true) does not throw, it does what merging j as a patch does
  // exactly when no member of j, at any depth of objects, is null.
  lemma {:induction false} UpdateIsMerge(target: Json, j: Json)
    requires Updatable(target, j)
    ensures Updated(target, j) == Merge(target, j) <==> NoNullMembers(j)
    decreases j
  {
    var t, m := Members(target), j.members;
    var u, r := Updated(target, j).members, Merge(target, j).members;
    forall k | k in m && !m[k].Null?
      ensures k in u && k in r && (u[k] == r[k] <==> NoNullMembers(m[k]))
    {
      assert r[k] == Merge(Lookup(t, k), m[k]);
      if k !in t {
        MergeIntoNull(m[k]);
      } else if m[k].Object? {
        assert Updatable(t[k], m[k]);
        UpdateIsMerge(t[k], m[k]);
        assert u[k] == Updated(t[k], m[k]);
      } else {
        assert u[k] == r[k] == m[k];
      }
    }
    assert forall k | k in m && m[k].Null? :: k in u && k !in r;
    if NoNullMembers(j) {
      assert u == r;
    }
  }

  // ------------------------------------------------------ the in-place forms

  // A JSON value that is changed through a reference.
  class Node {
    var value: Json

    constructor (v: Json)
      ensures value == v
    {
      value := v;
    }

    // merge_patch(), visiting the members of the patch in any order.
    method MergePatch(patch: Json)
      modifies this
      ensures value == Merge(old(value), patch)
      decreases patch
    {
      hide Merge, Merged;
      match patch
      case Object(p) =>
        if !value.Object? {
          value := Object(map[]);
        }
        ghost var t := value.members;
        ghost var done := {};
        var todo := p.Keys;
        MergedNone(t, p);
        while todo != {}
          invariant todo + done == p.Keys && todo !! done
          invariant value == Object(Merged(t, p, done))
          decreases |todo|
        {
          var k :| k in todo;
          var m := value.members;
          MergedStep(t, p, done, k);
          if p[k].Null? {
            value := Object(m - {k});
          } else {
            var child := new Node(Lookup(m, k));
            child.MergePatch(p[k]);
            value := Object(m[k := child.value]);
          }
          todo, done := todo - {k}, done + {k};
        }
        MergedAll(old(value), patch);
      case _ =>
        MergeReplaces(value, patch);
        value := patch;
    }

    // update(j, true), visiting the members of j in any order: a type_error is
    // raised exactly where the target cannot be updated, and leaves what has been done
    // until then.
    method Update(j: Json) returns (error: Option<Error>)
      modifies this
      ensures error == if Updatable(old(value), j) then None else Some(TypeError)
      ensures error == None ==> value == Updated(old(value), j)
      ensures error != None ==> Interrupted(old(value), value, j)
      decreases j, 2
    {
      hide Updatable, Updated, UpdatedSome, StoppedAt, Interrupted;
      ghost var before := value;
      if value.Null? {
        value := Object(map[]);
      }
      if !value.Object? || !j.Object? {
        OnlyObjects(before, j);
        NotBegun(before, j);
        return Some(TypeError);
      }
      assert value.members == Members(before);
      error := UpdateMembers(j);
      if error == None {
        UpdatedAll(before, j);
      } else {
        Stopped(before, value, j);
      }
    }

    // Its loop.
    method UpdateMembers(j: Json) returns (error: Option<Error>)
      requires value.Object? && j.Object?
      modifies this
      ensures error == None ==>
        (forall k | k in j.members :: MemberUpdatable(old(value.members), j.members, k))
        && value == Object(UpdatedSome(old(value.members), j.members, j.members.Keys))
      ensures error != None ==>
        error == Some(TypeError) && exists visited, k :: StoppedAt(old(value.members), value, j, visited, k)
      decreases j, 1
    {
      hide MemberUpdatable, UpdatedMember, UpdatedSome, Interrupted;
      ghost var t := value.members;
      ghost var done := {};
      var m, todo := j.members, j.members.Keys;
      UpdatedNone(t, m);
      while todo != {}
        invariant todo + done == m.Keys && todo !! done
        invariant forall k | k in done :: MemberUpdatable(t, m, k)
        invariant value == Object(UpdatedSome(t, m, done))
        decreases |todo|
      {
        var k :| k in todo;
        UpdatedStep(t, m, done, k);
        UpdatedMemberIs(t, m, k);
        error := UpdateMember(k, m[k]);
        if error.Some? {
          assert StoppedAt(t, value, j, done, k);
          return;
        }
        todo, done := todo - {k}, done + {k};
      }
      assert done == m.Keys;
      return None;
    }

    // The body of the loop: descends where both sides have an object, overwrites elsewhere.
    method UpdateMember(k: string, v: Json) returns (error: Option<Error>)
      requires value.Object?
      modifies this
      ensures var before := old(value.members);
        if v.Object? && k in before then
          error == (if Updatable(before[k], v) then None else Some(TypeError))
          && value.Object? && k in value.members && value == Object(before[k := value.members[k]])
          && (if error == None then value.members[k] == Updated(before[k], v)
              else Interrupted(before[k], value.members[k], v))
        else
          error == None && value == Object(before[k := v])
      decreases v, 3
    {
      hide Updatable, Updated, Interrupted;
      error := None;
      if v.Object? && k in value.members {
        var child := new Node(value.members[k]);
        error := child.Update(v);
        value := Object(value.members[k := child.value]);
      } else {
        value := Object(value.members[k := v]);
      }
    }
  }

  // The target's members once the given keys of the patch have been visited.
  ghost function Merged(t: map<string, Json>, p: map<string, Json>, visited: set<string>): map<string, Json>
    requires visited <= p.Keys
  {
    map k | k in t.Keys + visited && !(k in visited && p[k].Null?) ::
      if k in visited then Merge(Lookup(t, k), p[k]) else t[k]
  }

  lemma MergeReplaces(target: Json, patch: Json)
    requires !patch.Object?
    ensures Merge(target, patch) == patch
  {
  }

  lemma MergedNone(t: map<string, Json>, p: map<string, Json>)
    ensures Merged(t, p, {}) == t
  {
  }

  lemma MergedStep(t: map<string, Json>, p: map<string, Json>, visited: set<string>, k: string)
    requires visited <= p.Keys && k in p && k !in visited
    ensures Lookup(Merged(t, p, visited), k) == Lookup(t, k)
    ensures Merged(t, p, visited + {k}) ==
      if p[k].Null? then Merged(t, p, visited) - {k}
      else Merged(t, p, visited)[k := Merge(Lookup(t, k), p[k])]
  {
    hide Merge;
  }

  lemma MergedAll(target: Json, patch: Json)
    requires patch.Object?
    ensures Object(Merged(Members(target), patch.members, patch.members.Keys)) == Merge(target, patch)
  {
    assert Merged(Members(target), patch.members, patch.members.Keys) == Merge(target, patch).members;
  }

  predicate MemberUpdatable(t: map<string, Json>, m: map<string, Json>, k: string) {
    k in m && m[k].Object? && k in t ==> Updatable(t[k], m[k])
  }

  // What update() makes of member k.
  ghost function UpdatedMember(t: map<string, Json>, m: map<string, Json>, k: string): Json
    requires k in m && MemberUpdatable(t, m, k)
  {
    if m[k].Object? && k in t then Updated(t[k], m[k]) else m[k]
  }

  lemma UpdatedMemberIs(t: map<string, Json>, m: map<string, Json>, k: string)
    requires k in m
    ensures MemberUpdatable(t, m, k) <==> (m[k].Object? && k in t ==> Updatable(t[k], m[k]))
    ensures MemberUpdatable(t, m, k) ==>
      UpdatedMember(t, m, k) == if m[k].Object? && k in t then Updated(t[k], m[k]) else m[k]
  {
  }

  // The target's members once the given keys of j have been visited.
  ghost function UpdatedSome(t: map<string, Json>, m: map<string, Json>, visited: set<string>): map<string, Json>
    requires visited <= m.Keys && forall k | k in visited :: MemberUpdatable(t, m, k)
  {
    map k | k in t.Keys + visited :: if k in visited then UpdatedMember(t, m, k) else t[k]
  }

  // What a type_error leaves: some members of j have been visited, and one could not be
  // updated, which is left in the same way.
  ghost predicate Interrupted(before: Json, after: Json, j: Json)
    decreases j, 1
  {
    if !j.Object? || !(before.Object? || before.Null?) then after == if before.Null? then Object(map[]) else before
    else exists visited: set<string>, k: string :: StoppedAt(Members(before), after, j, visited, k)
  }

  // The loop has visited some members and stops at one.
  ghost predicate StoppedAt(t: map<string, Json>, after: Json, j: Json, visited: set<string>, k: string)
    decreases j, 0
  {
    && j.Object? && after.Object? && visited <= j.members.Keys && k in j.members && k !in visited
    && (forall x | x in visited :: MemberUpdatable(t, j.members, x)) && !MemberUpdatable(t, j.members, k)
    && k in t && k in after.members
    && after == Object(UpdatedSome(t, j.members, visited)[k := after.members[k]])
    && Interrupted(t[k], after.members[k], j.members[k])
  }

  lemma Stopped(before: Json, after: Json, j: Json)
    requires j.Object? && (before.Object? || before.Null?)
    requires exists visited: set<string>, k: string :: StoppedAt(Members(before), after, j, visited, k)
    ensures Interrupted(before, after, j) && !Updatable(before, j)
  {
    var visited: set<string>, k: string :| StoppedAt(Members(before), after, j, visited, k);
    hide UpdatedSome, Interrupted;
    MustUpdate(before, j, k);
    InterruptedBy(before, after, j, visited, k);
  }

  lemma InterruptedBy(before: Json, after: Json, j: Json, visited: set<string>, k: string)
    requires j.Object? && (before.Object? || before.Null?)
    requires StoppedAt(Members(before), after, j, visited, k)
    ensures Interrupted(before, after, j)
  {
    hide StoppedAt;
  }

  lemma NotBegun(before: Json, j: Json)
    requires !j.Object? || !(before.Object? || before.Null?)
    ensures Interrupted(before, if before.Null? then Object(map[]) else before, j)
  {
  }

  // Whatever the order, nothing is lost: each member that j does not have keeps its value,
  // each that it has is left as it was or updated, but for one, which is left half-way.
  lemma InterruptedKeeps(before: Json, after: Json, j: Json) returns (half: string)
    requires j.Object? && (before.Object? || before.Null?) && Interrupted(before, after, j)
    ensures after.Object? && Members(before).Keys <= after.members.Keys <= Members(before).Keys + j.members.Keys
    ensures half in j.members && half in Members(before) && !MemberUpdatable(Members(before), j.members, half)
    ensures Interrupted(Members(before)[half], after.members[half], j.members[half])
    ensures forall k | k in after.members && k != half ::
      (k in Members(before) && after.members[k] == Members(before)[k])
      || (k in j.members && MemberUpdatable(Members(before), j.members, k)
          && after.members[k] == UpdatedMember(Members(before), j.members, k))
  {
    hide Updatable, Updated;
    var visited: set<string>, k: string :| StoppedAt(Members(before), after, j, visited, k);
    half := k;
  }

  lemma UpdatedStep(t: map<string, Json>, m: map<string, Json>, visited: set<string>, k: string)
    requires visited <= m.Keys && (forall x | x in visited :: MemberUpdatable(t, m, x)) && k in m && k !in visited
    ensures k in UpdatedSome(t, m, visited) <==> k in t
    ensures k in t ==> UpdatedSome(t, m, visited)[k] == t[k]
    ensures MemberUpdatable(t, m, k) ==>
      UpdatedSome(t, m, visited + {k}) == UpdatedSome(t, m, visited)[k := UpdatedMember(t, m, k)]
  {
    hide Updatable, Updated;
  }

  lemma UpdatedAll(target: Json, j: Json)
    requires j.Object? && (target.Object? || target.Null?)
    requires forall k | k in j.members :: MemberUpdatable(Members(target), j.members, k)
    ensures Updatable(target, j)
    ensures Object(UpdatedSome(Members(target), j.members, j.members.Keys)) == Updated(target, j)
  {
    var t, m := Members(target), j.members;
    forall k | k in m && m[k].Object? && k in t
      ensures Updatable(t[k], m[k])
    {
      assert MemberUpdatable(t, m, k);
    }
    assert UpdatedSome(t, m, m.Keys) == Updated(target, j).members;
  }

  lemma OnlyObjects(target: Json, j: Json)
    ensures Updatable(target, j) ==> j.Object? && (target.Object? || target.Null?)
  {
  }

  lemma UpdatedNone(t: map<string, Json>, m: map<string, Json>)
    ensures UpdatedSome(t, m, {}) == t
  {
  }

  lemma MustUpdate(target: Json, j: Json, k: string)
    requires j.Object? && k in j.members && !MemberUpdatable(Members(target), j.members, k)
    ensures !Updatable(target, j)
  {
  }
}
