/** diff() as a compiler into JSON Patch, proved correct against the interpreter of JsonPatch. */
module JsonDiff {
  import opened Arithmetic
  import opened Results
  import opened JsonValue
  import opened JsonPointer
  import opened JsonPatch
  import KeyOrder

  // -------------------------------------------------------------- the compiler

  // The operations of diff(s, t, path), in order.
  function Diff(s: Json, t: Json, path: string): seq<Edit>
    decreases s, 1, 0
  {
    if Equal(s, t) then []
    else if KindOf(s) != KindOf(t) then [Replace(path, t)]
    else match s
      case Array(x) => DiffItems(s, t, 0, path) + Shrink(|t.items|, |x|, path) + Grow(|x|, t.items, path)
      case Object(m) =>
        DiffMembers(s, t, KeyOrder.SortedKeys(m.Keys), path)
        + AddMembers(m, t.members, KeyOrder.SortedKeys(t.members.Keys), path)
      case _ => [Replace(path, t)]
  }

  // The common elements from index i on.
  function DiffItems(s: Json, t: Json, i: nat, path: string): seq<Edit>
    requires s.Array? && t.Array?
    decreases s, 0, |s.items| - i
  {
    if i >= |s.items| || i >= |t.items| then []
    else Diff(s.items[i], t.items[i], path + "/" + IndexToken(i)) + DiffItems(s, t, i + 1, path)
  }

  // Removals of the elements from lo to hi - 1, last first.
  function Shrink(lo: nat, hi: nat, path: string): seq<Edit>
    decreases hi - lo
  {
    if lo >= hi then [] else Shrink(lo + 1, hi, path) + [Remove(path + "/" + IndexToken(lo))]
  }

  // Appends of the elements from index i on.
  function Grow(i: nat, items: seq<Json>, path: string): seq<Edit>
    decreases |items| - i
  {
    if i >= |items| then [] else [Add(path + "/-", items[i])] + Grow(i + 1, items, path)
  }

  // The operations for the given members of the source.
  function DiffMembers(s: Json, t: Json, keys: seq<string>, path: string): seq<Edit>
    requires s.Object? && t.Object? && forall k | k in keys :: k in s.members
    decreases s, 0, |keys|
  {
    if keys == [] then []
    else
      var at := path + "/" + Escape(keys[0]);
      (if keys[0] in t.members then Diff(s.members[keys[0]], t.members[keys[0]], at) else [Remove(at)])
      + DiffMembers(s, t, keys[1..], path)
  }

  // Additions of those of the given target members that the source lacks.
  function AddMembers(s: map<string, Json>, t: map<string, Json>, keys: seq<string>, path: string): seq<Edit>
    requires forall k | k in keys :: k in t
    decreases |keys|
  {
    if keys == [] then []
    else
      (if keys[0] in s then [] else [Add(path + "/" + Escape(keys[0]), t[keys[0]])])
      + AddMembers(s, t, keys[1..], path)
  }

  // ------------------------------------------------------ what the script does

  // The document the script makes of s: every subtree that equals its counterpart
  // in t stays as it is, every other one becomes that of t.
  function Reconcile(s: Json, t: Json): Json
    decreases s
  {
    if Equal(s, t) then s
    else match (s, t)
      case (Array(x), Array(y)) =>
        Array(seq(|y|, j requires 0 <= j < |y| => if j < |x| then Reconcile(x[j], y[j]) else y[j]))
      case (Object(x), Object(y)) =>
        Object(map k | k in y :: if k in x then Reconcile(x[k], y[k]) else y[k])
      case _ => t
  }

  // It equals t exactly when t equals itself.
  lemma {:induction false} ReconcileEqual(s: Json, t: Json)
    ensures Equal(Reconcile(s, t), t) <==> Comparable(t)
    decreases s, 1
  {
    if Equal(Reconcile(s, t), t) { EqualToComparable(Reconcile(s, t), t); }
    if Comparable(t) && !Equal(s, t) {
      if s.Array? && t.Array? {
        ItemsEqual(s, t);
      } else if s.Object? && t.Object? {
        MembersEqual(s, t);
      } else {
        EqualReflexive(t);
      }
    }
  }

  lemma {:induction false} ItemsEqual(s: Json, t: Json)
    requires s.Array? && t.Array? && !Equal(s, t) && Comparable(t)
    ensures Equal(Reconcile(s, t), t)
    decreases s, 0
  {
    var x, y, r := s.items, t.items, Reconcile(s, t).items;
    forall j | 0 <= j < |y| ensures Comparable(y[j]) && r[j] == if j < |x| then Reconcile(x[j], y[j]) else y[j] {
    }
    hide Reconcile, Comparable;
    forall j | 0 <= j < |y| ensures Equal(r[j], y[j]) {
      if j < |x| { ReconcileEqual(x[j], y[j]); } else { EqualReflexive(y[j]); }
    }
    assert Equal(Array(r), Array(y));
  }

  lemma {:induction false} MembersEqual(s: Json, t: Json)
    requires s.Object? && t.Object? && !Equal(s, t) && Comparable(t)
    ensures Equal(Reconcile(s, t), t)
    decreases s, 0
  {
    var x, y, r := s.members, t.members, Reconcile(s, t).members;
    assert r.Keys == y.Keys;
    forall k | k in y ensures Comparable(y[k]) && r[k] == if k in x then Reconcile(x[k], y[k]) else y[k] {
    }
    hide Reconcile, Comparable;
    forall k | k in y ensures Equal(r[k], y[k]) {
      if k in x { ReconcileEqual(x[k], y[k]); } else { EqualReflexive(y[k]); }
    }
    assert Equal(Object(r), Object(y));
  }

  // At no place of both documents stand two numbers of different kinds that compare equal.
  predicate NoConfusion(s: Json, t: Json)
    decreases s
  {
    match (s, t)
    case (Array(x), Array(y)) => forall i | 0 <= i < |x| && i < |y| :: NoConfusion(x[i], y[i])
    case (Object(x), Object(y)) => forall k | k in x && k in y :: NoConfusion(x[k], y[k])
    case _ => KindOf(s) == KindOf(t) || !Equal(s, t)
  }

  // Documents that compare equal are identical where no numbers are confused.
  lemma {:induction false} EqualIdentical(s: Json, t: Json)
    requires Equal(s, t)
    ensures s == t <==> NoConfusion(s, t)
    decreases s
  {
    if s.Array? {
      forall i | 0 <= i < |s.items| ensures s.items[i] == t.items[i] <==> NoConfusion(s.items[i], t.items[i]) {
        EqualIdentical(s.items[i], t.items[i]);
      }
      if NoConfusion(s, t) { assert s.items == t.items; }
    } else if s.Object? {
      forall k | k in s.members ensures s.members[k] == t.members[k] <==> NoConfusion(s.members[k], t.members[k]) {
        EqualIdentical(s.members[k], t.members[k]);
      }
      if NoConfusion(s, t) { assert s.members == t.members; }
    }
  }

  // The reconciliation is t itself exactly when no numbers are confused.
  lemma {:induction false} ReconcileIdentical(s: Json, t: Json)
    ensures Reconcile(s, t) == t <==> NoConfusion(s, t)
    decreases s
  {
    if Equal(s, t) {
      EqualIdentical(s, t);
    } else if s.Array? && t.Array? {
      ItemsIdentical(s, t);
    } else if s.Object? && t.Object? {
      MembersIdentical(s, t);
    }
  }

  lemma {:induction false} ItemsIdentical(s: Json, t: Json)
    requires s.Array? && t.Array? && !Equal(s, t)
    ensures Reconcile(s, t) == t <==> NoConfusion(s, t)
    decreases s, 0
  {
    var x, y, r := s.items, t.items, Reconcile(s, t).items;
    forall i | 0 <= i < |x| && i < |y| ensures r[i] == y[i] <==> NoConfusion(x[i], y[i]) {
      ReconcileIdentical(x[i], y[i]);
    }
    assert NoConfusion(s, t) <==> forall i | 0 <= i < |x| && i < |y| :: NoConfusion(x[i], y[i]);
    hide Reconcile, NoConfusion, Equal;
    if forall i | 0 <= i < |x| && i < |y| :: NoConfusion(x[i], y[i]) { assert r == y; }
  }

  lemma {:induction false} MembersIdentical(s: Json, t: Json)
    requires s.Object? && t.Object? && !Equal(s, t)
    ensures Reconcile(s, t) == t <==> NoConfusion(s, t)
    decreases s, 0
  {
    var x, y, r := s.members, t.members, Reconcile(s, t).members;
    forall k | k in x && k in y ensures r[k] == y[k] <==> NoConfusion(x[k], y[k]) {
      ReconcileIdentical(x[k], y[k]);
    }
    assert NoConfusion(s, t) <==> forall k | k in x && k in y :: NoConfusion(x[k], y[k]);
    hide Reconcile, NoConfusion, Equal;
    if forall k | k in x && k in y :: NoConfusion(x[k], y[k]) { assert r == y; }
  }

  // ------------------------------------------------------- running the script

  // Runs without an exception and turns exactly the subtree at p into v.
  ghost predicate Turns(doc: Json, edits: seq<Edit>, p: Pointer, v: Json) {
    At(doc, p).Ok? && Run(doc, edits) == Outcome(Put(doc, p, v), None)
  }

  lemma TurnsNothing(doc: Json, p: Pointer, v: Json)
    requires At(doc, p) == Ok(v)
    ensures Turns(doc, [], p, v)
  {
    PutSame(doc, p);
  }

  lemma TurnsThen(doc: Json, a: seq<Edit>, b: seq<Edit>, p: Pointer, v: Json, w: Json)
    requires Turns(doc, a, p, v)
    requires Turns(Put(doc, p, v), b, p, w)
    ensures Turns(doc, a + b, p, w)
  {
    RunConcat(doc, a, b);
    PutPut(doc, p, v, w);
  }

  // A change of a child, seen from the parent.
  lemma TurnsChild(doc: Json, edits: seq<Edit>, p: Pointer, token: string, v: Json)
    requires At(doc, p).Ok? && Turns(doc, edits, p + [token], v)
    ensures At(At(doc, p).value, [token]).Ok?
    ensures Turns(doc, edits, p, Put(At(doc, p).value, [token], v))
  {
    AtConcat(doc, p, [token]);
    PutConcat(doc, p, [token], v);
  }

  // Paths of children are the rendered child pointers.
  lemma ChildPath(p: Pointer, token: string)
    ensures Render(p) + "/" + Escape(token) == Render(p + [token])
    ensures ParsePointer(Render(p) + "/" + Escape(token)) == Ok(p + [token])
  {
    RenderAppend(p, token);
    ParseRender(p + [token]);
  }

  lemma IndexPath(p: Pointer, i: nat)
    ensures Render(p) + "/" + IndexToken(i) == Render(p + [IndexToken(i)])
    ensures ParsePointer(Render(p) + "/" + IndexToken(i)) == Ok(p + [IndexToken(i)])
  {
    EscapePlain(IndexToken(i));
    ChildPath(p, IndexToken(i));
  }

  lemma DashPath(p: Pointer)
    ensures ParsePointer(Render(p) + "/-") == Ok(p + ["-"])
  {
    EscapePlain("-");
    ChildPath(p, "-");
    assert Render(p) + "/" + "-" == Render(p) + "/-";
  }

  lemma RunSingle(doc: Json, e: Edit)
    ensures Run(doc, [e]) == ApplyEdit(doc, e)
  {
    assert [e][1..] == [];
  }

  lemma RemoveChildTurns(doc: Json, p: Pointer, path: string, token: string)
    requires At(doc, p).Ok? && RemoveChild(At(doc, p).value, token).Ok?
    requires ParsePointer(path) == Ok(p + [token])
    ensures Turns(doc, [Remove(path)], p, RemoveChild(At(doc, p).value, token).value)
  {
    RunSingle(doc, Remove(path));
    RemoveIsLocal(doc, p, [], token);
    assert p + [] + [token] == p + [token] && [] + [token] == [token];
  }

  lemma AddChildTurns(doc: Json, p: Pointer, path: string, token: string, v: Json)
    requires At(doc, p).Ok? && AddChild(At(doc, p).value, token, v).Ok?
    requires ParsePointer(path) == Ok(p + [token])
    ensures Turns(doc, [Add(path, v)], p, AddChild(At(doc, p).value, token, v).value)
  {
    RunSingle(doc, Add(path, v));
    AddAtParent(doc, p, token, v);
  }

  // ---- arrays

  // Removing the last element.
  lemma RemoveLastTurns(doc: Json, p: Pointer, items: seq<Json>, lo: nat)
    requires At(doc, p) == Ok(Array(items)) && |items| == lo + 1
    ensures Turns(doc, [Remove(Render(p) + "/" + IndexToken(lo))], p, Array(items[..lo]))
  {
    hide At, Turns, Render, IndexToken, ArrayIndex;
    IndexPath(p, lo);
    ArrayIndexToken(IndexToken(lo), lo);
    RemoveChildTurns(doc, p, Render(p) + "/" + IndexToken(lo), IndexToken(lo));
    assert items[..lo] + items[lo + 1..] == items[..lo];
  }

  lemma {:induction false} ShrinkTurns(doc: Json, p: Pointer, items: seq<Json>, lo: nat)
    requires At(doc, p) == Ok(Array(items)) && lo <= |items|
    ensures Turns(doc, Shrink(lo, |items|, Render(p)), p, Array(items[..lo]))
    decreases |items| - lo
  {
    hide At, Put, Turns, Render, IndexToken;
    if lo == |items| {
      assert items[..lo] == items;
      TurnsNothing(doc, p, Array(items));
    } else {
      ShrinkTurns(doc, p, items, lo + 1);
      var kept := items[..lo + 1];
      AtPut(doc, p, Array(kept));
      RemoveLastTurns(Put(doc, p, Array(kept)), p, kept, lo);
      assert kept[..lo] == items[..lo];
      TurnsThen(doc, Shrink(lo + 1, |items|, Render(p)), [Remove(Render(p) + "/" + IndexToken(lo))], p,
                Array(kept), Array(items[..lo]));
    }
  }

  // Appending an element.
  lemma AppendTurns(doc: Json, p: Pointer, items: seq<Json>, v: Json)
    requires At(doc, p) == Ok(Array(items))
    ensures Turns(doc, [Add(Render(p) + "/-", v)], p, Array(items + [v]))
  {
    hide At, Turns, Render;
    DashPath(p);
    AddChildTurns(doc, p, Render(p) + "/-", "-", v);
  }

  lemma {:induction false} GrowTurns(doc: Json, p: Pointer, items: seq<Json>, i: nat, target: seq<Json>)
    requires At(doc, p) == Ok(Array(items)) && i <= |target|
    ensures Turns(doc, Grow(i, target, Render(p)), p, Array(items + target[i..]))
    decreases |target| - i
  {
    hide At, Put, Turns, Render;
    if i == |target| {
      assert items + target[i..] == items;
      TurnsNothing(doc, p, Array(items));
    } else {
      var more := items + [target[i]];
      AppendTurns(doc, p, items, target[i]);
      AtPut(doc, p, Array(more));
      GrowTurns(Put(doc, p, Array(more)), p, more, i + 1, target);
      assert more + target[i + 1..] == items + target[i..];
      TurnsThen(doc, [Add(Render(p) + "/-", target[i])], Grow(i + 1, target, Render(p)), p,
                Array(more), Array(items + target[i..]));
    }
  }

  lemma AtIndex(doc: Json, p: Pointer, items: seq<Json>, i: nat, v: Json)
    requires At(doc, p) == Ok(Array(items)) && i < |items|
    ensures At(doc, p + [IndexToken(i)]) == Ok(items[i])
    ensures At(Array(items), [IndexToken(i)]).Ok?
    ensures Put(Array(items), [IndexToken(i)], v) == Array(items[i := v])
  {
    ArrayIndexToken(IndexToken(i), i);
    ArrayIndexToken("-", i);
    AtConcat(doc, p, [IndexToken(i)]);
  }

  // The elements once those from index i on that have a counterpart are reconciled.
  function ItemsDone(items: seq<Json>, s: seq<Json>, t: seq<Json>, i: nat): (r: seq<Json>)
    requires |items| == |s|
  {
    seq(|s|, j requires 0 <= j < |s| => if i <= j < |t| then Reconcile(s[j], t[j]) else items[j])
  }

  lemma {:induction false} ItemsTurn(doc: Json, p: Pointer, items: seq<Json>, s: Json, t: Json, i: nat)
    requires s.Array? && t.Array? && At(doc, p) == Ok(Array(items))
    requires |items| == |s.items| && i <= |items| && items[i..] == s.items[i..]
    ensures Turns(doc, DiffItems(s, t, i, Render(p)), p, Array(ItemsDone(items, s.items, t.items, i)))
    decreases s, 0, |s.items| - i
  {
    hide Run, Put, At, Equal, Reconcile, Diff, Turns, Render;
    var done := ItemsDone(items, s.items, t.items, i);
    if i >= |s.items| || i >= |t.items| {
      assert done == items;
      TurnsNothing(doc, p, Array(items));
    } else {
      var a, b, token := s.items[i], t.items[i], IndexToken(i);
      assert items[i] == items[i..][0] == s.items[i..][0] == a;
      IndexPath(p, i);
      AtIndex(doc, p, items, i, Reconcile(a, b));
      DiffTurns(doc, p + [token], a, b);
      TurnsChild(doc, Diff(a, b, Render(p) + "/" + token), p, token, Reconcile(a, b));
      var items' := items[i := Reconcile(a, b)];
      AtPut(doc, p, Array(items'));
      assert items'[i + 1..] == s.items[i + 1..] by {
        assert items'[i + 1..] == items[i..][1..] && s.items[i + 1..] == s.items[i..][1..];
      }
      ItemsTurn(Put(doc, p, Array(items')), p, items', s, t, i + 1);
      assert ItemsDone(items', s.items, t.items, i + 1) == done;
      TurnsThen(doc, Diff(a, b, Render(p) + "/" + token), DiffItems(s, t, i + 1, Render(p)), p,
                Array(items'), Array(done));
    }
  }

  // ---- objects

  lemma AtMember(doc: Json, p: Pointer, m: map<string, Json>, k: string, v: Json)
    requires At(doc, p) == Ok(Object(m)) && k in m
    ensures At(doc, p + [k]) == Ok(m[k])
    ensures At(Object(m), [k]).Ok?
    ensures Put(Object(m), [k], v) == Object(m[k := v])
  {
    AtConcat(doc, p, [k]);
  }

  // The members once the given keys of the source are reconciled or removed.
  function MembersDone(m: map<string, Json>, s: map<string, Json>, t: map<string, Json>, keys: seq<string>)
    : map<string, Json>
    requires forall k | k in keys :: k in s
  {
    map k | k in m && (k in keys ==> k in t) :: if k in keys then Reconcile(s[k], t[k]) else m[k]
  }

  // One member of the source reconciled or removed.
  function MemberDone(m: map<string, Json>, s: map<string, Json>, t: map<string, Json>, k: string)
    : map<string, Json>
    requires k in s
  {
    if k in t then m[k := Reconcile(s[k], t[k])] else m - {k}
  }

  lemma MembersDoneStep(m: map<string, Json>, s: map<string, Json>, t: map<string, Json>, keys: seq<string>)
    requires keys != [] && (forall k | k in keys :: k in s) && keys[0] in m
    ensures MembersDone(MemberDone(m, s, t, keys[0]), s, t, keys[1..]) == MembersDone(m, s, t, keys)
  {
    hide Reconcile;
    assert keys == [keys[0]] + keys[1..];
  }

  ghost predicate Distinct(keys: seq<string>) {
    forall i, j | 0 <= i < j < |keys| :: keys[i] != keys[j]
  }

  lemma {:induction false} MembersTurn(doc: Json, p: Pointer, m: map<string, Json>, s: Json, t: Json, keys: seq<string>)
    requires s.Object? && t.Object? && At(doc, p) == Ok(Object(m)) && Distinct(keys)
    requires forall k | k in keys :: k in s.members && k in m && m[k] == s.members[k]
    ensures Turns(doc, DiffMembers(s, t, keys, Render(p)), p, Object(MembersDone(m, s.members, t.members, keys)))
    decreases s, 0, |keys|
  {
    hide Run, Put, At, Equal, Reconcile, Diff, Turns, Render;
    if keys == [] {
      assert MembersDone(m, s.members, t.members, keys) == m;
      TurnsNothing(doc, p, Object(m));
    } else {
      hide MembersDone;
      var k, rest := keys[0], keys[1..];
      assert keys == [k] + rest && k !in rest;
      var first := MemberTurns(doc, p, m, s, t, k);
      var m' := MemberDone(m, s.members, t.members, k);
      AtPut(doc, p, Object(m'));
      MembersTurn(Put(doc, p, Object(m')), p, m', s, t, rest);
      MembersDoneStep(m, s.members, t.members, keys);
      TurnsThen(doc, first, DiffMembers(s, t, rest, Render(p)), p,
                Object(m'), Object(MembersDone(m, s.members, t.members, keys)));
    }
  }

  // One member of the source.
  lemma MemberTurns(doc: Json, p: Pointer, m: map<string, Json>, s: Json, t: Json, k: string)
      returns (first: seq<Edit>)
    requires s.Object? && t.Object? && At(doc, p) == Ok(Object(m))
    requires k in s.members && k in m && m[k] == s.members[k]
    ensures first == if k in t.members then Diff(s.members[k], t.members[k], Render(p) + "/" + Escape(k))
                     else [Remove(Render(p) + "/" + Escape(k))]
    ensures Turns(doc, first, p, Object(MemberDone(m, s.members, t.members, k)))
    decreases s, 0, 0
  {
    hide Run, Equal, Reconcile, Diff, Turns, Render;
    ChildPath(p, k);
    if k in t.members {
      var a, b := s.members[k], t.members[k];
      AtMember(doc, p, m, k, Reconcile(a, b));
      DiffTurns(doc, p + [k], a, b);
      first := Diff(a, b, Render(p) + "/" + Escape(k));
      TurnsChild(doc, first, p, k, Reconcile(a, b));
    } else {
      RemoveChildTurns(doc, p, Render(p) + "/" + Escape(k), k);
      first := [Remove(Render(p) + "/" + Escape(k))];
    }
  }

  // Those of the given target members that the source lacks.
  function Added(s: map<string, Json>, t: map<string, Json>, keys: seq<string>): map<string, Json>
    requires forall k | k in keys :: k in t
  {
    map k | k in keys && k !in s :: t[k]
  }

  lemma AddedStep(m: map<string, Json>, s: map<string, Json>, t: map<string, Json>, keys: seq<string>)
    requires keys != [] && forall k | k in keys :: k in t
    ensures m + Added(s, t, keys) ==
      (if keys[0] in s then m else m[keys[0] := t[keys[0]]]) + Added(s, t, keys[1..])
  {
    assert keys == [keys[0]] + keys[1..];
  }

  lemma {:induction false} AddMembersTurn(doc: Json, p: Pointer, m: map<string, Json>, s: map<string, Json>,
                                          t: map<string, Json>, keys: seq<string>)
    requires At(doc, p) == Ok(Object(m))
    requires forall k | k in keys :: k in t
    ensures Turns(doc, AddMembers(s, t, keys, Render(p)), p, Object(m + Added(s, t, keys)))
    decreases |keys|
  {
    hide Run, Put, At, Turns, Render;
    if keys == [] {
      assert m + Added(s, t, keys) == m;
      TurnsNothing(doc, p, Object(m));
    } else {
      var k, rest := keys[0], keys[1..];
      AddedStep(m, s, t, keys);
      hide Added;
      if k in s {
        AddMembersTurn(doc, p, m, s, t, rest);
        assert AddMembers(s, t, keys, Render(p)) == [] + AddMembers(s, t, rest, Render(p));
        assert [] + AddMembers(s, t, rest, Render(p)) == AddMembers(s, t, rest, Render(p));
      } else {
        var path, m' := Render(p) + "/" + Escape(k), m[k := t[k]];
        ChildPath(p, k);
        AddChildTurns(doc, p, path, k, t[k]);
        AtPut(doc, p, Object(m'));
        AddMembersTurn(Put(doc, p, Object(m')), p, m', s, t, rest);
        TurnsThen(doc, [Add(path, t[k])], AddMembers(s, t, rest, Render(p)), p,
                  Object(m'), Object(m + Added(s, t, keys)));
      }
    }
  }

  // ---- the whole script

  // Run on any document that holds s at p, the script of diff(s, t, p) raises nothing
  // and turns exactly the subtree at p into the reconciliation of s with t.
  lemma {:induction false} DiffTurns(doc: Json, p: Pointer, s: Json, t: Json)
    requires At(doc, p) == Ok(s)
    ensures Turns(doc, Diff(s, t, Render(p)), p, Reconcile(s, t))
    decreases s, 1, 0
  {
    hide Diff, Reconcile, At, Turns, Render, Equal;
    if Equal(s, t) {
      SameTurns(doc, p, s, t);
    } else if s.Array? && t.Array? {
      ArrayTurns(doc, p, s, t);
    } else if s.Object? && t.Object? {
      ObjectTurns(doc, p, s, t);
    } else {
      LeafTurns(doc, p, s, t);
    }
  }

  lemma SameTurns(doc: Json, p: Pointer, s: Json, t: Json)
    requires At(doc, p) == Ok(s) && Equal(s, t)
    ensures Turns(doc, Diff(s, t, Render(p)), p, Reconcile(s, t))
  {
    hide At, Turns, Render, Equal;
    TurnsNothing(doc, p, s);
  }

  lemma LeafTurns(doc: Json, p: Pointer, s: Json, t: Json)
    requires At(doc, p) == Ok(s) && !Equal(s, t) && !(s.Array? && t.Array?) && !(s.Object? && t.Object?)
    ensures Turns(doc, Diff(s, t, Render(p)), p, Reconcile(s, t))
  {
    assert Diff(s, t, Render(p)) == [Replace(Render(p), t)] && Reconcile(s, t) == t;
    hide At, Render, Equal, Diff, Reconcile, Turns;
    ParseRender(p);
    ReplaceTurns(doc, p, Render(p), t);
  }

  lemma ReplaceTurns(doc: Json, p: Pointer, path: string, v: Json)
    requires At(doc, p).Ok? && ParsePointer(path) == Ok(p)
    ensures Turns(doc, [Replace(path, v)], p, v)
  {
    hide At, Put, ParsePointer;
    RunSingle(doc, Replace(path, v));
    hide Run;
  }

  lemma DiffArray(s: Json, t: Json, path: string)
    requires s.Array? && t.Array? && !Equal(s, t)
    ensures Diff(s, t, path) ==
      DiffItems(s, t, 0, path) + Shrink(Min(|s.items|, |t.items|), |s.items|, path)
      + Grow(Min(|s.items|, |t.items|), t.items, path)
  {
    hide Equal, DiffItems;
  }

  lemma ReconcileItems(s: Json, t: Json)
    requires s.Array? && t.Array? && !Equal(s, t)
    ensures var n := Min(|s.items|, |t.items|);
            Reconcile(s, t) == Array(ItemsDone(s.items, s.items, t.items, 0)[..n] + t.items[n..])
  {
    hide Equal;
    var n := Min(|s.items|, |t.items|);
    assert Reconcile(s, t).items == ItemsDone(s.items, s.items, t.items, 0)[..n] + t.items[n..];
  }

  lemma ArrayTurns(doc: Json, p: Pointer, s: Json, t: Json)
    requires At(doc, p) == Ok(s) && s.Array? && t.Array? && !Equal(s, t)
    ensures Turns(doc, Diff(s, t, Render(p)), p, Reconcile(s, t))
    decreases s, 0, |s.items| + 1
  {
    hide Run, Put, At, Equal, Turns, Render, DiffItems;
    var x, y := s.items, t.items;
    DiffArray(s, t, Render(p));
    hide Diff, Shrink, Grow;
    var done := ItemsDone(x, x, y, 0);
    var kept := done[..Min(|x|, |y|)];
    ItemsTurn(doc, p, x, s, t, 0);
    AtPut(doc, p, Array(done));
    ShrinkTurns(Put(doc, p, Array(done)), p, done, |kept|);
    TurnsThen(doc, DiffItems(s, t, 0, Render(p)), Shrink(|kept|, |x|, Render(p)), p, Array(done), Array(kept));
    AtPut(doc, p, Array(kept));
    GrowTurns(Put(doc, p, Array(kept)), p, kept, Min(|x|, |y|), y);
    ReconcileItems(s, t);
    hide ItemsDone, Reconcile;
    TurnsThen(doc, DiffItems(s, t, 0, Render(p)) + Shrink(|kept|, |x|, Render(p)), Grow(|kept|, y, Render(p)), p,
              Array(kept), Reconcile(s, t));
  }

  lemma ReconcileMembers(s: Json, t: Json, sKeys: seq<string>, tKeys: seq<string>)
    requires s.Object? && t.Object? && !Equal(s, t)
    requires forall k :: k in sKeys <==> k in s.members
    requires forall k :: k in tKeys <==> k in t.members
    ensures Reconcile(s, t) ==
      Object(MembersDone(s.members, s.members, t.members, sKeys) + Added(s.members, t.members, tKeys))
  {
    hide Equal;
    assert MembersDone(s.members, s.members, t.members, sKeys) + Added(s.members, t.members, tKeys)
        == Reconcile(s, t).members;
  }

  lemma ObjectTurns(doc: Json, p: Pointer, s: Json, t: Json)
    requires At(doc, p) == Ok(s) && s.Object? && t.Object? && !Equal(s, t)
    ensures Turns(doc, Diff(s, t, Render(p)), p, Reconcile(s, t))
    decreases s, 0, |KeyOrder.SortedKeys(s.members.Keys)| + 1
  {
    hide Run, Put, At, Equal, Turns, Render, DiffMembers, AddMembers;
    var x, y := s.members, t.members;
    assert Diff(s, t, Render(p)) == DiffMembers(s, t, KeyOrder.SortedKeys(x.Keys), Render(p))
        + AddMembers(x, y, KeyOrder.SortedKeys(y.Keys), Render(p));
    hide Diff, Reconcile;
    var sKeys, tKeys := KeyOrder.SortedKeys(x.Keys), KeyOrder.SortedKeys(y.Keys);
    var kept := MembersDone(x, x, y, sKeys);
    MembersTurn(doc, p, x, s, t, sKeys);
    AtPut(doc, p, Object(kept));
    AddMembersTurn(Put(doc, p, Object(kept)), p, kept, x, y, tKeys);
    ReconcileMembers(s, t, sKeys, tKeys);
    hide Reconcile, Diff, MembersDone, Added;
    TurnsThen(doc, DiffMembers(s, t, sKeys, Render(p)), AddMembers(x, y, tKeys, Render(p)), p,
              Object(kept), Reconcile(s, t));
  }

  // -------------------------------------------------------------- main results

  // Applying diff(s, t) to s raises no exception, for any documents, and the outcome
  // equals t exactly when t holds no NaN and no discarded value.
  lemma PatchOfDiff(s: Json, t: Json)
    ensures var r := RunPatch(s, Array(WriteEdits(Diff(s, t, ""))));
            r.error == None && (Equal(r.doc, t) <==> Comparable(t))
  {
    DiffApplied(s, t);
    ReconcileEqual(s, t);
  }

  lemma DiffApplied(s: Json, t: Json)
    ensures RunPatch(s, Array(WriteEdits(Diff(s, t, "")))) == Outcome(Reconcile(s, t), None)
  {
    hide Diff, Reconcile, Run;
    DiffTurns(s, [], s, t);
    RunWritten(s, Diff(s, t, ""));
    assert Render([]) == "";
  }

  // The outcome is t itself, and not only equal to it, exactly when at no place of both
  // documents two numbers of different kinds compare equal.
  lemma PatchOfDiffIdentical(s: Json, t: Json)
    ensures RunPatch(s, Array(WriteEdits(Diff(s, t, "")))).doc == t <==> NoConfusion(s, t)
  {
    DiffApplied(s, t);
    ReconcileIdentical(s, t);
  }

  // Such numbers are an integer and the unsigned number it wraps to, or an integer and a
  // double: the script leaves them alone.
  lemma ConfusedNumbers()
    ensures Diff(Integer(-1), Unsigned(0xFFFF_FFFF_FFFF_FFFF), "") == []
    ensures Diff(Integer(1), Float(Finite(1.0)), "") == []
  {
    assert RoundToSignificand(1, 1) == 1;
  }

  // Below a pointer p, the script changes nothing that a pointer diverging from p denotes.
  lemma DiffFrame(doc: Json, p: Pointer, s: Json, t: Json, q: Pointer)
    requires At(doc, p) == Ok(s) && Diverge(p, q)
    ensures At(Run(doc, Diff(s, t, Render(p))).doc, q) == At(doc, q)
    ensures At(Run(doc, Diff(s, t, Render(p))).doc, p) == Ok(Reconcile(s, t))
  {
    DiffTurns(doc, p, s, t);
    PutFrame(doc, p, Reconcile(s, t), q);
    AtPut(doc, p, Reconcile(s, t));
  }

  // The script is empty exactly when the documents are equal.
  lemma {:induction false} EmptyScript(s: Json, t: Json, path: string)
    ensures Diff(s, t, path) == [] <==> Equal(s, t)
    decreases s, 2, 0
  {
    if Equal(s, t) {
      hide Equal;
    } else if s.Array? && t.Array? {
      hide Equal, Diff;
      ArrayScript(s, t, path);
    } else if s.Object? && t.Object? {
      hide Equal, Diff;
      ObjectScript(s, t, path);
    } else {
      hide Equal;
    }
  }

  lemma {:induction false} ArrayScript(s: Json, t: Json, path: string)
    requires s.Array? && t.Array? && !Equal(s, t)
    ensures Diff(s, t, path) != []
    decreases s, 1, 0
  {
    var x, y := s.items, t.items;
    assert |x| != |y| || !forall j | 0 <= j < |x| :: Equal(x[j], y[j]);
    hide Equal, DiffItems;
    if |x| == |y| && DiffItems(s, t, 0, path) == [] { NoItemChanges(s, t, 0, path); }
  }

  lemma {:induction false} ObjectScript(s: Json, t: Json, path: string)
    requires s.Object? && t.Object? && !Equal(s, t)
    ensures Diff(s, t, path) != []
    decreases s, 1, 1
  {
    var x, y := s.members, t.members;
    var sKeys, tKeys := KeyOrder.SortedKeys(x.Keys), KeyOrder.SortedKeys(y.Keys);
    hide Equal, DiffMembers, AddMembers;
    if DiffMembers(s, t, sKeys, path) == [] && AddMembers(x, y, tKeys, path) == [] {
      ObjectUnchanged(s, t, sKeys, tKeys, path);
    }
  }

  lemma {:induction false} ObjectUnchanged(s: Json, t: Json, sKeys: seq<string>, tKeys: seq<string>, path: string)
    requires s.Object? && t.Object?
    requires (forall k :: k in sKeys <==> k in s.members) && (forall k :: k in tKeys <==> k in t.members)
    requires DiffMembers(s, t, sKeys, path) == [] && AddMembers(s.members, t.members, tKeys, path) == []
    ensures Equal(s, t)
    decreases s, 1, 0
  {
    NoMemberChanges(s, t, sKeys, path);
    NoMemberAdded(s.members, t.members, tKeys, path);
    hide DiffMembers, AddMembers;
    assert s.members.Keys == t.members.Keys;
  }

  lemma {:induction false} NoItemChanges(s: Json, t: Json, i: nat, path: string)
    requires s.Array? && t.Array? && DiffItems(s, t, i, path) == []
    ensures forall j | i <= j < |s.items| && j < |t.items| :: Equal(s.items[j], t.items[j])
    decreases s, 0, |s.items| - i
  {
    hide Equal, Diff, IndexToken;
    if i < |s.items| && i < |t.items| {
      EmptyScript(s.items[i], t.items[i], path + "/" + IndexToken(i));
      NoItemChanges(s, t, i + 1, path);
    }
  }

  lemma {:induction false} NoMemberChanges(s: Json, t: Json, keys: seq<string>, path: string)
    requires s.Object? && t.Object? && (forall k | k in keys :: k in s.members)
    requires DiffMembers(s, t, keys, path) == []
    ensures forall k | k in keys :: k in t.members && Equal(s.members[k], t.members[k])
    decreases s, 0, |keys|
  {
    hide Equal, Diff, Escape;
    if keys != [] {
      var k := keys[0];
      if k in t.members { EmptyScript(s.members[k], t.members[k], path + "/" + Escape(k)); }
      NoMemberChanges(s, t, keys[1..], path);
      assert keys == [k] + keys[1..];
    }
  }

  lemma {:induction false} NoMemberAdded(s: map<string, Json>, t: map<string, Json>, keys: seq<string>, path: string)
    requires (forall k | k in keys :: k in t) && AddMembers(s, t, keys, path) == []
    ensures forall k | k in keys :: k in s
    decreases |keys|
  {
    if keys != [] {
      NoMemberAdded(s, t, keys[1..], path);
      assert keys == [keys[0]] + keys[1..];
    }
  }

  // ----------------------------------------------------------- the loops of diff

  method ComputeDiff(source: Json, target: Json, path: string) returns (result: Json)
    ensures result == Array(WriteEdits(Diff(source, target, path)))
    decreases source, 2, 0
  {
    if Equal(source, target) {
      return Array([]);
    }
    if KindOf(source) != KindOf(target) {
      return Array([WriteEdit(Replace(path, target))]);
    }
    match source
    case Array(_) =>
      var patch := ComputeArrayDiff(source, target, path);
      return Array(patch);
    case Object(_) =>
      var patch := ComputeObjectDiff(source, target, path);
      return Array(patch);
    case _ =>
      return Array([WriteEdit(Replace(path, target))]);
  }

  method ComputeArrayDiff(source: Json, target: Json, path: string) returns (patch: seq<Json>)
    requires source.Array? && target.Array?
    ensures patch == WriteEdits(DiffItems(source, target, 0, path)
                                + Shrink(|target.items|, |source.items|, path)
                                + Grow(|source.items|, target.items, path))
    decreases source, 1, 0
  {
    hide Equal, DiffItems, WriteEdits, Shrink, Grow;
    var x, y := source.items, target.items;
    var n := Min(|x|, |y|);
    patch := ComputeCommon(source, target, path);
    var removals := ComputeRemovals(n, |x|, path);
    var appends := ComputeAppends(if n < |x| then |x| else n, y, path);
    PastTheEnd(|x|, |y|, y, path);
    WriteConcat(DiffItems(source, target, 0, path), Shrink(|y|, |x|, path));
    WriteConcat(DiffItems(source, target, 0, path) + Shrink(|y|, |x|, path), Grow(|x|, y, path));
    patch := patch + removals + appends;
  }

  // The second and third loops start at the end of the shorter array.
  lemma PastTheEnd(lengthS: nat, lengthT: nat, items: seq<Json>, path: string)
    requires |items| == lengthT
    ensures var n := Min(lengthS, lengthT);
      Shrink(n, lengthS, path) == Shrink(lengthT, lengthS, path)
      && Grow(if n < lengthS then lengthS else n, items, path) == Grow(lengthS, items, path)
  {
  }

  // The loop over the common indices.
  method ComputeCommon(source: Json, target: Json, path: string) returns (patch: seq<Json>)
    requires source.Array? && target.Array?
    ensures patch == WriteEdits(DiffItems(source, target, 0, path))
    decreases source, 0, 0
  {
    hide Equal, Diff, WriteEdits, IndexToken;
    var x, y := source.items, target.items;
    ghost var items := DiffItems(source, target, 0, path);
    ghost var edits: seq<Edit> := [];
    WriteNothing();
    patch := [];
    var i := 0;
    while i < |x| && i < |y|
      invariant i <= |x| && i <= |y|
      invariant patch == WriteEdits(edits) && edits + DiffItems(source, target, i, path) == items
    {
      var at := path + "/" + IndexToken(i);
      var sub := ComputeDiff(x[i], y[i], at);
      WriteConcat(edits, Diff(x[i], y[i], at));
      Regroup(edits, Diff(x[i], y[i], at), DiffItems(source, target, i + 1, path));
      patch := patch + sub.items;
      edits := edits + Diff(x[i], y[i], at);
      i := i + 1;
    }
    assert edits == items;
  }

  // The loop over the further elements of the target.
  method ComputeAppends(start: nat, y: seq<Json>, path: string) returns (patch: seq<Json>)
    ensures patch == WriteEdits(Grow(start, y, path))
  {
    hide WriteEdits, WriteEdit;
    ghost var edits: seq<Edit> := [];
    ghost var all := Grow(start, y, path);
    WriteNothing();
    patch := [];
    var i := start;
    while i < |y|
      invariant patch == WriteEdits(edits) && edits + Grow(i, y, path) == all
    {
      var append := Add(path + "/-", y[i]);
      WriteConcat(edits, [append]);
      WriteSingle(append);
      Regroup(edits, [append], Grow(i + 1, y, path));
      patch := patch + [WriteEdit(append)];
      edits := edits + [append];
      i := i + 1;
    }
    assert edits == all;
  }

  // Each removal is inserted before the earlier ones, so that the indices stay valid.
  method ComputeRemovals(lo: nat, hi: nat, path: string) returns (patch: seq<Json>)
    requires lo <= hi
    ensures patch == WriteEdits(Shrink(lo, hi, path))
  {
    patch := [];
    var i := lo;
    while i < hi
      invariant lo <= i <= hi
      invariant patch == WriteEdits(Descending(lo, i, path))
    {
      var removal := Remove(path + "/" + IndexToken(i));
      WriteConcat([removal], Descending(lo, i, path));
      WriteSingle(removal);
      patch := [WriteEdit(removal)] + patch;
      i := i + 1;
    }
    DescendingIsShrink(lo, hi, path);
  }

  method ComputeObjectDiff(source: Json, target: Json, path: string) returns (patch: seq<Json>)
    requires source.Object? && target.Object?
    ensures patch == WriteEdits(
      DiffMembers(source, target, KeyOrder.SortedKeys(source.members.Keys), path)
      + AddMembers(source.members, target.members, KeyOrder.SortedKeys(target.members.Keys), path))
    decreases source, 1, 0
  {
    hide Equal, Diff, WriteEdits, WriteEdit, Escape, DiffMembers, AddMembers;
    var m, t := source.members, target.members;
    ghost var done := DiffMembers(source, target, KeyOrder.SortedKeys(m.Keys), path);
    patch := ComputeMembers(source, target, path);
    var additions := ComputeAdditions(m, t, path);
    WriteConcat(done, AddMembers(m, t, KeyOrder.SortedKeys(t.Keys), path));
    patch := patch + additions;
  }

  // What the first pass writes for a member of the source.
  function MemberStep(s: Json, t: Json, k: string, path: string): seq<Edit>
    requires s.Object? && t.Object? && k in s.members
  {
    var at := path + "/" + Escape(k);
    if k in t.members then Diff(s.members[k], t.members[k], at) else [Remove(at)]
  }

  // The first pass, over the source's members.
  method ComputeMembers(source: Json, target: Json, path: string) returns (patch: seq<Json>)
    requires source.Object? && target.Object?
    ensures patch == WriteEdits(DiffMembers(source, target, KeyOrder.SortedKeys(source.members.Keys), path))
    decreases source, 0, 1
  {
    hide WriteEdits, DiffMembers, MemberStep;
    var keys := KeyOrder.SortedKeys(source.members.Keys);
    ghost var edits: seq<Edit> := [];
    WriteNothing();
    patch := [];
    var i := 0;
    while i < |keys|
      invariant i <= |keys| && patch == WriteEdits(edits)
      invariant edits + DiffMembers(source, target, keys[i..], path) == DiffMembers(source, target, keys, path)
    {
      var sub := ComputeMember(source, target, keys[i], path);
      ghost var step := MemberStep(source, target, keys[i], path);
      DiffMembersFrom(source, target, keys, i, path);
      WriteConcat(edits, step);
      Regroup(edits, step, DiffMembers(source, target, keys[i + 1..], path));
      patch := patch + sub;
      edits := edits + step;
      i := i + 1;
    }
    DiffMembersEnd(source, target, path);
    assert keys[i..] == [];
    assert edits == DiffMembers(source, target, keys, path);
  }

  method ComputeMember(source: Json, target: Json, k: string, path: string) returns (patch: seq<Json>)
    requires source.Object? && target.Object? && k in source.members
    ensures patch == WriteEdits(MemberStep(source, target, k, path))
    decreases source, 0, 0
  {
    hide Diff, WriteEdits, WriteEdit, Escape;
    var m, t, at := source.members, target.members, path + "/" + Escape(k);
    if k in t {
      var sub := ComputeDiff(m[k], t[k], at);
      patch := sub.items;
    } else {
      WriteSingle(Remove(at));
      patch := [WriteEdit(Remove(at))];
    }
  }

  // The second pass over the target's members.
  method ComputeAdditions(m: map<string, Json>, t: map<string, Json>, path: string) returns (patch: seq<Json>)
    ensures patch == WriteEdits(AddMembers(m, t, KeyOrder.SortedKeys(t.Keys), path))
  {
    hide *;
    var keys := KeyOrder.SortedKeys(t.Keys);
    ghost var edits: seq<Edit> := [];
    WriteNothing();
    patch := [];
    var i := 0;
    while i < |keys|
      invariant i <= |keys| && patch == WriteEdits(edits)
      invariant edits + AddMembers(m, t, keys[i..], path) == AddMembers(m, t, keys, path)
    {
      AddMembersFrom(m, t, keys, i, path);
      if keys[i] !in m {
        var addition := Add(path + "/" + Escape(keys[i]), t[keys[i]]);
        WriteSingle(addition);
        WriteConcat(edits, [addition]);
        Regroup(edits, [addition], AddMembers(m, t, keys[i + 1..], path));
        patch := patch + [WriteEdit(addition)];
        edits := edits + [addition];
      }
      i := i + 1;
    }
    AddMembersEnd(m, t, path);
    assert keys[i..] == [];
    assert edits == AddMembers(m, t, keys, path);
  }

  lemma DiffMembersFrom(s: Json, t: Json, keys: seq<string>, i: nat, path: string)
    requires s.Object? && t.Object? && (forall k | k in keys :: k in s.members) && i < |keys|
    ensures DiffMembers(s, t, keys[i..], path)
      == MemberStep(s, t, keys[i], path) + DiffMembers(s, t, keys[i + 1..], path)
  {
    hide Diff;
    assert keys[i..][1..] == keys[i + 1..];
  }

  lemma DiffMembersEnd(s: Json, t: Json, path: string)
    requires s.Object? && t.Object?
    ensures DiffMembers(s, t, [], path) == []
  {
  }

  lemma AddMembersFrom(s: map<string, Json>, t: map<string, Json>, keys: seq<string>, i: nat, path: string)
    requires (forall k | k in keys :: k in t) && i < |keys|
    ensures keys[i] in s ==> AddMembers(s, t, keys[i..], path) == AddMembers(s, t, keys[i + 1..], path)
    ensures keys[i] !in s ==>
      AddMembers(s, t, keys[i..], path)
      == [Add(path + "/" + Escape(keys[i]), t[keys[i]])] + AddMembers(s, t, keys[i + 1..], path)
  {
    assert keys[i..][1..] == keys[i + 1..];
  }

  lemma AddMembersEnd(s: map<string, Json>, t: map<string, Json>, path: string)
    ensures AddMembers(s, t, [], path) == []
  {
  }

  lemma Regroup(a: seq<Edit>, b: seq<Edit>, c: seq<Edit>)
    ensures a + (b + c) == a + b + c
  {
  }

  lemma WriteNothing()
    ensures WriteEdits([]) == []
  {
  }

  lemma WriteSingle(e: Edit)
    ensures WriteEdits([e]) == [WriteEdit(e)]
  {
  }

  lemma WriteConcat(a: seq<Edit>, b: seq<Edit>)
    ensures WriteEdits(a + b) == WriteEdits(a) + WriteEdits(b)
  {
  }

  // What inserting each removal before the earlier ones builds.
  ghost function Descending(lo: nat, hi: nat, path: string): seq<Edit>
    requires lo <= hi
    decreases hi
  {
    if lo == hi then [] else [Remove(path + "/" + IndexToken(hi - 1))] + Descending(lo, hi - 1, path)
  }

  lemma {:induction false} DescendingIsShrink(lo: nat, hi: nat, path: string)
    requires lo <= hi
    ensures Descending(lo, hi, path) == Shrink(lo, hi, path)
    decreases hi - lo
  {
    if lo < hi {
      DescendingSplit(lo, hi, path);
      DescendingIsShrink(lo + 1, hi, path);
    }
  }

  lemma {:induction false} DescendingSplit(lo: nat, hi: nat, path: string)
    requires lo < hi
    ensures Descending(lo, hi, path) == Descending(lo + 1, hi, path) + [Remove(path + "/" + IndexToken(lo))]
    decreases hi
  {
    if lo + 1 < hi {
      DescendingSplit(lo, hi - 1, path);
    }
  }
}
