/** What each operation of a patch does, in terms of what pointers denote before and after (RFC 6902 section 4). */
module JsonPatchLaws {
  import opened Results
  import opened JsonValue
  import opened JsonPointer
  import opened JsonPatch

  // ---------------------------------------------------------------- reading

  // The object has these members, and perhaps others.
  predicate Has(m: map<string, Json>, members: map<string, Json>) {
    forall k | k in members :: k in m && m[k] == members[k]
  }

  predicate HasMember(m: map<string, Json>, k: string, v: Json) { k in m && m[k] == v }

  lemma HasTwo(m: map<string, Json>, k: string, v: Json, l: string, w: Json)
    requires k != l
    ensures Has(m, map[k := v, l := w]) <==> HasMember(m, k, v) && HasMember(m, l, w)
  {
    var members := map[k := v, l := w];
    assert k in members && l in members;
  }

  lemma HasThree(m: map<string, Json>, k: string, v: Json, l: string, w: Json, n: string, x: Json)
    requires k != l && l != n && k != n
    ensures Has(m, map[k := v, l := w, n := x]) <==> HasMember(m, k, v) && HasMember(m, l, w) && HasMember(m, n, x)
  {
    var members := map[k := v, l := w, n := x];
    assert k in members && l in members && n in members;
  }

  lemma HasWritten(m: map<string, Json>, e: Edit)
    ensures Has(m, WriteEdit(e).members) <==>
      HasMember(m, "path", String(e.path))
      && match e
         case Add(_, v) => HasMember(m, "op", String("add")) && HasMember(m, "value", v)
         case Remove(_) => HasMember(m, "op", String("remove"))
         case Replace(_, v) => HasMember(m, "op", String("replace")) && HasMember(m, "value", v)
         case Move(_, f) => HasMember(m, "op", String("move")) && HasMember(m, "from", String(f))
         case Copy(_, f) => HasMember(m, "op", String("copy")) && HasMember(m, "from", String(f))
         case Test(_, v) => HasMember(m, "op", String("test")) && HasMember(m, "value", v)
  {
    assert |"op"| == 2 && |"path"| == 4 && |"from"| == 4 && |"value"| == 5 && "path"[0] != "from"[0];
    hide Has, HasMember;
    match e
    case Add(p, v) => HasThree(m, "op", String("add"), "path", String(p), "value", v);
    case Remove(p) => HasTwo(m, "op", String("remove"), "path", String(p));
    case Replace(p, v) => HasThree(m, "op", String("replace"), "path", String(p), "value", v);
    case Move(p, f) => HasThree(m, "op", String("move"), "path", String(p), "from", String(f));
    case Copy(p, f) => HasThree(m, "op", String("copy"), "path", String(p), "from", String(f));
    case Test(p, v) => HasThree(m, "op", String("test"), "path", String(p), "value", v);
  }

  lemma Misread(val: Json)
    ensures ReadEdit(val).Err? ==> ReadEdit(val).error == ParseError
  {
  }

  lemma OperationNames()
    ensures |"add"| == 3 && |"remove"| == 6 && |"replace"| == 7 && |"move"| == |"copy"| == |"test"| == 4
    ensures "move"[0] != "copy"[0] && "test"[0] != "copy"[0] && "test"[0] != "move"[0]
  {
  }

  lemma ReadFrom(m: map<string, Json>, e: Edit)
    requires HasMember(m, "op", String("add")) || HasMember(m, "op", String("remove"))
      || HasMember(m, "op", String("replace")) || HasMember(m, "op", String("move"))
      || HasMember(m, "op", String("copy")) || HasMember(m, "op", String("test"))
    ensures ReadEdit(Object(m)) == Ok(e) <==> Has(m, WriteEdit(e).members)
  {
    OperationNames();
    HasWritten(m, e);
    hide Has, WriteEdit;
  }

  // An object is read as an operation exactly if it has all members of the written form of
  // the operation, whatever else it has. Anything else is a parse_error.
  lemma ReadExactly(val: Json, e: Edit)
    ensures ReadEdit(val) == Ok(e) <==> val.Object? && Has(val.members, WriteEdit(e).members)
    ensures ReadEdit(val).Err? ==> ReadEdit(val).error == ParseError
  {
    Misread(val);
    if val.Object? {
      HasWritten(val.members, e);
      hide Has, WriteEdit;
      if ReadEdit(val) == Ok(e) || Has(val.members, WriteEdit(e).members) { ReadFrom(val.members, e); }
    }
  }

  // A patch that is no array is a parse_error. In an array, what is no operation stops the
  // run with a parse_error, after the operations before it and whatever follows.
  lemma {:induction false} MisreadStops(doc: Json, edits: seq<Edit>, bad: Json, more: seq<Json>)
    requires ReadEdit(bad).Err?
    ensures forall patch: Json | !patch.Array? :: RunPatch(doc, patch) == Outcome(doc, Some(ParseError))
    ensures RunPatch(doc, Array(WriteEdits(edits) + [bad] + more))
      == if Run(doc, edits).error.Some? then Run(doc, edits) else Outcome(Run(doc, edits).doc, Some(ParseError))
    decreases |edits|
  {
    var vals := WriteEdits(edits) + [bad] + more;
    Misread(bad);
    hide ReadEdit, ApplyEdit;
    if edits == [] {
      assert vals[0] == bad;
    } else {
      var first := ApplyEdit(doc, edits[0]);
      ReadWrite(edits[0]);
      assert vals[0] == WriteEdit(edits[0]);
      assert WriteEdits(edits)[1..] == WriteEdits(edits[1..]);
      assert vals[1..] == WriteEdits(edits[1..]) + [bad] + more;
      MisreadStops(first.doc, edits[1..], bad, more);
    }
  }

  // The pointer to an item of the array at p.
  function Item(p: Pointer, i: nat): Pointer { p + [IndexToken(i)] }

  lemma AtBelow(doc: Json, p: Pointer, c: Json, token: string)
    requires At(doc, p).Ok?
    ensures At(Put(doc, p, c), p + [token]) == At(c, [token])
    ensures At(doc, p + [token]) == At(At(doc, p).value, [token])
  {
    AtPut(doc, p, c);
    AtConcat(Put(doc, p, c), p, [token]);
    AtConcat(doc, p, [token]);
  }

  lemma ItemAt(items: seq<Json>, i: nat)
    ensures At(Array(items), [IndexToken(i)]) == if i < |items| then Ok(items[i]) else Err(OutOfRange)
  {
    ArrayIndexToken(IndexToken(i), i);
    assert IsDigit(IndexToken(i)[0]);
    assert [IndexToken(i)][1..] == [];
  }

  function Nth(items: seq<Json>, i: nat): Result<Json, Error> {
    if i < |items| then Ok(items[i]) else Err(OutOfRange)
  }

  // The pointers to the items of p denote these values, and those further on none.
  ghost predicate Shows(doc: Json, p: Pointer, items: seq<Json>) {
    forall i: nat :: At(doc, Item(p, i)) == Nth(items, i)
  }

  lemma AllItems(doc: Json, p: Pointer)
    requires At(doc, p).Ok? && At(doc, p).value.Array?
    ensures Shows(doc, p, At(doc, p).value.items)
  {
    var items := At(doc, p).value.items;
    hide IndexToken, At;
    forall i: nat ensures At(doc, Item(p, i)) == Nth(items, i) {
      AtConcat(doc, p, [IndexToken(i)]);
      ItemAt(items, i);
    }
  }

  lemma ShownAt(doc: Json, p: Pointer, items: seq<Json>, i: nat)
    requires Shows(doc, p, items)
    ensures At(doc, Item(p, i)) == if i < |items| then Ok(items[i]) else Err(OutOfRange)
  {
    hide At, Item;
    assert At(doc, Item(p, i)) == Nth(items, i);
  }

  lemma EditAt(doc: Json, ptr: Pointer)
    ensures ParsePointer(Render(ptr)) == Ok(ptr)
    ensures forall v :: ApplyEdit(doc, Add(Render(ptr), v)) == Settle(doc, AddAt(doc, ptr, v))
    ensures ApplyEdit(doc, Remove(Render(ptr))) == Settle(doc, RemoveAt(doc, ptr))
  {
    ParseRender(ptr);
    hide Render, ParsePointer, AddAt, RemoveAt;
  }

  // --------------------------------------------------------------------- add

  // The array at p has the value as a new item i, with the later items one place further on.
  ghost predicate Inserted(before: Json, after: Json, p: Pointer, i: nat, n: nat, v: Json) {
    At(after, Item(p, i)) == Ok(v)
    && (forall j | 0 <= j < i :: At(after, Item(p, j)) == At(before, Item(p, j)))
    && (forall j | i <= j < n :: At(after, Item(p, j + 1)) == At(before, Item(p, j)))
    && At(after, Item(p, n + 1)) == Err(OutOfRange)
  }

  // Pointers that do not lead through p denote what they did.
  ghost predicate Kept(before: Json, after: Json, p: Pointer) {
    forall q | Diverge(p, q) :: At(after, q) == At(before, q)
  }

  lemma PutKeeps(doc: Json, p: Pointer, c: Json)
    requires At(doc, p).Ok?
    ensures Kept(doc, Put(doc, p, c), p)
  {
    hide At, Put, Diverge;
    forall q | Diverge(p, q) ensures At(Put(doc, p, c), q) == At(doc, q) {
      PutFrame(doc, p, c, q);
    }
  }

  lemma InsertedShown(before: Json, after: Json, p: Pointer, items: seq<Json>, i: nat, v: Json)
    requires i <= |items| && Shows(before, p, items) && Shows(after, p, items[..i] + [v] + items[i..])
    ensures Inserted(before, after, p, i, |items|, v)
  {
    hide Shows, At, Item;
    var n, changed := |items|, items[..i] + [v] + items[i..];
    ShownAt(after, p, changed, i);
    ShownAt(after, p, changed, n + 1);
    forall j | 0 <= j < i ensures At(after, Item(p, j)) == At(before, Item(p, j)) {
      ShownAt(before, p, items, j);
      ShownAt(after, p, changed, j);
    }
    forall j | i <= j < n ensures At(after, Item(p, j + 1)) == At(before, Item(p, j)) {
      ShownAt(before, p, items, j);
      ShownAt(after, p, changed, j + 1);
    }
  }

  lemma InsertedItems(doc: Json, p: Pointer, i: nat, v: Json)
    requires At(doc, p).Ok? && At(doc, p).value.Array? && i <= |At(doc, p).value.items|
    ensures var items := At(doc, p).value.items;
      var after := Put(doc, p, Array(items[..i] + [v] + items[i..]));
      Inserted(doc, after, p, i, |items|, v) && Kept(doc, after, p)
  {
    hide *;
    var items := At(doc, p).value.items;
    var changed := items[..i] + [v] + items[i..];
    AtPut(doc, p, Array(changed));
    AllItems(doc, p);
    AllItems(Put(doc, p, Array(changed)), p);
    InsertedShown(doc, Put(doc, p, Array(changed)), p, items, i, v);
    PutKeeps(doc, p, Array(changed));
  }

  lemma AddAtIndex(doc: Json, p: Pointer, i: nat, v: Json)
    requires At(doc, p).Ok? && At(doc, p).value.Array?
    ensures var n, after := |At(doc, p).value.items|, ApplyEdit(doc, Add(Render(Item(p, i)), v));
      (i <= n ==> after.error == None && Inserted(doc, after.doc, p, i, n, v) && Kept(doc, after.doc, p))
      && (i > n ==> after == Outcome(doc, Some(OutOfRange)))
  {
    var items := At(doc, p).value.items;
    AddIndex(items, i, v);
    hide *;
    if i <= |items| { InsertedItems(doc, p, i, v); }
    AddBelow(doc, p, IndexToken(i), v, AddChild(Array(items), IndexToken(i), v));
    assert Item(p, i) == p + [IndexToken(i)] by { ItemIs(p, i); }
  }

  lemma ItemIs(p: Pointer, i: nat)
    ensures Item(p, i) == p + [IndexToken(i)]
  {
  }

  lemma AddIndex(items: seq<Json>, i: nat, v: Json)
    ensures AddChild(Array(items), IndexToken(i), v)
      == if i <= |items| then Ok(Array(items[..i] + [v] + items[i..])) else Err(OutOfRange)
  {
    ArrayIndexToken(IndexToken(i), i);
    assert IsDigit(IndexToken(i)[0]);
  }

  lemma AddBelow(doc: Json, p: Pointer, token: string, v: Json, r: Result<Json, Error>)
    requires At(doc, p).Ok? && r == AddChild(At(doc, p).value, token, v)
    ensures ApplyEdit(doc, Add(Render(p + [token]), v))
      == if r.Ok? then Outcome(Put(doc, p, r.value), None) else Outcome(doc, Some(r.error))
  {
    hide At, Put, Render, ApplyEdit, AddAt, AddChild;
    EditAt(doc, p + [token]);
    AddAtParent(doc, p, token, v);
  }

  lemma AddAtEnd(doc: Json, p: Pointer, v: Json)
    requires At(doc, p).Ok? && At(doc, p).value.Array?
    ensures var n, after := |At(doc, p).value.items|, ApplyEdit(doc, Add(Render(p + ["-"]), v));
      after.error == None && Inserted(doc, after.doc, p, n, n, v) && Kept(doc, after.doc, p)
  {
    var items := At(doc, p).value.items;
    var n := |items|;
    assert items[..n] + [v] + items[n..] == items + [v];
    assert AddChild(Array(items), "-", v) == Ok(Array(items + [v]));
    hide *;
    InsertedItems(doc, p, n, v);
    AddBelow(doc, p, "-", v, Ok(Array(items + [v])));
  }

  ghost predicate NoIndex(token: string) { forall i: nat :: token != IndexToken(i) }

  lemma NoIndexFails(token: string)
    requires NoIndex(token)
    ensures ArrayIndex(token).Err?
  {
    hide ArrayIndex, IndexToken;
    if ArrayIndex(token).Ok? {
      ArrayIndexToken(token, ArrayIndex(token).value);
    }
  }

  // Adding at an index of an array inserts there; adding at "-" appends. Beyond the end
  // of the array, and at any other token, nothing changes and an exception is raised.
  lemma AddAtItem(doc: Json, p: Pointer, token: string, v: Json)
    requires At(doc, p).Ok? && At(doc, p).value.Array?
    ensures var n, after := |At(doc, p).value.items|, ApplyEdit(doc, Add(Render(p + [token]), v));
      (token == "-" ==>
        after.error == None && Inserted(doc, after.doc, p, n, n, v) && Kept(doc, after.doc, p))
      && (forall i: nat | token == IndexToken(i) && i <= n ::
        after.error == None && Inserted(doc, after.doc, p, i, n, v) && Kept(doc, after.doc, p))
      && (forall i: nat | token == IndexToken(i) && i > n :: after == Outcome(doc, Some(OutOfRange)))
      && (token != "-" && NoIndex(token) ==> after.error.Some? && after.doc == doc)
  {
    hide *;
    if token == "-" { AddAtEnd(doc, p, v); }
    forall i: nat | token == IndexToken(i) ensures
        var n, after := |At(doc, p).value.items|, ApplyEdit(doc, Add(Render(p + [token]), v));
        (i <= n ==> after.error == None && Inserted(doc, after.doc, p, i, n, v) && Kept(doc, after.doc, p))
        && (i > n ==> after == Outcome(doc, Some(OutOfRange)))
    {
      ItemIs(p, i);
      AddAtIndex(doc, p, i, v);
    }
    if token != "-" && NoIndex(token) { AddAtNothing(doc, p, token, v); }
  }

  lemma AddAtNothing(doc: Json, p: Pointer, token: string, v: Json)
    requires At(doc, p).Ok? && At(doc, p).value.Array? && token != "-" && NoIndex(token)
    ensures var after := ApplyEdit(doc, Add(Render(p + [token]), v)); after.error.Some? && after.doc == doc
  {
    hide At, Put, Render, ApplyEdit, NoIndex, ArrayIndex;
    NoIndexFails(token);
    AddBelow(doc, p, token, v, AddChild(At(doc, p).value, token, v));
  }

  lemma MemberAt(j: Json, key: string)
    ensures j.Null? ==> At(j, [key]) == Err(OutOfRange)
    ensures j.Object? ==> At(j, [key]) == if key in j.members then Ok(j.members[key]) else Err(OutOfRange)
  {
    assert [key][1..] == [];
  }

  // Adding a member sets it and leaves the others; a null becomes an object with the member.
  lemma AddMember(doc: Json, p: Pointer, key: string, v: Json)
    requires At(doc, p).Ok? && (At(doc, p).value.Object? || At(doc, p).value.Null?)
    ensures var after := ApplyEdit(doc, Add(Render(p + [key]), v));
      after.error == None && At(after.doc, p + [key]) == Ok(v) && Kept(doc, after.doc, p)
      && forall k: string | k != key :: At(after.doc, p + [k]) == At(doc, p + [k])
  {
    var parent := At(doc, p).value;
    var changed := AddChild(parent, key, v).value;
    hide At, Put, Render, ApplyEdit, AddAt, Kept;
    AddBelow(doc, p, key, v, Ok(changed));
    PutKeeps(doc, p, changed);
    forall k: string ensures At(Put(doc, p, changed), p + [k]) == if k == key then Ok(v) else At(doc, p + [k]) {
      AtBelow(doc, p, changed, k);
      MemberAt(parent, k);
      MemberAt(changed, k);
    }
  }

  // Nothing can be added below a place that does not exist, nor below a text, a number and the like.
  lemma AddElsewhere(doc: Json, p: Pointer, token: string, v: Json)
    requires At(doc, p).Ok? ==> var parent := At(doc, p).value; !parent.Null? && !parent.Object? && !parent.Array?
    ensures ApplyEdit(doc, Add(Render(p + [token]), v))
         == Outcome(doc, Some(if At(doc, p).Err? then At(doc, p).error else AssertionFailure))
  {
    EditAt(doc, p + [token]);
    AddAtParent(doc, p, token, v);
    hide At, Put, Render, ApplyEdit, AddAt;
  }

  // The place behind the last item, which denotes nothing.
  predicate IsEnd(doc: Json, ptr: Pointer) {
    ptr != [] && ptr[|ptr| - 1] == "-"
    && At(doc, ptr[..|ptr| - 1]).Ok? && At(doc, ptr[..|ptr| - 1]).value.Array?
  }

  // After an add, its pointer denotes the value, and the empty one the document.
  lemma AddDenotes(doc: Json, ptr: Pointer, v: Json)
    ensures ApplyEdit(doc, Add("", v)) == Outcome(v, None)
    ensures var after := ApplyEdit(doc, Add(Render(ptr), v));
      after.error == None && !IsEnd(doc, ptr) ==> At(after.doc, ptr) == Ok(v)
  {
    EditAt(doc, []);
    EditAt(doc, ptr);
    if ptr != [] {
      var p, token := ptr[..|ptr| - 1], ptr[|ptr| - 1];
      assert ptr == p + [token];
      hide At, Put, Render, ApplyEdit, AddAt, ArrayIndex, Inserted, Kept, IndexToken;
      if At(doc, p).Err? || !(At(doc, p).value.Null? || At(doc, p).value.Object? || At(doc, p).value.Array?) {
        AddElsewhere(doc, p, token, v);
      } else if At(doc, p).value.Array? {
        AddAtItem(doc, p, token, v);
        if i: nat :| token == IndexToken(i) {
          InsertedThere(doc, ApplyEdit(doc, Add(Render(ptr), v)).doc, p, i, |At(doc, p).value.items|, v);
        }
      } else {
        AddMember(doc, p, token, v);
      }
    }
  }

  lemma InsertedThere(before: Json, after: Json, p: Pointer, i: nat, n: nat, v: Json)
    ensures Inserted(before, after, p, i, n, v) ==> At(after, Item(p, i)) == Ok(v)
  {
  }

  // ------------------------------------------------------------------ remove

  // The array at p has lost its item i, with the later items one place further up.
  ghost predicate Taken(before: Json, after: Json, p: Pointer, i: nat, n: nat) {
    (forall j | 0 <= j < i :: At(after, Item(p, j)) == At(before, Item(p, j)))
    && (forall j | i < j < n :: At(after, Item(p, j - 1)) == At(before, Item(p, j)))
    && (n > 0 ==> At(after, Item(p, n - 1)) == Err(OutOfRange))
  }

  lemma TakenShown(before: Json, after: Json, p: Pointer, items: seq<Json>, i: nat)
    requires i < |items| && Shows(before, p, items) && Shows(after, p, items[..i] + items[i + 1..])
    ensures Taken(before, after, p, i, |items|)
  {
    hide Shows, At, Item;
    var n, changed := |items|, items[..i] + items[i + 1..];
    ShownAt(after, p, changed, n - 1);
    forall j | 0 <= j < i ensures At(after, Item(p, j)) == At(before, Item(p, j)) {
      ShownAt(before, p, items, j);
      ShownAt(after, p, changed, j);
    }
    forall j | i < j < n ensures At(after, Item(p, j - 1)) == At(before, Item(p, j)) {
      ShownAt(before, p, items, j);
      ShownAt(after, p, changed, j - 1);
    }
  }

  lemma TakenItems(doc: Json, p: Pointer, i: nat)
    requires At(doc, p).Ok? && At(doc, p).value.Array? && i < |At(doc, p).value.items|
    ensures var items := At(doc, p).value.items;
      var after := Put(doc, p, Array(items[..i] + items[i + 1..]));
      Taken(doc, after, p, i, |items|) && Kept(doc, after, p)
  {
    hide *;
    var items := At(doc, p).value.items;
    var changed := items[..i] + items[i + 1..];
    AtPut(doc, p, Array(changed));
    AllItems(doc, p);
    AllItems(Put(doc, p, Array(changed)), p);
    TakenShown(doc, Put(doc, p, Array(changed)), p, items, i);
    PutKeeps(doc, p, Array(changed));
  }

  lemma RemoveBelow(doc: Json, p: Pointer, token: string, r: Result<Json, Error>)
    requires At(doc, p).Ok? && r == RemoveChild(At(doc, p).value, token)
    ensures ApplyEdit(doc, Remove(Render(p + [token])))
      == if r.Ok? then Outcome(Put(doc, p, r.value), None) else Outcome(doc, Some(r.error))
  {
    hide At, Put, Render, ApplyEdit, RemoveAt, RemoveChild;
    EditAt(doc, p + [token]);
    RemoveAtParent(doc, p, token);
  }

  lemma RemoveIndex(items: seq<Json>, i: nat)
    ensures RemoveChild(Array(items), IndexToken(i))
      == if i < |items| then Ok(Array(items[..i] + items[i + 1..])) else Err(OutOfRange)
  {
    ArrayIndexToken(IndexToken(i), i);
  }

  lemma RemoveAtParent(doc: Json, p: Pointer, token: string)
    ensures RemoveAt(doc, p + [token]) ==
      if At(doc, p).Err? then At(doc, p) else Within(doc, p, RemoveChild(At(doc, p).value, token))
  {
    assert (p + [token])[..|p|] == p;
  }

  lemma RemoveAtIndex(doc: Json, p: Pointer, i: nat)
    requires At(doc, p).Ok? && At(doc, p).value.Array?
    ensures var n, after := |At(doc, p).value.items|, ApplyEdit(doc, Remove(Render(Item(p, i))));
      (i < n ==> after.error == None && Taken(doc, after.doc, p, i, n) && Kept(doc, after.doc, p))
      && (i >= n ==> after == Outcome(doc, Some(OutOfRange)))
  {
    hide *;
    var items := At(doc, p).value.items;
    RemoveIndex(items, i);
    if i < |items| { TakenItems(doc, p, i); }
    RemoveBelow(doc, p, IndexToken(i), RemoveChild(Array(items), IndexToken(i)));
    ItemIs(p, i);
  }

  // Removing an item closes the gap; any other token raises an exception and nothing changes.
  lemma RemoveItem(doc: Json, p: Pointer, token: string)
    requires At(doc, p).Ok? && At(doc, p).value.Array?
    ensures var n, after := |At(doc, p).value.items|, ApplyEdit(doc, Remove(Render(p + [token])));
      (forall i: nat | token == IndexToken(i) && i < n ::
        after.error == None && Taken(doc, after.doc, p, i, n) && Kept(doc, after.doc, p))
      && (forall i: nat | token == IndexToken(i) && i >= n :: after == Outcome(doc, Some(OutOfRange)))
      && (NoIndex(token) ==> after.error.Some? && after.doc == doc)
  {
    hide *;
    forall i: nat | token == IndexToken(i) ensures
        var n, after := |At(doc, p).value.items|, ApplyEdit(doc, Remove(Render(p + [token])));
        (i < n ==> after.error == None && Taken(doc, after.doc, p, i, n) && Kept(doc, after.doc, p))
        && (i >= n ==> after == Outcome(doc, Some(OutOfRange)))
    {
      ItemIs(p, i);
      RemoveAtIndex(doc, p, i);
    }
    if NoIndex(token) { RemoveNothing(doc, p, token); }
  }

  lemma RemoveNothing(doc: Json, p: Pointer, token: string)
    requires At(doc, p).Ok? && At(doc, p).value.Array? && NoIndex(token)
    ensures var after := ApplyEdit(doc, Remove(Render(p + [token]))); after.error.Some? && after.doc == doc
  {
    hide At, Put, Render, ApplyEdit, NoIndex, ArrayIndex;
    NoIndexFails(token);
    RemoveBelow(doc, p, token, RemoveChild(At(doc, p).value, token));
  }

  // Removing a member takes it away and leaves the others; a missing one is out of range.
  lemma RemoveMember(doc: Json, p: Pointer, key: string)
    requires At(doc, p).Ok? && At(doc, p).value.Object?
    ensures var after := ApplyEdit(doc, Remove(Render(p + [key])));
      (At(doc, p + [key]).Err? ==> after == Outcome(doc, Some(OutOfRange)))
      && (At(doc, p + [key]).Ok? ==>
        after.error == None && At(after.doc, p + [key]) == Err(OutOfRange) && Kept(doc, after.doc, p)
        && forall k: string | k != key :: At(after.doc, p + [k]) == At(doc, p + [k]))
  {
    var m := At(doc, p).value.members;
    var changed := Object(m - {key});
    hide At, Put, Render, ApplyEdit, RemoveAt, Kept;
    RemoveBelow(doc, p, key, RemoveChild(Object(m), key));
    PutKeeps(doc, p, changed);
    forall k: string
      ensures At(Put(doc, p, changed), p + [k]) == if k == key then Err(OutOfRange) else At(doc, p + [k])
      ensures At(doc, p + [k]).Ok? <==> k in m
    {
      AtBelow(doc, p, changed, k);
      MemberAt(Object(m), k);
      MemberAt(changed, k);
    }
  }

  // The whole document cannot be removed, nor anything below a place that does not exist.
  // Below a text, a number and the like there is nothing to remove, and none is missed.
  lemma RemoveElsewhere(doc: Json, p: Pointer, token: string)
    requires At(doc, p).Ok? ==> !At(doc, p).value.Object? && !At(doc, p).value.Array?
    ensures ApplyEdit(doc, Remove("")) == Outcome(doc, Some(OutOfRange))
    ensures ApplyEdit(doc, Remove(Render(p + [token])))
         == Outcome(doc, if At(doc, p).Err? then Some(At(doc, p).error) else None)
  {
    EditAt(doc, []);
    EditAt(doc, p + [token]);
    RemoveAtParent(doc, p, token);
    if At(doc, p).Ok? { PutSame(doc, p); }
    hide At, Put, Render, ApplyEdit, RemoveAt;
  }

  // ------------------------------------------------- replace, test, copy, move

  // A replaced place denotes the new value, and what does not lead through it stays; a
  // place that does not exist raises the exception of the look-up.
  lemma Replaced(doc: Json, p: Pointer, v: Json)
    ensures var after := ApplyEdit(doc, Replace(Render(p), v));
      (At(doc, p).Err? ==> after == Outcome(doc, Some(At(doc, p).error)))
      && (At(doc, p).Ok? ==> after.error == None && At(after.doc, p) == Ok(v) && Kept(doc, after.doc, p))
  {
    ParseRender(p);
    if At(doc, p).Ok? {
      AtPut(doc, p, v);
      PutKeeps(doc, p, v);
    }
    hide At, Put, Render, ParsePointer, Kept;
  }

  // A test never changes the document. It passes exactly when the place exists and
  // compares equal to the value.
  lemma Tested(doc: Json, p: Pointer, v: Json)
    ensures var after := ApplyEdit(doc, Test(Render(p), v));
      after.doc == doc
      && (after.error == None <==> At(doc, p).Ok? && Equal(At(doc, p).value, v))
      && (At(doc, p).Ok? || At(doc, p).error == OutOfRange ==> after.error != None ==> after.error == Some(OtherError))
  {
    ParseRender(p);
    hide At, Put, Render, ParsePointer, Equal;
  }

  // Copying adds what the source denotes, so that the target then denotes it.
  lemma Copied(doc: Json, from: Pointer, ptr: Pointer)
    ensures var after := ApplyEdit(doc, Copy(Render(ptr), Render(from)));
      (At(doc, from).Err? ==> after == Outcome(doc, Some(At(doc, from).error)))
      && (At(doc, from).Ok? ==> after == ApplyEdit(doc, Add(Render(ptr), At(doc, from).value)))
      && (after.error == None && !IsEnd(doc, ptr) ==> At(after.doc, ptr) == At(doc, from))
  {
    ParseRender(from);
    EditAt(doc, ptr);
    if At(doc, from).Ok? { AddDenotes(doc, ptr, At(doc, from).value); }
    hide At, Put, Render, ParsePointer, AddAt, IsEnd;
  }

  // Moving is removing the source and then adding at the target what the source denoted.
  lemma Moved(doc: Json, from: Pointer, ptr: Pointer)
    ensures var after := ApplyEdit(doc, Move(Render(ptr), Render(from)));
      var removed := ApplyEdit(doc, Remove(Render(from)));
      (At(doc, from).Err? ==> after == Outcome(doc, Some(At(doc, from).error)))
      && (At(doc, from).Ok? ==> after == Run(doc, [Remove(Render(from)), Add(Render(ptr), At(doc, from).value)]))
      && (after.error == None && !IsEnd(removed.doc, ptr) ==> At(after.doc, ptr) == At(doc, from))
  {
    ParseRender(from);
    EditAt(doc, from);
    EditAt(doc, ptr);
    if At(doc, from).Ok? {
      var v, removed := At(doc, from).value, ApplyEdit(doc, Remove(Render(from)));
      EditAt(removed.doc, ptr);
      AddDenotes(removed.doc, ptr, v);
      TwoEdits(doc, Remove(Render(from)), Add(Render(ptr), v));
    }
    hide At, Put, Render, ParsePointer, AddAt, RemoveAt, IsEnd, Run;
  }

  lemma TwoEdits(doc: Json, a: Edit, b: Edit)
    ensures Run(doc, [a, b]) ==
      if ApplyEdit(doc, a).error.Some? then ApplyEdit(doc, a) else ApplyEdit(ApplyEdit(doc, a).doc, b)
  {
    hide ApplyEdit;
    var first := ApplyEdit(doc, a);
    assert [a, b][1..] == [b] && [b][1..] == [];
    assert Run(first.doc, [b]) == ApplyEdit(first.doc, b) by {
      var last := ApplyEdit(first.doc, b);
      assert Run(last.doc, []) == Outcome(last.doc, None);
    }
  }
}
