/** The JSON Patch interpreter (RFC 6902 section 4): patch_inplace. */
module JsonPatch {
  import opened Results
  import opened JsonValue
  import opened JsonPointer

  // One operation of a patch, its pointers in text form.
  datatype Edit =
    | Add(path: string, value: Json)
    | Remove(path: string)
    | Replace(path: string, value: Json)
    | Move(path: string, from: string)
    | Copy(path: string, from: string)
    | Test(path: string, value: Json)

  // A document after some operations, and the exception that stopped them.
  datatype Outcome = Outcome(doc: Json, error: Option<Error>)

  function Settle(doc: Json, r: Result<Json, Error>): Outcome {
    match r
    case Ok(changed) => Outcome(changed, None)
    case Err(e) => Outcome(doc, Some(e))
  }

  // ------------------------------------------------- operations on a pointer

  function AddChild(parent: Json, token: string, v: Json): Result<Json, Error> {
    match parent
    case Null => Ok(Object(map[token := v]))
    case Object(m) => Ok(Object(m[token := v]))
    case Array(items) =>
      if token == "-" then Ok(Array(items + [v]))
      else
        var i :- ArrayIndex(token);
        if i > |items| then Err(OutOfRange) else Ok(Array(items[..i] + [v] + items[i..]))
    case _ => Err(AssertionFailure)
  }

  // Removing from a value that is neither an object nor an array does nothing.
  function RemoveChild(parent: Json, token: string): Result<Json, Error> {
    match parent
    case Object(m) => if token in m then Ok(Object(m - {token})) else Err(OutOfRange)
    case Array(items) =>
      var i :- ArrayIndex(token);
      if i < |items| then Ok(Array(items[..i] + items[i + 1..])) else Err(OutOfRange)
    case _ => Ok(parent)
  }

  function AddAt(doc: Json, ptr: Pointer, v: Json): Result<Json, Error> {
    if ptr == [] then Ok(v)
    else
      var last := |ptr| - 1;
      var _ :- if last > 0 then At(doc, [ptr[0]]) else Ok(Null);
      var parent :- At(doc, ptr[..last]);
      var changed :- AddChild(parent, ptr[last], v);
      Ok(Put(doc, ptr[..last], changed))
  }

  function RemoveAt(doc: Json, ptr: Pointer): Result<Json, Error> {
    if ptr == [] then Err(OutOfRange)
    else
      var last := |ptr| - 1;
      var parent :- At(doc, ptr[..last]);
      var changed :- RemoveChild(parent, ptr[last]);
      Ok(Put(doc, ptr[..last], changed))
  }

  function ReplaceAt(doc: Json, ptr: Pointer, v: Json): Result<Json, Error> {
    var _ :- At(doc, ptr);
    Ok(Put(doc, ptr, v))
  }

  // An out_of_range while looking at the tested place is a failed test.
  function TestAt(doc: Json, ptr: Pointer, v: Json): Result<Json, Error> {
    match At(doc, ptr)
    case Ok(found) => if Equal(found, v) then Ok(doc) else Err(OtherError)
    case Err(OutOfRange) => Err(OtherError)
    case Err(e) => Err(e)
  }

  function MoveAt(doc: Json, from: Pointer, ptr: Pointer): Outcome {
    match At(doc, from)
    case Err(e) => Outcome(doc, Some(e))
    case Ok(v) =>
      match RemoveAt(doc, from)
      case Err(e) => Outcome(doc, Some(e))
      case Ok(removed) => Settle(removed, AddAt(removed, ptr, v))
  }

  function CopyAt(doc: Json, from: Pointer, ptr: Pointer): Result<Json, Error> {
    var v :- At(doc, from);
    AddAt(doc, ptr, v)
  }

  // One operation: afterwards the document has changed, or an exception is raised
  // with the document unchanged (but for a move that has removed and cannot add).
  function ApplyEdit(doc: Json, e: Edit): Outcome {
    match ParsePointer(e.path)
    case Err(error) => Outcome(doc, Some(error))
    case Ok(ptr) =>
      match e
      case Add(_, v) => Settle(doc, AddAt(doc, ptr, v))
      case Remove(_) => Settle(doc, RemoveAt(doc, ptr))
      case Replace(_, v) => Settle(doc, ReplaceAt(doc, ptr, v))
      case Test(_, v) => Settle(doc, TestAt(doc, ptr, v))
      case Move(_, f) =>
        (match ParsePointer(f)
         case Err(error) => Outcome(doc, Some(error))
         case Ok(from) => MoveAt(doc, from, ptr))
      case Copy(_, f) =>
        (match ParsePointer(f)
         case Err(error) => Outcome(doc, Some(error))
         case Ok(from) => Settle(doc, CopyAt(doc, from, ptr)))
  }

  // The operations in order, up to the first exception.
  function Run(doc: Json, edits: seq<Edit>): Outcome
    decreases |edits|
  {
    if edits == [] then Outcome(doc, None)
    else
      var first := ApplyEdit(doc, edits[0]);
      if first.error.Some? then first else Run(first.doc, edits[1..])
  }

  // -------------------------------------------------- patches as documents

  function GetValue(m: map<string, Json>, member: string): Result<Json, Error> {
    if member in m then Ok(m[member]) else Err(ParseError)
  }

  function GetString(m: map<string, Json>, member: string): Result<string, Error> {
    var v :- GetValue(m, member);
    if v.String? then Ok(v.s) else Err(ParseError)
  }

  // Every way to misspell an operation raises a parse_error.
  function ReadEdit(val: Json): Result<Edit, Error> {
    if !val.Object? then Err(ParseError)
    else
      var m := val.members;
      var op :- GetString(m, "op");
      var path :- GetString(m, "path");
      if op == "add" then
        var v :- GetValue(m, "value");
        Ok(Add(path, v))
      else if op == "remove" then Ok(Remove(path))
      else if op == "replace" then
        var v :- GetValue(m, "value");
        Ok(Replace(path, v))
      else if op == "move" then
        var from :- GetString(m, "from");
        Ok(Move(path, from))
      else if op == "copy" then
        var from :- GetString(m, "from");
        Ok(Copy(path, from))
      else if op == "test" then
        var v :- GetValue(m, "value");
        Ok(Test(path, v))
      else Err(ParseError)
  }

  function WriteEdit(e: Edit): Json {
    match e
    case Add(p, v) => Object(map["op" := String("add"), "path" := String(p), "value" := v])
    case Remove(p) => Object(map["op" := String("remove"), "path" := String(p)])
    case Replace(p, v) => Object(map["op" := String("replace"), "path" := String(p), "value" := v])
    case Move(p, f) => Object(map["op" := String("move"), "path" := String(p), "from" := String(f)])
    case Copy(p, f) => Object(map["op" := String("copy"), "path" := String(p), "from" := String(f)])
    case Test(p, v) => Object(map["op" := String("test"), "path" := String(p), "value" := v])
  }

  lemma ReadWrite(e: Edit)
    ensures ReadEdit(WriteEdit(e)) == Ok(e)
  {
    assert |"op"| == 2 && |"path"| == 4 && |"from"| == 4 && |"value"| == 5 && "path"[0] != "from"[0];
    assert |"add"| == 3 && |"remove"| == 6 && |"replace"| == 7 && |"move"| == |"copy"| == |"test"| == 4;
    assert "move"[0] != "copy"[0] && "test"[0] != "copy"[0] && "test"[0] != "move"[0];
  }

  function WriteEdits(edits: seq<Edit>): (r: seq<Json>)
    ensures |r| == |edits|
  {
    seq(|edits|, i requires 0 <= i < |edits| => WriteEdit(edits[i]))
  }

  function ApplyDocument(doc: Json, val: Json): Outcome {
    match ReadEdit(val)
    case Err(e) => Outcome(doc, Some(e))
    case Ok(edit) => ApplyEdit(doc, edit)
  }

  function RunDocuments(doc: Json, vals: seq<Json>): Outcome
    decreases |vals|
  {
    if vals == [] then Outcome(doc, None)
    else
      var first := ApplyDocument(doc, vals[0]);
      if first.error.Some? then first else RunDocuments(first.doc, vals[1..])
  }

  // patch_inplace on a document.
  function RunPatch(doc: Json, patch: Json): Outcome {
    if patch.Array? then RunDocuments(doc, patch.items) else Outcome(doc, Some(ParseError))
  }

  lemma {:induction false} RunWritten(doc: Json, edits: seq<Edit>)
    ensures RunDocuments(doc, WriteEdits(edits)) == Run(doc, edits)
    decreases |edits|
  {
    if edits != [] {
      ReadWrite(edits[0]);
      assert WriteEdits(edits)[1..] == WriteEdits(edits[1..]);
      RunWritten(ApplyEdit(doc, edits[0]).doc, edits[1..]);
    }
  }

  lemma {:induction false} RunConcat(doc: Json, a: seq<Edit>, b: seq<Edit>)
    ensures Run(doc, a + b) ==
      if Run(doc, a).error.Some? then Run(doc, a) else Run(Run(doc, a).doc, b)
    decreases |a|
  {
    if a == [] {
      assert a + b == b;
    } else {
      assert (a + b)[1..] == a[1..] + b;
      RunConcat(ApplyEdit(doc, a[0]).doc, a[1..], b);
    }
  }

  // ---------------------------------------------------------------- locality

  // The document in which the subtree at p has become r.
  function Within(doc: Json, p: Pointer, r: Result<Json, Error>): Result<Json, Error>
    requires At(doc, p).Ok?
  {
    var sub :- r;
    Ok(Put(doc, p, sub))
  }

  // The extra look-up of the first token raises nothing the parent's look-up would not.
  lemma AddAtParent(doc: Json, init: Pointer, token: string, v: Json)
    ensures AddAt(doc, init + [token], v) ==
      if At(doc, init).Err? then At(doc, init)
      else Within(doc, init, AddChild(At(doc, init).value, token, v))
  {
    hide At, Put, AddChild;
    var ptr := init + [token];
    assert ptr[..|init|] == init && (init != [] ==> ptr[0] == init[0]);
    hide AddAt;
    AddAtIs(doc, ptr, v);
    if init != [] { FirstTokenFails(doc, init); }
  }

  lemma AddAtIs(doc: Json, ptr: Pointer, v: Json)
    requires ptr != []
    ensures var init := ptr[..|ptr| - 1];
      AddAt(doc, ptr, v) ==
      if init != [] && At(doc, [ptr[0]]).Err? then At(doc, [ptr[0]])
      else if At(doc, init).Err? then At(doc, init)
      else Within(doc, init, AddChild(At(doc, init).value, ptr[|ptr| - 1], v))
  {
    hide At, Put, AddChild;
  }

  lemma FirstTokenFails(doc: Json, init: Pointer)
    requires init != []
    ensures At(doc, [init[0]]).Err? ==> At(doc, init) == At(doc, [init[0]])
  {
    hide At;
    assert init == [init[0]] + init[1..];
    if At(doc, [init[0]]).Err? { AtPrefixFails(doc, [init[0]], init[1..]); }
  }

  // Adding below p acts on the subtree at p alone.
  lemma AddIsLocal(doc: Json, p: Pointer, init: Pointer, token: string, v: Json)
    requires At(doc, p).Ok?
    ensures AddAt(doc, p + init + [token], v) == Within(doc, p, AddAt(At(doc, p).value, init + [token], v))
  {
    var sub := At(doc, p).value;
    AddAtParent(doc, p + init, token, v);
    AddAtParent(sub, init, token, v);
    AtConcat(doc, p, init);
    if At(sub, init).Ok? && AddChild(At(sub, init).value, token, v).Ok? {
      PutConcat(doc, p, init, AddChild(At(sub, init).value, token, v).value);
    }
  }

  // Removing below p acts on the subtree at p alone.
  lemma RemoveIsLocal(doc: Json, p: Pointer, init: Pointer, token: string)
    requires At(doc, p).Ok?
    ensures RemoveAt(doc, p + init + [token]) == Within(doc, p, RemoveAt(At(doc, p).value, init + [token]))
  {
    var sub := At(doc, p).value;
    assert (p + init + [token])[..|p + init|] == p + init;
    assert (init + [token])[..|init|] == init;
    AtConcat(doc, p, init);
    if At(sub, init).Ok? && RemoveChild(At(sub, init).value, token).Ok? {
      PutConcat(doc, p, init, RemoveChild(At(sub, init).value, token).value);
    }
  }

  // ------------------------------------------------------- the in-place form

  class Document {
    var root: Json

    constructor (doc: Json)
      ensures root == doc
    {
      root := doc;
    }

    method OperationAdd(ptr: Pointer, v: Json) returns (error: Option<Error>)
      modifies this
      ensures Outcome(root, error) == Settle(old(root), AddAt(old(root), ptr, v))
    {
      if ptr == [] {
        root := v;
        return None;
      }
      var last := |ptr| - 1;
      if last > 0 {
        var top := At(root, [ptr[0]]);
        if top.Err? { return Some(top.error); }
      }
      var parent := At(root, ptr[..last]);
      if parent.Err? { return Some(parent.error); }
      var changed := AddChild(parent.value, ptr[last], v);
      if changed.Err? { return Some(changed.error); }
      root := Put(root, ptr[..last], changed.value);
      return None;
    }

    method OperationRemove(ptr: Pointer) returns (error: Option<Error>)
      modifies this
      ensures Outcome(root, error) == Settle(old(root), RemoveAt(old(root), ptr))
    {
      if ptr == [] { return Some(OutOfRange); }
      var last := |ptr| - 1;
      var parent := At(root, ptr[..last]);
      if parent.Err? { return Some(parent.error); }
      var changed := RemoveChild(parent.value, ptr[last]);
      if changed.Err? { return Some(changed.error); }
      root := Put(root, ptr[..last], changed.value);
      return None;
    }

    method Apply(e: Edit) returns (error: Option<Error>)
      modifies this
      ensures Outcome(root, error) == ApplyEdit(old(root), e)
    {
      var ptr := ParsePointer(e.path);
      if ptr.Err? { return Some(ptr.error); }
      match e {
        case Add(_, v) =>
          error := OperationAdd(ptr.value, v);
        case Remove(_) =>
          error := OperationRemove(ptr.value);
        case Replace(_, v) =>
          var place := At(root, ptr.value);
          if place.Err? { return Some(place.error); }
          root := Put(root, ptr.value, v);
          error := None;
        case Move(_, f) =>
          var from := ParsePointer(f);
          if from.Err? { return Some(from.error); }
          var v := At(root, from.value);
          if v.Err? { return Some(v.error); }
          error := OperationRemove(from.value);
          if error == None {
            error := OperationAdd(ptr.value, v.value);
          }
        case Copy(_, f) =>
          var from := ParsePointer(f);
          if from.Err? { return Some(from.error); }
          var v := At(root, from.value);
          if v.Err? { return Some(v.error); }
          error := OperationAdd(ptr.value, v.value);
        case Test(_, v) =>
          var place := At(root, ptr.value);
          if place.Ok? && Equal(place.value, v) { return None; }
          if place.Err? && place.error != OutOfRange { return Some(place.error); }
          return Some(OtherError);
      }
    }

    method PatchInplace(patch: Json) returns (error: Option<Error>)
      modifies this
      ensures Outcome(root, error) == RunPatch(old(root), patch)
    {
      if !patch.Array? { return Some(ParseError); }
      var n := 0;
      error := None;
      while n < |patch.items|
        invariant n <= |patch.items|
        invariant RunDocuments(root, patch.items[n..]) == RunPatch(old(root), patch)
      {
        var rest := patch.items[n..];
        assert rest[1..] == patch.items[n + 1..];
        var edit := ReadEdit(patch.items[n]);
        if edit.Err? { return Some(edit.error); }
        error := Apply(edit.value);
        if error.Some? { return; }
        n := n + 1;
      }
      return None;
    }
  }

  // patch(): the same on a copy.
  method Patch(doc: Json, patch: Json) returns (r: Result<Json, Error>)
    ensures r == match RunPatch(doc, patch)
      case Outcome(_, Some(e)) => Err(e)
      case Outcome(changed, None) => Ok(changed)
  {
    var copy := new Document(doc);
    var error := copy.PatchInplace(patch);
    match error
    case Some(e) => r := Err(e);
    case None => r := Ok(copy.root);
  }
}
