/** Dotted access: a path names a member of an object of an object, and so on. */
module ParsonDot {
  import opened Results
  import opened ParsonTable
  import opened ParsonText
  import opened ParsonValue

  // strchr(path, '.'), or the length of the path.
  function DotAt(path: string): (i: nat)
    ensures i <= |path| && (forall j | 0 <= j < i :: path[j] != '.') && (i < |path| ==> path[i] == '.')
  {
    if path == "" || path[0] == '.' then 0
    else
      var i := 1 + DotAt(path[1..]);
      assert forall j | 0 < j < i :: path[j] == path[1..][j - 1];
      i
  }

  predicate Dotted(path: string) { DotAt(path) < |path| }

  function Head(path: string): string { path[..DotAt(path)] }

  function Tail(path: string): (tail: string)
    requires Dotted(path)
    ensures |tail| < |path|
  {
    path[DotAt(path) + 1..]
  }

  // json_object_dotget_value
  function DotGet(members: seq<Member>, path: string): Option<Value>
    decreases |path|
  {
    if !Dotted(path) then Get(members, path)
    else match Get(members, Head(path))
      case Some(Object(inner)) => DotGet(inner, Tail(path))
      case _ => None
  }

  // json_object_dotset_value. A value that is attached to a container already is refused.
  function DotSet(members: seq<Member>, path: string, v: Value, attached: bool): Option<seq<Member>>
    decreases |path|
  {
    if !Dotted(path) then if attached then None else Some(SetMember(members, path, v))
    else match Get(members, Head(path))
      case Some(Object(inner)) =>
        (match DotSet(inner, Tail(path), v, attached)
         case None => None
         case Some(changed) => Some(SetMember(members, Head(path), Object(changed))))
      case Some(_) => None
      case None =>
        match DotSet([], Tail(path), v, attached)
        case None => None
        case Some(created) => AddMember(members, Head(path), Object(created))
  }

  // json_object_dotremove
  function DotRemove(members: seq<Member>, path: string): Option<seq<Member>>
    decreases |path|
  {
    if !Dotted(path) then RemoveMember(members, path)
    else match Get(members, Head(path))
      case Some(Object(inner)) =>
        (match DotRemove(inner, Tail(path))
         case None => None
         case Some(left) => Some(SetMember(members, Head(path), Object(left))))
      case _ => None
  }

  // --------------------------------------------------------------- one level

  lemma AddGet(members: seq<Member>, name: string, v: Value)
    requires Get(members, name).None?
    ensures AddMember(members, name, v) == Some(SetMember(members, name, v))
  {
    GetSlot(members, name);
  }

  // A dotted set, seen as setting the head.
  lemma DotSetStep(members: seq<Member>, path: string, v: Value, attached: bool)
    requires Dotted(path) && DotSet(members, path, v, attached).Some?
    ensures var here := Get(members, Head(path));
      (here.Some? ==> here.value.Object?)
      && var inner := if here.Some? then here.value.members else [];
         DotSet(inner, Tail(path), v, attached).Some?
         && DotSet(members, path, v, attached)
            == Some(SetMember(members, Head(path), Object(DotSet(inner, Tail(path), v, attached).value)))
  {
    hide SetMember, Get, AddMember;
    var here := Get(members, Head(path));
    if here.None? { AddGet(members, Head(path), Object(DotSet([], Tail(path), v, attached).value)); }
  }

  // ------------------------------------------------------------------ theorems

  // The value is where the path leads.
  lemma {:induction false} DotSetGet(members: seq<Member>, path: string, v: Value, attached: bool)
    requires DotSet(members, path, v, attached).Some?
    ensures DotGet(DotSet(members, path, v, attached).value, path) == Some(v)
    decreases |path|
  {
    hide SetMember, Get, AddMember, Head, Tail, Dotted;
    if Dotted(path) {
      DotSetStep(members, path, v, attached);
      var here := Get(members, Head(path));
      var inner := if here.Some? then here.value.members else [];
      DotSetGet(inner, Tail(path), v, attached);
      SetGet(members, Head(path), Object(DotSet(inner, Tail(path), v, attached).value), Head(path));
    } else {
      SetGet(members, path, v, path);
    }
  }

  // A path is the other, or goes on behind it.
  predicate Leads(p: string, q: string) {
    p == q || (|p| < |q| && q[..|p|] == p && q[|p|] == '.')
  }

  predicate Apart(p: string, q: string) { !Leads(p, q) && !Leads(q, p) }

  lemma HeadTail(path: string)
    requires Dotted(path)
    ensures path == Head(path) + "." + Tail(path)
  {
  }

  lemma HeadWhole(path: string)
    requires !Dotted(path)
    ensures Head(path) == path
  {
  }

  lemma LeadsBehind(h: string, p: string, q: string)
    requires Leads(p, q)
    ensures Leads(h + "." + p, h + "." + q)
  {
    var a, b := h + "." + p, h + "." + q;
    if p != q {
      assert b[|a|] == q[|p|];
      assert b[..|a|] == h + "." + q[..|p|];
    }
  }

  // Paths apart differ in the head, or are apart behind the same head.
  lemma ApartStep(p: string, q: string)
    requires Apart(p, q) && Head(p) == Head(q)
    ensures Dotted(p) && Dotted(q) && Apart(Tail(p), Tail(q))
  {
    if Dotted(p) { HeadTail(p); } else { HeadWhole(p); }
    if Dotted(q) { HeadTail(q); } else { HeadWhole(q); }
    hide Head, Tail, Dotted;
    if Dotted(p) && Dotted(q) {
      if Leads(Tail(p), Tail(q)) { LeadsBehind(Head(p), Tail(p), Tail(q)); }
      if Leads(Tail(q), Tail(p)) { LeadsBehind(Head(p), Tail(q), Tail(p)); }
    }
  }

  // Every path apart from the one that is set keeps its result.
  lemma {:induction false} DotSetFrame(members: seq<Member>, path: string, v: Value, attached: bool, q: string)
    requires DotSet(members, path, v, attached).Some? && Apart(path, q)
    ensures DotGet(DotSet(members, path, v, attached).value, q) == DotGet(members, q)
    decreases |path|
  {
    hide SetMember, Get, AddMember;
    if !Dotted(path) {
      HeadWhole(path);
      if Head(q) == path { ApartStep(path, q); }
      SetGet(members, path, v, Head(q));
      OtherHead(DotSet(members, path, v, attached).value, members, q);
    } else {
      DotSetStep(members, path, v, attached);
      var here := Get(members, Head(path));
      var inner := if here.Some? then here.value.members else [];
      var changed := DotSet(inner, Tail(path), v, attached).value;
      SetGet(members, Head(path), Object(changed), Head(q));
      if Head(q) != Head(path) {
        OtherHead(DotSet(members, path, v, attached).value, members, q);
      } else {
        ApartStep(path, q);
        DotSetFrame(inner, Tail(path), v, attached, Tail(q));
        hide DotSet, Head, Tail, Dotted, Apart;
        NothingInEmpty(Tail(q));
      }
    }
  }

  lemma OtherHead(a: seq<Member>, b: seq<Member>, q: string)
    requires Get(a, Head(q)) == Get(b, Head(q))
    ensures DotGet(a, q) == DotGet(b, q)
  {
    if !Dotted(q) { HeadWhole(q); }
    hide Get;
  }

  lemma NothingInEmpty(q: string)
    ensures DotGet([], q) == None
  {
  }

  // Paths that go on behind the one that is set lead into the new value.
  lemma {:induction false} DotSetInside(members: seq<Member>, path: string, v: Value, attached: bool, q: string)
    requires DotSet(members, path, v, attached).Some?
    ensures DotGet(DotSet(members, path, v, attached).value, path + "." + q)
      == if v.Object? then DotGet(v.members, q) else None
    decreases |path|
  {
    LongPath(path, q);
    hide SetMember, Get, AddMember, Head, Tail, Dotted;
    if Dotted(path) {
      DotSetStep(members, path, v, attached);
      var here := Get(members, Head(path));
      var inner := if here.Some? then here.value.members else [];
      DotSetInside(inner, Tail(path), v, attached, q);
      SetGet(members, Head(path), Object(DotSet(inner, Tail(path), v, attached).value), Head(path));
    } else {
      SetGet(members, path, v, path);
    }
  }

  lemma LongPath(path: string, q: string)
    ensures var long := path + "." + q;
      Dotted(long) && Head(long) == Head(path)
      && Tail(long) == (if Dotted(path) then Tail(path) + "." + q else q)
      && (!Dotted(path) ==> Head(path) == path)
  {
    DotAtBehind(path, q);
    if Dotted(path) { HeadTail(path); } else { HeadWhole(path); }
  }

  lemma {:induction false} DotAtBehind(path: string, q: string)
    ensures DotAt(path + "." + q) == DotAt(path) && Dotted(path + "." + q)
  {
    var long := path + "." + q;
    if path == "" || path[0] == '.' {
      assert long[0] == '.';
    } else {
      assert long[1..] == path[1..] + "." + q;
      DotAtBehind(path[1..], q);
    }
  }

  // A value that is not an object stands in the way, at a dot of the path.
  predicate BlockedAt(members: seq<Member>, path: string, k: nat)
    requires k < |path|
  {
    path[k] == '.' && DotGet(members, path[..k]).Some? && !DotGet(members, path[..k]).value.Object?
  }

  predicate Blocked(members: seq<Member>, path: string) {
    exists k: nat | k < |path| :: BlockedAt(members, path, k)
  }

  // A dotted set fails exactly when the value is attached or the way is blocked.
  lemma {:induction false} DotSetFails(members: seq<Member>, path: string, v: Value, attached: bool)
    ensures DotSet(members, path, v, attached).None? <==> attached || Blocked(members, path)
    decreases |path|
  {
    hide SetMember, Get, AddMember, Blocked, DotGet;
    if !Dotted(path) {
      NotBlocked(members, path);
    } else {
      var here := Get(members, Head(path));
      var inner := if here.Some? && here.value.Object? then here.value.members else [];
      DotSetFails(inner, Tail(path), v, attached);
      BlockedStep(members, path);
      if here.None? {
        BlockedEmpty(Tail(path));
        if !attached { AddGet(members, Head(path), Object(DotSet([], Tail(path), v, attached).value)); }
      }
    }
  }

  lemma NotBlocked(members: seq<Member>, path: string)
    requires !Dotted(path)
    ensures !Blocked(members, path)
  {
  }

  lemma BlockedEmpty(path: string)
    ensures !Blocked([], path)
  {
    forall k | 0 <= k < |path| ensures DotGet([], path[..k]) == None {
      NothingInEmpty(path[..k]);
    }
  }

  lemma BlockedStep(members: seq<Member>, path: string)
    requires Dotted(path)
    ensures Blocked(members, path) <==>
      match Get(members, Head(path))
      case None => false
      case Some(Object(inner)) => Blocked(inner, Tail(path))
      case Some(_) => true
  {
    hide Get, BlockedAt, DotAt, Head;
    var here, d := Get(members, Head(path)), DotAt(path);
    BlockedHere(members, path);
    if Blocked(members, path) {
      var k: nat :| k < |path| && BlockedAt(members, path, k);
      assert k >= d by { NotAtDot(members, path, k); }
      if k > d { BlockedBehind(members, path, k); }
    }
    if here.Some? && here.value.Object? && Blocked(here.value.members, Tail(path)) {
      var j: nat :| j < |Tail(path)| && BlockedAt(here.value.members, Tail(path), j);
      BlockedBehind(members, path, j + d + 1);
    }
  }

  lemma NotAtDot(members: seq<Member>, path: string, k: nat)
    requires k < |path| && BlockedAt(members, path, k)
    ensures k >= DotAt(path)
  {
  }

  lemma BlockedHere(members: seq<Member>, path: string)
    requires Dotted(path)
    ensures var here := Get(members, Head(path));
      BlockedAt(members, path, DotAt(path)) <==> here.Some? && !here.value.Object?
  {
    hide Get;
  }

  lemma BlockedBehind(members: seq<Member>, path: string, k: nat)
    requires DotAt(path) < k < |path|
    ensures var here, j := Get(members, Head(path)), k - DotAt(path) - 1;
      BlockedAt(members, path, k) <==>
      here.Some? && here.value.Object? && BlockedAt(here.value.members, Tail(path), j)
  {
    DotInside(path, k);
    hide Get, Head;
    assert path[k] == Tail(path)[k - DotAt(path) - 1];
  }

  lemma DotInside(path: string, k: nat)
    requires DotAt(path) < k <= |path|
    ensures Dotted(path[..k]) && Head(path[..k]) == Head(path) && Tail(path[..k]) == Tail(path)[..k - DotAt(path) - 1]
  {
    hide DotAt;
    var p, d := path[..k], DotAt(path);
    DotAtIs(p, d);
    Slices(path, d, k);
  }

  lemma Slices(path: string, d: nat, k: nat)
    requires d < k <= |path|
    ensures path[..k][..d] == path[..d]
    ensures path[..k][d + 1..] == path[d + 1..][..k - d - 1]
  {
  }

  lemma DotAtIs(path: string, i: nat)
    requires i < |path| && path[i] == '.' && forall j | 0 <= j < i :: path[j] != '.'
    ensures DotAt(path) == i
  {
  }

  // The tree stays as the library builds it.
  lemma {:induction false} DotSetValid(codec: Codec, members: seq<Member>, path: string, v: Value, attached: bool)
    requires Valid(codec, Object(members)) && Valid(codec, v) && NulFree(path)
    requires DotSet(members, path, v, attached).Some?
    ensures Valid(codec, Object(DotSet(members, path, v, attached).value))
    decreases |path|
  {
    if Dotted(path) {
      DotSetStep(members, path, v, attached);
      var here := Get(members, Head(path));
      var inner := if here.Some? then here.value.members else [];
      assert Valid(codec, Object(inner));
      assert NulFree(Head(path)) && NulFree(Tail(path));
      DotSetValid(codec, inner, Tail(path), v, attached);
      SetValid(codec, members, Head(path), Object(DotSet(inner, Tail(path), v, attached).value));
    } else {
      SetValid(codec, members, path, v);
    }
  }

  lemma SetValid(codec: Codec, members: seq<Member>, name: string, v: Value)
    requires Valid(codec, Object(members)) && Valid(codec, v) && NulFree(name)
    ensures Valid(codec, Object(SetMember(members, name, v)))
  {
    SetDistinct(members, name, v);
    var after := SetMember(members, name, v);
    hide Distinct, NulFree;
    forall i | 0 <= i < |after| ensures NulFree(after[i].name) && Valid(codec, after[i].value) {
      assert i < |members| && i != SlotOf(members, name) ==> after[i] == members[i];
    }
  }

  // A dotted remove succeeds exactly when there is something to get, and then takes it
  // away. Every path apart keeps its result.
  lemma {:induction false} DotRemoveGet(members: seq<Member>, path: string)
    requires Named(Object(members))
    ensures DotRemove(members, path).Some? <==> DotGet(members, path).Some?
    ensures DotRemove(members, path).Some? ==> DotGet(DotRemove(members, path).value, path) == None
    decreases |path|
  {
    if !Dotted(path) {
      GetSlot(members, path);
      if SlotOf(members, path) < |members| { VacateGets(members, SlotOf(members, path), path); }
    } else if Get(members, Head(path)).Some? && Get(members, Head(path)).value.Object? {
      var inner := Get(members, Head(path)).value.members;
      hide SetMember, Get, RemoveMember;
      DotRemoveGet(inner, Tail(path));
      if DotRemove(inner, Tail(path)).Some? {
        SetGet(members, Head(path), Object(DotRemove(inner, Tail(path)).value), Head(path));
      }
    }
  }

  lemma {:induction false} DotRemoveFrame(members: seq<Member>, path: string, q: string)
    requires Named(Object(members)) && DotRemove(members, path).Some? && Apart(path, q)
    ensures DotGet(DotRemove(members, path).value, q) == DotGet(members, q)
    decreases |path|
  {
    var after := DotRemove(members, path).value;
    if !Dotted(path) {
      HeadWhole(path);
      if Head(q) == path { ApartStep(path, q); }
      VacateGets(members, SlotOf(members, path), Head(q));
      hide Vacate, Get, Apart;
      OtherHead(after, members, q);
    } else {
      var inner := Get(members, Head(path)).value.members;
      hide SetMember, Get;
      var left := DotRemove(inner, Tail(path)).value;
      SetGet(members, Head(path), Object(left), Head(q));
      if Head(q) != Head(path) {
        OtherHead(after, members, q);
      } else {
        ApartStep(path, q);
        DotRemoveFrame(inner, Tail(path), Tail(q));
      }
    }
  }

  // ------------------------------------------------------------------ in place

  // An object whose members are changed in place, nested objects included.
  class Tree {
    var members: seq<Member>

    constructor (members: seq<Member>)
      ensures this.members == members
    {
      this.members := members;
    }

    // json_object_dotset_value. When it fails, no path's result has changed.
    method DotSetValue(path: string, v: Value, attached: bool) returns (ok: bool)
      modifies this
      ensures ok <==> !attached && !Blocked(old(members), path)
      ensures ok ==> DotSet(old(members), path, v, attached) == Some(members)
      ensures !ok ==> members == old(members)
      decreases |path|
    {
      DotSetFails(members, path, v, attached);
      hide SetMember, AddMember, Get, Blocked, Head, Dotted, Tail;
      if !Dotted(path) {
        if attached { return false; }
        members := SetMember(members, path, v);
        return true;
      }
      var here := Get(members, Head(path));
      if here.Some? && !here.value.Object? { return false; }
      var inner := new Tree(if here.Some? then here.value.members else []);
      DotSetFails(inner.members, Tail(path), v, attached);
      ok := inner.DotSetValue(Tail(path), v, attached);
      if !ok { return false; }
      if here.Some? {
        members := SetMember(members, Head(path), Object(inner.members));
      } else {
        AddGet(members, Head(path), Object(inner.members));
        members := AddMember(members, Head(path), Object(inner.members)).value;
      }
    }

    // json_object_dotremove
    method DotRemoveValue(path: string) returns (ok: bool)
      modifies this
      ensures if ok then DotRemove(old(members), path) == Some(members)
              else DotRemove(old(members), path) == None && members == old(members)
      decreases |path|
    {
      hide SetMember, RemoveMember, Get, Head, Dotted, Tail;
      if !Dotted(path) {
        var left := RemoveMember(members, path);
        if left.None? { return false; }
        members := left.value;
        return true;
      }
      var here := Get(members, Head(path));
      if here.None? || !here.value.Object? { return false; }
      var inner := new Tree(here.value.members);
      ok := inner.DotRemoveValue(Tail(path));
      if ok { members := SetMember(members, Head(path), Object(inner.members)); }
    }
  }

  // Whatever a failed dotted set was to change, every path keeps its result; after a
  // successful one, the result of every path is known.
  lemma DotSetOutcome(before: seq<Member>, after: seq<Member>, path: string, v: Value, attached: bool, q: string)
    requires if attached || Blocked(before, path) then after == before
             else DotSet(before, path, v, attached) == Some(after)
    ensures attached || Blocked(before, path) || Apart(path, q) ==> DotGet(after, q) == DotGet(before, q)
    ensures !attached && !Blocked(before, path) ==> DotGet(after, path) == Some(v)
  {
    if !attached && !Blocked(before, path) {
      DotSetGet(before, path, v, attached);
      if Apart(path, q) { DotSetFrame(before, path, v, attached, q); }
    }
  }
}
