/** A vector of entries that behaves as a map which keeps the order of insertion. */
module OrderedMap {
  import opened Results

  datatype Entry<Key, T> = Entry(key: Key, value: T)

  // ------------------------------------------------ the operations on the entries

  // Where the linear search for a key stops.
  function Position<Key(==), T>(entries: seq<Entry<Key, T>>, key: Key): (i: nat)
    ensures i <= |entries|
    ensures i < |entries| ==> entries[i].key == key
    ensures forall j | 0 <= j < i :: entries[j].key != key
  {
    if entries == [] || entries[0].key == key then 0
    else
      var i := 1 + Position(entries[1..], key);
      assert forall j | 0 < j < i :: entries[j] == entries[1..][j - 1];
      i
  }

  ghost predicate Unique<Key(!new), T(!new)>(entries: seq<Entry<Key, T>>) {
    forall i, j | 0 <= i < j < |entries| :: entries[i].key != entries[j].key
  }

  function Emplaced<Key(==), T>(entries: seq<Entry<Key, T>>, key: Key, t: T): seq<Entry<Key, T>> {
    if Position(entries, key) < |entries| then entries else entries + [Entry(key, t)]
  }

  function Assigned<Key(==), T>(entries: seq<Entry<Key, T>>, key: Key, t: T): seq<Entry<Key, T>> {
    var i := Position(entries, key);
    if i < |entries| then entries[i := Entry(key, t)] else entries + [Entry(key, t)]
  }

  function Erased<Key, T>(entries: seq<Entry<Key, T>>, first: nat, last: nat): seq<Entry<Key, T>>
    requires first <= last <= |entries|
  {
    entries[..first] + entries[last..]
  }

  // ------------------------------------------------------------------- the class

  class Map<Key(!new, ==), T(!new)> {
    var container: seq<Entry<Key, T>>
    const initial: T

    // The value T{} is what a new element starts with.
    constructor (initial: T)
      ensures container == [] && this.initial == initial
    {
      this.initial := initial;
      container := [];
    }

    // The loops of emplace, at, find, count, erase and insert.
    method Search(key: Key) returns (it: nat)
      ensures it == Position(container, key)
    {
      it := 0;
      while it < |container|
        invariant it <= |container|
        invariant forall j | 0 <= j < it :: container[j].key != key
      {
        if container[it].key == key { break; }
        it := it + 1;
      }
      PositionIs(container, key, it);
    }

    method Emplace(key: Key, t: T) returns (it: nat, inserted: bool)
      modifies this
      ensures container == Emplaced(old(container), key, t)
      ensures it == Position(old(container), key) && inserted == (it == |old(container)|)
      ensures it < |container| && container[it].key == key
    {
      it := Search(key);
      if it < |container| { return it, false; }
      container := container + [Entry(key, t)];
      inserted := true;
    }

    // operator[]
    method Index(key: Key) returns (it: nat)
      modifies this
      ensures container == Emplaced(old(container), key, initial)
      ensures it == Position(old(container), key) < |container| && container[it].key == key
    {
      var inserted;
      it, inserted := Emplace(key, initial);
    }

    // An assignment to what operator[] refers to.
    method Assign(key: Key, t: T)
      modifies this
      ensures container == Assigned(old(container), key, t)
    {
      var it := Index(key);
      container := container[it := Entry(key, t)];
    }

    method At(key: Key) returns (r: Result<T, string>)
      ensures var i := Position(container, key);
        r == if i < |container| then Ok(container[i].value) else Err("key not found")
    {
      var it := Search(key);
      if it < |container| { return Ok(container[it].value); }
      r := Err("key not found");
    }

    method Count(key: Key) returns (n: nat)
      ensures n == if Position(container, key) < |container| then 1 else 0
    {
      var it := Search(key);
      n := if it < |container| then 1 else 0;
    }

    // The elements behind the key's are moved down by one, and the last is dropped.
    method EraseKey(key: Key) returns (n: nat)
      modifies this
      ensures var i := Position(old(container), key);
        if i < |old(container)| then n == 1 && container == Erased(old(container), i, i + 1)
        else n == 0 && container == old(container)
    {
      var it := Search(key);
      if it == |container| { return 0; }
      hide Position;
      CloseGap(it);
      n := 1;
    }

    method CloseGap(start: nat)
      requires start < |container|
      modifies this
      ensures container == Erased(old(container), start, start + 1)
    {
      ghost var before := container;
      var it, next := start, start + 1;
      while next != |container|
        invariant start <= it == next - 1 < |container| == |before|
        invariant forall j | 0 <= j < |container| :: container[j] == before[if start <= j < it then j + 1 else j]
        decreases |container| - next
      {
        container := container[it := container[next]];
        it, next := it + 1, next + 1;
      }
      container := container[..|container| - 1];
      assert container == Erased(before, start, start + 1);
    }

    // The elements behind the range are moved down by its length.
    method EraseRange(first: nat, last: nat) returns (offset: nat)
      requires first <= last <= |container|
      modifies this
      ensures container == Erased(old(container), first, last) && offset == first
    {
      offset := first;
      if first == last {
        assert container == Erased(container, first, last);
        return;
      }
      var affected := last - first;
      ghost var before := container;
      var it := first;
      while it + affected != |container|
        invariant first <= it && it + affected <= |container| == |before|
        invariant forall j | 0 <= j < |container| :: container[j] == before[if first <= j < it then j + affected else j]
        decreases |container| - it
      {
        container := container[it := container[it + affected]];
        it := it + 1;
      }
      container := container[..|container| - affected];
      assert container == Erased(before, first, last);
    }

    // insert of a range of entries
    method InsertAll(entries: seq<Entry<Key, T>>)
      modifies this
      ensures container == EmplacedAll(old(container), entries)
    {
      var i := 0;
      assert entries[..0] == [];
      while i < |entries|
        invariant i <= |entries| && container == EmplacedAll(old(container), entries[..i])
      {
        assert entries[..i + 1][..i] == entries[..i];
        var it, inserted := Emplace(entries[i].key, entries[i].value);
        i := i + 1;
      }
      assert entries[..i] == entries;
    }

    method Do(op: Operation<Key, T>) returns (result: nat)
      requires Permitted(container, op)
      modifies this
      ensures Effect(container, result) == Perform(old(container), op)
    {
      match op
      case Emplace(key, t) =>
        var it, inserted := Emplace(key, t);
        result := if inserted then 1 else 0;
      case Assign(key, t) => Assign(key, t); result := 0;
      case EraseKey(key) => result := EraseKey(key);
      case EraseRange(first, last) => result := EraseRange(first, last);
      case InsertAll(entries) => InsertAll(entries); result := 0;
    }

    // Any run from an empty map is a run of the reference map, with the same results.
    method DoAll(ops: seq<Operation<Key, T>>) returns (results: seq<nat>)
      requires container == [] && Run(container, ops).Some?
      modifies this
      ensures Unique(container)
      ensures (View(container), results) == ReferenceRun(ops)
    {
      hide Perform, View, Permitted;
      results := [];
      var i := 0;
      assert ops[..0] == [];
      while i < |ops|
        invariant i <= |ops| && Run([], ops[..i]) == Some(Outcome(container, results))
      {
        assert ops[..i + 1][..i] == ops[..i];
        RunPrefix(ops, i + 1);
        var result := Do(ops[i]);
        results := results + [result];
        i := i + 1;
      }
      assert ops[..i] == ops;
      RunIsReference(ops);
    }
  }

  lemma PositionIs<Key, T>(entries: seq<Entry<Key, T>>, key: Key, i: nat)
    requires i <= |entries| && (forall j | 0 <= j < i :: entries[j].key != key)
    requires i < |entries| ==> entries[i].key == key
    ensures Position(entries, key) == i
  {
  }

  function EmplacedAll<Key(==), T>(entries: seq<Entry<Key, T>>, more: seq<Entry<Key, T>>): seq<Entry<Key, T>> {
    if more == [] then entries
    else
      var last := |more| - 1;
      Emplaced(EmplacedAll(entries, more[..last]), more[last].key, more[last].value)
  }

  // ------------------------------------------------------------------------ runs

  datatype Operation<Key, T> =
    | Emplace(key: Key, value: T)
    | Assign(key: Key, value: T)
    | EraseKey(key: Key)
    | EraseRange(first: nat, last: nat)
    | InsertAll(entries: seq<Entry<Key, T>>)

  // The entries after an operation, and the number it returned.
  datatype Effect<Key, T> = Effect(entries: seq<Entry<Key, T>>, result: nat)

  datatype Outcome<Key, T> = Outcome(entries: seq<Entry<Key, T>>, results: seq<nat>)

  predicate Permitted<Key, T>(entries: seq<Entry<Key, T>>, op: Operation<Key, T>) {
    op.EraseRange? ==> op.first <= op.last <= |entries|
  }

  function Perform<Key(==), T>(entries: seq<Entry<Key, T>>, op: Operation<Key, T>): Effect<Key, T>
    requires Permitted(entries, op)
  {
    match op
    case Emplace(key, t) => Effect(Emplaced(entries, key, t), if Position(entries, key) < |entries| then 0 else 1)
    case Assign(key, t) => Effect(Assigned(entries, key, t), 0)
    case EraseKey(key) =>
      var i := Position(entries, key);
      if i < |entries| then Effect(Erased(entries, i, i + 1), 1) else Effect(entries, 0)
    case EraseRange(first, last) => Effect(Erased(entries, first, last), first)
    case InsertAll(more) => Effect(EmplacedAll(entries, more), 0)
  }

  // A run, as long as every range that is erased lies in the map.
  function Run<Key(==), T>(entries: seq<Entry<Key, T>>, ops: seq<Operation<Key, T>>): Option<Outcome<Key, T>> {
    if ops == [] then Some(Outcome(entries, []))
    else match Run(entries, ops[..|ops| - 1])
      case None => None
      case Some(before) =>
        var op := ops[|ops| - 1];
        if !Permitted(before.entries, op) then None
        else
          var effect := Perform(before.entries, op);
          Some(Outcome(effect.entries, before.results + [effect.result]))
  }

  // --------------------------------------------------- the reference it behaves as

  // The keys in the order of insertion, and a finite map.
  datatype Reference<Key, T> = Reference(order: seq<Key>, values: map<Key, T>)

  function Keys<Key, T>(entries: seq<Entry<Key, T>>): (keys: seq<Key>)
    ensures |keys| == |entries| && forall i | 0 <= i < |keys| :: keys[i] == entries[i].key
  {
    seq(|entries|, i requires 0 <= i < |entries| => entries[i].key)
  }

  function Bindings<Key(==), T>(entries: seq<Entry<Key, T>>): map<Key, T> {
    if entries == [] then map[] else Bindings(entries[1..])[entries[0].key := entries[0].value]
  }

  function View<Key(==), T>(entries: seq<Entry<Key, T>>): Reference<Key, T> {
    Reference(Keys(entries), Bindings(entries))
  }

  function Without<Key(==)>(order: seq<Key>, key: Key): seq<Key> {
    if order == [] then []
    else (if order[0] == key then [] else [order[0]]) + Without(order[1..], key)
  }

  function ReferenceEmplace<Key(==), T>(r: Reference<Key, T>, key: Key, t: T): Reference<Key, T> {
    if key in r.values then r else Reference(r.order + [key], r.values[key := t])
  }

  function ReferenceEmplaceAll<Key(==), T>(r: Reference<Key, T>, more: seq<Entry<Key, T>>): Reference<Key, T> {
    if more == [] then r
    else
      var last := |more| - 1;
      ReferenceEmplace(ReferenceEmplaceAll(r, more[..last]), more[last].key, more[last].value)
  }

  function ReferencePerform<Key(==), T>(r: Reference<Key, T>, op: Operation<Key, T>): (Reference<Key, T>, nat) {
    match op
    case Emplace(key, t) => (ReferenceEmplace(r, key, t), if key in r.values then 0 else 1)
    case Assign(key, t) =>
      (Reference(if key in r.values then r.order else r.order + [key], r.values[key := t]), 0)
    case EraseKey(key) => (Reference(Without(r.order, key), r.values - {key}), if key in r.values then 1 else 0)
    case EraseRange(first, last) =>
      (if first <= last <= |r.order| then
         Reference(r.order[..first] + r.order[last..], r.values - (set key | key in r.order[first..last]))
       else r,
       first)
    case InsertAll(more) => (ReferenceEmplaceAll(r, more), 0)
  }

  function ReferenceRun<Key(==), T>(ops: seq<Operation<Key, T>>): (Reference<Key, T>, seq<nat>) {
    if ops == [] then (Reference([], map[]), [])
    else
      var before := ReferenceRun(ops[..|ops| - 1]);
      var effect := ReferencePerform(before.0, ops[|ops| - 1]);
      (effect.0, before.1 + [effect.1])
  }

  lemma {:induction false} BindingsAt<Key, T>(entries: seq<Entry<Key, T>>, key: Key)
    ensures var i := Position(entries, key);
      (key in Bindings(entries) <==> i < |entries|) && (i < |entries| ==> Bindings(entries)[key] == entries[i].value)
  {
    if entries != [] { BindingsAt(entries[1..], key); }
  }

  // What the entries find, key by key, decides the map.
  predicate FindsAt<Key(==), T(==)>(entries: seq<Entry<Key, T>>, m: map<Key, T>, key: Key) {
    var i := Position(entries, key);
    (key in m <==> i < |entries|) && (i < |entries| ==> m[key] == entries[i].value)
  }

  ghost predicate Finds<Key(!new), T(!new)>(entries: seq<Entry<Key, T>>, m: map<Key, T>) {
    forall key :: FindsAt(entries, m, key)
  }

  lemma FindsBindings<Key(!new), T(!new)>(entries: seq<Entry<Key, T>>, m: map<Key, T>)
    ensures Finds(entries, m) <==> m == Bindings(entries)
  {
    forall key ensures FindsAt(entries, Bindings(entries), key) { BindingsAt(entries, key); }
    if Finds(entries, m) {
      forall key
        ensures key in m <==> key in Bindings(entries)
        ensures key in m ==> m[key] == Bindings(entries)[key]
      {
        assert FindsAt(entries, m, key) && FindsAt(entries, Bindings(entries), key);
      }
    }
  }

  lemma AssignedView<Key(!new), T(!new)>(entries: seq<Entry<Key, T>>, key: Key, t: T)
    requires Unique(entries)
    ensures Unique(Assigned(entries, key, t))
    ensures View(Assigned(entries, key, t)) == ReferencePerform(View(entries), Assign(key, t)).0
  {
    var after, m := Assigned(entries, key, t), Bindings(entries);
    var changed := m[key := t];
    BindingsAt(entries, key);
    FindsBindings(entries, m);
    AssignedShape(entries, key, t);
    hide Bindings, Assigned, Position, Keys, Unique;
    forall x ensures FindsAt(after, changed, x) { AssignedFinds(entries, key, t, m, x); }
    FindsBindings(after, changed);
  }

  lemma AssignedShape<Key(!new), T(!new)>(entries: seq<Entry<Key, T>>, key: Key, t: T)
    requires Unique(entries)
    ensures var after, i := Assigned(entries, key, t), Position(entries, key);
      Unique(after) && Keys(after) == if i < |entries| then Keys(entries) else Keys(entries) + [key]
  {
    var after, i := Assigned(entries, key, t), Position(entries, key);
    hide Position;
    assert forall j | 0 <= j < |after| :: after[j].key == if j < |entries| then entries[j].key else key;
    hide Assigned;
    UniqueKeys(entries);
    UniqueKeys(after);
    hide Unique;
  }

  lemma UniqueKeys<Key(!new), T(!new)>(entries: seq<Entry<Key, T>>)
    ensures Unique(entries) <==> forall i, j | 0 <= i < j < |entries| :: Keys(entries)[i] != Keys(entries)[j]
  {
    var keys := Keys(entries);
    if forall i, j | 0 <= i < j < |entries| :: keys[i] != keys[j] {
      forall i, j | 0 <= i < j < |entries| ensures entries[i].key != entries[j].key {
        assert keys[i] != keys[j];
      }
    }
  }

  lemma AssignedFinds<Key(!new), T(!new)>(entries: seq<Entry<Key, T>>, key: Key, t: T, m: map<Key, T>, x: Key)
    requires FindsAt(entries, m, x)
    ensures FindsAt(Assigned(entries, key, t), m[key := t], x)
  {
    var after, i, j := Assigned(entries, key, t), Position(entries, key), Position(entries, x);
    hide Position;
    PositionIs(after, x, if x == key then i else if j < |entries| then j else |after|);
  }

  lemma EmplacedView<Key(!new), T(!new)>(entries: seq<Entry<Key, T>>, key: Key, t: T)
    requires Unique(entries)
    ensures Unique(Emplaced(entries, key, t))
    ensures View(Emplaced(entries, key, t)) == ReferenceEmplace(View(entries), key, t)
  {
    BindingsAt(entries, key);
    if Position(entries, key) == |entries| { AssignedView(entries, key, t); }
  }

  lemma {:induction false} EmplacedAllView<Key(!new), T(!new)>(entries: seq<Entry<Key, T>>, more: seq<Entry<Key, T>>)
    requires Unique(entries)
    ensures Unique(EmplacedAll(entries, more))
    ensures View(EmplacedAll(entries, more)) == ReferenceEmplaceAll(View(entries), more)
    decreases |more|
  {
    if more != [] {
      var last := |more| - 1;
      EmplacedAllView(entries, more[..last]);
      EmplacedView(EmplacedAll(entries, more[..last]), more[last].key, more[last].value);
    }
  }

  lemma ErasedView<Key(!new), T(!new)>(entries: seq<Entry<Key, T>>, first: nat, last: nat)
    requires Unique(entries) && first <= last <= |entries|
    ensures Unique(Erased(entries, first, last))
    ensures View(Erased(entries, first, last)) == ReferencePerform(View(entries), EraseRange(first, last)).0
  {
    var after, m := Erased(entries, first, last), Bindings(entries);
    var gone := set key | key in Keys(entries)[first..last];
    FindsBindings(entries, m);
    ErasedShape(entries, first, last);
    hide Bindings, Erased, Unique, Keys;
    forall x ensures FindsAt(after, m - gone, x) {
      ErasedFinds(entries, first, last, m, gone, x);
    }
    FindsBindings(after, m - gone);
  }

  lemma ErasedFinds<Key(!new), T(!new)>(entries: seq<Entry<Key, T>>, first: nat, last: nat,
                                        m: map<Key, T>, gone: set<Key>, x: Key)
    requires Unique(entries) && first <= last <= |entries| && FindsAt(entries, m, x)
    requires gone == set key | key in Keys(entries)[first..last]
    ensures FindsAt(Erased(entries, first, last), m - gone, x)
  {
    ErasedShape(entries, first, last);
    ErasedPosition(entries, first, last, x);
    var after, j := Erased(entries, first, last), Position(entries, x);
    var k := Position(after, x);
    hide Erased, Unique, Keys, Position;
    assert k < |after| ==> after[k] == entries[j];
    assert x in gone <==> first <= j < last;
    assert k < |after| <==> j < |entries| && !(first <= j < last);
  }

  lemma ErasedShape<Key(!new), T(!new)>(entries: seq<Entry<Key, T>>, first: nat, last: nat)
    requires Unique(entries) && first <= last <= |entries|
    ensures var after := Erased(entries, first, last);
      Unique(after) && Keys(after) == Keys(entries)[..first] + Keys(entries)[last..]
      && forall j | 0 <= j < |after| :: after[j] == entries[if j < first then j else j + (last - first)]
  {
    var after := Erased(entries, first, last);
    assert forall j | 0 <= j < |after| :: after[j] == entries[if j < first then j else j + (last - first)];
  }

  lemma ErasedPosition<Key(!new), T(!new)>(entries: seq<Entry<Key, T>>, first: nat, last: nat, x: Key)
    requires Unique(entries) && first <= last <= |entries|
    ensures var after, j := Erased(entries, first, last), Position(entries, x);
      (x in Keys(entries)[first..last] <==> first <= j < last)
      && Position(after, x)
         == if j < first then j else if j < last then |after| else if j < |entries| then j - (last - first) else |after|
  {
    var after, j := Erased(entries, first, last), Position(entries, x);
    ErasedShape(entries, first, last);
    hide Erased, Position;
    InRange(entries, first, last, x, j);
    hide Keys;
    PositionIs(after, x,
      if j < first then j
      else if j < last || j == |entries| then |after|
      else j - (last - first));
  }

  lemma InRange<Key(!new), T(!new)>(entries: seq<Entry<Key, T>>, first: nat, last: nat, x: Key, j: nat)
    requires Unique(entries) && first <= last <= |entries| && j == Position(entries, x)
    ensures x in Keys(entries)[first..last] <==> first <= j < last
  {
    hide Position;
    var range := Keys(entries)[first..last];
    if first <= j < last { assert range[j - first] == x; }
  }

  lemma {:induction false} WithoutNone<Key>(order: seq<Key>, key: Key)
    requires key !in order
    ensures Without(order, key) == order
  {
    if order != [] { WithoutNone(order[1..], key); }
  }

  lemma {:induction false} WithoutOne<Key>(order: seq<Key>, key: Key, i: nat)
    requires i < |order| && order[i] == key && key !in order[..i] && key !in order[i + 1..]
    ensures Without(order, key) == order[..i] + order[i + 1..]
    decreases |order|
  {
    var tail := order[1..];
    if i == 0 {
      WithoutNone(tail, key);
    } else {
      SplitTail(order, i);
      WithoutOne(tail, key, i - 1);
    }
  }

  lemma SplitTail<Key>(order: seq<Key>, i: nat)
    requires 0 < i < |order|
    ensures order[..i] == [order[0]] + order[1..][..i - 1] && order[i + 1..] == order[1..][i..]
  {
  }

  // Where a key stands among distinct keys.
  lemma OnlyOnce<Key(!new), T(!new)>(entries: seq<Entry<Key, T>>, key: Key, i: nat)
    requires Unique(entries) && i == Position(entries, key)
    ensures i == |entries| ==> key !in Keys(entries)
    ensures i < |entries| ==>
      Keys(entries)[i] == key && key !in Keys(entries)[..i] && key !in Keys(entries)[i + 1..]
  {
    hide Position;
  }

  lemma PerformView<Key(!new), T(!new)>(entries: seq<Entry<Key, T>>, op: Operation<Key, T>)
    requires Unique(entries) && Permitted(entries, op)
    ensures Unique(Perform(entries, op).entries)
    ensures (View(Perform(entries, op).entries), Perform(entries, op).result) == ReferencePerform(View(entries), op)
  {
    match op
    case Emplace(key, t) =>
      BindingsAt(entries, key);
      EmplacedView(entries, key, t);
    case Assign(key, t) => AssignedView(entries, key, t);
    case EraseKey(key) => EraseKeyView(entries, key);
    case EraseRange(first, last) => ErasedView(entries, first, last);
    case InsertAll(more) => EmplacedAllView(entries, more);
  }

  lemma EraseKeyView<Key(!new), T(!new)>(entries: seq<Entry<Key, T>>, key: Key)
    requires Unique(entries)
    ensures var effect := Perform(entries, EraseKey(key));
      Unique(effect.entries) && (View(effect.entries), effect.result) == ReferencePerform(View(entries), EraseKey(key))
  {
    var i: nat, order, m := Position(entries, key), Keys(entries), Bindings(entries);
    BindingsAt(entries, key);
    OnlyOnce(entries, key, i);
    hide Bindings, Without;
    if i < |entries| {
      WithoutOne(order, key, i);
      ErasedView(entries, i, i + 1);
      var one := order[i..i + 1];
      assert one == [key];
      assert (set k | k in one) == {key};
    } else {
      WithoutNone(order, key);
      assert m - {key} == m;
    }
  }

  lemma {:induction false} RunPrefix<Key, T>(ops: seq<Operation<Key, T>>, i: nat)
    requires i <= |ops| && Run<Key, T>([], ops).Some?
    ensures Run<Key, T>([], ops[..i]).Some?
    decreases |ops|
  {
    if i < |ops| {
      var front := ops[..|ops| - 1];
      RunPrefix(front, i);
      assert front[..i] == ops[..i];
    } else {
      assert ops[..i] == ops;
    }
  }

  // Keys stay unique, survivors keep the order of insertion, and every run does what the
  // reference does.
  lemma {:induction false} RunIsReference<Key(!new), T(!new)>(ops: seq<Operation<Key, T>>)
    requires Run<Key, T>([], ops).Some?
    ensures var end := Run<Key, T>([], ops).value;
      Unique(end.entries) && (View(end.entries), end.results) == ReferenceRun(ops)
    decreases |ops|
  {
    if ops == [] {
      assert Keys<Key, T>([]) == [];
    } else {
      var front := ops[..|ops| - 1];
      RunIsReference(front);
      PerformView(Run<Key, T>([], front).value.entries, ops[|ops| - 1]);
      hide Perform, View, Unique;
    }
  }
}
