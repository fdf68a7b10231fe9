/** The position arithmetic of the carousel: clones around the items, and moving between
    absolute positions on the stage. */
module Carousel {
  import opened Arithmetic
  import opened Results

  // ----------------------------------------------------------------- remainders

  // The JavaScript operator: the remainder has the sign of the dividend.
  function JsMod(a: int, n: int): int
    requires n > 0
  {
    if a >= 0 then a % n else -(-a % n)
  }

  lemma ModPlus(a: int, n: int)
    requires n > 0
    ensures (a + n) % n == a % n && (a - n) % n == a % n
  {
    var q := a / n;
    assert a == n * q + a % n;
    assert n * (q + 1) == n * q + n && n * (q - 1) == n * q - n;
    ModUnique(a + n, n, q + 1, a % n);
    ModUnique(a - n, n, q - 1, a % n);
  }

  lemma ModRange(a: int, n: int)
    requires 0 <= a < n
    ensures a % n == a
  {
    ModUnique(a, n, 0, a);
  }

  // Adding n and taking the remainder again makes the JavaScript remainder an index.
  lemma JsModTwice(a: int, n: int)
    requires n > 0
    ensures -n < JsMod(a, n) < n
    ensures JsMod(JsMod(a, n) + n, n) == a % n
  {
    var r := JsMod(a, n);
    if a >= 0 {
      ModPlus(r, n);
      ModRange(r, n);
    } else {
      var q := -a / n;
      assert -a == n * q + -a % n;
      assert n * (-q) == -(n * q) && n * (-q - 1) == -(n * q) - n;
      if r == 0 {
        ModUnique(a, n, -q, 0);
        ModUnique(n, n, 1, 0);
      } else {
        ModUnique(a, n, -q - 1, r + n);
        ModRange(r + n, n);
      }
    }
  }

  lemma {:induction false} ModOfSum(a: int, b: int, n: int)
    requires n > 0
    ensures (a + b % n) % n == (a + b) % n
  {
    var q, c := b / n, a + b % n;
    var p := c / n;
    assert b == n * q + b % n && c == n * p + c % n;
    assert n * (p + q) == n * p + n * q;
    ModUnique(a + b, n, p + q, c % n);
  }

  // ---------------------------------------------------------- positions as numbers

  // normalize, with m clones around n items (0 for a relative position).
  function Normalize(n: nat, m: nat, position: int): (r: Option<int>)
    ensures n >= 1 ==> r.Some?
  {
    if n < 1 then None
    else if position < 0 || position >= n + m then
      Some(JsMod(JsMod(position - m / 2, n) + n, n) + m / 2)
    else Some(position)
  }

  // relative
  function Relative(n: nat, m: nat, position: int): (r: Option<int>)
    ensures n >= 1 ==> r.Some?
  {
    Normalize(n, 0, position - m / 2)
  }

  // The relative position is the distance from the first item, modulo the items.
  lemma RelativeIs(n: nat, m: nat, position: int)
    requires n >= 1
    ensures Relative(n, m, position) == Some((position - m / 2) % n)
  {
    var p := position - m / 2;
    JsModTwice(p, n);
    if 0 <= p < n { ModRange(p, n); }
  }

  // Normalizing keeps the position on the stage and the item it shows.
  lemma NormalizeKeeps(n: nat, m: nat, position: int)
    requires n >= 1 && m % 2 == 0
    ensures var r := Normalize(n, m, position).value;
      0 <= r < n + m && Relative(n, m, r) == Relative(n, m, position)
      && (0 <= position < n + m ==> r == position)
      && (!(0 <= position < n + m) ==> m / 2 <= r < m / 2 + n)
  {
    var p := position - m / 2;
    JsModTwice(p, n);
    RelativeIs(n, m, position);
    RelativeIs(n, m, Normalize(n, m, position).value);
    ModRange(p % n, n);
  }

  // The absolute position of the clone with an index.
  function CloneAt(n: nat, m: nat, i: nat): int {
    if i % 2 == 0 then m / 2 + n + i / 2 else m / 2 - (i + 1) / 2
  }

  // The relative position a clone stands for.
  function CloneOf(n: nat, i: nat): int
    requires n >= 1
  {
    if i % 2 == 0 then i / 2 % n else (n - 1 - i / 2) % n
  }

  lemma CloneShows(n: nat, m: nat, i: nat)
    requires n >= 1 && m % 2 == 0 && i < m
    ensures var p := CloneAt(n, m, i);
      (0 <= p < m / 2 || m / 2 + n <= p < m + n) && Relative(n, m, p) == Some(CloneOf(n, i))
  {
    var p := CloneAt(n, m, i);
    RelativeIs(n, m, p);
    if i % 2 == 0 {
      ModPlus(i / 2, n);
    } else {
      ModPlus(n - 1 - i / 2, n);
      assert p - m / 2 == n - 1 - i / 2 - n;
    }
  }

  // The index of the clone at a position outside the items.
  function IndexOfClone(n: nat, m: nat, p: int): int {
    if p < m / 2 then 2 * (m / 2 - p) - 1 else 2 * (p - m / 2 - n)
  }

  lemma CloneAtIndex(n: nat, m: nat, p: int)
    requires m % 2 == 0 && (0 <= p < m / 2 || m / 2 + n <= p < m + n)
    ensures 0 <= IndexOfClone(n, m, p) < m && CloneAt(n, m, IndexOfClone(n, m, p)) == p
  {
  }

  lemma CloneAtInjective(n: nat, m: nat, i: nat, j: nat)
    requires m % 2 == 0 && i < m && j < m && CloneAt(n, m, i) == CloneAt(n, m, j)
    ensures i == j
  {
  }

  // ------------------------------------------------------------------- moving

  function Sign(x: int): int { if x > 0 then 1 else if x < 0 then -1 else 0 }

  function Abs(x: int): nat { if x < 0 then -x else x }

  // Where a move starts, after an unseen jump, and where it is headed.
  datatype Move = Move(start: int, target: int)

  // The way from the current position to an item: the shorter one around, unless the
  // carousel rewinds.
  function Distance(n: nat, m: nat, rewind: bool, current: int, position: int): int
    requires n >= 1
  {
    var distance := position - Relative(n, m, current).value;
    if !rewind && 2 * Abs(distance) > n then distance - Sign(distance) * n else distance
  }

  // The loop case of to.
  function LoopMove(n: nat, m: nat, rewind: bool, current: int, position: int): Move
    requires n >= 1
  {
    var distance := Distance(n, m, rewind, current, position);
    var target, minimum, maximum := current + distance, m / 2, m / 2 + n - 1;
    var revert := JsMod(JsMod(target - minimum, n) + n, n) + minimum;
    if revert != target && 0 < revert - distance <= maximum then Move(revert - distance, revert)
    else Move(current, target)
  }

  lemma DistanceIs(n: nat, m: nat, rewind: bool, current: int, position: int)
    requires n >= 1
    ensures (current - m / 2 + Distance(n, m, rewind, current, position)) % n == position % n
  {
    var here, d := (current - m / 2) % n, Distance(n, m, rewind, current, position);
    RelativeIs(n, m, current);
    assert d == position - here || d == position - here - n || d == position - here + n;
    ModPlus(position, n);
    ModOfSum(here + d - here, current - m / 2, n);
    assert (d + here) % n == (d + (current - m / 2)) % n;
  }

  // The jump before a move shows the same item, and the move ends at the item asked for.
  lemma MoveReaches(n: nat, m: nat, rewind: bool, current: int, position: int)
    requires n >= 1 && m % 2 == 0
    ensures var move := LoopMove(n, m, rewind, current, position);
      Relative(n, m, move.start) == Relative(n, m, current)
      && Relative(n, m, move.target) == Some(position % n)
      && move.target - move.start == Distance(n, m, rewind, current, position)
      && (move.start == current || 0 < move.start < n + m / 2)
  {
    var d := Distance(n, m, rewind, current, position);
    var target := current + d;
    var move := LoopMove(n, m, rewind, current, position);
    DistanceIs(n, m, rewind, current, position);
    JsModTwice(target - m / 2, n);
    var r := (target - m / 2) % n;
    assert r == position % n by { assert target - m / 2 == current - m / 2 + d; }
    assert move == Move(current, target) || move == Move(r + m / 2 - d, r + m / 2);
    assert move == Move(current, target) || 0 < move.start < n + m / 2;
    hide Distance, LoopMove;
    RelativeIs(n, m, move.start);
    RelativeIs(n, m, move.target);
    RelativeIs(n, m, current);
    hide Relative;
    if move == Move(r + m / 2 - d, r + m / 2) {
      ModRange(r, n);
      WayBack(r, d, target - m / 2, n);
      assert target - m / 2 - d == current - m / 2;
    }
  }

  lemma WayBack(r: int, d: int, t: int, n: int)
    requires n > 0 && r == t % n
    ensures (r - d) % n == (t - d) % n
  {
    ModOfSum(-d, t, n);
    assert -d + t % n == r - d;
    assert -d + t == t - d;
  }

  // The move ends at the item itself, and not at a clone of it, whenever the place that it
  // would then have to start from is one of the stage up to the last item.
  lemma MoveEnds(n: nat, m: nat, rewind: bool, current: int, position: int)
    requires n >= 1 && m % 2 == 0
    ensures var move, way := LoopMove(n, m, rewind, current, position), Distance(n, m, rewind, current, position);
      var home := m / 2 + position % n;
      move == if 0 < home - way < m / 2 + n then Move(home - way, home) else Move(current, current + way)
  {
    var way := Distance(n, m, rewind, current, position);
    DistanceIs(n, m, rewind, current, position);
    assert current + way - m / 2 == current - m / 2 + way;
    JsModTwice(current + way - m / 2, n);
    hide Distance, JsMod, LoopMove;
    HomeMove(n, m, rewind, current, position, way, position % n);
  }

  lemma HomeMove(n: nat, m: nat, rewind: bool, current: int, position: int, way: int, r: int)
    requires n >= 1 && way == Distance(n, m, rewind, current, position)
    requires r == JsMod(JsMod(current + way - m / 2, n) + n, n)
    ensures var home := m / 2 + r;
      LoopMove(n, m, rewind, current, position)
      == if 0 < home - way < m / 2 + n then Move(home - way, home) else Move(current, current + way)
  {
    hide Distance, JsMod;
  }

  // To one of the items, a carousel that does not rewind goes at most half a round, and one
  // that rewinds goes straight from the item it shows.
  lemma MoveIsShort(n: nat, m: nat, rewind: bool, current: int, position: int)
    requires n >= 1 && 0 <= position < n
    ensures var move := LoopMove(n, m, rewind, current, position);
      var straight := position - (current - m / 2) % n;
      (rewind || 2 * Abs(straight) <= n ==> move.target - move.start == straight)
      && (!rewind ==> 2 * Abs(move.target - move.start) <= n)
  {
    RelativeIs(n, m, current);
  }

  // ---------------------------------------------------------------- the carousel

  // duration, where no factor means the configured speed.
  function Duration(smartSpeed: int, from: int, to: int, factor: Option<int>): int {
    if factor == Some(0) then 0
    else Places(from, to) * Abs(if factor.Some? then factor.value else smartSpeed)
  }

  // A speed of 0 means no animation. Otherwise each place on the way takes the factor, with
  // the first place always and no more than six counted, so that longer ways never take less.
  lemma DurationIs(smartSpeed: int, from: int, to: int, factor: Option<int>)
    ensures Duration(smartSpeed, from, to, Some(0)) == 0
    ensures factor != Some(0) ==>
      var speed := Abs(if factor.Some? then factor.value else smartSpeed);
      speed <= Duration(smartSpeed, from, to, factor) <= 6 * speed
      && (1 <= Abs(to - from) <= 6 ==> Duration(smartSpeed, from, to, factor) == Abs(to - from) * speed)
    ensures forall a, b | Abs(b - a) <= Abs(to - from) ::
      Duration(smartSpeed, a, b, factor) <= Duration(smartSpeed, from, to, factor)
  {
    if factor != Some(0) {
      var speed := Abs(if factor.Some? then factor.value else smartSpeed);
      Longer(1, Places(from, to), speed);
      Longer(Places(from, to), 6, speed);
      forall a, b | Abs(b - a) <= Abs(to - from)
        ensures Duration(smartSpeed, a, b, factor) <= Duration(smartSpeed, from, to, factor)
      {
        Longer(Places(a, b), Places(from, to), speed);
      }
    }
  }

  function Places(from: int, to: int): int { Min(Max(Abs(to - from), 1), 6) }

  lemma Longer(m: int, n: int, speed: nat)
    requires m <= n
    ensures m * speed <= n * speed
  {
    assert n * speed == m * speed + (n - m) * speed;
  }

  // The item at a relative position of any size.
  function ItemAt<Item>(items: seq<Item>, position: int): Item
    requires items != []
  {
    items[position % |items|]
  }

  // The clones that a pair adds stand for the k-th item and the k-th item from the end.
  lemma PairShows<Item>(items: seq<Item>, k: nat)
    requires items != []
    ensures var n := |items|;
      Normalize(n, 0, k) == Some(CloneOf(n, 2 * k)) && Normalize(n, 0, n - 1 - k) == Some(CloneOf(n, 2 * k + 1))
      && 0 <= CloneOf(n, 2 * k) < n && 0 <= CloneOf(n, 2 * k + 1) < n
      && items[CloneOf(n, 2 * k)] == ItemAt(items, k) && items[CloneOf(n, 2 * k + 1)] == ItemAt(items, -1 - k)
  {
    var n := |items|;
    RelativeIs(n, 0, k);
    RelativeIs(n, 0, n - 1 - k);
    ModPlus(-1 - k, n);
    assert 2 * k / 2 == k && (2 * k + 1) / 2 == k;
  }

  // Clones around the items continue them in both directions.
  lemma AroundItems<Item>(items: seq<Item>, prepend: seq<Item>, append: seq<Item>, p: nat)
    requires items != [] && |prepend| == |append| && p < |prepend| + |items| + |append|
    requires forall i | 0 <= i < |append| :: append[i] == ItemAt(items, i)
    requires forall i | 0 <= i < |prepend| :: prepend[i] == ItemAt(items, i - |prepend|)
    ensures (prepend + items + append)[p] == ItemAt(items, p - |prepend|)
  {
    var q, n := p - |prepend|, |items|;
    if 0 <= q < n {
      ModRange(q, n);
    } else if q >= n {
      ModPlus(q, n);
      assert append[q - n] == ItemAt(items, q - n);
    }
  }

  lemma AllAroundItems<Item>(items: seq<Item>, prepend: seq<Item>, append: seq<Item>)
    requires items != [] && |prepend| == |append|
    requires forall i | 0 <= i < |append| :: append[i] == ItemAt(items, i)
    requires forall i | 0 <= i < |prepend| :: prepend[i] == ItemAt(items, i - |prepend|)
    ensures var stage := prepend + items + append;
      forall p | 0 <= p < |stage| :: stage[p] == ItemAt(items, p - |prepend|)
  {
    hide ItemAt;
    var stage := prepend + items + append;
    forall p | 0 <= p < |stage| ensures stage[p] == ItemAt(items, p - |prepend|) {
      AroundItems(items, prepend, append, p);
    }
  }

  class Owl<Item(!new)> {
    var items: seq<Item>
    // The elements on the stage: clones, items, clones.
    var stage: seq<Item>
    // The relative positions of the clones, in the order they are made.
    var clones: seq<int>
    var current: int
    var speed: int

    const loop: bool
    const rewind: bool
    const center: bool
    const visible: nat
    const smartSpeed: int

    constructor (items: seq<Item>, loop: bool, rewind: bool, center: bool, visible: nat, smartSpeed: int)
      ensures this.items == items && this.stage == items && this.clones == [] && current == 0
      ensures this.loop == loop && this.rewind == rewind && this.center == center
      ensures this.visible == visible && this.smartSpeed == smartSpeed
    {
      this.items, this.stage, this.clones, this.current, this.speed := items, items, [], 0, 0;
      this.loop, this.rewind, this.center := loop, rewind, center;
      this.visible, this.smartSpeed := visible, smartSpeed;
    }

    // The clones come in pairs, one behind and one before the items.
    ghost predicate Cloned()
      reads this
    {
      |clones| % 2 == 0 && (!loop || items == [] ==> clones == [])
      && forall i | 0 <= i < |clones| :: items != [] && clones[i] == CloneOf(|items|, i)
    }

    // Every place on the stage shows the item of its relative position.
    ghost predicate Staged()
      reads this
    {
      |stage| == |items| + |clones|
      && forall p | 0 <= p < |stage| :: items != [] && stage[p] == ItemAt(items, p - |clones| / 2)
    }

    // How many clones are made.
    function Wanted(): nat
      reads this
    {
      var view, size := Max(visible * 2, 4), (|items| + 1) / 2 * 2;
      if loop && items != [] then if rewind then view else Max(view, size) else 0
    }

    // Numbers of clones that continue the items on both sides of the view: pairs, two views
    // of them and four at least, and for a carousel that does not rewind, all items.
    predicate Enough(count: nat)
      reads this
    {
      count % 2 == 0 && count >= 4 && count >= 2 * visible && (!rewind ==> count >= |items|)
    }

    // No more clones are made than needed, and none at all without loop or items.
    lemma WantedIs()
      ensures loop && items != [] ==> Enough(Wanted()) && forall count: nat | Enough(count) :: Wanted() <= count
      ensures !loop || items == [] ==> Wanted() == 0
    {
    }

    // The worker that makes the clones.
    method MakeClones()
      modifies this`clones, this`stage
      ensures Cloned() && Staged() && |clones| == Wanted()
    {
      hide ItemAt, CloneOf;
      var made, append, prepend := Pairs(Wanted() / 2);
      clones, stage := made, prepend + items + append;
      if items != [] { AllAroundItems(items, prepend, append); }
    }

    // Its loop.
    method Pairs(wanted: nat) returns (made: seq<int>, append: seq<Item>, prepend: seq<Item>)
      requires wanted > 0 ==> items != []
      ensures |made| == 2 * wanted && |append| == |prepend| == wanted
      ensures made != [] ==> items != []
      ensures forall i | 0 <= i < |made| :: made[i] == CloneOf(|items|, i)
      ensures forall i | 0 <= i < |append| :: append[i] == ItemAt(items, i)
      ensures forall i | 0 <= i < |prepend| :: prepend[i] == ItemAt(items, i - |prepend|)
    {
      hide ItemAt, CloneOf, Normalize;
      var n := |items|;
      made, append, prepend := [], [], [];
      var repeat := wanted;
      while repeat > 0
        invariant 0 <= repeat <= wanted && |made| == 2 * (wanted - repeat)
        invariant |append| == |prepend| == wanted - repeat
        invariant made != [] ==> items != []
        invariant forall i | 0 <= i < |made| :: made[i] == CloneOf(n, i)
        invariant forall i | 0 <= i < |append| :: append[i] == ItemAt(items, i)
        invariant forall i | 0 <= i < |prepend| :: prepend[i] == ItemAt(items, i - |prepend|)
      {
        PairShows(items, |made| / 2);
        ghost var before := prepend;
        made := made + [Normalize(n, 0, |made| / 2).value];
        append := append + [items[made[|made| - 1]]];
        made := made + [Normalize(n, 0, n - 1 - (|made| - 1) / 2).value];
        prepend := [items[made[|made| - 1]]] + prepend;
        assert forall i | 0 < i < |prepend| :: i - |prepend| == (i - 1) - |before| && prepend[i] == before[i - 1];
        repeat := repeat - 1;
      }
    }

    // The stage shows, at each absolute position, the item of its relative position.
    lemma StageShows(p: nat)
      requires Staged() && |clones| % 2 == 0 && p < |stage|
      ensures items != [] && Relative(|items|, |clones|, p).Some?
      ensures var r := Relative(|items|, |clones|, p).value; 0 <= r < |items| && stage[p] == items[r]
    {
      var shown := stage[p];
      assert items != [] && shown == ItemAt(items, p - |clones| / 2);
      RelativeIs(|items|, |clones|, p);
    }

    // clones: the absolute positions of the clones of an item, each of them once.
    method Clones(position: int) returns (found: seq<int>)
      requires Cloned()
      ensures forall p :: p in found <==>
        0 <= p < |items| + |clones| && !(|clones| / 2 <= p < |clones| / 2 + |items|)
        && Relative(|items|, |clones|, p) == Some(position)
      ensures forall i, j | 0 <= i < j < |found| :: found[i] != found[j]
    {
      var n, m := |items|, |clones|;
      found := [];
      var i := 0;
      while i < m
        invariant i <= m
        invariant forall p :: p in found <==> exists k | 0 <= k < i :: clones[k] == position && CloneAt(n, m, k) == p
        invariant forall a, b | 0 <= a < b < |found| :: found[a] != found[b]
      {
        if clones[i] == position {
          var p := CloneAt(n, m, i);
          forall k | 0 <= k < i ensures CloneAt(n, m, k) != p {
            if CloneAt(n, m, k) == p { CloneAtInjective(n, m, k, i); }
          }
          assert p !in found;
          found := found + [p];
        }
        i := i + 1;
      }
      forall p: int
        ensures (exists k | 0 <= k < m :: clones[k] == position && CloneAt(n, m, k) == p) <==>
          0 <= p < n + m && !(m / 2 <= p < m / 2 + n) && Relative(n, m, p) == Some(position)
      {
        CloneAmong(p, position);
      }
    }

    lemma CloneAmong(p: int, position: int)
      requires Cloned()
      ensures var n, m := |items|, |clones|;
        (exists k | 0 <= k < m :: clones[k] == position && CloneAt(n, m, k) == p) <==>
          0 <= p < n + m && !(m / 2 <= p < m / 2 + n) && Relative(n, m, p) == Some(position)
    {
      var n, m := |items|, |clones|;
      forall k | 0 <= k < m && CloneAt(n, m, k) == p
        ensures 0 <= p < n + m && !(m / 2 <= p < m / 2 + n) && Relative(n, m, p) == Some(clones[k])
      {
        CloneShows(n, m, k);
      }
      if 0 <= p < n + m && !(m / 2 <= p < m / 2 + n) {
        CloneAtIndex(n, m, p);
        assert CloneAt(n, m, IndexOfClone(n, m, p)) == p;
      }
    }

    // The largest position, without merged items and automatic widths.
    function Maximum(): int
      reads this
    {
      Max(if loop then |clones| / 2 + |items| - 1
          else if center then |items| - 1
          else |items| - visible, 0)
    }

    // From the positions up to the largest, the view shows items only: with loop the last
    // one shows the last item, otherwise a whole view fits behind it, or with center an item
    // stands in its middle.
    lemma MaximumIs(p: nat)
      ensures p <= Maximum() <==>
        p == 0 || (if loop then p < |clones| / 2 + |items| else if center then p < |items| else p + visible <= |items|)
    {
    }

    // current, called with a position. Handlers of the change event do not override it.
    method SetCurrent(position: int)
      requires Cloned()
      modifies this`current
      ensures current == if items == [] then old(current) else Normalize(|items|, |clones|, position).value
    {
      if |items| == 0 { return; }
      var normalized := Normalize(|items|, |clones|, position).value;
      if current != normalized { current := normalized; }
    }

    // reset
    method Reset(position: int)
      requires Cloned()
      modifies this`current, this`speed
      ensures items == [] ==> current == old(current) && speed == old(speed)
      ensures items != [] ==> current == Normalize(|items|, |clones|, position).value && speed == 0
    {
      var normalized := Normalize(|items|, |clones|, position);
      if normalized.None? { return; }
      speed := 0;
      current := normalized.value;
    }

    // Where a carousel without loop is headed: taken modulo the positions there are when it
    // rewinds, clamped to them otherwise.
    ghost function Bounded(position: int): int
      requires Maximum() + 1 > 0
      reads this
    {
      if rewind then position % (Maximum() + 1) else Max(0, Min(Maximum(), position))
    }

    // That is one of the positions, and those that are one already stay. Rewinding, the
    // position behind the largest is the first.
    lemma BoundedIs(position: int)
      ensures 0 <= Bounded(position) <= Maximum()
      ensures 0 <= position <= Maximum() ==> Bounded(position) == position
      ensures !rewind && position < 0 ==> Bounded(position) == 0
      ensures !rewind && position > Maximum() ==> Bounded(position) == Maximum()
      ensures rewind ==> Bounded(position + Maximum() + 1) == Bounded(position)
    {
      var n := Maximum() + 1;
      ModPlus(position, n);
      if 0 <= position < n { ModRange(position, n); }
    }

    // to. With loop, the carousel ends at the item asked for, wherever it was.
    method To(position: int, factor: Option<int>)
      requires Cloned() && items != []
      modifies this`current, this`speed
      ensures 0 <= current < |items| + |clones|
      ensures loop ==> Relative(|items|, |clones|, current) == Some(position % |items|)
      ensures loop ==>
        var move := LoopMove(|items|, |clones|, rewind, old(current), position);
        current == Normalize(|items|, |clones|, move.target).value
        && speed == Duration(smartSpeed, move.start, move.target, factor)
      ensures !loop ==> current == Normalize(|items|, 0, Bounded(position)).value
      ensures !loop ==> speed == Duration(smartSpeed, old(current), Bounded(position), factor)
    {
      var n, m := |items|, |clones|;
      var from, target := current, position;
      if loop {
        from, target := TurnLoop(position);
      } else if rewind {
        var maximum := Maximum() + 1;
        JsModTwice(position, maximum);
        target := JsMod(JsMod(position, maximum) + maximum, maximum);
      } else {
        target := Max(m / 2, Min(Maximum(), position));
      }
      NormalizeKeeps(n, m, target);
      hide Relative, Normalize, LoopMove, JsMod;
      speed := Duration(smartSpeed, from, target, factor);
      SetCurrent(target);
    }

    // The loop case, which may jump to another place that shows the same item.
    method TurnLoop(position: int) returns (from: int, target: int)
      requires Cloned() && items != [] && loop
      modifies this`current, this`speed
      ensures Move(from, target) == LoopMove(|items|, |clones|, rewind, old(current), position)
      ensures Relative(|items|, |clones|, from) == Relative(|items|, |clones|, old(current))
      ensures Relative(|items|, |clones|, target) == Some(position % |items|)
      ensures from == old(current) || current == from
    {
      var n, m := |items|, |clones|;
      from := current;
      var distance := WayTo(position);
      var minimum, maximum := m / 2, Maximum();
      hide Relative, JsMod, Normalize, Distance, LoopMove;
      target := from + distance;
      var revert := JsMod(JsMod(target - minimum, n) + n, n) + minimum;
      LoopMoveIs(n, m, rewind, from, position, distance, revert);
      MoveReaches(n, m, rewind, from, position);
      if revert != target && revert - distance <= maximum && revert - distance > 0 {
        from := revert - distance;
        target := revert;
        OnStage(n, m, from);
        Reset(from);
      }
    }

    // The shorter way around, unless the carousel rewinds.
    method WayTo(position: int) returns (distance: int)
      requires items != []
      ensures distance == Distance(|items|, |clones|, rewind, current, position)
    {
      hide Relative;
      var n := |items|;
      distance := position - Relative(n, |clones|, current).value;
      var direction := Sign(distance);
      TurnedBy(n, distance);
      if !rewind && 2 * Abs(distance) > n { distance := distance + direction * -1 * n; }
    }

    lemma TurnedBy(n: int, d: int)
      ensures d + Sign(d) * -1 * n == d - Sign(d) * n
    {
    }

    lemma LoopMoveIs(n: nat, m: nat, rewind: bool, from: int, position: int, distance: int, revert: int)
      requires n >= 1 && distance == Distance(n, m, rewind, from, position)
      requires revert == JsMod(JsMod(from + distance - m / 2, n) + n, n) + m / 2
      ensures LoopMove(n, m, rewind, from, position)
        == if revert != from + distance && 0 < revert - distance <= m / 2 + n - 1
           then Move(revert - distance, revert) else Move(from, from + distance)
    {
      hide JsMod, Distance;
    }

    lemma OnStage(n: nat, m: nat, p: int)
      requires n >= 1 && m % 2 == 0 && 0 <= p < n + m
      ensures Normalize(n, m, p) == Some(p)
    {
    }

    // next: no speed, and a speed of 0, mean the configured one.
    method Next(factor: Option<int>)
      requires Cloned() && items != []
      modifies this`current, this`speed
      ensures Stepped(old(current), 1)
      ensures Paced(old(current), 1, factor)
    {
      hide Relative, Normalize, LoopMove, Duration;
      RelativeIs(|items|, |clones|, current);
      To(Relative(|items|, |clones|, current).value + 1, Given(factor));
    }

    // prev
    method Prev(factor: Option<int>)
      requires Cloned() && items != []
      modifies this`current, this`speed
      ensures Stepped(old(current), -1)
      ensures Paced(old(current), -1, factor)
    {
      hide Relative, Normalize, LoopMove, Duration;
      RelativeIs(|items|, |clones|, current);
      To(Relative(|items|, |clones|, current).value - 1, Given(factor));
    }

    // Where a step from a position ends: in a loop at the neighbouring item, otherwise
    // clamped or, with rewind, taken modulo the maximum.
    ghost predicate Stepped(from: int, step: int)
      requires items != []
      reads this
    {
      var n, m := |items|, |clones|;
      var wanted := Relative(n, m, from).value + step;
      if loop then Relative(n, m, current) == Some(wanted % n)
      else current == Normalize(n, 0, Bounded(wanted)).value
    }

    ghost predicate Paced(from: int, step: int, factor: Option<int>)
      requires items != []
      reads this
    {
      var n, m := |items|, |clones|;
      var wanted := Relative(n, m, from).value + step;
      var move := if loop then LoopMove(n, m, rewind, from, wanted) else Move(from, Bounded(wanted));
      speed == Duration(smartSpeed, move.start, move.target, Given(factor))
    }
  }

  // speed || false
  function Given(factor: Option<int>): Option<int> {
    if factor == Some(0) then None else factor
  }

  // A step without a speed, or with a speed of 0, has the configured one.
  lemma StepsAnimated(smartSpeed: int, from: int, to: int, factor: Option<int>)
    ensures var speed := if factor.Some? && factor.value != 0 then factor.value else smartSpeed;
      Duration(smartSpeed, from, to, Given(factor)) == Places(from, to) * Abs(speed)
  {
  }
}
