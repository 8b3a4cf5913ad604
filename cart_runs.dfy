/**
 * Day 13, the two searches of `Course`: the first collision, and the last cart
 * left when collided carts are taken off after every tick. Each tick sorts the
 * carts into reading order and moves them one at a time.
 */
module CartRuns {
  import opened Wrappers
  import opened Carts

  /** No cart comes before an earlier one in reading order. */
  predicate Ordered(cs: seq<Cart>)
  {
    forall i, j :: 0 <= i < j < |cs| ==> !Precedes(cs[j], cs[i])
  }

  /** `c` put in front of the first cart it does not come after. */
  function Insert(c: Cart, cs: seq<Cart>): (r: seq<Cart>)
    ensures multiset(r) == multiset(cs) + multiset{c}
  {
    if cs == [] || !Precedes(cs[0], c) then [c] + cs
    else
      assert cs == [cs[0]] + cs[1..];
      [cs[0]] + Insert(c, cs[1..])
  }

  /** Inserting into an ordered array keeps it ordered. */
  lemma {:induction false} InsertOrdered(c: Cart, cs: seq<Cart>)
    requires Ordered(cs)
    ensures Ordered(Insert(c, cs))
    decreases |cs|
  {
    if cs != [] && Precedes(cs[0], c) {
      var rest := Insert(c, cs[1..]);
      InsertOrdered(c, cs[1..]);
      var r := [cs[0]] + rest;
      forall j | 0 < j < |r|
        ensures !Precedes(r[j], cs[0])
      {
        assert r[j] in multiset(rest);
        if r[j] != c {
          assert r[j] in multiset(cs[1..]);
          var k :| 0 <= k < |cs[1..]| && cs[1..][k] == r[j];
          assert cs[k + 1] == r[j];
        } else {
          PrecedesOrder(cs[0], c, c);
        }
      }
      assert forall i, j :: 0 < i < j < |r| ==> r[i] == rest[i - 1] && r[j] == rest[j - 1];
    }
  }

  /** `sort()` on the carts: a rearrangement into reading order. The order among carts on one cell is
      not fixed by the program; this model keeps their order. */
  function Sorted(cs: seq<Cart>): (r: seq<Cart>)
    ensures multiset(r) == multiset(cs)
  {
    if cs == [] then []
    else
      assert cs == [cs[0]] + cs[1..];
      Insert(cs[0], Sorted(cs[1..]))
  }

  /** Sorting puts the carts in reading order. */
  lemma {:induction false} SortedOrdered(cs: seq<Cart>)
    ensures Ordered(Sorted(cs))
    decreases |cs|
  {
    if cs != [] {
      SortedOrdered(cs[1..]);
      InsertOrdered(cs[0], Sorted(cs[1..]));
    }
  }

  /** Sorting carts already in reading order leaves them as they are. */
  lemma {:induction false} SortedKeeps(cs: seq<Cart>)
    requires Ordered(cs)
    ensures Sorted(cs) == cs
    decreases |cs|
  {
    if cs != [] {
      assert Ordered(cs[1..]) by {
        forall i, j | 0 <= i < j < |cs[1..]|
          ensures !Precedes(cs[1..][j], cs[1..][i])
        {
          assert cs[1..][j] == cs[j + 1] && cs[1..][i] == cs[i + 1];
        }
      }
      SortedKeeps(cs[1..]);
      assert cs == [cs[0]] + cs[1..];
    }
  }

  /** The first pair of neighbouring carts, from index `k` on, that stand on one cell (lines 211-218). */
  function FirstAdjacent(cs: seq<Cart>, k: nat): (r: Option<nat>)
    ensures r.Some? ==> k <= r.value && r.value + 1 < |cs| && SamePlace(cs[r.value], cs[r.value + 1])
    ensures r.Some? ==> forall j :: k <= j < r.value ==> !SamePlace(cs[j], cs[j + 1])
    ensures r.None? ==> forall j :: k <= j < |cs| - 1 ==> !SamePlace(cs[j], cs[j + 1])
    decreases |cs| - k
  {
    if k + 1 >= |cs| then None
    else if SamePlace(cs[k], cs[k + 1]) then Some(k)
    else FirstAdjacent(cs, k + 1)
  }

  /** In reading order, carts on one cell are neighbours, so the check of neighbours finds every
      collision of an ordered array; the array stops being ordered as soon as a cart moves. */
  lemma OrderedAdjacentComplete(cs: seq<Cart>, i: nat, j: nat)
    requires Ordered(cs) && i < j < |cs| && SamePlace(cs[i], cs[j])
    ensures FirstAdjacent(cs, 0).Some?
  {
    assert SamePlace(cs[i], cs[i + 1]) by {
      PrecedesOrder(cs[i], cs[i + 1], cs[j]);
      PrecedesOrder(cs[i + 1], cs[j], cs[i]);
    }
  }

  /** The outcome of one tick. */
  datatype Tick = Crashed | Collided(x: int, y: int) | Ticked(carts: seq<Cart>)

  /** The outcome of a search: the program stops, returns a cell, or is still running when the fuel
      runs out. */
  datatype Run = Stopped | Found(x: int, y: int) | Unfinished

  /** One tick of `firstCollision` (lines 208-219) from cart `idx` on: move the cart, then report the
      first neighbouring pair on one cell. */
  function ScanFirst(track: seq<seq<Space>>, cs: seq<Cart>, idx: nat): Tick
    decreases |cs| - idx
  {
    if idx >= |cs| then Ticked(cs)
    else
      match Move(track, cs[idx])
      case None => Crashed
      case Some(c) =>
        var moved := cs[idx := c];
        match FirstAdjacent(moved, 0)
        case Some(k) => Collided(moved[k].x, moved[k].y)
        case None => ScanFirst(track, moved, idx + 1)
  }

  /** `firstCollision` (lines 194-223) for at most `fuel` ticks. */
  function RunFirst(track: seq<seq<Space>>, cs: seq<Cart>, fuel: nat): Run
    decreases fuel
  {
    if fuel == 0 then Unfinished
    else
      match ScanFirst(track, Sorted(cs), 0)
      case Crashed => Stopped
      case Collided(x, y) => Found(x, y)
      case Ticked(next) => RunFirst(track, next, fuel - 1)
  }

  /** The check of lines 211-218; the range `0 ..< count - 1` traps on an empty array. */
  method AdjacentCollision(cs: seq<Cart>) returns (r: Option<nat>)
    requires |cs| > 0
    ensures r == FirstAdjacent(cs, 0)
  {
    var k := 0;
    while k < |cs| - 1
      invariant 0 <= k <= |cs| - 1
      invariant FirstAdjacent(cs, 0) == FirstAdjacent(cs, k)
    {
      if cs[k].x == cs[k + 1].x && cs[k].y == cs[k + 1].y {
        return Some(k);
      }
      k := k + 1;
    }
    return None;
  }

  /** One tick of `firstCollision` (lines 208-219). */
  method TickFirst(track: seq<seq<Space>>, cs: seq<Cart>) returns (t: Tick)
    ensures t == ScanFirst(track, cs, 0)
  {
    var current := cs;
    var idx := 0;
    while idx < |current|
      invariant 0 <= idx <= |current| == |cs|
      invariant ScanFirst(track, cs, 0) == ScanFirst(track, current, idx)
      decreases |current| - idx
    {
      var c := Move(track, current[idx]);
      if c.None? {
        return Crashed;
      }
      current := current[idx := c.value];
      var k := AdjacentCollision(current);
      if k.Some? {
        return Collided(current[k.value].x, current[k.value].y);
      }
      idx := idx + 1;
    }
    return Ticked(current);
  }

  /** `firstCollision` (lines 194-223), for at most `fuel` ticks: sort, then tick. */
  method FirstCollision(track: seq<seq<Space>>, carts: seq<Cart>, fuel: nat) returns (r: Run)
    ensures r == RunFirst(track, carts, fuel)
  {
    var current := carts;
    var left: nat := fuel;
    while left > 0
      invariant left <= fuel
      invariant RunFirst(track, carts, fuel) == RunFirst(track, current, left)
    {
      current := Sorted(current);
      var t := TickFirst(track, current);
      match t
      case Crashed => return Stopped;
      case Collided(x, y) => return Found(x, y);
      case Ticked(next) => current := next;
      left := left - 1;
    }
    return Unfinished;
  }

  /** Carts on pairwise different cells. */
  predicate Apart(cs: seq<Cart>)
  {
    forall i, j :: 0 <= i < j < |cs| ==> !SamePlace(cs[i], cs[j])
  }

  /** Some other cart stands on the cell of cart `idx`. */
  predicate MeetsOther(cs: seq<Cart>, idx: int)
    requires 0 <= idx < |cs|
  {
    exists j :: 0 <= j < |cs| && j != idx && SamePlace(cs[j], cs[idx])
  }

  /** Carts `idx` onwards all move, and after every single move no two carts share a cell. */
  predicate NeverMeet(track: seq<seq<Space>>, cs: seq<Cart>, idx: nat)
    decreases |cs| - idx
  {
    idx >= |cs| ||
    (Move(track, cs[idx]).Some? && Apart(cs[idx := Move(track, cs[idx]).value]) &&
     NeverMeet(track, cs[idx := Move(track, cs[idx]).value], idx + 1))
  }

  /** The corrected tick: after each move the moved cart is compared with every other cart. */
  function ScanFirstFixed(track: seq<seq<Space>>, cs: seq<Cart>, idx: nat): Tick
    decreases |cs| - idx
  {
    if idx >= |cs| then Ticked(cs)
    else
      match Move(track, cs[idx])
      case None => Crashed
      case Some(c) =>
        var moved := cs[idx := c];
        if MeetsOther(moved, idx) then Collided(c.x, c.y) else ScanFirstFixed(track, moved, idx + 1)
  }

  /** From carts on different cells, moving one keeps them apart unless it meets another. */
  lemma MovedApart(cs: seq<Cart>, idx: nat, c: Cart)
    requires Apart(cs) && idx < |cs|
    ensures Apart(cs[idx := c]) <==> !MeetsOther(cs[idx := c], idx)
  {
    var moved := cs[idx := c];
    if MeetsOther(moved, idx) {
      var j :| 0 <= j < |moved| && j != idx && SamePlace(moved[j], moved[idx]);
      if j < idx {
        assert !Apart(moved) by { assert SamePlace(moved[j], moved[idx]); }
      } else {
        assert !Apart(moved) by { assert SamePlace(moved[idx], moved[j]); }
      }
    } else {
      forall i, j | 0 <= i < j < |moved|
        ensures !SamePlace(moved[i], moved[j])
      {
        if i == idx {
          assert !SamePlace(moved[j], moved[idx]);
        } else if j == idx {
          assert !SamePlace(moved[i], moved[idx]);
        } else {
          assert moved[i] == cs[i] && moved[j] == cs[j];
        }
      }
    }
  }

  /** The corrected tick, from carts on different cells, ends without a report exactly when no two
      carts ever share a cell during the tick. */
  lemma {:induction false} ScanFirstFixedMeaning(track: seq<seq<Space>>, cs: seq<Cart>, idx: nat)
    requires Apart(cs)
    ensures ScanFirstFixed(track, cs, idx).Ticked? <==> NeverMeet(track, cs, idx)
    decreases |cs| - idx
  {
    if idx < |cs| && Move(track, cs[idx]).Some? {
      var moved := cs[idx := Move(track, cs[idx]).value];
      MovedApart(cs, idx, Move(track, cs[idx]).value);
      if Apart(moved) {
        ScanFirstFixedMeaning(track, moved, idx + 1);
      }
    }
  }

  // The last cart.

  /** The numbers of the carts among the first `n` that are not cart `idx` by number but stand on its
      cell. */
  function OthersUpTo(cs: seq<Cart>, idx: nat, n: nat): set<int>
    requires idx < |cs| && n <= |cs|
  {
    set j | 0 <= j < n && !SameCart(cs[j], cs[idx]) && SamePlace(cs[j], cs[idx]) :: cs[j].id
  }

  /** Lines 251-260 over the first `n` carts: cart `idx` and every other cart on its cell are marked,
      whether or not that other cart was already marked. */
  function MarksUpTo(cs: seq<Cart>, idx: nat, n: nat): (m: set<int>)
    requires idx < |cs| && n <= |cs|
    ensures m == {} <==> OthersUpTo(cs, idx, n) == {}
  {
    if OthersUpTo(cs, idx, n) == {} then {} else OthersUpTo(cs, idx, n) + {cs[idx].id}
  }

  /** The marks after cart `idx` has moved. */
  function Marks(cs: seq<Cart>, idx: nat): set<int>
    requires idx < |cs|
  {
    MarksUpTo(cs, idx, |cs|)
  }

  /** The outcome of one tick of `lastCart`: the program stops, or the carts and the marked numbers. */
  datatype Sweep = SweepCrashed | Swept(carts: seq<Cart>, removed: set<int>)

  /** One tick of `lastCart` (lines 241-261) from cart `idx` on: a marked cart is skipped, any other
      one moves and marks. */
  function ScanLast(track: seq<seq<Space>>, cs: seq<Cart>, removed: set<int>, idx: nat): Sweep
    decreases |cs| - idx
  {
    if idx >= |cs| then Swept(cs, removed)
    else if cs[idx].id in removed then ScanLast(track, cs, removed, idx + 1)
    else
      match Move(track, cs[idx])
      case None => SweepCrashed
      case Some(c) =>
        var moved := cs[idx := c];
        ScanLast(track, moved, removed + Marks(moved, idx), idx + 1)
  }

  /** `removeAll(where:)` with the marked numbers: the unmarked carts, in order. */
  function Remaining(cs: seq<Cart>, removed: set<int>): (r: seq<Cart>)
    ensures |r| <= |cs|
  {
    if cs == [] then []
    else
      var n := |cs| - 1;
      Remaining(cs[..n], removed) + (if cs[n].id in removed then [] else [cs[n]])
  }

  /** Exactly the unmarked carts remain. */
  lemma {:induction false} RemainingMembers(cs: seq<Cart>, removed: set<int>, c: Cart)
    ensures c in Remaining(cs, removed) <==> c in cs && c.id !in removed
    decreases |cs|
  {
    if cs != [] {
      var n := |cs| - 1;
      assert cs == cs[..n] + [cs[n]];
      RemainingMembers(cs[..n], removed, c);
    }
  }

  /** `lastCart` (lines 225-273) for at most `fuel` ticks: sort, tick, take the marked carts off and
      stop when exactly one is left. */
  function RunLast(track: seq<seq<Space>>, cs: seq<Cart>, fuel: nat): Run
    decreases fuel, 0
  {
    if fuel == 0 then Unfinished else Follow(track, AfterTick(track, cs), fuel - 1)
  }

  /** How `lastCart` goes on after a tick (lines 266-271): it stops where the tick stops, ends with
      one cart left, and otherwise ticks again. */
  function Follow(track: seq<seq<Space>>, next: Option<seq<Cart>>, fuel: nat): Run
    decreases fuel, 1
  {
    match next
    case None => Stopped
    case Some(rest) => if |rest| == 1 then Found(rest[0].x, rest[0].y) else RunLast(track, rest, fuel)
  }

  /** The carts left after one tick of `lastCart`, or `None` where the program stops. */
  function AfterTick(track: seq<seq<Space>>, cs: seq<Cart>): Option<seq<Cart>>
  {
    match ScanLast(track, Sorted(cs), {}, 0)
    case SweepCrashed => None
    case Swept(moved, removed) => Some(Remaining(moved, removed))
  }

  /** The collision check of lines 251-260 after cart `idx` has moved. */
  method MarkCollisions(cs: seq<Cart>, idx: nat, removed: set<int>) returns (marked: set<int>)
    requires idx < |cs|
    ensures marked == removed + Marks(cs, idx)
  {
    marked := removed;
    var j := 0;
    while j < |cs|
      invariant 0 <= j <= |cs|
      invariant marked == removed + MarksUpTo(cs, idx, j)
    {
      assert OthersUpTo(cs, idx, j + 1) ==
        OthersUpTo(cs, idx, j) + (if !SameCart(cs[j], cs[idx]) && SamePlace(cs[j], cs[idx]) then {cs[j].id} else {});
      if cs[j].id == cs[idx].id {
        j := j + 1;
        continue;
      }
      if cs[j].x == cs[idx].x && cs[j].y == cs[idx].y {
        marked := marked + {cs[idx].id};
        marked := marked + {cs[j].id};
      }
      j := j + 1;
    }
  }

  /** One tick of `lastCart` (lines 239-261). */
  method TickLast(track: seq<seq<Space>>, cs: seq<Cart>) returns (s: Sweep)
    ensures s == ScanLast(track, cs, {}, 0)
  {
    var current := cs;
    var removedIDs: set<int> := {};
    var idx := 0;
    while idx < |current|
      invariant 0 <= idx <= |current| == |cs|
      invariant ScanLast(track, cs, {}, 0) == ScanLast(track, current, removedIDs, idx)
      decreases |current| - idx
    {
      if current[idx].id in removedIDs {
        idx := idx + 1;
        continue;
      }
      var c := Move(track, current[idx]);
      if c.None? {
        return SweepCrashed;
      }
      current := current[idx := c.value];
      removedIDs := MarkCollisions(current, idx, removedIDs);
      idx := idx + 1;
    }
    return Swept(current, removedIDs);
  }

  /** Lines 237-264: sort, tick, and take the marked carts off. */
  method SweepTick(track: seq<seq<Space>>, cs: seq<Cart>) returns (rest: Option<seq<Cart>>)
    ensures rest == AfterTick(track, cs)
  {
    var sorted := Sorted(cs);
    var s := TickLast(track, sorted);
    match s
    case SweepCrashed => return None;
    case Swept(moved, removed) => return Some(Remaining(moved, removed));
  }

  /** `lastCart` (lines 225-273), for at most `fuel` ticks. */
  method LastCart(track: seq<seq<Space>>, carts: seq<Cart>, fuel: nat) returns (r: Run)
    ensures r == RunLast(track, carts, fuel)
  {
    var current := carts;
    var left: nat := fuel;
    while left > 0
      invariant left <= fuel
      invariant RunLast(track, carts, fuel) == RunLast(track, current, left)
    {
      var next := SweepTick(track, current);
      if next.None? {
        return Stopped;
      }
      var rest := next.value;
      if |rest| == 1 {
        return Found(rest[0].x, rest[0].y);
      }
      current := rest;
      left := left - 1;
    }
    return Unfinished;
  }

  // The corrected last-cart tick.

  /** The unmarked carts other than cart `idx` standing on its cell. */
  function Partners(cs: seq<Cart>, idx: nat, removed: set<int>): set<int>
    requires idx < |cs|
  {
    set j | 0 <= j < |cs| && !SameCart(cs[j], cs[idx]) && SamePlace(cs[j], cs[idx]) && cs[j].id !in removed :: cs[j].id
  }

  /** The corrected check: only carts not yet marked count as partners in a collision, as the skip
      of marked carts on lines 242-245 intends. */
  function MarksRunning(cs: seq<Cart>, idx: nat, removed: set<int>): set<int>
    requires idx < |cs|
  {
    var others := Partners(cs, idx, removed);
    if others == {} then {} else others + {cs[idx].id}
  }

  /** The corrected tick of `lastCart`. */
  function ScanLastFixed(track: seq<seq<Space>>, cs: seq<Cart>, removed: set<int>, idx: nat): Sweep
    decreases |cs| - idx
  {
    if idx >= |cs| then Swept(cs, removed)
    else if cs[idx].id in removed then ScanLastFixed(track, cs, removed, idx + 1)
    else
      match Move(track, cs[idx])
      case None => SweepCrashed
      case Some(c) =>
        var moved := cs[idx := c];
        ScanLastFixed(track, moved, removed + MarksRunning(moved, idx, removed), idx + 1)
  }

  /** The carts left after one corrected tick. */
  function AfterTickFixed(track: seq<seq<Space>>, cs: seq<Cart>): Option<seq<Cart>>
  {
    match ScanLastFixed(track, Sorted(cs), {}, 0)
    case SweepCrashed => None
    case Swept(moved, removed) => Some(Remaining(moved, removed))
  }

  /** `lastCart` with the corrected check. */
  function RunLastFixed(track: seq<seq<Space>>, cs: seq<Cart>, fuel: nat): Run
    decreases fuel
  {
    if fuel == 0 then Unfinished
    else
      match AfterTickFixed(track, cs)
      case None => Stopped
      case Some(rest) => if |rest| == 1 then Found(rest[0].x, rest[0].y) else RunLastFixed(track, rest, fuel - 1)
  }

  /** No two carts share a number. */
  predicate UniqueIds(cs: seq<Cart>)
  {
    forall i, j :: 0 <= i < j < |cs| ==> cs[i].id != cs[j].id
  }

  /** No two unmarked carts share a cell. */
  predicate ApartRunning(cs: seq<Cart>, removed: set<int>)
  {
    forall i, j :: 0 <= i < j < |cs| && cs[i].id !in removed && cs[j].id !in removed ==> !SamePlace(cs[i], cs[j])
  }

  /** Marking a number no cart carries changes nothing. */
  lemma {:induction false} RemainingIgnores(cs: seq<Cart>, removed: set<int>, a: int)
    requires forall k :: 0 <= k < |cs| ==> cs[k].id != a
    ensures Remaining(cs, removed + {a}) == Remaining(cs, removed)
    decreases |cs|
  {
    if cs != [] {
      RemainingIgnores(cs[..|cs| - 1], removed, a);
    }
  }

  /** Marking the number of one unmarked cart takes exactly that cart off. */
  lemma {:induction false} RemainingDrop(cs: seq<Cart>, removed: set<int>, i: nat)
    requires UniqueIds(cs) && i < |cs| && cs[i].id !in removed
    ensures |Remaining(cs, removed + {cs[i].id})| + 1 == |Remaining(cs, removed)|
    decreases |cs|
  {
    var n := |cs| - 1;
    var front := cs[..n];
    if i == n {
      RemainingIgnores(front, removed, cs[i].id);
    } else {
      assert front[i] == cs[i];
      RemainingDrop(front, removed, i);
    }
  }

  /** Carts that move without changing number leave as many carts unmarked. */
  lemma {:induction false} RemainingSameIds(cs: seq<Cart>, ds: seq<Cart>, removed: set<int>)
    requires |cs| == |ds| && forall k :: 0 <= k < |cs| ==> cs[k].id == ds[k].id
    ensures |Remaining(cs, removed)| == |Remaining(ds, removed)|
    decreases |cs|
  {
    if cs != [] {
      var n := |cs| - 1;
      RemainingSameIds(cs[..n], ds[..n], removed);
    }
  }

  /** A moved cart with no partner leaves the unmarked carts apart. */
  lemma MoveAlone(cs: seq<Cart>, removed: set<int>, idx: nat, c: Cart)
    requires UniqueIds(cs) && ApartRunning(cs, removed) && idx < |cs| && c.id == cs[idx].id
    requires Partners(cs[idx := c], idx, removed) == {}
    ensures ApartRunning(cs[idx := c], removed)
  {
    var moved := cs[idx := c];
    forall i, j | 0 <= i < j < |moved| && moved[i].id !in removed && moved[j].id !in removed
      ensures !SamePlace(moved[i], moved[j])
    {
      if i == idx {
        assert moved[j].id !in Partners(moved, idx, removed);
      } else if j == idx {
        assert moved[i].id !in Partners(moved, idx, removed);
      } else {
        assert moved[i] == cs[i] && moved[j] == cs[j];
      }
    }
  }

  /** A moved cart meets at most one unmarked cart, since those were apart; returns its index. */
  lemma MeetsOne(cs: seq<Cart>, removed: set<int>, idx: nat, c: Cart) returns (j0: nat)
    requires UniqueIds(cs) && ApartRunning(cs, removed) && idx < |cs| && c.id == cs[idx].id
    requires Partners(cs[idx := c], idx, removed) != {}
    ensures j0 < |cs| && j0 != idx && cs[j0].id !in removed
    ensures Partners(cs[idx := c], idx, removed) == {cs[j0].id}
  {
    var moved := cs[idx := c];
    var others := Partners(moved, idx, removed);
    var a :| a in others;
    j0 :| 0 <= j0 < |moved| && !SameCart(moved[j0], moved[idx]) && SamePlace(moved[j0], moved[idx]) && moved[j0].id !in removed && moved[j0].id == a;
    assert j0 != idx && moved[j0] == cs[j0];
    forall b | b in others
      ensures b == a
    {
      var j1 :| 0 <= j1 < |moved| && !SameCart(moved[j1], moved[idx]) && SamePlace(moved[j1], moved[idx]) && moved[j1].id !in removed && moved[j1].id == b;
      assert j1 != idx && moved[j1] == cs[j1];
    }
  }

  /** Marking the moved cart and its one partner leaves the other unmarked carts apart. */
  lemma MeetsApart(cs: seq<Cart>, removed: set<int>, idx: nat, c: Cart, j0: nat)
    requires UniqueIds(cs) && ApartRunning(cs, removed) && idx < |cs| && j0 < |cs| && c.id == cs[idx].id
    ensures ApartRunning(cs[idx := c], removed + {c.id} + {cs[j0].id})
  {
    var moved := cs[idx := c];
    var marked := removed + {c.id} + {cs[j0].id};
    forall i, j | 0 <= i < j < |moved| && moved[i].id !in marked && moved[j].id !in marked
      ensures !SamePlace(moved[i], moved[j])
    {
      assert i != idx && j != idx;
      assert moved[i] == cs[i] && moved[j] == cs[j];
    }
  }

  /** One corrected move: from unmarked carts on different cells with different numbers, the moved
      cart meets at most one unmarked cart, and the two are marked together, so the unmarked carts
      stay apart and their number changes by 0 or 2. */
  lemma MoveFixedStep(cs: seq<Cart>, removed: set<int>, idx: nat, c: Cart)
    requires UniqueIds(cs) && ApartRunning(cs, removed) && idx < |cs| && cs[idx].id !in removed && c.id == cs[idx].id
    ensures var moved := cs[idx := c];
      var marked := removed + MarksRunning(moved, idx, removed);
      UniqueIds(moved) && ApartRunning(moved, marked) &&
      |Remaining(moved, marked)| % 2 == |Remaining(cs, removed)| % 2
  {
    var moved := cs[idx := c];
    RemainingSameIds(cs, moved, removed);
    assert UniqueIds(moved);
    if Partners(moved, idx, removed) == {} {
      assert removed + MarksRunning(moved, idx, removed) == removed;
      MoveAlone(cs, removed, idx, c);
    } else {
      var j0 := MeetsOne(cs, removed, idx, c);
      assert moved[j0] == cs[j0] && moved[idx] == c;
      assert removed + MarksRunning(moved, idx, removed) == removed + {c.id} + {cs[j0].id};
      RemainingDrop(moved, removed, idx);
      RemainingDrop(moved, removed + {c.id}, j0);
      MeetsApart(cs, removed, idx, c, j0);
    }
  }

  /** The corrected tick takes carts off in pairs that met while both were running: from carts with
      different numbers on different cells, the unmarked carts at the end are still apart and their
      number has the parity of the start, so an odd number of carts never runs out. */
  lemma {:induction false} SweepFixedPairs(track: seq<seq<Space>>, cs: seq<Cart>, removed: set<int>, idx: nat)
    requires UniqueIds(cs) && ApartRunning(cs, removed)
    ensures var s := ScanLastFixed(track, cs, removed, idx);
      s.Swept? ==>
        (UniqueIds(s.carts) && ApartRunning(s.carts, s.removed) &&
         |Remaining(s.carts, s.removed)| % 2 == |Remaining(cs, removed)| % 2)
    decreases |cs| - idx
  {
    if idx < |cs| {
      if cs[idx].id in removed {
        SweepFixedPairs(track, cs, removed, idx + 1);
      } else if Move(track, cs[idx]).Some? {
        var c := Move(track, cs[idx]).value;
        MoveMeaning(track, cs[idx]);
        var moved := cs[idx := c];
        MoveFixedStep(cs, removed, idx, c);
        SweepFixedPairs(track, moved, removed + MarksRunning(moved, idx, removed), idx + 1);
      }
    }
  }

  /** Every cart remains while none is marked. */
  lemma {:induction false} RemainingAll(cs: seq<Cart>)
    ensures Remaining(cs, {}) == cs
    decreases |cs|
  {
    if cs != [] {
      var n := |cs| - 1;
      RemainingAll(cs[..n]);
      assert cs == cs[..n] + [cs[n]];
    }
  }

  /** One corrected tick from sorted carts with different numbers on different cells leaves a number
      of carts of the same parity, so an odd number of carts never runs out. */
  lemma TickFixedParity(track: seq<seq<Space>>, cs: seq<Cart>)
    requires UniqueIds(Sorted(cs)) && ApartRunning(Sorted(cs), {})
    ensures AfterTickFixed(track, cs).Some? ==> |AfterTickFixed(track, cs).value| % 2 == |cs| % 2
  {
    SweepFixedPairs(track, Sorted(cs), {}, 0);
    RemainingAll(Sorted(cs));
    assert |Sorted(cs)| == |multiset(Sorted(cs))| == |multiset(cs)| == |cs|;
  }

  /** A cart that reaches a crossing turns as the crossing says (helper). */
  lemma MoveOntoCrossing(track: seq<seq<Space>>, c: Cart, x: int, y: int)
    requires x == c.x + DX(c.direction) && y == c.y + DY(c.direction)
    requires OnTrack(track, x, y) && track[y][x] == Intersection
    ensures Move(track, c) == Some(Cart(c.id, x, y, Turn(c.direction, c.turns), c.turns + 1))
  {
  }
  /** One unmarked cart that can move moves and marks (helper). */
  lemma ScanLastStep(track: seq<seq<Space>>, cs: seq<Cart>, removed: set<int>, idx: nat, c: Cart, next: set<int>)
    requires idx < |cs| && cs[idx].id !in removed && Move(track, cs[idx]) == Some(c)
    requires next == removed + Marks(cs[idx := c], idx)
    ensures ScanLast(track, cs, removed, idx) == ScanLast(track, cs[idx := c], next, idx + 1)
  {
  }
  /** The same step for the corrected tick (helper). */
  lemma ScanLastFixedStep(track: seq<seq<Space>>, cs: seq<Cart>, removed: set<int>, idx: nat, c: Cart, next: set<int>)
    requires idx < |cs| && cs[idx].id !in removed && Move(track, cs[idx]) == Some(c)
    requires next == removed + MarksRunning(cs[idx := c], idx, removed)
    ensures ScanLastFixed(track, cs, removed, idx) == ScanLastFixed(track, cs[idx := c], next, idx + 1)
  {
  }
  /** A tick that leaves other than one cart hands over to the next (helper). */
  lemma RunLastStep(track: seq<seq<Space>>, cs: seq<Cart>, fuel: nat, rest: seq<Cart>)
    requires fuel > 0 && AfterTick(track, cs) == Some(rest) && |rest| != 1
    ensures RunLast(track, cs, fuel) == RunLast(track, rest, fuel - 1)
  {
  }
  /** With no carts left, `lastCart` never returns. */
  lemma {:induction false} RunLastEmpty(track: seq<seq<Space>>, fuel: nat)
    ensures RunLast(track, [], fuel) == Unfinished
  {
    if fuel > 0 {
      assert Sorted([]) == [];
      assert AfterTick(track, []) == Some([]);
      RunLastStep(track, [], fuel, []);
      RunLastEmpty(track, fuel - 1);
    }
  }
  /** A tick that leaves no cart makes `lastCart` run for ever. */
  lemma RunLastNever(track: seq<seq<Space>>, cs: seq<Cart>, fuel: nat)
    requires AfterTick(track, cs) == Some([])
    ensures RunLast(track, cs, fuel) == Unfinished
  {
    if fuel > 0 {
      RunLastStep(track, cs, fuel, []);
      RunLastEmpty(track, fuel - 1);
    }
  }
  /** A cart whose other carts are all marked has no partner (helper). */
  lemma NoPartners(cs: seq<Cart>, idx: nat, removed: set<int>)
    requires idx < |cs|
    requires forall j :: 0 <= j < |cs| && !SameCart(cs[j], cs[idx]) ==> cs[j].id in removed
    ensures Partners(cs, idx, removed) == {}
  {
  }
  /** A tick that leaves one cart ends the corrected `lastCart` there (helper). */
  lemma RunLastFixedOne(track: seq<seq<Space>>, cs: seq<Cart>, fuel: nat, c: Cart)
    requires fuel > 0 && AfterTickFixed(track, cs) == Some([c])
    ensures RunLastFixed(track, cs, fuel) == Found(c.x, c.y)
  {
  }
}
