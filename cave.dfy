/**
 * The Day-15 cave combat simulator: a grid of walls, open floor, elves and
 * goblins; units take turns in reading order, step one cell toward the nearest
 * reachable enemy and attack the weakest adjacent enemy.
 *
 * The pure part (points, cells, the path search, a whole turn and a whole
 * round) is written as functions; the class `Cave` mirrors the source's
 * methods and loops and is proved equal to them.
 */
module Combat {
  import opened Wrappers
  import PQ = PriorityQueues

  const ElfHP := 200
  const GoblinHP := 200
  const ElfAttack := 3
  const GoblinAttack := 3

  // ---------------------------------------------------------------- points

  datatype Point = Point(x: int, y: int) {
    function Up(): Point { Point(x, y - 1) }
    function Left(): Point { Point(x - 1, y) }
    function Right(): Point { Point(x + 1, y) }
    function Down(): Point { Point(x, y + 1) }
    /** The four neighbours, in the order every scan of the source uses. */
    function Surrounding(): seq<Point> { [Up(), Left(), Right(), Down()] }
  }

  /** `<` on points: reading order, row first, then column. */
  predicate Before(a: Point, b: Point)
  {
    a.y < b.y || (a.y == b.y && a.x < b.x)
  }

  lemma ReadingOrderIsStrictTotal(a: Point, b: Point, c: Point)
    ensures !Before(a, a)
    ensures Before(a, b) ==> !Before(b, a)
    ensures Before(a, b) && Before(b, c) ==> Before(a, c)
    ensures a == b || Before(a, b) || Before(b, a)
  {
  }

  lemma SurroundingAscends(p: Point)
    ensures Ascending(p.Surrounding())
  {
  }

  /** Strictly increasing in reading order. */
  predicate Ascending(ps: seq<Point>)
  {
    forall i, j :: 0 <= i < j < |ps| ==> Before(ps[i], ps[j])
  }

  function Abs(n: int): nat { if n < 0 then -n else n }

  /** The distance estimate the search adds to a step's cost. */
  function Manhattan(a: Point, b: Point): nat
  {
    Abs(a.x - b.x) + Abs(a.y - b.y)
  }

  // ----------------------------------------------------------------- cells

  datatype Space = Wall | Empty | Elf(id: int, hp: int) | Goblin(id: int, hp: int)

  predicate IsUnit(s: Space) { s.Elf? || s.Goblin? }

  /** `a` and `b` are units of opposite factions. */
  predicate Enemies(a: Space, b: Space)
  {
    (a.Elf? && b.Goblin?) || (a.Goblin? && b.Elf?)
  }

  datatype Faction = Elves | Goblins

  /** The hit points a cell contributes to a faction's total. */
  function HpOf(s: Space, f: Faction): int
  {
    match s
    case Elf(_, hp) => if f == Elves then hp else 0
    case Goblin(_, hp) => if f == Goblins then hp else 0
    case _ => 0
  }

  // ------------------------------------------------------------------ grid

  type Grid = seq<seq<Space>>

  predicate InGrid(g: Grid, p: Point)
  {
    0 <= p.y < |g| && 0 <= p.x < |g[p.y]|
  }

  function At(g: Grid, p: Point): Space
    requires InGrid(g, p)
  {
    g[p.y][p.x]
  }

  function Put(g: Grid, p: Point, s: Space): (r: Grid)
    requires InGrid(g, p)
    ensures SameShape(g, r) && At(r, p) == s
    ensures forall q :: InGrid(g, q) && q != p ==> At(r, q) == At(g, q)
  {
    g[p.y := g[p.y][p.x := s]]
  }

  predicate SameShape(g: Grid, h: Grid)
  {
    |g| == |h| && forall y :: 0 <= y < |g| ==> |g[y]| == |h[y]|
  }

  /** Rectangular, with walls all around: every neighbour read of the source stays in bounds. */
  ghost predicate Bordered(g: Grid)
  {
    && (forall y :: 0 <= y < |g| ==> |g[y]| == |g[0]|)
    && (forall y, x ::
          (0 <= y < |g| && 0 <= x < |g[y]| && (y == 0 || y == |g| - 1 || x == 0 || x == |g[y]| - 1))
          ==> g[y][x].Wall?)
  }

  /** An in-grid cell that is not a wall. */
  predicate Open(g: Grid, p: Point)
  {
    InGrid(g, p) && !At(g, p).Wall?
  }

  lemma NeighboursInGrid(g: Grid, p: Point)
    requires Bordered(g) && Open(g, p)
    ensures forall q :: q in p.Surrounding() ==> InGrid(g, q)
  {
    assert 0 < p.y < |g| - 1 && 0 < p.x < |g[p.y]| - 1;
  }

  lemma BorderedShape(g: Grid, h: Grid)
    requires Bordered(g) && SameShape(g, h)
    requires forall q :: InGrid(g, q) && At(g, q).Wall? ==> At(h, q).Wall?
    ensures Bordered(h)
  {
    forall y, x | 0 <= y < |h| && 0 <= x < |h[y]| && (y == 0 || y == |h| - 1 || x == 0 || x == |h[y]| - 1)
      ensures h[y][x].Wall?
    {
      assert At(g, Point(x, y)).Wall?;
    }
  }

  /** The points of `ps` that are Empty cells, in order: the source's `filter` on neighbour lists. */
  function EmptyAmong(g: Grid, ps: seq<Point>): seq<Point>
  {
    if ps == [] then []
    else (if InGrid(g, ps[0]) && At(g, ps[0]).Empty? then [ps[0]] else []) + EmptyAmong(g, ps[1..])
  }

  /** The filter keeps exactly the points of `ps` that are Empty grid cells. */
  lemma {:induction false} EmptyAmongMeaning(g: Grid, ps: seq<Point>)
    ensures forall q :: q in EmptyAmong(g, ps) <==> q in ps && InGrid(g, q) && At(g, q).Empty?
    decreases |ps|
  {
    if ps != [] {
      EmptyAmongMeaning(g, ps[1..]);
      assert ps == [ps[0]] + ps[1..];
    }
  }

  /** Filtering keeps the points in the order they came, so a list in strict reading order stays so. */
  lemma {:induction false} EmptyAmongAscends(g: Grid, ps: seq<Point>)
    requires Ascending(ps)
    ensures Ascending(EmptyAmong(g, ps))
    decreases |ps|
  {
    if ps != [] {
      EmptyAmongAscends(g, ps[1..]);
      EmptyAmongMeaning(g, ps[1..]);
      var rest := EmptyAmong(g, ps[1..]);
      forall q | q in rest ensures Before(ps[0], q) {
        var k :| 0 <= k < |ps[1..]| && ps[1..][k] == q;
        assert ps[k + 1] == q;
      }
    }
  }

  // ---------------------------------------------------------------- search

  /** The search's variables: the frontier queue's entries, `cameFrom` and `costSoFar`. */
  datatype SearchState = SearchState(frontier: seq<(Point, int)>, cameFrom: map<Point, Point>, costSoFar: map<Point, int>)

  /** The inner loop over the Empty neighbours of the point just popped. */
  function Relax(to: Point, s: SearchState, current: Point, neighbours: seq<Point>): SearchState
    decreases |neighbours|
  {
    if neighbours == [] then s
    else
      var next := neighbours[0];
      var soFar := if next in s.costSoFar then s.costSoFar[next] else 0;
      var newCost := soFar + 1;
      if next !in s.costSoFar || newCost < s.costSoFar[next] then
        var priority := newCost + Manhattan(to, next);
        Relax(to, SearchState(PQ.Insert(s.frontier, next, priority), s.cameFrom[next := current],
                              s.costSoFar[next := newCost]), current, neighbours[1..])
      else
        Relax(to, s, current, neighbours[1..])
  }

  /** Walking `cameFrom` back from `p` to `from`, at most `fuel` links, as a forward path. */
  function Reconstruct(cameFrom: map<Point, Point>, from: Point, p: Point, fuel: nat): seq<Point>
    decreases fuel
  {
    if p == from then [from]
    else if fuel == 0 || p !in cameFrom then []
    else Reconstruct(cameFrom, from, cameFrom[p], fuel - 1) + [p]
  }

  /** The `cameFrom` chain from `p` reaches `from` within `n` links. */
  ghost predicate Reaches(cameFrom: map<Point, Point>, from: Point, p: Point, n: nat)
    decreases n
  {
    p == from || (n > 0 && p in cameFrom && Reaches(cameFrom, from, cameFrom[p], n - 1))
  }

  function Cells(g: Grid): set<Point>
  {
    set y, x | 0 <= y < |g| && 0 <= x < |g[y]| :: Point(x, y)
  }

  lemma InCells(g: Grid, p: Point)
    requires InGrid(g, p)
    ensures p in Cells(g)
  {
    assert p == Point(p.x, p.y);
  }

  function Queued(s: SearchState): multiset<Point>
  {
    multiset(PQ.Items(s.frontier))
  }

  /** The state after discovering `next` from `current`, at cost 1. */
  function Discovered(to: Point, s: SearchState, current: Point, next: Point): SearchState
  {
    SearchState(PQ.Insert(s.frontier, next, 1 + Manhattan(to, next)), s.cameFrom[next := current], s.costSoFar[next := 1])
  }

  /** The state once the frontier's head is popped. */
  function Popped(s: SearchState): SearchState
    requires s.frontier != []
  {
    s.(frontier := s.frontier[1..])
  }

  /** One neighbour of the inner loop: only an undiscovered point is taken, at cost 1. */
  lemma RelaxCons(to: Point, s: SearchState, current: Point, ns: seq<Point>)
    requires ns != []
    ensures ns[0] !in s.costSoFar ==> Relax(to, s, current, ns) == Relax(to, Discovered(to, s, current, ns[0]), current, ns[1..])
    ensures ns[0] in s.costSoFar ==> Relax(to, s, current, ns) == Relax(to, s, current, ns[1..])
  {
  }

  /** The inner loop only discovers points among `ns`, and with none discovered leaves the frontier alone. */
  lemma {:induction false} RelaxProgress(to: Point, s: SearchState, current: Point, ns: seq<Point>)
    ensures var r := Relax(to, s, current, ns);
      && s.costSoFar.Keys <= r.costSoFar.Keys
      && (forall p :: p in r.costSoFar ==> p in s.costSoFar || p in ns)
      && (r.costSoFar.Keys == s.costSoFar.Keys ==> r.frontier == s.frontier)
    decreases |ns|
  {
    if ns != [] {
      var next := ns[0];
      if next !in s.costSoFar {
        var s1 := Discovered(to, s, current, next);
        RelaxCons(to, s, current, ns);
        RelaxProgress(to, s1, current, ns[1..]);
        assert next in s1.costSoFar.Keys - s.costSoFar.Keys;
      } else {
        RelaxCons(to, s, current, ns);
        RelaxProgress(to, s, current, ns[1..]);
      }
    }
  }

  /** Discovering new cells, all drawn from `ns`, shrinks the set of undiscovered cells. */
  lemma FewerUndiscovered(cells: set<Point>, a: set<Point>, b: set<Point>, ns: seq<Point>)
    requires a <= b && (forall p :: p in b ==> p in a || p in ns) && (forall p :: p in ns ==> p in cells)
    ensures a != b ==> |cells - b| < |cells - a|
  {
    if a != b {
      assert !(b <= a);
      var x :| x in b && x !in a;
      var small, big := cells - b, cells - a;
      assert small + {x} <= big && x !in small;
      assert big == (small + {x}) + (big - (small + {x}));
    }
  }

  /** The search loop, from state `s` on. */
  function Run(g: Grid, from: Point, to: Point, s: SearchState): Option<seq<Point>>
    decreases |Cells(g) - s.costSoFar.Keys|, |s.frontier|
  {
    if s.frontier == [] then None
    else
      var current := s.frontier[0].0;
      if current == to then Some(Reconstruct(s.cameFrom, from, to, |s.cameFrom|))
      else
        NextProgress(g, to, s);
        Run(g, from, to, Next(g, to, s))
  }

  /** The state after one more iteration of the search loop. */
  function Next(g: Grid, to: Point, s: SearchState): SearchState
    requires s.frontier != []
  {
    Relax(to, Popped(s), s.frontier[0].0, EmptyAmong(g, s.frontier[0].0.Surrounding()))
  }

  /** Each iteration discovers a new cell or shortens the frontier. */
  lemma NextProgress(g: Grid, to: Point, s: SearchState)
    requires s.frontier != []
    ensures var r := Next(g, to, s);
      || |Cells(g) - r.costSoFar.Keys| < |Cells(g) - s.costSoFar.Keys|
      || (r.costSoFar.Keys == s.costSoFar.Keys && |r.frontier| < |s.frontier|)
  {
    var current := s.frontier[0].0;
    var ns := EmptyAmong(g, current.Surrounding());
    EmptyAmongMeaning(g, current.Surrounding());
    RelaxProgress(to, Popped(s), current, ns);
    forall q | q in ns ensures q in Cells(g) {
      InCells(g, q);
    }
    FewerUndiscovered(Cells(g), s.costSoFar.Keys, Next(g, to, s).costSoFar.Keys, ns);
  }

  function Start(from: Point): SearchState
  {
    SearchState([(from, 0)], map[], map[from := 0])
  }

  /** `shortestPath(from:to:)`: the walk the search finds from `from` to `to`, if any. */
  function Search(g: Grid, from: Point, to: Point): Option<seq<Point>>
  {
    Run(g, from, to, Start(from))
  }

  // ------------------------------------------------------- search invariant

  /** Discovered points are `from` or Empty cells. */
  ghost predicate KeysOk(g: Grid, from: Point, keys: set<Point>)
  {
    && from in keys
    && forall p :: p in keys ==> p == from || (InGrid(g, p) && At(g, p).Empty?)
  }

  /** The frontier holds discovered points, each at most once, and `to` once it is discovered. */
  ghost predicate QueueOk(to: Point, queued: multiset<Point>, keys: set<Point>)
  {
    && (forall p :: p in queued ==> p in keys)
    && (forall p :: queued[p] <= 1)
    && (to in keys ==> to in queued)
  }

  /** Every discovered point but `from` has a neighbouring predecessor, and the chain ends at `from`. */
  ghost predicate LinksOk(from: Point, cameFrom: map<Point, Point>, keys: set<Point>)
  {
    && cameFrom.Keys == keys - {from}
    && (forall p :: p in cameFrom ==> cameFrom[p] in keys && p in cameFrom[p].Surrounding())
    && (forall p :: p in keys ==> Reaches(cameFrom, from, p, |cameFrom|))
  }

  /** If `q` is an Empty cell it has been discovered. */
  predicate Known(g: Grid, keys: set<Point>, q: Point)
  {
    InGrid(g, q) && At(g, q).Empty? ==> q in keys
  }

  /** All Empty neighbours of `p` have been discovered. */
  predicate Expanded(g: Grid, keys: set<Point>, p: Point)
  {
    Known(g, keys, p.Up()) && Known(g, keys, p.Left()) && Known(g, keys, p.Right()) && Known(g, keys, p.Down())
  }

  /** Every discovered point that has left the frontier, other than `pending`, has been expanded. */
  ghost predicate ClosedExcept(g: Grid, keys: set<Point>, queued: multiset<Point>, pending: Option<Point>)
  {
    forall p :: p in keys && p !in queued && Some(p) != pending ==> Expanded(g, keys, p)
  }

  /** What the search keeps true between iterations, apart from closure. */
  ghost predicate SearchFrame(g: Grid, from: Point, to: Point, s: SearchState)
  {
    && KeysOk(g, from, s.costSoFar.Keys)
    && QueueOk(to, Queued(s), s.costSoFar.Keys)
    && LinksOk(from, s.cameFrom, s.costSoFar.Keys)
  }

  ghost predicate SearchInv(g: Grid, from: Point, to: Point, s: SearchState)
  {
    SearchFrame(g, from, to, s) && ClosedExcept(g, s.costSoFar.Keys, Queued(s), None)
  }

  lemma {:induction false} ReachesMore(cameFrom: map<Point, Point>, from: Point, p: Point, n: nat, m: nat)
    requires Reaches(cameFrom, from, p, n) && n <= m
    ensures Reaches(cameFrom, from, p, m)
    decreases n
  {
    if p != from {
      ReachesMore(cameFrom, from, cameFrom[p], n - 1, m - 1);
    }
  }

  lemma {:induction false} ReachesExtend(cameFrom: map<Point, Point>, from: Point, p: Point, n: nat, x: Point, v: Point)
    requires Reaches(cameFrom, from, p, n) && x !in cameFrom && x != from
    ensures Reaches(cameFrom[x := v], from, p, n)
    decreases n
  {
    if p != from {
      ReachesExtend(cameFrom, from, cameFrom[p], n - 1, x, v);
    }
  }

  lemma InsertQueued(frontier: seq<(Point, int)>, next: Point, priority: int)
    ensures multiset(PQ.Items(PQ.Insert(frontier, next, priority))) == multiset(PQ.Items(frontier)) + multiset{next}
  {
    PQ.InsertItems(frontier, next, priority);
  }

  lemma DiscoveredQueued(to: Point, s: SearchState, current: Point, next: Point)
    ensures Queued(Discovered(to, s, current, next)) == Queued(s) + multiset{next}
    ensures Discovered(to, s, current, next).costSoFar.Keys == s.costSoFar.Keys + {next}
    ensures Discovered(to, s, current, next).cameFrom == s.cameFrom[next := current]
  {
    var priority := 1 + Manhattan(to, next);
    InsertQueued(s.frontier, next, priority);
    assert Discovered(to, s, current, next).frontier == PQ.Insert(s.frontier, next, priority);
  }

  lemma AddFresh(to: Point, m: multiset<Point>, keys: set<Point>, next: Point)
    requires QueueOk(to, m, keys) && next !in keys
    ensures QueueOk(to, m + multiset{next}, keys + {next})
  {
    forall p ensures (m + multiset{next})[p] <= 1 {
      assert (m + multiset{next})[p] == m[p] + multiset{next}[p];
    }
  }

  lemma AddLink(from: Point, cameFrom: map<Point, Point>, keys: set<Point>, current: Point, next: Point)
    requires LinksOk(from, cameFrom, keys) && current in keys && next !in keys && next != from
    requires next in current.Surrounding()
    ensures LinksOk(from, cameFrom[next := current], keys + {next})
  {
    var cf := cameFrom[next := current];
    forall p | p in keys + {next} ensures Reaches(cf, from, p, |cf|) {
      var p' := if p == next then current else p;
      assert Reaches(cameFrom, from, p', |cameFrom|);
      ReachesExtend(cameFrom, from, p', |cameFrom|, next, current);
      if p == next {
        ReachesMore(cf, from, current, |cameFrom|, |cf| - 1);
      } else {
        ReachesMore(cf, from, p, |cameFrom|, |cf|);
      }
    }
  }

  lemma AddClosed(g: Grid, keys: set<Point>, m: multiset<Point>, current: Point, next: Point)
    requires ClosedExcept(g, keys, m, Some(current))
    ensures ClosedExcept(g, keys + {next}, m + multiset{next}, Some(current))
  {
  }

  /** Discovering one new Empty neighbour `next` of `current` keeps the frame. */
  lemma Discover(g: Grid, from: Point, to: Point, s: SearchState, current: Point, next: Point)
    requires SearchFrame(g, from, to, s) && ClosedExcept(g, s.costSoFar.Keys, Queued(s), Some(current))
    requires current in s.costSoFar
    requires next in current.Surrounding() && InGrid(g, next) && At(g, next).Empty? && next !in s.costSoFar
    ensures var s1 := Discovered(to, s, current, next);
      SearchFrame(g, from, to, s1) && ClosedExcept(g, s1.costSoFar.Keys, Queued(s1), Some(current))
  {
    var keys, m := s.costSoFar.Keys, Queued(s);
    DiscoveredQueued(to, s, current, next);
    AddFresh(to, m, keys, next);
    AddLink(from, s.cameFrom, keys, current, next);
    AddClosed(g, keys, m, current, next);
  }

  /** The inner loop keeps the frame, leaves only `current` pending and discovers every neighbour. */
  lemma {:induction false} RelaxPreserves(g: Grid, from: Point, to: Point, s: SearchState, current: Point, ns: seq<Point>)
    requires SearchFrame(g, from, to, s) && ClosedExcept(g, s.costSoFar.Keys, Queued(s), Some(current))
    requires current in s.costSoFar
    requires forall q :: q in ns ==> q in current.Surrounding() && InGrid(g, q) && At(g, q).Empty?
    ensures var r := Relax(to, s, current, ns);
      && SearchFrame(g, from, to, r) && ClosedExcept(g, r.costSoFar.Keys, Queued(r), Some(current))
      && s.costSoFar.Keys <= r.costSoFar.Keys
      && (forall q :: q in ns ==> q in r.costSoFar)
    decreases |ns|
  {
    if ns != [] {
      var next := ns[0];
      if next !in s.costSoFar {
        Discover(g, from, to, s, current, next);
        var s1 := Discovered(to, s, current, next);
        RelaxCons(to, s, current, ns);
        RelaxPreserves(g, from, to, s1, current, ns[1..]);
      } else {
        RelaxCons(to, s, current, ns);
        RelaxPreserves(g, from, to, s, current, ns[1..]);
      }
    }
  }

  lemma PopQueued(s: SearchState)
    requires s.frontier != []
    ensures Queued(s) == Queued(Popped(s)) + multiset{s.frontier[0].0}
  {
    assert PQ.Items(s.frontier) == [s.frontier[0].0] + PQ.Items(s.frontier[1..]);
  }

  /** Removing one copy of `current` from a set-like queue. */
  lemma RemoveOne(to: Point, m: multiset<Point>, m0: multiset<Point>, keys: set<Point>, current: Point)
    requires QueueOk(to, m, keys) && m == m0 + multiset{current} && current != to
    ensures QueueOk(to, m0, keys) && current !in m0
    ensures forall p :: p !in m0 && p != current ==> p !in m
  {
    forall p ensures m[p] == m0[p] + multiset{current}[p] {
    }
  }

  lemma ClosedAfterPop(g: Grid, keys: set<Point>, m: multiset<Point>, m0: multiset<Point>, current: Point)
    requires ClosedExcept(g, keys, m, None)
    requires forall p :: p !in m0 && p != current ==> p !in m
    ensures ClosedExcept(g, keys, m0, Some(current))
  {
  }

  lemma PopKeeps(g: Grid, from: Point, to: Point, s: SearchState)
    requires SearchInv(g, from, to, s) && s.frontier != [] && s.frontier[0].0 != to
    ensures var current := s.frontier[0].0;
      && current in s.costSoFar
      && SearchFrame(g, from, to, Popped(s))
      && ClosedExcept(g, s.costSoFar.Keys, Queued(Popped(s)), Some(current))
      && current !in Queued(Popped(s))
  {
    var current := s.frontier[0].0;
    PopQueued(s);
    RemoveOne(to, Queued(s), Queued(Popped(s)), s.costSoFar.Keys, current);
    ClosedAfterPop(g, s.costSoFar.Keys, Queued(s), Queued(Popped(s)), current);
  }

  /** One iteration of the search loop keeps the invariant. */
  lemma Step(g: Grid, from: Point, to: Point, s: SearchState)
    requires SearchInv(g, from, to, s) && s.frontier != [] && s.frontier[0].0 != to
    ensures SearchInv(g, from, to, Next(g, to, s))
  {
    var current := s.frontier[0].0;
    PopKeeps(g, from, to, s);
    var ns := EmptyAmong(g, current.Surrounding());
    EmptyAmongMeaning(g, current.Surrounding());
    RelaxPreserves(g, from, to, Popped(s), current, ns);
    RelaxProgress(to, Popped(s), current, ns);
  }

  lemma StartInv(g: Grid, from: Point, to: Point)
    ensures SearchInv(g, from, to, Start(from))
  {
    assert PQ.Items([(from, 0)]) == [from];
  }

  /** A walk from `from` to `to` through Empty cells, one orthogonal step at a time. */
  ghost predicate IsWalk(g: Grid, from: Point, to: Point, path: seq<Point>)
  {
    && |path| >= 1 && path[0] == from && path[|path| - 1] == to
    && (forall i :: 0 < i < |path| ==> InGrid(g, path[i]) && At(g, path[i]).Empty?)
    && (forall i :: 0 <= i < |path| - 1 ==> path[i + 1] in path[i].Surrounding())
  }

  ghost predicate Reachable(g: Grid, from: Point, to: Point)
  {
    exists path :: IsWalk(g, from, to, path)
  }

  /** Following the `cameFrom` links back from a discovered point gives a walk from `from`. */
  lemma {:induction false} ReconstructWalk(g: Grid, from: Point, s: SearchState, p: Point, n: nat)
    requires KeysOk(g, from, s.costSoFar.Keys) && LinksOk(from, s.cameFrom, s.costSoFar.Keys)
    requires p in s.costSoFar && Reaches(s.cameFrom, from, p, n)
    ensures IsWalk(g, from, p, Reconstruct(s.cameFrom, from, p, n))
    decreases n
  {
    if p != from {
      var q := s.cameFrom[p];
      ReconstructWalk(g, from, s, q, n - 1);
      var w := Reconstruct(s.cameFrom, from, q, n - 1);
      assert Reconstruct(s.cameFrom, from, p, n) == w + [p];
    }
  }

  lemma {:induction false} RunSound(g: Grid, from: Point, to: Point, s: SearchState)
    requires SearchInv(g, from, to, s)
    ensures Run(g, from, to, s).Some? ==> IsWalk(g, from, to, Run(g, from, to, s).value)
    decreases |Cells(g) - s.costSoFar.Keys|, |s.frontier|
  {
    if s.frontier != [] {
      if s.frontier[0].0 == to {
        PopQueued(s);
        ReconstructWalk(g, from, s, to, |s.cameFrom|);
      } else {
        Step(g, from, to, s);
        NextProgress(g, to, s);
        RunSound(g, from, to, Next(g, to, s));
      }
    }
  }

  /** Once nothing is pending, every walk from `from` ends among the discovered points. */
  lemma {:induction false} WalkStaysDiscovered(g: Grid, from: Point, to: Point, keys: set<Point>, path: seq<Point>, i: nat)
    requires from in keys && ClosedExcept(g, keys, multiset{}, None)
    requires IsWalk(g, from, to, path) && i < |path|
    ensures path[i] in keys
    decreases i
  {
    if i > 0 {
      WalkStaysDiscovered(g, from, to, keys, path, i - 1);
      assert path[i] in path[i - 1].Surrounding();
      assert Expanded(g, keys, path[i - 1]);
    }
  }

  lemma ClosedReach(g: Grid, from: Point, keys: set<Point>)
    requires from in keys && ClosedExcept(g, keys, multiset{}, None)
    ensures forall to, path :: IsWalk(g, from, to, path) ==> to in keys
  {
    forall to, path | IsWalk(g, from, to, path) ensures to in keys {
      WalkStaysDiscovered(g, from, to, keys, path, |path| - 1);
    }
  }

  lemma {:induction false} RunComplete(g: Grid, from: Point, to: Point, s: SearchState)
    requires SearchInv(g, from, to, s)
    ensures Run(g, from, to, s) == None ==> !Reachable(g, from, to)
    decreases |Cells(g) - s.costSoFar.Keys|, |s.frontier|
  {
    if s.frontier == [] {
      assert Queued(s) == multiset{};
      ClosedReach(g, from, s.costSoFar.Keys);
    } else if s.frontier[0].0 != to {
      Step(g, from, to, s);
      NextProgress(g, to, s);
      RunComplete(g, from, to, Next(g, to, s));
    }
  }

  /** The search finds a walk exactly when one exists, and what it finds is one. */
  lemma SearchCorrect(g: Grid, from: Point, to: Point)
    ensures Search(g, from, to).Some? <==> Reachable(g, from, to)
    ensures Search(g, from, to).Some? ==> IsWalk(g, from, to, Search(g, from, to).value)
  {
    StartInv(g, from, to);
    RunSound(g, from, to, Start(from));
    RunComplete(g, from, to, Start(from));
  }

  /** A search from a point to itself is the one-point walk. */
  lemma SearchToSelf(g: Grid, p: Point)
    ensures Search(g, p, p) == Some([p])
  {
  }

  // --------------------------------------------------------------- targets

  /** `q` is a grid cell holding an enemy of `mover`. */
  predicate FoeAt(g: Grid, mover: Space, q: Point)
  {
    InGrid(g, q) && Enemies(mover, At(g, q))
  }

  /** Some neighbour of `p` holds an enemy of `mover`: the early exit of `nextElfMovement`/`nextGoblinMovement`. */
  predicate FoeAdjacent(g: Grid, mover: Space, p: Point)
  {
    FoeAt(g, mover, p.Up()) || FoeAt(g, mover, p.Left()) || FoeAt(g, mover, p.Right()) || FoeAt(g, mover, p.Down())
  }

  /** The Empty cells around (x, y), up, left, right, down, when it holds an enemy of `mover`. */
  function CellTargets(g: Grid, mover: Space, x: int, y: int): seq<Point>
  {
    if FoeAt(g, mover, Point(x, y)) then EmptyAmong(g, Point(x, y).Surrounding()) else []
  }

  /** The targets contributed by the first `n` cells of row `y`. */
  function RowTargets(g: Grid, mover: Space, y: int, n: nat): seq<Point>
    decreases n
  {
    if n == 0 then [] else RowTargets(g, mover, y, n - 1) + CellTargets(g, mover, n - 1, y)
  }

  /** One more cell of row `y`: its targets are appended when it holds an enemy. */
  lemma RowTargetsStep(g: Grid, mover: Space, y: int, x: nat)
    requires 0 <= y < |g| && x < |g[y]|
    ensures Enemies(mover, g[y][x]) ==> RowTargets(g, mover, y, x + 1) == RowTargets(g, mover, y, x) + EmptyAmong(g, Point(x, y).Surrounding())
    ensures !Enemies(mover, g[y][x]) ==> RowTargets(g, mover, y, x + 1) == RowTargets(g, mover, y, x)
  {
    assert At(g, Point(x, y)) == g[y][x];
  }

  /** The targets contributed by the first `m` rows, scanned in reading order. */
  function GridTargets(g: Grid, mover: Space, m: nat): seq<Point>
    requires m <= |g|
    decreases m
  {
    if m == 0 then [] else GridTargets(g, mover, m - 1) + RowTargets(g, mover, m - 1, |g[m - 1]|)
  }

  /** `nextElfMovement`/`nextGoblinMovement`: no destinations when already beside an enemy, else every Empty cell beside one. */
  function Destinations(g: Grid, p: Point): Option<seq<Point>>
    requires InGrid(g, p)
  {
    if FoeAdjacent(g, At(g, p), p) then None else Some(GridTargets(g, At(g, p), |g|))
  }

  /** `q` is an Empty cell next to the enemy of `mover` at `e`. */
  ghost predicate Beside(g: Grid, mover: Space, q: Point, e: Point)
  {
    FoeAt(g, mover, e) && q in e.Surrounding() && InGrid(g, q) && At(g, q).Empty?
  }

  lemma {:induction false} RowTargetsMeaning(g: Grid, mover: Space, y: int, n: nat, q: Point)
    ensures q in RowTargets(g, mover, y, n) <==> exists x :: 0 <= x < n && Beside(g, mover, q, Point(x, y))
    decreases n
  {
    if n > 0 {
      var before, cell := RowTargets(g, mover, y, n - 1), CellTargets(g, mover, n - 1, y);
      assert RowTargets(g, mover, y, n) == before + cell;
      RowTargetsMeaning(g, mover, y, n - 1, q);
      EmptyAmongMeaning(g, Point(n - 1, y).Surrounding());
      if q in before + cell {
        if q in cell {
          assert Beside(g, mover, q, Point(n - 1, y));
        } else {
          var x :| 0 <= x < n - 1 && Beside(g, mover, q, Point(x, y));
          assert 0 <= x < n;
        }
      }
      if exists x :: 0 <= x < n && Beside(g, mover, q, Point(x, y)) {
        var x :| 0 <= x < n && Beside(g, mover, q, Point(x, y));
        if x == n - 1 {
          assert q in cell;
        } else {
          assert q in before;
        }
      }
    }
  }

  /** A target found in row `y` is among the targets of every row prefix that includes that row. */
  lemma {:induction false} RowInGridTargets(g: Grid, mover: Space, m: nat, y: int, q: Point)
    requires 0 <= y < m <= |g| && q in RowTargets(g, mover, y, |g[y]|)
    ensures q in GridTargets(g, mover, m)
    decreases m
  {
    var before, row := GridTargets(g, mover, m - 1), RowTargets(g, mover, m - 1, |g[m - 1]|);
    assert GridTargets(g, mover, m) == before + row;
    if y < m - 1 {
      RowInGridTargets(g, mover, m - 1, y, q);
    }
  }

  /** Every target of the first `m` rows comes from one of those rows. */
  lemma {:induction false} GridTargetsRow(g: Grid, mover: Space, m: nat, q: Point) returns (y: int)
    requires m <= |g| && q in GridTargets(g, mover, m)
    ensures 0 <= y < m && q in RowTargets(g, mover, y, |g[y]|)
    decreases m
  {
    var before, row := GridTargets(g, mover, m - 1), RowTargets(g, mover, m - 1, |g[m - 1]|);
    assert GridTargets(g, mover, m) == before + row;
    if q in row {
      y := m - 1;
    } else {
      y := GridTargetsRow(g, mover, m - 1, q);
    }
  }

  /** The destinations are exactly the Empty cells next to an enemy (listed once per such enemy). */
  lemma TargetsBesideFoes(g: Grid, mover: Space, q: Point)
    ensures q in GridTargets(g, mover, |g|) <==> exists e :: Beside(g, mover, q, e)
  {
    if q in GridTargets(g, mover, |g|) {
      var y := GridTargetsRow(g, mover, |g|, q);
      RowTargetsMeaning(g, mover, y, |g[y]|, q);
      var x :| 0 <= x < |g[y]| && Beside(g, mover, q, Point(x, y));
    }
    if exists e :: Beside(g, mover, q, e) {
      var e :| Beside(g, mover, q, e);
      RowTargetsMeaning(g, mover, e.y, |g[e.y]|, q);
      assert Beside(g, mover, q, Point(e.x, e.y));
      RowInGridTargets(g, mover, |g|, e.y, q);
    }
  }

  // ------------------------------------------------------------- ordering

  /** `a` does not come after `b` in reading order. */
  predicate NotAfter(a: Point, b: Point)
  {
    !Before(b, a)
  }

  predicate SortedPoints(ps: seq<Point>)
  {
    forall i, j :: 0 <= i < j < |ps| ==> NotAfter(ps[i], ps[j])
  }

  function InsertPoint(p: Point, ps: seq<Point>): (r: seq<Point>)
    ensures multiset(r) == multiset(ps) + multiset{p}
  {
    if ps == [] then [p]
    else if NotAfter(p, ps[0]) then [p] + ps
    else
      assert ps == [ps[0]] + ps[1..];
      [ps[0]] + InsertPoint(p, ps[1..])
  }

  lemma {:induction false} InsertPointSorted(p: Point, ps: seq<Point>)
    requires SortedPoints(ps)
    ensures SortedPoints(InsertPoint(p, ps))
    ensures forall q :: q in InsertPoint(p, ps) ==> q == p || q in ps
  {
    if ps != [] {
      if NotAfter(p, ps[0]) {
        forall j | 0 <= j < |ps| ensures NotAfter(p, ps[j]) {
          ReadingOrderIsStrictTotal(ps[j], ps[0], p);
        }
      } else {
        InsertPointSorted(p, ps[1..]);
        var rest := InsertPoint(p, ps[1..]);
        forall q | q in rest ensures NotAfter(ps[0], q) {
          ReadingOrderIsStrictTotal(p, ps[0], q);
        }
      }
    }
  }

  /** `targetPoints.sort()`: reading order, duplicates kept. */
  function SortPoints(ps: seq<Point>): (r: seq<Point>)
    ensures SortedPoints(r) && multiset(r) == multiset(ps)
  {
    if ps == [] then [] else
      assert ps == [ps[0]] + ps[1..];
      InsertPointSorted(ps[0], SortPoints(ps[1..]));
      InsertPoint(ps[0], SortPoints(ps[1..]))
  }

  // -------------------------------------------------------------- movement

  /** Keeps the first path found of the smallest length: the strict `<` against `bestDistance`. */
  function Shorter(best: Option<seq<Point>>, found: Option<seq<Point>>): Option<seq<Point>>
  {
    if found.Some? && (best.None? || |found.value| < |best.value|) then found else best
  }

  /** The inner loop of `nextMovement`: every source point towards one target. */
  function BestFromSources(g: Grid, target: Point, sources: seq<Point>, best: Option<seq<Point>>): Option<seq<Point>>
    decreases |sources|
  {
    if sources == [] then best
    else BestFromSources(g, target, sources[1..], Shorter(best, Search(g, sources[0], target)))
  }

  /** The outer loop of `nextMovement`: every target, in order. */
  function BestPath(g: Grid, targets: seq<Point>, sources: seq<Point>, best: Option<seq<Point>>): Option<seq<Point>>
    decreases |targets|
  {
    if targets == [] then best
    else BestPath(g, targets[1..], sources, BestFromSources(g, targets[0], sources, best))
  }

  /** `path` is what the search returns from some source to some target. */
  ghost predicate Found(g: Grid, targets: seq<Point>, sources: seq<Point>, path: seq<Point>)
  {
    exists i, j :: 0 <= i < |targets| && 0 <= j < |sources| && Search(g, sources[j], targets[i]) == Some(path)
  }

  /** No path found between any source and any target is shorter than `len`. */
  ghost predicate NoneShorter(g: Grid, targets: seq<Point>, sources: seq<Point>, len: nat)
  {
    forall i, j :: 0 <= i < |targets| && 0 <= j < |sources| && Search(g, sources[j], targets[i]).Some?
      ==> len <= |Search(g, sources[j], targets[i]).value|
  }

  ghost predicate NoneFound(g: Grid, targets: seq<Point>, sources: seq<Point>)
  {
    forall i, j :: 0 <= i < |targets| && 0 <= j < |sources| ==> Search(g, sources[j], targets[i]).None?
  }

  lemma {:induction false} BestFromSourcesNone(g: Grid, target: Point, sources: seq<Point>, best: Option<seq<Point>>)
    ensures BestFromSources(g, target, sources, best).None? <==> best.None? && NoneFound(g, [target], sources)
    decreases |sources|
  {
    if sources != [] {
      BestFromSourcesNone(g, target, sources[1..], Shorter(best, Search(g, sources[0], target)));
      NoneFoundSources(g, target, sources);
    }
  }

  lemma NoneFoundSources(g: Grid, target: Point, sources: seq<Point>)
    requires sources != []
    ensures NoneFound(g, [target], sources) <==> Search(g, sources[0], target).None? && NoneFound(g, [target], sources[1..])
  {
    if Search(g, sources[0], target).None? && NoneFound(g, [target], sources[1..]) {
      forall i, j | 0 <= i < 1 && 0 <= j < |sources| ensures Search(g, sources[j], [target][i]).None? {
        if j > 0 {
          assert Search(g, sources[1..][j - 1], [target][i]).None?;
        }
      }
    }
    if NoneFound(g, [target], sources) {
      assert Search(g, sources[0], [target][0]).None?;
      forall i, j | 0 <= i < 1 && 0 <= j < |sources[1..]| ensures Search(g, sources[1..][j], [target][i]).None? {
        assert Search(g, sources[j + 1], [target][i]).None?;
      }
    }
  }

  lemma {:induction false} BestFromSourcesFound(g: Grid, target: Point, sources: seq<Point>, best: Option<seq<Point>>)
    ensures var r := BestFromSources(g, target, sources, best);
      r.Some? ==> r == best || Found(g, [target], sources, r.value)
    decreases |sources|
  {
    if sources != [] {
      var b1 := Shorter(best, Search(g, sources[0], target));
      BestFromSourcesFound(g, target, sources[1..], b1);
      var r := BestFromSources(g, target, sources[1..], b1);
      if r.Some? && r != best && r != b1 {
        var i, j :| 0 <= i < 1 && 0 <= j < |sources[1..]| && Search(g, sources[1..][j], [target][i]) == Some(r.value);
        assert Search(g, sources[j + 1], [target][0]) == Some(r.value);
      }
      if r.Some? && r == b1 && r != best {
        assert Search(g, sources[0], [target][0]) == Some(r.value);
      }
    }
  }

  lemma {:induction false} BestFromSourcesShortest(g: Grid, target: Point, sources: seq<Point>, best: Option<seq<Point>>)
    ensures var r := BestFromSources(g, target, sources, best);
      && (r.Some? ==> NoneShorter(g, [target], sources, |r.value|))
      && (best.Some? ==> r.Some? && |r.value| <= |best.value|)
    decreases |sources|
  {
    if sources != [] {
      var found := Search(g, sources[0], target);
      var b1 := Shorter(best, found);
      BestFromSourcesShortest(g, target, sources[1..], b1);
      var r := BestFromSources(g, target, sources, best);
      assert r == BestFromSources(g, target, sources[1..], b1);
      if r.Some? {
        forall i, j | 0 <= i < |[target]| && 0 <= j < |sources| && Search(g, sources[j], [target][i]).Some?
          ensures |r.value| <= |Search(g, sources[j], [target][i]).value|
        {
          assert [target][i] == target;
          if j == 0 {
            assert b1.Some? && |b1.value| <= |found.value|;
          } else {
            assert sources[j] == sources[1..][j - 1];
          }
        }
      }
    }
  }

  lemma NoneFoundSplit(g: Grid, targets: seq<Point>, sources: seq<Point>)
    requires targets != []
    ensures NoneFound(g, targets, sources) <==> NoneFound(g, [targets[0]], sources) && NoneFound(g, targets[1..], sources)
  {
    if NoneFound(g, [targets[0]], sources) && NoneFound(g, targets[1..], sources) {
      forall i, j | 0 <= i < |targets| && 0 <= j < |sources| ensures Search(g, sources[j], targets[i]).None? {
        if i == 0 {
          assert Search(g, sources[j], [targets[0]][0]).None?;
        } else {
          assert Search(g, sources[j], targets[1..][i - 1]).None?;
        }
      }
    }
    if NoneFound(g, targets, sources) {
      forall i, j | 0 <= i < |targets[1..]| && 0 <= j < |sources| ensures Search(g, sources[j], targets[1..][i]).None? {
        assert Search(g, sources[j], targets[i + 1]).None?;
      }
      forall i, j | 0 <= i < 1 && 0 <= j < |sources| ensures Search(g, sources[j], [targets[0]][i]).None? {
        assert Search(g, sources[j], targets[0]).None?;
      }
    }
  }

  lemma NoneShorterJoin(g: Grid, targets: seq<Point>, sources: seq<Point>, len: nat)
    requires targets != []
    requires NoneShorter(g, [targets[0]], sources, len) && NoneShorter(g, targets[1..], sources, len)
    ensures NoneShorter(g, targets, sources, len)
  {
    forall i, j | 0 <= i < |targets| && 0 <= j < |sources| && Search(g, sources[j], targets[i]).Some?
      ensures len <= |Search(g, sources[j], targets[i]).value|
    {
      if i == 0 {
        assert Search(g, sources[j], [targets[0]][0]) == Search(g, sources[j], targets[i]);
      } else {
        assert Search(g, sources[j], targets[1..][i - 1]) == Search(g, sources[j], targets[i]);
      }
    }
  }

  lemma NoneShorterLess(g: Grid, targets: seq<Point>, sources: seq<Point>, len: nat, less: nat)
    requires NoneShorter(g, targets, sources, len) && less <= len
    ensures NoneShorter(g, targets, sources, less)
  {
  }

  lemma NoneFoundShorter(g: Grid, targets: seq<Point>, sources: seq<Point>, len: nat)
    requires NoneFound(g, targets, sources)
    ensures NoneShorter(g, targets, sources, len)
  {
  }

  lemma {:induction false} BestPathNone(g: Grid, targets: seq<Point>, sources: seq<Point>, best: Option<seq<Point>>)
    ensures BestPath(g, targets, sources, best).None? <==> best.None? && NoneFound(g, targets, sources)
    decreases |targets|
  {
    if targets != [] {
      var b1 := BestFromSources(g, targets[0], sources, best);
      BestFromSourcesNone(g, targets[0], sources, best);
      BestPathNone(g, targets[1..], sources, b1);
      NoneFoundSplit(g, targets, sources);
    }
  }

  lemma {:induction false} BestPathFound(g: Grid, targets: seq<Point>, sources: seq<Point>, best: Option<seq<Point>>)
    ensures var r := BestPath(g, targets, sources, best);
      r.Some? ==> r == best || Found(g, targets, sources, r.value)
    decreases |targets|
  {
    if targets != [] {
      var b1 := BestFromSources(g, targets[0], sources, best);
      BestFromSourcesFound(g, targets[0], sources, best);
      BestPathFound(g, targets[1..], sources, b1);
      var r := BestPath(g, targets[1..], sources, b1);
      if r.Some? && r != best && r != b1 {
        var i, j :| 0 <= i < |targets[1..]| && 0 <= j < |sources| && Search(g, sources[j], targets[1..][i]) == Some(r.value);
        assert Search(g, sources[j], targets[i + 1]) == Some(r.value);
      }
      if r.Some? && r == b1 && r != best {
        var i, j :| 0 <= i < 1 && 0 <= j < |sources| && Search(g, sources[j], [targets[0]][i]) == Some(r.value);
        assert Search(g, sources[j], targets[0]) == Some(r.value);
      }
    }
  }

  lemma {:induction false} BestPathShortest(g: Grid, targets: seq<Point>, sources: seq<Point>, best: Option<seq<Point>>)
    ensures var r := BestPath(g, targets, sources, best);
      && (r.Some? ==> NoneShorter(g, targets, sources, |r.value|))
      && (best.Some? ==> r.Some? && |r.value| <= |best.value|)
    decreases |targets|
  {
    if targets != [] {
      var b1 := BestFromSources(g, targets[0], sources, best);
      BestFromSourcesShortest(g, targets[0], sources, best);
      BestPathShortest(g, targets[1..], sources, b1);
      var r := BestPath(g, targets[1..], sources, b1);
      if r.Some? {
        if b1.Some? {
          NoneShorterLess(g, [targets[0]], sources, |b1.value|, |r.value|);
        } else {
          BestFromSourcesNone(g, targets[0], sources, best);
          NoneFoundShorter(g, [targets[0]], sources, |r.value|);
        }
        NoneShorterJoin(g, targets, sources, |r.value|);
      }
    }
  }

  /** A best path found from the sources starts at one of them. */
  lemma BestPathStart(g: Grid, targets: seq<Point>, sources: seq<Point>)
    ensures var r := BestPath(g, targets, sources, None);
      r.Some? ==>
        exists i, j :: 0 <= i < |targets| && 0 <= j < |sources| &&
          Search(g, sources[j], targets[i]) == r && |r.value| >= 1 && r.value[0] == sources[j]
  {
    var r := BestPath(g, targets, sources, None);
    BestPathFound(g, targets, sources, None);
    if r.Some? {
      var i, j :| 0 <= i < |targets| && 0 <= j < |sources| && Search(g, sources[j], targets[i]) == Some(r.value);
      SearchCorrect(g, sources[j], targets[i]);
    }
  }

  /** Source `j` gives the path `path` to `target`, and every source before it gives none or a strictly longer one. */
  ghost predicate FirstSource(g: Grid, target: Point, sources: seq<Point>, j: int, path: seq<Point>)
  {
    && 0 <= j < |sources| && Search(g, sources[j], target) == Some(path)
    && forall j' :: 0 <= j' < j && Search(g, sources[j'], target).Some? ==> |path| < |Search(g, sources[j'], target).value|
  }

  /** Target `i` and source `j` give `path`, and every earlier pair of the double loop, target first, gives none or a
      strictly longer one. */
  ghost predicate FirstAt(g: Grid, targets: seq<Point>, sources: seq<Point>, i: int, j: int, path: seq<Point>)
  {
    && 0 <= i < |targets| && 0 <= j < |sources| && Search(g, sources[j], targets[i]) == Some(path)
    && forall i', j' ::
         0 <= i' < |targets| && 0 <= j' < |sources| && (i' < i || (i' == i && j' < j)) && Search(g, sources[j'], targets[i']).Some?
         ==> |path| < |Search(g, sources[j'], targets[i']).value|
  }

  /** The strict `<` of the inner loop: the best path either stays as it was or is the first of the shortest found,
      strictly shorter than the one before. */
  lemma {:induction false} BestFromSourcesFirst(g: Grid, target: Point, sources: seq<Point>, best: Option<seq<Point>>)
    ensures var r := BestFromSources(g, target, sources, best);
      r == best ||
      (r.Some? && (best.Some? ==> |r.value| < |best.value|) && exists j :: FirstSource(g, target, sources, j, r.value))
    decreases |sources|
  {
    if sources != [] {
      var found := Search(g, sources[0], target);
      var b1 := Shorter(best, found);
      BestFromSourcesFirst(g, target, sources[1..], b1);
      var r := BestFromSources(g, target, sources[1..], b1);
      if r != b1 {
        var j :| FirstSource(g, target, sources[1..], j, r.value);
        forall j' | 0 <= j' < j + 1 && Search(g, sources[j'], target).Some?
          ensures |r.value| < |Search(g, sources[j'], target).value|
        {
          if j' > 0 {
            assert sources[j'] == sources[1..][j' - 1];
          }
        }
        assert FirstSource(g, target, sources, j + 1, r.value);
      } else if b1 != best {
        assert FirstSource(g, target, sources, 0, r.value);
      }
    }
  }

  /** The strict `<` of the double loop: the best path either stays as it was or is the first of the shortest found in
      the order targets, then sources, strictly shorter than the one before. */
  lemma {:induction false} BestPathFirst(g: Grid, targets: seq<Point>, sources: seq<Point>, best: Option<seq<Point>>)
    ensures var r := BestPath(g, targets, sources, best);
      r == best ||
      (r.Some? && (best.Some? ==> |r.value| < |best.value|) && exists i, j :: FirstAt(g, targets, sources, i, j, r.value))
    decreases |targets|
  {
    if targets != [] {
      var b1 := BestFromSources(g, targets[0], sources, best);
      BestFromSourcesFirst(g, targets[0], sources, best);
      BestFromSourcesShortest(g, targets[0], sources, best);
      BestFromSourcesNone(g, targets[0], sources, best);
      BestPathFirst(g, targets[1..], sources, b1);
      var r := BestPath(g, targets[1..], sources, b1);
      if r != b1 {
        var i, j :| FirstAt(g, targets[1..], sources, i, j, r.value);
        forall i', j' | 0 <= i' < |targets| && 0 <= j' < |sources| && (i' < i + 1 || (i' == i + 1 && j' < j)) &&
          Search(g, sources[j'], targets[i']).Some?
          ensures |r.value| < |Search(g, sources[j'], targets[i']).value|
        {
          if i' == 0 {
            assert Search(g, sources[j'], [targets[0]][0]) == Search(g, sources[j'], targets[i']);
          } else {
            assert targets[i'] == targets[1..][i' - 1];
          }
        }
        assert FirstAt(g, targets, sources, i + 1, j, r.value);
      } else if b1 != best {
        var j :| FirstSource(g, targets[0], sources, j, r.value);
        assert FirstAt(g, targets, sources, 0, j, r.value);
      }
    }
  }

  /** `nextMovement(point:)`: the first step of the best path from an Empty neighbour of the unit to a destination. */
  function MoveChoice(g: Grid, p: Point): (r: Option<Point>)
    requires InGrid(g, p)
    ensures r.Some? ==> IsUnit(At(g, p)) && OpenNeighbour(g, p, r.value)
  {
    if !IsUnit(At(g, p)) then None
    else match Destinations(g, p)
      case None => None
      case Some(targets) =>
        var sorted, sources := SortPoints(targets), EmptyAmong(g, p.Surrounding());
        var best := BestPath(g, sorted, sources, None);
        BestPathStart(g, sorted, sources);
        EmptyAmongMeaning(g, p.Surrounding());
        if best.None? then None else Some(best.value[0])
  }

  /** An Empty cell next to an enemy of `mover`. */
  ghost predicate IsDestination(g: Grid, mover: Space, t: Point)
  {
    exists e :: Beside(g, mover, t, e)
  }

  /** An Empty cell next to `p`: where a unit at `p` may step. */
  predicate OpenNeighbour(g: Grid, p: Point, s: Point)
  {
    s in p.Surrounding() && InGrid(g, s) && At(g, s).Empty?
  }

  /** The chosen path starts at a source, leads to a target, and no path found between a source and a target is shorter. */
  lemma ChosenPath(g: Grid, targets: seq<Point>, sources: seq<Point>)
    ensures var r := BestPath(g, SortPoints(targets), sources, None);
      r.Some? ==>
        && |r.value| >= 1 && r.value[0] in sources
        && exists t :: t in targets && Search(g, r.value[0], t) == r &&
             forall s, t' :: s in sources && t' in targets && Search(g, s, t').Some? ==> |r.value| <= |Search(g, s, t').value|
  {
    var sorted := SortPoints(targets);
    var r := BestPath(g, sorted, sources, None);
    if r.Some? {
      BestPathStart(g, sorted, sources);
      BestPathShortest(g, sorted, sources, None);
      var i, j :| 0 <= i < |sorted| && 0 <= j < |sources| &&
        Search(g, sources[j], sorted[i]) == r && |r.value| >= 1 && r.value[0] == sources[j];
      assert sorted[i] in multiset(targets);
      forall s, t' | s in sources && t' in targets && Search(g, s, t').Some?
        ensures |r.value| <= |Search(g, s, t').value|
      {
        assert t' in multiset(sorted);
        var i' :| 0 <= i' < |sorted| && sorted[i'] == t';
        var j' :| 0 <= j' < |sources| && sources[j'] == s;
      }
    }
  }

  /** No path is chosen exactly when no target is reachable from any source. */
  lemma NoPathChosen(g: Grid, targets: seq<Point>, sources: seq<Point>)
    ensures BestPath(g, SortPoints(targets), sources, None).None? <==>
      forall s, t :: s in sources && t in targets ==> !Reachable(g, s, t)
  {
    var sorted := SortPoints(targets);
    BestPathNone(g, sorted, sources, None);
    if NoneFound(g, sorted, sources) {
      forall s, t | s in sources && t in targets ensures !Reachable(g, s, t) {
        assert t in multiset(sorted);
        var i :| 0 <= i < |sorted| && sorted[i] == t;
        var j :| 0 <= j < |sources| && sources[j] == s;
        SearchCorrect(g, s, t);
      }
    } else {
      var i, j :| 0 <= i < |sorted| && 0 <= j < |sources| && Search(g, sources[j], sorted[i]).Some?;
      assert sorted[i] in multiset(targets);
      SearchCorrect(g, sources[j], sorted[i]);
    }
  }

  /** Stepping onto `s` towards `t` is what `nextMovement` picks for `mover` at `p`: `s` is an Empty neighbour and
      `t` a destination reached from it; no neighbour reaches a destination by a shorter path; and every pair that
      comes first in the loops' order (an earlier destination in reading order, or the same destination from a
      neighbour earlier in up, left, right, down order) needs a strictly longer path. */
  ghost predicate FirstShortestStep(g: Grid, mover: Space, p: Point, s: Point, t: Point)
  {
    && OpenNeighbour(g, p, s) && IsDestination(g, mover, t) && Search(g, s, t).Some?
    && forall s', t' :: OpenNeighbour(g, p, s') && IsDestination(g, mover, t') && Search(g, s', t').Some? ==>
         && |Search(g, s, t).value| <= |Search(g, s', t').value|
         && (Before(t', t) || (t' == t && Before(s', s)) ==> |Search(g, s, t).value| < |Search(g, s', t').value|)
  }

  /** `path` is what the search returns from source `s` to target `t`, and every pair that comes first in the double
      loop's order (an earlier target in reading order, or the same target from an earlier source) needs a strictly
      longer path. */
  ghost predicate FirstPair(g: Grid, targets: seq<Point>, sources: seq<Point>, s: Point, t: Point, path: seq<Point>)
  {
    && s in sources && t in targets && Search(g, s, t) == Some(path)
    && forall s', t' ::
         s' in sources && t' in targets && Search(g, s', t').Some? && (Before(t', t) || (t' == t && Before(s', s)))
         ==> |path| < |Search(g, s', t').value|
  }

  /** A pair before the one kept, in reading order of targets and then of sources, lies earlier in the double loop. */
  lemma FirstAtBefore(g: Grid, sorted: seq<Point>, sources: seq<Point>, i: int, j: int, path: seq<Point>, s': Point, t': Point)
    requires SortedPoints(sorted) && Ascending(sources)
    requires FirstAt(g, sorted, sources, i, j, path)
    requires s' in sources && t' in sorted && Search(g, s', t').Some?
    requires Before(t', sorted[i]) || (t' == sorted[i] && Before(s', sources[j]))
    ensures |path| < |Search(g, s', t').value|
  {
    var i' :| 0 <= i' < |sorted| && sorted[i'] == t';
    var j' :| 0 <= j' < |sources| && sources[j'] == s';
    if Before(t', sorted[i]) {
      if i' >= i {
        ReadingOrderIsStrictTotal(t', sorted[i], t');
      }
    } else {
      if j' >= j {
        ReadingOrderIsStrictTotal(s', sources[j], s');
      }
      assert Search(g, sources[j'], sorted[i]) == Search(g, s', t');
    }
  }

  /** Among equal lengths the chosen path is the first found: every pair of a target earlier in reading order, or of
      the same target and an earlier source, needs a strictly longer path. */
  lemma ChosenFirst(g: Grid, targets: seq<Point>, sources: seq<Point>)
    requires Ascending(sources)
    ensures var r := BestPath(g, SortPoints(targets), sources, None);
      r.Some? ==> |r.value| >= 1 && exists t :: FirstPair(g, targets, sources, r.value[0], t, r.value)
  {
    var sorted := SortPoints(targets);
    var r := BestPath(g, sorted, sources, None);
    BestPathFirst(g, sorted, sources, None);
    if r.Some? {
      var i, j :| FirstAt(g, sorted, sources, i, j, r.value);
      SearchCorrect(g, sources[j], sorted[i]);
      var s, t := sources[j], sorted[i];
      assert t in multiset(targets) by { assert t in multiset(sorted); }
      forall s', t' | s' in sources && t' in targets && Search(g, s', t').Some? && (Before(t', t) || (t' == t && Before(s', s)))
        ensures |r.value| < |Search(g, s', t').value|
      {
        assert t' in multiset(sorted);
        FirstAtBefore(g, sorted, sources, i, j, r.value, s', t');
      }
      assert FirstPair(g, targets, sources, s, t, r.value);
    }
  }

  /** The unit moves only when no enemy is adjacent, and then onto the first shortest step: the neighbour of the
      shortest path found, the earliest destination in reading order and then the earliest neighbour winning ties. */
  lemma MoveChoiceSome(g: Grid, p: Point)
    requires InGrid(g, p)
    ensures var m := MoveChoice(g, p);
      m.Some? ==>
        && IsUnit(At(g, p)) && !FoeAdjacent(g, At(g, p), p)
        && exists t :: FirstShortestStep(g, At(g, p), p, m.value, t)
  {
    var u := At(g, p);
    if IsUnit(u) && !FoeAdjacent(g, u, p) {
      var targets := GridTargets(g, u, |g|);
      var sources := EmptyAmong(g, p.Surrounding());
      var r := BestPath(g, SortPoints(targets), sources, None);
      if r.Some? {
        ChosenPath(g, targets, sources);
        assert MoveChoice(g, p) == Some(r.value[0]);
        SourcesAscend(g, p);
        ChosenFirst(g, targets, sources);
        var s := r.value[0];
        var t :| FirstPair(g, targets, sources, s, t, r.value);
        StepFromPair(g, p, targets, sources, s, t, r.value);
      }
    }
  }

  /** The Empty neighbours of a point come in strict reading order. */
  lemma SourcesAscend(g: Grid, p: Point)
    ensures Ascending(EmptyAmong(g, p.Surrounding()))
  {
    SurroundingAscends(p);
    EmptyAmongAscends(g, p.Surrounding());
  }

  /** A first pair over the destinations and the Empty neighbours is a first shortest step. */
  lemma StepFromPair(g: Grid, p: Point, targets: seq<Point>, sources: seq<Point>, s: Point, t: Point, path: seq<Point>)
    requires InGrid(g, p) && IsUnit(At(g, p)) && !FoeAdjacent(g, At(g, p), p)
    requires targets == GridTargets(g, At(g, p), |g|) && sources == EmptyAmong(g, p.Surrounding())
    requires FirstPair(g, targets, sources, s, t, path)
    requires forall s', t' :: s' in sources && t' in targets && Search(g, s', t').Some? ==> |path| <= |Search(g, s', t').value|
    ensures FirstShortestStep(g, At(g, p), p, s, t)
  {
    var u := At(g, p);
    EmptyAmongMeaning(g, p.Surrounding());
    forall t' | true ensures t' in targets <==> IsDestination(g, u, t') {
      TargetsBesideFoes(g, u, t');
    }
  }

  /** At most one step is the first shortest one. */
  lemma FirstShortestUnique(g: Grid, mover: Space, p: Point, s1: Point, t1: Point, s2: Point, t2: Point)
    requires FirstShortestStep(g, mover, p, s1, t1) && FirstShortestStep(g, mover, p, s2, t2)
    ensures s1 == s2 && t1 == t2
  {
    ReadingOrderIsStrictTotal(t1, t2, t1);
    ReadingOrderIsStrictTotal(s1, s2, s1);
  }

  /** `nextMovement` returns exactly the first shortest step, whenever the unit has one and no enemy is adjacent. */
  lemma MoveChoiceExact(g: Grid, p: Point, s: Point)
    requires InGrid(g, p)
    ensures MoveChoice(g, p) == Some(s) <==>
      IsUnit(At(g, p)) && !FoeAdjacent(g, At(g, p), p) && exists t :: FirstShortestStep(g, At(g, p), p, s, t)
  {
    var u := At(g, p);
    MoveChoiceSome(g, p);
    if IsUnit(u) && !FoeAdjacent(g, u, p) && exists t :: FirstShortestStep(g, u, p, s, t) {
      var t :| FirstShortestStep(g, u, p, s, t);
      SearchCorrect(g, s, t);
      MoveChoiceNone(g, p);
      var m := MoveChoice(g, p).value;
      var t2 :| FirstShortestStep(g, u, p, m, t2);
      FirstShortestUnique(g, u, p, s, t, m, t2);
    }
  }

  /** The unit stays put exactly when it is not a unit, is beside an enemy, or no destination is reachable from any Empty neighbour. */
  lemma MoveChoiceNone(g: Grid, p: Point)
    requires InGrid(g, p)
    ensures var u := At(g, p);
      MoveChoice(g, p).None? <==>
        !IsUnit(u) || FoeAdjacent(g, u, p) ||
        forall s, t :: OpenNeighbour(g, p, s) && IsDestination(g, u, t) ==> !Reachable(g, s, t)
  {
    var u := At(g, p);
    if IsUnit(u) && !FoeAdjacent(g, u, p) {
      var targets := GridTargets(g, u, |g|);
      var sources := EmptyAmong(g, p.Surrounding());
      EmptyAmongMeaning(g, p.Surrounding());
      NoPathChosen(g, targets, sources);
      forall t | true ensures t in targets <==> IsDestination(g, u, t) {
        TargetsBesideFoes(g, u, t);
      }
    }
  }

  // ---------------------------------------------------------------- attack

  /** The enemy of `mover` with the fewest hit points among the first `n` of `ps`, the first one on a tie. */
  function Weakest(g: Grid, mover: Space, ps: seq<Point>, n: nat): (r: Option<Point>)
    requires n <= |ps|
    ensures r.Some? ==> r.value in ps[..n] && FoeAt(g, mover, r.value)
    decreases n
  {
    if n == 0 then None
    else
      var best := Weakest(g, mover, ps, n - 1);
      var q := ps[n - 1];
      if FoeAt(g, mover, q) && (best.None? || At(g, q).hp < At(g, best.value).hp) then Some(q) else best
  }

  /** Index `i` of `ps` holds the first strictly weakest enemy of `mover` among the first `n`. */
  ghost predicate WeakestAt(g: Grid, mover: Space, ps: seq<Point>, n: nat, i: nat)
    requires n <= |ps|
  {
    && i < n && FoeAt(g, mover, ps[i])
    && (forall j :: 0 <= j < n && FoeAt(g, mover, ps[j]) ==> At(g, ps[i]).hp <= At(g, ps[j]).hp)
    && (forall j :: 0 <= j < i && FoeAt(g, mover, ps[j]) ==> At(g, ps[i]).hp < At(g, ps[j]).hp)
  }

  lemma {:induction false} WeakestSpec(g: Grid, mover: Space, ps: seq<Point>, n: nat)
    requires n <= |ps|
    ensures Weakest(g, mover, ps, n).None? <==> forall j :: 0 <= j < n ==> !FoeAt(g, mover, ps[j])
    ensures Weakest(g, mover, ps, n).Some? ==>
      exists i :: 0 <= i < n && ps[i] == Weakest(g, mover, ps, n).value && WeakestAt(g, mover, ps, n, i)
    decreases n
  {
    if n > 0 {
      WeakestSpec(g, mover, ps, n - 1);
      var best := Weakest(g, mover, ps, n - 1);
      var q := ps[n - 1];
      if FoeAt(g, mover, q) && (best.None? || At(g, q).hp < At(g, best.value).hp) {
        assert WeakestAt(g, mover, ps, n, n - 1);
      } else if best.Some? {
        var i :| 0 <= i < n - 1 && ps[i] == best.value && WeakestAt(g, mover, ps, n - 1, i);
        assert WeakestAt(g, mover, ps, n, i);
      }
    }
  }

  /** The hit points left after a blow of `power`: a unit at zero or below leaves an Empty cell. */
  function Struck(s: Space, power: int): Space
  {
    match s
    case Elf(id, hp) => if hp - power > 0 then Elf(id, hp - power) else Empty
    case Goblin(id, hp) => if hp - power > 0 then Goblin(id, hp - power) else Empty
    case _ => s
  }

  function AttackPower(mover: Space): int
  {
    if mover.Elf? then ElfAttack else GoblinAttack
  }

  /** `attack(point:)`: the unit at `p` strikes its weakest adjacent enemy, if any. */
  function Attacked(g: Grid, p: Point): (r: Grid)
    requires InGrid(g, p)
    ensures SameShape(g, r)
  {
    var u := At(g, p);
    if !IsUnit(u) then g
    else match Weakest(g, u, p.Surrounding(), 4)
      case None => g
      case Some(q) => Put(g, q, Struck(At(g, q), AttackPower(u)))
  }

  /** An attack changes at most the victim's cell: a lower hit count for the same unit, or Empty. */
  lemma AttackedSpec(g: Grid, p: Point)
    requires InGrid(g, p)
    ensures var h := Attacked(g, p);
      && SameShape(g, h)
      && (h == g <==> !IsUnit(At(g, p)) || forall j :: 0 <= j < 4 ==> !FoeAt(g, At(g, p), p.Surrounding()[j]))
      && (h != g ==>
            exists q ::
              && q in p.Surrounding() && FoeAt(g, At(g, p), q)
              && (forall r :: InGrid(g, r) && r != q ==> At(h, r) == At(g, r))
              && At(h, q) == Struck(At(g, q), AttackPower(At(g, p))))
  {
    var u := At(g, p);
    if IsUnit(u) {
      WeakestSpec(g, u, p.Surrounding(), 4);
      var w := Weakest(g, u, p.Surrounding(), 4);
      if w.Some? {
        var q := w.value;
        var h := Put(g, q, Struck(At(g, q), AttackPower(u)));
        assert At(h, q) != At(g, q);
      }
    }
  }

  // ------------------------------------------------------------ hit points

  predicate Of(s: Space, f: Faction)
  {
    (f == Elves && s.Elf?) || (f == Goblins && s.Goblin?)
  }

  /** The hit points of faction `f` in the first `n` cells of `row`. */
  function RowHp(row: seq<Space>, f: Faction, n: nat): int
    requires n <= |row|
    decreases n
  {
    if n == 0 then 0 else RowHp(row, f, n - 1) + HpOf(row[n - 1], f)
  }

  /** The hit points of faction `f` in the first `m` rows. */
  function GridHp(g: Grid, f: Faction, m: nat): int
    requires m <= |g|
    decreases m
  {
    if m == 0 then 0 else GridHp(g, f, m - 1) + RowHp(g[m - 1], f, |g[m - 1]|)
  }

  function TotalHp(g: Grid, f: Faction): int
  {
    GridHp(g, f, |g|)
  }

  /** Every unit on the grid has hit points left. */
  ghost predicate Alive(g: Grid)
  {
    forall p :: InGrid(g, p) && IsUnit(At(g, p)) ==> At(g, p).hp > 0
  }

  ghost predicate HasFaction(g: Grid, f: Faction)
  {
    exists p :: InGrid(g, p) && Of(At(g, p), f)
  }

  lemma {:induction false} RowHpUpdate(row: seq<Space>, x: nat, v: Space, f: Faction, n: nat)
    requires x < |row| && n <= |row|
    ensures RowHp(row[x := v], f, n) == RowHp(row, f, n) + (if x < n then HpOf(v, f) - HpOf(row[x], f) else 0)
    decreases n
  {
    if n > 0 {
      RowHpUpdate(row, x, v, f, n - 1);
    }
  }

  lemma {:induction false} GridHpUpdate(g: Grid, p: Point, v: Space, f: Faction, m: nat)
    requires InGrid(g, p) && m <= |g|
    ensures GridHp(Put(g, p, v), f, m) == GridHp(g, f, m) + (if p.y < m then HpOf(v, f) - HpOf(At(g, p), f) else 0)
    decreases m
  {
    if m > 0 {
      GridHpUpdate(g, p, v, f, m - 1);
      if m - 1 == p.y {
        RowHpUpdate(g[p.y], p.x, v, f, |g[p.y]|);
      } else {
        assert Put(g, p, v)[m - 1] == g[m - 1];
      }
    }
  }

  /** Changing one cell changes a faction's total by exactly that cell's difference. */
  lemma PutHp(g: Grid, p: Point, v: Space, f: Faction)
    requires InGrid(g, p)
    ensures TotalHp(Put(g, p, v), f) == TotalHp(g, f) - HpOf(At(g, p), f) + HpOf(v, f)
  {
    GridHpUpdate(g, p, v, f, |g|);
  }

  lemma {:induction false} RowHpZero(row: seq<Space>, f: Faction, n: nat)
    requires n <= |row|
    requires forall x :: 0 <= x < n && IsUnit(row[x]) ==> row[x].hp > 0
    ensures RowHp(row, f, n) >= 0
    ensures RowHp(row, f, n) == 0 <==> forall x :: 0 <= x < n ==> !Of(row[x], f)
    decreases n
  {
    if n > 0 {
      RowHpZero(row, f, n - 1);
    }
  }

  lemma {:induction false} GridHpZero(g: Grid, f: Faction, m: nat)
    requires m <= |g| && Alive(g)
    ensures GridHp(g, f, m) >= 0
    ensures GridHp(g, f, m) == 0 <==> forall p :: InGrid(g, p) && p.y < m ==> !Of(At(g, p), f)
    decreases m
  {
    if m > 0 {
      GridHpZero(g, f, m - 1);
      var row := g[m - 1];
      forall x | 0 <= x < |row| && IsUnit(row[x]) ensures row[x].hp > 0 {
        assert At(g, Point(x, m - 1)) == row[x];
      }
      RowHpZero(row, f, |row|);
      if RowHp(row, f, |row|) != 0 {
        var x :| 0 <= x < |row| && Of(row[x], f);
        assert Of(At(g, Point(x, m - 1)), f);
      }
    }
  }

  /** With every unit alive, a faction's total is zero exactly when none of its units is left. */
  lemma HpZeroIffGone(g: Grid, f: Faction)
    requires Alive(g)
    ensures TotalHp(g, f) >= 0
    ensures TotalHp(g, f) == 0 <==> !HasFaction(g, f)
  {
    GridHpZero(g, f, |g|);
  }

  // ------------------------------------------------------------ turn order

  /** The unit at (x, y), with its id, or nothing. */
  function CellUnit(g: Grid, x: int, y: int): seq<(int, Point)>
    requires 0 <= y < |g| && 0 <= x < |g[y]|
  {
    match g[y][x]
    case Elf(id, _) => [(id, Point(x, y))]
    case Goblin(id, _) => [(id, Point(x, y))]
    case _ => []
  }

  function RowUnits(g: Grid, y: int, n: nat): seq<(int, Point)>
    requires 0 <= y < |g| && n <= |g[y]|
    decreases n
  {
    if n == 0 then [] else RowUnits(g, y, n - 1) + CellUnit(g, n - 1, y)
  }

  function GridUnits(g: Grid, m: nat): seq<(int, Point)>
    requires m <= |g|
    decreases m
  {
    if m == 0 then [] else GridUnits(g, m - 1) + RowUnits(g, m - 1, |g[m - 1]|)
  }

  /** `roundOrder()`: every unit with its id, in reading order. */
  function TurnOrder(g: Grid): seq<(int, Point)>
  {
    GridUnits(g, |g|)
  }

  /** Entry `e` names the unit standing at its point. */
  predicate Names(g: Grid, e: (int, Point))
  {
    InGrid(g, e.1) && IsUnit(At(g, e.1)) && At(g, e.1).id == e.0
  }

  lemma CellUnitSpec(g: Grid, x: int, y: int)
    requires 0 <= y < |g| && 0 <= x < |g[y]|
    ensures |CellUnit(g, x, y)| <= 1
    ensures |CellUnit(g, x, y)| == 1 <==> IsUnit(g[y][x])
    ensures forall i :: 0 <= i < |CellUnit(g, x, y)| ==>
      Names(g, CellUnit(g, x, y)[i]) && CellUnit(g, x, y)[i].1 == Point(x, y)
  {
    assert At(g, Point(x, y)) == g[y][x];
  }

  lemma {:induction false} RowUnitsNamed(g: Grid, y: int, n: nat)
    requires 0 <= y < |g| && n <= |g[y]|
    ensures forall i :: 0 <= i < |RowUnits(g, y, n)| ==>
      Names(g, RowUnits(g, y, n)[i]) && RowUnits(g, y, n)[i].1.y == y && 0 <= RowUnits(g, y, n)[i].1.x < n
    decreases n
  {
    if n > 0 {
      RowUnitsNamed(g, y, n - 1);
      CellUnitSpec(g, n - 1, y);
      var r0, c := RowUnits(g, y, n - 1), CellUnit(g, n - 1, y);
      var r := RowUnits(g, y, n);
      assert r == r0 + c;
      forall i | 0 <= i < |r| ensures Names(g, r[i]) && r[i].1.y == y && 0 <= r[i].1.x < n {
        if i < |r0| {
          assert r[i] == r0[i];
        } else {
          assert r[i] == c[i - |r0|];
        }
      }
    }
  }

  lemma {:induction false} RowUnitsAscend(g: Grid, y: int, n: nat)
    requires 0 <= y < |g| && n <= |g[y]|
    ensures forall i, j :: 0 <= i < j < |RowUnits(g, y, n)| ==> RowUnits(g, y, n)[i].1.x < RowUnits(g, y, n)[j].1.x
    decreases n
  {
    if n > 0 {
      RowUnitsAscend(g, y, n - 1);
      RowUnitsNamed(g, y, n - 1);
      CellUnitSpec(g, n - 1, y);
      var r0, c := RowUnits(g, y, n - 1), CellUnit(g, n - 1, y);
      var r := RowUnits(g, y, n);
      assert r == r0 + c;
      forall i, j | 0 <= i < j < |r| ensures r[i].1.x < r[j].1.x {
        if j < |r0| {
          assert r[i] == r0[i] && r[j] == r0[j];
        } else {
          assert j == |r0| && i < |r0|;
          assert r[j] == c[0] && r[i] == r0[i];
        }
      }
    }
  }

  lemma {:induction false} RowUnitsComplete(g: Grid, y: int, n: nat, x: int)
    requires 0 <= y < |g| && n <= |g[y]| && 0 <= x < n && IsUnit(g[y][x])
    ensures exists i :: 0 <= i < |RowUnits(g, y, n)| && RowUnits(g, y, n)[i].1 == Point(x, y)
    decreases n
  {
    CellUnitSpec(g, n - 1, y);
    var r0, c := RowUnits(g, y, n - 1), CellUnit(g, n - 1, y);
    var r := RowUnits(g, y, n);
    assert r == r0 + c;
    if x == n - 1 {
      assert r[|r0|] == c[0];
    } else {
      RowUnitsComplete(g, y, n - 1, x);
      var i :| 0 <= i < |r0| && r0[i].1 == Point(x, y);
      assert r[i] == r0[i];
    }
  }

  lemma {:induction false} GridUnitsNamed(g: Grid, m: nat)
    requires m <= |g|
    ensures forall i :: 0 <= i < |GridUnits(g, m)| ==> Names(g, GridUnits(g, m)[i]) && 0 <= GridUnits(g, m)[i].1.y < m
    decreases m
  {
    if m > 0 {
      GridUnitsNamed(g, m - 1);
      RowUnitsNamed(g, m - 1, |g[m - 1]|);
      var r0, row := GridUnits(g, m - 1), RowUnits(g, m - 1, |g[m - 1]|);
      var r := GridUnits(g, m);
      assert r == r0 + row;
      forall i | 0 <= i < |r| ensures Names(g, r[i]) && 0 <= r[i].1.y < m {
        if i < |r0| {
          assert r[i] == r0[i];
        } else {
          assert r[i] == row[i - |r0|];
        }
      }
    }
  }

  lemma {:induction false} GridUnitsAscend(g: Grid, m: nat)
    requires m <= |g|
    ensures forall i, j :: 0 <= i < j < |GridUnits(g, m)| ==> Before(GridUnits(g, m)[i].1, GridUnits(g, m)[j].1)
    decreases m
  {
    if m > 0 {
      GridUnitsAscend(g, m - 1);
      GridUnitsNamed(g, m - 1);
      RowUnitsNamed(g, m - 1, |g[m - 1]|);
      RowUnitsAscend(g, m - 1, |g[m - 1]|);
      var r0, row := GridUnits(g, m - 1), RowUnits(g, m - 1, |g[m - 1]|);
      var r := GridUnits(g, m);
      assert r == r0 + row;
      forall i, j | 0 <= i < j < |r| ensures Before(r[i].1, r[j].1) {
        if j < |r0| {
          assert r[i] == r0[i] && r[j] == r0[j];
        } else if i < |r0| {
          assert r[i] == r0[i] && r[j] == row[j - |r0|];
        } else {
          assert r[i] == row[i - |r0|] && r[j] == row[j - |r0|];
        }
      }
    }
  }

  lemma {:induction false} GridUnitsComplete(g: Grid, m: nat, p: Point)
    requires m <= |g| && InGrid(g, p) && p.y < m && IsUnit(At(g, p))
    ensures exists i :: 0 <= i < |GridUnits(g, m)| && GridUnits(g, m)[i].1 == p
    decreases m
  {
    var r0, row := GridUnits(g, m - 1), RowUnits(g, m - 1, |g[m - 1]|);
    var r := GridUnits(g, m);
    assert r == r0 + row;
    if p.y == m - 1 {
      RowUnitsComplete(g, m - 1, |g[m - 1]|, p.x);
      var i :| 0 <= i < |row| && row[i].1 == Point(p.x, p.y);
      assert r[|r0| + i] == row[i];
    } else {
      GridUnitsComplete(g, m - 1, p);
      var i :| 0 <= i < |r0| && r0[i].1 == p;
      assert r[i] == r0[i];
    }
  }

  /** The turn order lists each unit exactly once, in strictly increasing reading order. */
  lemma TurnOrderSpec(g: Grid)
    ensures forall i :: 0 <= i < |TurnOrder(g)| ==> Names(g, TurnOrder(g)[i])
    ensures forall i, j :: 0 <= i < j < |TurnOrder(g)| ==> Before(TurnOrder(g)[i].1, TurnOrder(g)[j].1)
    ensures forall p :: InGrid(g, p) && IsUnit(At(g, p)) ==> exists i :: 0 <= i < |TurnOrder(g)| && TurnOrder(g)[i].1 == p
  {
    GridUnitsNamed(g, |g|);
    GridUnitsAscend(g, |g|);
    forall p | InGrid(g, p) && IsUnit(At(g, p))
      ensures exists i :: 0 <= i < |TurnOrder(g)| && TurnOrder(g)[i].1 == p
    {
      GridUnitsComplete(g, |g|, p);
      assert TurnOrder(g) == GridUnits(g, |g|);
    }
  }

  // ----------------------------------------------------------------- turns

  /** A step: the old cell becomes Empty and the new cell holds the identical Space. */
  function Moved(g: Grid, p: Point, m: Point): (r: Grid)
    requires InGrid(g, p) && InGrid(g, m)
    ensures SameShape(g, r)
  {
    Put(Put(g, p, Empty), m, At(g, p))
  }

  /** One unit's turn in `nextRound`: it steps if a move is chosen, then attacks from where it stands. */
  function Turn(g: Grid, p: Point): (r: Grid)
    requires InGrid(g, p)
    ensures SameShape(g, r)
  {
    match MoveChoice(g, p)
    case None => Attacked(g, p)
    case Some(m) => Attacked(Moved(g, p, m), m)
  }

  /** Walls stay where they are and no new wall appears. */
  ghost predicate SameWalls(g: Grid, h: Grid)
  {
    SameShape(g, h) && forall q :: InGrid(g, q) ==> (At(g, q).Wall? <==> At(h, q).Wall?)
  }

  lemma PutWalls(g: Grid, p: Point, v: Space)
    requires InGrid(g, p) && !At(g, p).Wall? && !v.Wall?
    ensures SameWalls(g, Put(g, p, v))
  {
  }

  lemma SameWallsTrans(g: Grid, h: Grid, k: Grid)
    requires SameWalls(g, h) && SameWalls(h, k)
    ensures SameWalls(g, k)
  {
  }

  lemma AttackedWalls(g: Grid, p: Point)
    requires InGrid(g, p)
    ensures SameWalls(g, Attacked(g, p))
  {
    var u := At(g, p);
    if IsUnit(u) && Weakest(g, u, p.Surrounding(), 4).Some? {
      var q := Weakest(g, u, p.Surrounding(), 4).value;
      PutWalls(g, q, Struck(At(g, q), AttackPower(u)));
    }
  }

  lemma MovedWalls(g: Grid, p: Point, m: Point)
    requires InGrid(g, p) && IsUnit(At(g, p)) && OpenNeighbour(g, p, m)
    ensures SameWalls(g, Moved(g, p, m))
  {
    var h := Put(g, p, Empty);
    PutWalls(g, p, Empty);
    PutWalls(h, m, At(g, p));
    SameWallsTrans(g, h, Moved(g, p, m));
  }

  /** A turn neither removes nor adds walls, so a walled cave stays walled. */
  lemma TurnWalls(g: Grid, p: Point)
    requires InGrid(g, p)
    ensures SameWalls(g, Turn(g, p))
    ensures Bordered(g) ==> Bordered(Turn(g, p))
  {
    match MoveChoice(g, p)
    case None =>
      AttackedWalls(g, p);
    case Some(m) =>
      MovedWalls(g, p, m);
      AttackedWalls(Moved(g, p, m), m);
      SameWallsTrans(g, Moved(g, p, m), Turn(g, p));
    if Bordered(g) {
      BorderedShape(g, Turn(g, p));
    }
  }

  lemma PutAlive(g: Grid, p: Point, v: Space)
    requires InGrid(g, p) && Alive(g) && (IsUnit(v) ==> v.hp > 0)
    ensures Alive(Put(g, p, v))
  {
  }

  lemma MovedAlive(g: Grid, p: Point, m: Point)
    requires InGrid(g, p) && InGrid(g, m) && Alive(g)
    ensures Alive(Moved(g, p, m))
  {
    PutAlive(g, p, Empty);
    PutAlive(Put(g, p, Empty), m, At(g, p));
  }

  lemma AttackedAlive(g: Grid, p: Point)
    requires InGrid(g, p) && Alive(g)
    ensures Alive(Attacked(g, p))
  {
    var u := At(g, p);
    if IsUnit(u) && Weakest(g, u, p.Surrounding(), 4).Some? {
      var q := Weakest(g, u, p.Surrounding(), 4).value;
      PutAlive(g, q, Struck(At(g, q), AttackPower(u)));
    }
  }

  /** With every unit alive before a turn, every unit is alive after it: a blow that would leave none empties the cell. */
  lemma TurnAlive(g: Grid, p: Point)
    requires InGrid(g, p) && Alive(g)
    ensures Alive(Turn(g, p))
  {
    match MoveChoice(g, p)
    case None =>
      AttackedAlive(g, p);
    case Some(m) =>
      MovedAlive(g, p, m);
      AttackedAlive(Moved(g, p, m), m);
  }

  /** A step moves hit points around without changing any total. */
  lemma MovedHp(g: Grid, p: Point, m: Point, f: Faction)
    requires InGrid(g, p) && OpenNeighbour(g, p, m)
    ensures TotalHp(Moved(g, p, m), f) == TotalHp(g, f)
  {
    var h := Put(g, p, Empty);
    PutHp(g, p, Empty, f);
    PutHp(h, m, At(g, p), f);
    assert At(h, m) == At(g, m);
  }

  /** A blow never raises the hit points of a living unit. */
  lemma AttackedHp(g: Grid, p: Point, f: Faction)
    requires InGrid(g, p) && Alive(g)
    ensures TotalHp(Attacked(g, p), f) <= TotalHp(g, f)
  {
    var u := At(g, p);
    if IsUnit(u) && Weakest(g, u, p.Surrounding(), 4).Some? {
      var q := Weakest(g, u, p.Surrounding(), 4).value;
      PutHp(g, q, Struck(At(g, q), AttackPower(u)), f);
    }
  }

  /** No faction's hit points ever rise during a turn. */
  lemma TurnHp(g: Grid, p: Point, f: Faction)
    requires InGrid(g, p) && Alive(g)
    ensures TotalHp(Turn(g, p), f) <= TotalHp(g, f)
  {
    match MoveChoice(g, p)
    case None =>
      AttackedHp(g, p, f);
    case Some(m) =>
      MovedHp(g, p, m, f);
      MovedAlive(g, p, m);
      AttackedHp(Moved(g, p, m), m, f);
  }

  // ---------------------------------------------------------------- rounds

  function Positions(order: seq<(int, Point)>): (r: seq<Point>)
    ensures |r| == |order| && forall i :: 0 <= i < |order| ==> r[i] == order[i].1
  {
    seq(|order|, i requires 0 <= i < |order| => order[i].1)
  }

  /** The turns of `nextRound` over positions fixed at the start of the round; before each turn the battle is over once either faction's hit points total 0. */
  function PlayTurns(g: Grid, order: seq<Point>): (r: (Grid, bool))
    requires forall i :: 0 <= i < |order| ==> InGrid(g, order[i])
    ensures SameShape(g, r.0)
    decreases |order|
  {
    if order == [] then (g, false)
    else if TotalHp(g, Elves) == 0 || TotalHp(g, Goblins) == 0 then (g, true)
    else PlayTurns(Turn(g, order[0]), order[1..])
  }

  /** The first of a run of turns: the battle ends before it when a faction's hit points are gone. */
  lemma PlayTurnsHead(g: Grid, order: seq<Point>)
    requires forall i :: 0 <= i < |order| ==> InGrid(g, order[i])
    requires order != []
    ensures TotalHp(g, Elves) == 0 || TotalHp(g, Goblins) == 0 ==> PlayTurns(g, order) == (g, true)
    ensures TotalHp(g, Elves) != 0 && TotalHp(g, Goblins) != 0 ==>
              PlayTurns(g, order) == PlayTurns(Turn(g, order[0]), order[1..])
  {
  }

  /** `nextRound`: the turn order read once, then one turn per listed position. */
  function Round(g: Grid): (Grid, bool)
  {
    TurnOrderSpec(g);
    PlayTurns(g, Positions(TurnOrder(g)))
  }

  /** A run of turns leaves every wall where it was and adds none, so a bordered cave stays bordered. */
  lemma {:induction false} PlayTurnsWalls(g: Grid, order: seq<Point>)
    requires forall i :: 0 <= i < |order| ==> InGrid(g, order[i])
    ensures SameWalls(g, PlayTurns(g, order).0)
    ensures Bordered(g) ==> Bordered(PlayTurns(g, order).0)
    decreases |order|
  {
    if order != [] && TotalHp(g, Elves) != 0 && TotalHp(g, Goblins) != 0 {
      var g1 := Turn(g, order[0]);
      TurnWalls(g, order[0]);
      PlayTurnsWalls(g1, order[1..]);
      SameWallsTrans(g, g1, PlayTurns(g1, order[1..]).0);
    }
  }

  /** Over a run of turns walls stay put, every unit stays alive and no faction gains hit points. */
  lemma {:induction false} PlayTurnsKeeps(g: Grid, order: seq<Point>)
    requires forall i :: 0 <= i < |order| ==> InGrid(g, order[i])
    requires Alive(g)
    ensures var h := PlayTurns(g, order).0;
      && SameWalls(g, h) && Alive(h)
      && TotalHp(h, Elves) <= TotalHp(g, Elves) && TotalHp(h, Goblins) <= TotalHp(g, Goblins)
    decreases |order|
  {
    if order != [] && TotalHp(g, Elves) != 0 && TotalHp(g, Goblins) != 0 {
      var g1 := Turn(g, order[0]);
      TurnWalls(g, order[0]);
      TurnAlive(g, order[0]);
      TurnHp(g, order[0], Elves);
      TurnHp(g, order[0], Goblins);
      PlayTurnsKeeps(g1, order[1..]);
      SameWallsTrans(g, g1, PlayTurns(g1, order[1..]).0);
    }
  }

  /** The battle is declared over only when one faction has no unit left. */
  lemma {:induction false} PlayTurnsOver(g: Grid, order: seq<Point>)
    requires forall i :: 0 <= i < |order| ==> InGrid(g, order[i])
    requires Alive(g)
    ensures PlayTurns(g, order).1 ==> !HasFaction(PlayTurns(g, order).0, Elves) || !HasFaction(PlayTurns(g, order).0, Goblins)
    decreases |order|
  {
    if order != [] {
      if TotalHp(g, Elves) == 0 || TotalHp(g, Goblins) == 0 {
        HpZeroIffGone(g, Elves);
        HpZeroIffGone(g, Goblins);
      } else {
        TurnAlive(g, order[0]);
        PlayTurnsOver(Turn(g, order[0]), order[1..]);
      }
    }
  }

  /** A round that starts with one faction gone ends at once, with nothing changed, as long as some unit is left to take a turn. */
  lemma RoundOverAtOnce(g: Grid)
    requires Alive(g) && |TurnOrder(g)| > 0
    requires !HasFaction(g, Elves) || !HasFaction(g, Goblins)
    ensures Round(g) == (g, true)
  {
    HpZeroIffGone(g, Elves);
    HpZeroIffGone(g, Goblins);
  }

  /** A round keeps the walls, the living units alive, and never raises either faction's hit points. */
  lemma RoundKeeps(g: Grid)
    requires Alive(g)
    ensures var h := Round(g).0;
      && SameWalls(g, h) && Alive(h) && (Bordered(g) ==> Bordered(h))
      && TotalHp(h, Elves) <= TotalHp(g, Elves) && TotalHp(h, Goblins) <= TotalHp(g, Goblins)
    ensures Round(g).1 ==> !HasFaction(Round(g).0, Elves) || !HasFaction(Round(g).0, Goblins)
  {
    TurnOrderSpec(g);
    var order := Positions(TurnOrder(g));
    PlayTurnsKeeps(g, order);
    PlayTurnsOver(g, order);
    if Bordered(g) {
      BorderedShape(g, Round(g).0);
    }
  }

  // ---------------------------------------------------------------- parsing

  /** The Space one input glyph stands for, a unit getting id `id` and full hit points. */
  function ParseCell(c: char, id: int): Option<Space>
  {
    match c
    case '#' => Some(Wall)
    case '.' => Some(Empty)
    case 'E' => Some(Elf(id, ElfHP))
    case 'G' => Some(Goblin(id, GoblinHP))
    case _ => None
  }

  predicate IsUnitGlyph(c: char) { c == 'E' || c == 'G' }

  /** How many unit glyphs `line` holds: how far `nextID` moves on. */
  function UnitGlyphs(line: string): (n: nat)
    ensures n <= |line|
    decreases |line|
  {
    if line == [] then 0 else UnitGlyphs(line[..|line| - 1]) + (if IsUnitGlyph(line[|line| - 1]) then 1 else 0)
  }

  /** The `map` of `addSpaces(line:)`: glyph by glyph, numbering units from `id`; an unknown glyph is fatal. */
  function ParseRow(line: string, id: int): (r: Option<seq<Space>>)
    ensures r.Some? ==> |r.value| == |line|
    decreases |line|
  {
    if line == [] then Some([])
    else
      var init := line[..|line| - 1];
      match ParseRow(init, id)
      case None => None
      case Some(row) =>
        match ParseCell(line[|line| - 1], id + UnitGlyphs(init))
        case None => None
        case Some(s) => Some(row + [s])
  }

  predicate KnownGlyph(c: char) { c == '#' || c == '.' || IsUnitGlyph(c) }

  /** A row parses exactly when every glyph is known. */
  lemma {:induction false} ParseRowSome(line: string, id: int)
    ensures ParseRow(line, id).Some? <==> forall i :: 0 <= i < |line| ==> KnownGlyph(line[i])
    decreases |line|
  {
    if line != [] {
      var init := line[..|line| - 1];
      ParseRowSome(init, id);
      assert forall i :: 0 <= i < |init| ==> init[i] == line[i];
    }
  }

  /** Cell `i` of a parsed row is glyph `i` read with the id that follows the units before it. */
  lemma {:induction false} ParseRowCell(line: string, id: int, i: nat)
    requires ParseRow(line, id).Some? && i < |line|
    ensures Some(ParseRow(line, id).value[i]) == ParseCell(line[i], id + UnitGlyphs(line[..i]))
    decreases |line|
  {
    var init := line[..|line| - 1];
    var before := ParseRow(init, id).value;
    var c := ParseCell(line[|line| - 1], id + UnitGlyphs(init));
    var row := ParseRow(line, id).value;
    assert c.Some? && row == before + [c.value];
    if i < |init| {
      ParseRowCell(init, id, i);
      assert init[..i] == line[..i] && init[i] == line[i] && row[i] == before[i];
    } else {
      assert line[..i] == init;
    }
  }

  /** The glyph `print()` shows for a cell. */
  function Glyph(s: Space): char
  {
    match s
    case Wall => '#'
    case Empty => '.'
    case Elf(_, _) => 'E'
    case Goblin(_, _) => 'G'
  }

  function Render(row: seq<Space>): (line: string)
    ensures |line| == |row| && forall i :: 0 <= i < |row| ==> line[i] == Glyph(row[i])
  {
    seq(|row|, i requires 0 <= i < |row| => Glyph(row[i]))
  }

  /** Printing a parsed row gives back the line. */
  lemma ParseThenRender(line: string, id: int)
    requires ParseRow(line, id).Some?
    ensures Render(ParseRow(line, id).value) == line
  {
    var row := ParseRow(line, id).value;
    forall i | 0 <= i < |line| ensures Render(row)[i] == line[i] {
      ParseRowCell(line, id, i);
    }
  }

  /** Re-parsing a printed row gives the same kind of cell everywhere; only ids and hit points may differ. */
  lemma RenderThenParse(row: seq<Space>, id: int)
    ensures ParseRow(Render(row), id).Some?
    ensures |ParseRow(Render(row), id).value| == |row|
    ensures forall i :: 0 <= i < |row| ==> Glyph(ParseRow(Render(row), id).value[i]) == Glyph(row[i])
  {
    var line := Render(row);
    ParseRowSome(line, id);
    forall i | 0 <= i < |row| ensures Glyph(ParseRow(line, id).value[i]) == Glyph(row[i]) {
      ParseRowCell(line, id, i);
    }
  }

  /** Units of a parsed row are numbered `id`, `id + 1`, ... from left to right, with full hit points. */
  lemma ParsedIds(line: string, id: int, i: nat)
    requires ParseRow(line, id).Some? && i < |line| && IsUnitGlyph(line[i])
    ensures var s := ParseRow(line, id).value[i];
      IsUnit(s) && s.id == id + UnitGlyphs(line[..i]) && s.hp == 200
  {
    ParseRowCell(line, id, i);
  }
}
