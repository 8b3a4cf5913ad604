/** The `Cave` class of the combat simulator: the grid and counters the source mutates, with each method proved
    against the functional model in `Combat`. */
module CaveBattle {
  import opened Wrappers
  import opened Combat
  import PQ = PriorityQueues

  /** The points of `s` in reverse order: `reverse()` on an array. */
  function Reversed<T>(s: seq<T>): (r: seq<T>)
    ensures |r| == |s| && forall i :: 0 <= i < |s| ==> r[i] == s[|s| - 1 - i]
    decreases |s|
  {
    if s == [] then [] else [s[|s| - 1]] + Reversed(s[..|s| - 1])
  }

  lemma ReversedAppend<T>(s: seq<T>, x: T)
    ensures Reversed(s + [x]) == [x] + Reversed(s)
  {
    assert (s + [x])[..|s|] == s;
  }

  lemma AppendAssoc<T>(a: seq<T>, b: seq<T>, c: seq<T>)
    ensures a + b + c == a + (b + c)
  {
  }

  class Cave {
    var spaces: Grid
    var rounds: int
    var nextID: int
    var isOver: bool

    constructor ()
      ensures spaces == [] && rounds == 0 && nextID == 1 && !isOver
    {
      spaces := [];
      rounds := 0;
      nextID := 1;
      isOver := false;
    }

    /** `addSpaces(line:)`: appends the parsed row, numbering its units from `nextID`. An unknown glyph, fatal in
        the source, gives `false` with no row added. */
    method AddSpaces(line: string) returns (ok: bool)
      modifies this
      ensures ok <==> ParseRow(line, old(nextID)).Some?
      ensures ok ==> spaces == old(spaces) + [ParseRow(line, old(nextID)).value] && nextID == old(nextID) + UnitGlyphs(line)
      ensures !ok ==> spaces == old(spaces)
      ensures rounds == old(rounds) && isOver == old(isOver)
    {
      var row: seq<Space> := [];
      var i := 0;
      while i < |line|
        invariant 0 <= i <= |line|
        invariant ParseRow(line[..i], old(nextID)) == Some(row)
        invariant nextID == old(nextID) + UnitGlyphs(line[..i])
        invariant spaces == old(spaces) && rounds == old(rounds) && isOver == old(isOver)
      {
        var space: Space;
        assert line[..i + 1][..i] == line[..i];
        match line[i] {
          case '#' =>
            space := Wall;
          case '.' =>
            space := Empty;
          case 'E' =>
            space := Elf(nextID, ElfHP);
            nextID := nextID + 1;
          case 'G' =>
            space := Goblin(nextID, GoblinHP);
            nextID := nextID + 1;
          case _ =>
            ParseRowSome(line, old(nextID));
            return false;
        }
        row := row + [space];
        i := i + 1;
      }
      assert line[..i] == line;
      spaces := spaces + [row];
      ok := true;
    }

    /** `roundOrder()`: a scan of the grid row by row. */
    method RoundOrder() returns (order: seq<(int, Point)>)
      ensures order == TurnOrder(spaces)
    {
      order := [];
      var y := 0;
      while y < |spaces|
        invariant 0 <= y <= |spaces|
        invariant order == GridUnits(spaces, y)
      {
        var row := spaces[y];
        var x := 0;
        while x < |row|
          invariant 0 <= x <= |row|
          invariant order == GridUnits(spaces, y) + RowUnits(spaces, y, x)
        {
          match row[x] {
            case Elf(id, _) =>
              order := order + [(id, Point(x, y))];
            case Goblin(id, _) =>
              order := order + [(id, Point(x, y))];
            case _ =>
          }
          x := x + 1;
        }
        y := y + 1;
      }
    }

    /** `remainingHitPoints()`: the hit points of each faction summed over the grid. */
    method RemainingHitPoints() returns (elves: int, goblins: int)
      ensures elves == TotalHp(spaces, Elves) && goblins == TotalHp(spaces, Goblins)
    {
      elves, goblins := 0, 0;
      var y := 0;
      while y < |spaces|
        invariant 0 <= y <= |spaces|
        invariant elves == GridHp(spaces, Elves, y) && goblins == GridHp(spaces, Goblins, y)
      {
        var row := spaces[y];
        var x := 0;
        while x < |row|
          invariant 0 <= x <= |row|
          invariant elves == GridHp(spaces, Elves, y) + RowHp(row, Elves, x)
          invariant goblins == GridHp(spaces, Goblins, y) + RowHp(row, Goblins, x)
        {
          match row[x] {
            case Elf(_, hp) =>
              elves := elves + hp;
            case Goblin(_, hp) =>
              goblins := goblins + hp;
            case _ =>
          }
          x := x + 1;
        }
        y := y + 1;
      }
    }

    /** `nextElfMovement(point:)` and `nextGoblinMovement(point:)`, which differ only in the enemy faction:
        nothing when an enemy is adjacent, else every Empty cell beside an enemy, in scan order. */
    method NextUnitMovement(point: Point) returns (targets: Option<seq<Point>>)
      requires InGrid(spaces, point) && IsUnit(At(spaces, point))
      ensures targets == Destinations(spaces, point)
    {
      var mover := spaces[point.y][point.x];
      if FoeAdjacent(spaces, mover, point) {
        return None;
      }
      var enemyPoints: seq<Point> := [];
      var y := 0;
      while y < |spaces|
        invariant 0 <= y <= |spaces|
        invariant enemyPoints == GridTargets(spaces, mover, y)
      {
        var rowPoints := ScanRow(spaces, mover, y);
        enemyPoints := enemyPoints + rowPoints;
        y := y + 1;
      }
      return Some(enemyPoints);
    }

    /** The inner loop of the target scan, over the cells of row `y`. */
    static method ScanRow(g: Grid, mover: Space, y: int) returns (r: seq<Point>)
      requires 0 <= y < |g|
      ensures r == RowTargets(g, mover, y, |g[y]|)
    {
      r := [];
      var row := g[y];
      var x := 0;
      while x < |row|
        invariant 0 <= x <= |row|
        invariant r == RowTargets(g, mover, y, x)
      {
        var enemyPoint := Point(x, y);
        RowTargetsStep(g, mover, y, x);
        if Enemies(mover, row[x]) {
          r := r + EmptyAmong(g, enemyPoint.Surrounding());
        }
        x := x + 1;
      }
    }

    /** `shortestPath(from:to:)`: the frontier is a priority queue, `cameFrom` and `costSoFar` are maps; the result
        is the path rebuilt backwards along `cameFrom` and reversed. */
    method ShortestPath(from: Point, to: Point) returns (path: Option<seq<Point>>)
      ensures path == Search(spaces, from, to)
    {
      var frontier := new PQ.PriorityQueue<Point>();
      frontier.Push(from, 0);
      var cameFrom: map<Point, Point> := map[];
      var costSoFar: map<Point, int> := map[from := 0];
      assert frontier.nodes == [(from, 0)];
      StartInv(spaces, from, to);
      while !frontier.IsEmpty()
        invariant SearchInv(spaces, from, to, SearchState(frontier.nodes, cameFrom, costSoFar))
        invariant Run(spaces, from, to, SearchState(frontier.nodes, cameFrom, costSoFar)) == Search(spaces, from, to)
        decreases |Cells(spaces) - costSoFar.Keys|, |frontier.nodes|
      {
        ghost var s := SearchState(frontier.nodes, cameFrom, costSoFar);
        var popped := frontier.Pop();
        var currentPoint := popped.value;
        if currentPoint == to {
          PopQueued(s);
          path := Rebuild(from, to, cameFrom);
          return;
        }
        var neighbors := EmptyAmong(spaces, currentPoint.Surrounding());
        cameFrom, costSoFar := Relaxing(to, frontier, cameFrom, costSoFar, currentPoint, neighbors);
        Step(spaces, from, to, s);
        NextProgress(spaces, to, s);
      }
      return None;
    }

    /** The `for nextPoint in neighbors` loop of `shortestPath`: a point not yet in `costSoFar` is recorded and
        pushed with priority `newCost` plus its Manhattan distance to `to`. */
    static method Relaxing(to: Point, frontier: PQ.PriorityQueue<Point>, cameFrom: map<Point, Point>, costSoFar: map<Point, int>,
                           currentPoint: Point, neighbors: seq<Point>)
      returns (cameFrom': map<Point, Point>, costSoFar': map<Point, int>)
      modifies frontier
      ensures SearchState(frontier.nodes, cameFrom', costSoFar') ==
              Relax(to, SearchState(old(frontier.nodes), cameFrom, costSoFar), currentPoint, neighbors)
    {
      cameFrom', costSoFar' := cameFrom, costSoFar;
      var k := 0;
      while k < |neighbors|
        invariant 0 <= k <= |neighbors|
        invariant Relax(to, SearchState(frontier.nodes, cameFrom', costSoFar'), currentPoint, neighbors[k..]) ==
                  Relax(to, SearchState(old(frontier.nodes), cameFrom, costSoFar), currentPoint, neighbors)
      {
        ghost var before := SearchState(frontier.nodes, cameFrom', costSoFar');
        RelaxCons(to, before, currentPoint, neighbors[k..]);
        assert neighbors[k..][0] == neighbors[k] && neighbors[k..][1..] == neighbors[k + 1..];
        cameFrom', costSoFar' := Visit(to, frontier, cameFrom', costSoFar', currentPoint, neighbors[k]);
        k := k + 1;
      }
    }

    /** One pass of the neighbour loop. The new cost is one more than the neighbour's own recorded cost (not the
        current point's), so a neighbour already costed never improves, and a new one is recorded at cost 1 and
        queued at 1 plus its distance estimate. */
    static method Visit(to: Point, frontier: PQ.PriorityQueue<Point>, cameFrom: map<Point, Point>,
                        costSoFar: map<Point, int>, currentPoint: Point, nextPoint: Point)
      returns (cameFrom': map<Point, Point>, costSoFar': map<Point, int>)
      modifies frontier
      ensures nextPoint in costSoFar ==>
                SearchState(frontier.nodes, cameFrom', costSoFar') == SearchState(old(frontier.nodes), cameFrom, costSoFar)
      ensures nextPoint !in costSoFar ==>
                SearchState(frontier.nodes, cameFrom', costSoFar') ==
                Discovered(to, SearchState(old(frontier.nodes), cameFrom, costSoFar), currentPoint, nextPoint)
    {
      cameFrom', costSoFar' := cameFrom, costSoFar;
      var soFar := if nextPoint in costSoFar' then costSoFar'[nextPoint] else 0;
      var newCost := soFar + 1;
      if nextPoint !in costSoFar' || newCost < costSoFar'[nextPoint] {
        assert nextPoint !in costSoFar' && newCost == 1;
        costSoFar' := costSoFar'[nextPoint := newCost];
        var priority := newCost + Abs(to.x - nextPoint.x) + Abs(to.y - nextPoint.y);
        assert priority == 1 + Manhattan(to, nextPoint);
        frontier.Push(nextPoint, priority);
        cameFrom' := cameFrom'[nextPoint := currentPoint];
      }
    }

    /** The reconstruction at the end of `shortestPath`: follows `cameFrom` back from `to` until `from`. */
    static method Rebuild(from: Point, to: Point, cameFrom: map<Point, Point>) returns (path: Option<seq<Point>>)
      requires Reaches(cameFrom, from, to, |cameFrom|)
      ensures path == Some(Reconstruct(cameFrom, from, to, |cameFrom|))
    {
      var list: seq<Point> := [];
      var listCurrent := to;
      ghost var n: nat := |cameFrom|;
      while listCurrent != from
        invariant Reaches(cameFrom, from, listCurrent, n)
        invariant Reconstruct(cameFrom, from, to, |cameFrom|) == Reconstruct(cameFrom, from, listCurrent, n) + Reversed(list)
        decreases n
      {
        ReversedAppend(list, listCurrent);
        list := list + [listCurrent];
        listCurrent := cameFrom[listCurrent];
        n := n - 1;
      }
      ReversedAppend(list, from);
      list := list + [from];
      return Some(Reversed(list));
    }

    /** `nextMovement(point:)`: targets sorted in reading order, then every target against every Empty
        neighbour, keeping the first strictly shorter path; the step is that path's first point. */
    method NextMovement(point: Point) returns (step: Option<Point>)
      requires InGrid(spaces, point)
      ensures step == MoveChoice(spaces, point)
    {
      var space := spaces[point.y][point.x];
      if !IsUnit(space) {
        return None;
      }
      var potentialPoints := NextUnitMovement(point);
      if potentialPoints.None? {
        return None;
      }
      var targetPoints := SortPoints(potentialPoints.value);
      var bestPath: Option<seq<Point>> := None;
      var bestDistance := 0;
      var sourcePoints := EmptyAmong(spaces, point.Surrounding());
      var i := 0;
      while i < |targetPoints|
        invariant 0 <= i <= |targetPoints|
        invariant BestPath(spaces, targetPoints[i..], sourcePoints, bestPath) == BestPath(spaces, targetPoints, sourcePoints, None)
        invariant bestPath.Some? ==> bestDistance == |bestPath.value|
      {
        var targetPoint := targetPoints[i];
        ghost var before := bestPath;
        var j := 0;
        while j < |sourcePoints|
          invariant 0 <= j <= |sourcePoints|
          invariant BestFromSources(spaces, targetPoint, sourcePoints[j..], bestPath) == BestFromSources(spaces, targetPoint, sourcePoints, before)
          invariant bestPath.Some? ==> bestDistance == |bestPath.value|
        {
          var path := ShortestPath(sourcePoints[j], targetPoint);
          if path.Some? && (bestPath.None? || |path.value| < bestDistance) {
            bestDistance := |path.value|;
            bestPath := path;
          }
          assert sourcePoints[j..][1..] == sourcePoints[j + 1..];
          j := j + 1;
        }
        assert targetPoints[i..][1..] == targetPoints[i + 1..];
        i := i + 1;
      }
      BestPathStart(spaces, targetPoints, sourcePoints);
      if bestPath.None? {
        return None;
      }
      return Some(bestPath.value[0]);
    }

    /** `attack(point:)` with `elfAttack`/`goblinAttack`: the strictly weakest adjacent enemy, first in
        up/left/right/down order on a tie, loses the attack power, and its cell empties at 0 or below. */
    method Attack(point: Point)
      requires InGrid(spaces, point)
      modifies this
      ensures spaces == Attacked(old(spaces), point)
      ensures rounds == old(rounds) && nextID == old(nextID) && isOver == old(isOver)
    {
      var u := spaces[point.y][point.x];
      if !IsUnit(u) {
        return;
      }
      var enemyPoints := point.Surrounding();
      var bestPoint: Option<Point> := None;
      var bestHp := 0;
      var i := 0;
      while i < 4
        invariant 0 <= i <= 4
        invariant bestPoint == Weakest(spaces, u, enemyPoints, i)
        invariant bestPoint.Some? ==> bestHp == At(spaces, bestPoint.value).hp
      {
        var enemyPoint := enemyPoints[i];
        if FoeAt(spaces, u, enemyPoint) {
          var enemyHp := spaces[enemyPoint.y][enemyPoint.x].hp;
          if bestPoint.None? || enemyHp < bestHp {
            bestPoint := Some(enemyPoint);
            bestHp := enemyHp;
          }
        }
        i := i + 1;
      }
      if bestPoint.Some? {
        var enemyPoint := bestPoint.value;
        var enemy := spaces[enemyPoint.y][enemyPoint.x];
        var newEnemyHp := enemy.hp - AttackPower(u);
        if newEnemyHp > 0 {
          spaces := Put(spaces, enemyPoint, enemy.(hp := newEnemyHp));
        } else {
          spaces := Put(spaces, enemyPoint, Empty);
        }
      }
    }

    /** One unit's turn inside `nextRound()`: move one step if `nextMovement` says so, then attack from where it
        stands. */
    method TakeTurn(point: Point)
      requires InGrid(spaces, point)
      modifies this
      ensures spaces == Turn(old(spaces), point)
      ensures rounds == old(rounds) && isOver == old(isOver) && nextID == old(nextID)
    {
      var currentPoint := MoveUnit(point);
      Attack(currentPoint);
    }

    /** The move half of a turn: the unit at `point` steps to the square `nextMovement` picks, if any; the result
        is where the unit now stands. */
    method MoveUnit(point: Point) returns (currentPoint: Point)
      requires InGrid(spaces, point)
      modifies this
      ensures MoveChoice(old(spaces), point).None? ==> spaces == old(spaces) && currentPoint == point
      ensures MoveChoice(old(spaces), point).Some? ==>
                currentPoint == MoveChoice(old(spaces), point).value && spaces == Moved(old(spaces), point, currentPoint)
      ensures InGrid(spaces, currentPoint)
      ensures rounds == old(rounds) && isOver == old(isOver) && nextID == old(nextID)
    {
      currentPoint := point;
      var movePoint := NextMovement(point);
      if movePoint.Some? {
        var space := spaces[point.y][point.x];
        spaces := Put(spaces, point, Empty);
        spaces := Put(spaces, movePoint.value, space);
        currentPoint := movePoint.value;
      }
    }

    /** `nextRound()`: the turn order is read once; before each turn the battle ends if a faction has no hit
        points left, without counting the round; otherwise the unit steps and attacks, and the round counts. */
    method NextRound()
      requires Bordered(spaces)
      modifies this
      ensures spaces == Round(old(spaces)).0 && Bordered(spaces)
      ensures Round(old(spaces)).1 ==> isOver && rounds == old(rounds)
      ensures !Round(old(spaces)).1 ==> isOver == old(isOver) && rounds == old(rounds) + 1
      ensures nextID == old(nextID)
    {
      var order := RoundOrder();
      TurnOrderSpec(spaces);
      PlayTurnsWalls(spaces, Positions(order));
      var over := PlayOrder(order);
      if over {
        isOver := true;
      } else {
        rounds := rounds + 1;
      }
    }

    /** The loop of `nextRound()` over the turn order, one turn per listed position; it stops as soon as a
        faction has no hit points left, before that unit's turn, and then reports the battle over. */
    method PlayOrder(order: seq<(int, Point)>) returns (over: bool)
      requires forall i :: 0 <= i < |order| ==> InGrid(spaces, order[i].1)
      modifies this
      ensures (spaces, over) == PlayTurns(old(spaces), Positions(order))
      ensures rounds == old(rounds) && isOver == old(isOver) && nextID == old(nextID)
    {
      ghost var points := Positions(order);
      var i := 0;
      while i < |order|
        invariant 0 <= i <= |order|
        invariant SameShape(old(spaces), spaces)
        invariant forall j :: i <= j < |order| ==> InGrid(spaces, points[j])
        invariant PlayTurns(spaces, points[i..]) == PlayTurns(old(spaces), points)
        invariant rounds == old(rounds) && isOver == old(isOver) && nextID == old(nextID)
      {
        var point := order[i].1;
        var elves, goblins := RemainingHitPoints();
        PlayTurnsHead(spaces, points[i..]);
        if elves == 0 || goblins == 0 {
          return true;
        }
        TakeTurn(point);
        assert points[i..][1..] == points[i + 1..];
        i := i + 1;
      }
      return false;
    }
  }

  /** The driver loop `while !cave.isOver { cave.nextRound() }`, cut off after `fuel` rounds: once the battle is
      declared over, one faction has no unit left. */
  method Battle(cave: Cave, fuel: nat)
    requires Bordered(cave.spaces) && Alive(cave.spaces) && !cave.isOver
    modifies cave
    ensures cave.isOver ==> !HasFaction(cave.spaces, Elves) || !HasFaction(cave.spaces, Goblins)
    ensures Bordered(cave.spaces) && Alive(cave.spaces)
  {
    var left := fuel;
    while !cave.isOver && left > 0
      invariant Bordered(cave.spaces) && Alive(cave.spaces)
      invariant cave.isOver ==> !HasFaction(cave.spaces, Elves) || !HasFaction(cave.spaces, Goblins)
    {
      RoundKeeps(cave.spaces);
      cave.NextRound();
      left := left - 1;
    }
  }
}
