/**
 * Day 6: chronal coordinates. Every cell of a box reaching from (0, 0) to the largest coordinates
 * is labelled with the id of the unique nearest point in Manhattan distance, or -1 when the nearest
 * distance is shared; labels that touch the edge of the box are infinite, the others are counted,
 * and the largest count wins. Part 2 collects the cells whose total distance to all points is below
 * a limit. Points are given already parsed, numbered in input order; the drawing is not modelled.
 */
module Coordinates {
  import opened Wrappers

  /** `Int.max` and `Int.min` of the 64-bit platform. */
  const IntMax: int := 0x7fff_ffff_ffff_ffff
  const IntMin: int := -0x8000_0000_0000_0000

  /** Coordinates below this bound keep every distance within `Int.max`. */
  const Limit: int := 0x4000_0000_0000_0000

  /** A point of the input, or a cell of the box (lines 7-15). */
  datatype Point = Point(id: int, x: int, y: int)

  function Abs(n: int): nat
  {
    if n < 0 then -n else n
  }

  /** The Manhattan distance (lines 12-14). */
  function Distance(a: Point, b: Point): (d: nat)
    ensures d == 0 <==> a.x == b.x && a.y == b.y
  {
    Abs(a.x - b.x) + Abs(a.y - b.y)
  }

  /** The distance does not depend on the order of the points, and no detour is shorter. */
  lemma DistanceMetric(a: Point, b: Point, c: Point)
    ensures Distance(a, b) == Distance(b, a)
    ensures Distance(a, c) <= Distance(a, b) + Distance(b, c)
  {
  }

  /** The points are numbered by their position in the input (line 42). */
  predicate Numbered(points: seq<Point>)
  {
    forall i :: 0 <= i < |points| ==> points[i].id == i
  }

  // The bounds (lines 47-69).

  function Xs(points: seq<Point>): seq<int>
  {
    seq(|points|, i requires 0 <= i < |points| => points[i].x)
  }

  function Ys(points: seq<Point>): seq<int>
  {
    seq(|points|, i requires 0 <= i < |points| => points[i].y)
  }

  /** The least value, starting from `Int.max`. */
  function Least(s: seq<int>): int
  {
    if s == [] then IntMax
    else
      var m := Least(s[..|s| - 1]);
      if s[|s| - 1] < m then s[|s| - 1] else m
  }

  /** The greatest value, starting from `Int.min`. */
  function Greatest(s: seq<int>): int
  {
    if s == [] then IntMin
    else
      var m := Greatest(s[..|s| - 1]);
      if s[|s| - 1] > m then s[|s| - 1] else m
  }

  /** The least value of values within the 64-bit range is at most each of them and is one of them. */
  lemma {:induction false} LeastBounds(s: seq<int>)
    requires s != [] && forall i :: 0 <= i < |s| ==> s[i] <= IntMax
    ensures forall i :: 0 <= i < |s| ==> Least(s) <= s[i]
    ensures exists i :: 0 <= i < |s| && s[i] == Least(s)
  {
    var n := |s| - 1;
    if n > 0 {
      LeastBounds(s[..n]);
      var k :| 0 <= k < n && s[..n][k] == Least(s[..n]);
      assert forall i :: 0 <= i < n ==> s[..n][i] == s[i];
      if s[n] >= Least(s[..n]) {
        assert s[k] == Least(s);
      }
    }
  }

  /** The greatest value of values within the 64-bit range is at least each of them and is one of
      them. */
  lemma {:induction false} GreatestBounds(s: seq<int>)
    requires s != [] && forall i :: 0 <= i < |s| ==> IntMin <= s[i]
    ensures forall i :: 0 <= i < |s| ==> s[i] <= Greatest(s)
    ensures exists i :: 0 <= i < |s| && s[i] == Greatest(s)
  {
    var n := |s| - 1;
    if n > 0 {
      GreatestBounds(s[..n]);
      var k :| 0 <= k < n && s[..n][k] == Greatest(s[..n]);
      assert forall i :: 0 <= i < n ==> s[..n][i] == s[i];
      if s[n] <= Greatest(s[..n]) {
        assert s[k] == Greatest(s);
      }
    }
  }

  /** The bounds loop (lines 47-69): each coordinate lowers a minimum or raises a maximum. */
  method Bounds(points: seq<Point>) returns (minX: int, minY: int, maxX: int, maxY: int)
    ensures minX == Least(Xs(points)) && minY == Least(Ys(points))
    ensures maxX == Greatest(Xs(points)) && maxY == Greatest(Ys(points))
  {
    minX, minY, maxX, maxY := IntMax, IntMax, IntMin, IntMin;
    var k := 0;
    while k < |points|
      invariant 0 <= k <= |points|
      invariant minX == Least(Xs(points[..k])) && minY == Least(Ys(points[..k]))
      invariant maxX == Greatest(Xs(points[..k])) && maxY == Greatest(Ys(points[..k]))
    {
      var point := points[k];
      PrefixCoordinates(points, k);
      if point.x < minX {
        minX := point.x;
      }
      if point.y < minY {
        minY := point.y;
      }
      if point.x > maxX {
        maxX := point.x;
      }
      if point.y > maxY {
        maxY := point.y;
      }
      k := k + 1;
    }
    assert points[..k] == points;
  }

  /** The coordinates of one more point. */
  lemma PrefixCoordinates(points: seq<Point>, k: nat)
    requires k < |points|
    ensures Xs(points[..k + 1])[..k] == Xs(points[..k]) && Xs(points[..k + 1])[k] == points[k].x
    ensures Ys(points[..k + 1])[..k] == Ys(points[..k]) && Ys(points[..k + 1])[k] == points[k].y
  {
  }

  // The box (lines 78-110).

  /** Point `i` is nearer to `q` than every other point. */
  predicate StrictlyNearest(points: seq<Point>, q: Point, i: int)
  {
    0 <= i < |points| && forall j :: 0 <= j < |points| && j != i ==> Distance(points[i], q) < Distance(points[j], q)
  }

  /** The label of a cell: the id of the point strictly nearest to it, or -1 when the nearest
      distance is shared (or there is no point). */
  ghost function Label(points: seq<Point>, q: Point): (r: int)
    ensures r == -1 || exists i :: StrictlyNearest(points, q, i) && points[i].id == r
    ensures (forall i :: !StrictlyNearest(points, q, i)) ==> r == -1
  {
    if exists i :: StrictlyNearest(points, q, i) then
      var i :| StrictlyNearest(points, q, i);
      points[i].id
    else -1
  }

  /** At most one point is strictly nearest. */
  lemma NearestUnique(points: seq<Point>, q: Point, i: int, j: int)
    requires StrictlyNearest(points, q, i) && j != i
    ensures !StrictlyNearest(points, q, j)
  {
    assert 0 <= j < |points| ==> Distance(points[i], q) < Distance(points[j], q);
  }

  /** A cell's label is the number of its strictly nearest point, or -1 when none is. */
  lemma LabelMeaning(points: seq<Point>, q: Point, i: int)
    requires Numbered(points)
    ensures Label(points, q) == i <==> (StrictlyNearest(points, q, i) || (i == -1 && forall j :: !StrictlyNearest(points, q, j)))
  {
    if exists k :: StrictlyNearest(points, q, k) {
      var k :| StrictlyNearest(points, q, k);
      if i != k {
        NearestUnique(points, q, k, i);
      }
    }
  }

  /** A cell holding exactly one point is labelled with that point. */
  lemma LabelAtPoint(points: seq<Point>, i: int, q: Point)
    requires Numbered(points) && 0 <= i < |points| && points[i].x == q.x && points[i].y == q.y
    requires forall j :: 0 <= j < |points| && j != i ==> points[j].x != q.x || points[j].y != q.y
    ensures Label(points, q) == i
  {
    assert StrictlyNearest(points, q, i);
    LabelMeaning(points, q, i);
  }

  /** A cell with two points at the same least distance is labelled -1. */
  lemma LabelTied(points: seq<Point>, q: Point, i: int, j: int)
    requires Numbered(points) && 0 <= i < |points| && 0 <= j < |points| && i != j
    requires Distance(points[i], q) == Distance(points[j], q)
    requires forall k :: 0 <= k < |points| ==> Distance(points[i], q) <= Distance(points[k], q)
    ensures Label(points, q) == -1
  {
    forall k | 0 <= k < |points|
      ensures !StrictlyNearest(points, q, k)
    {
      assert k != i ==> Distance(points[k], q) >= Distance(points[i], q);
      assert k == i ==> Distance(points[j], q) == Distance(points[i], q);
    }
    LabelMeaning(points, q, -1);
  }

  /** Every distance from a point to `q` is computed without overflow. */
  predicate Reachable(points: seq<Point>, q: Point)
  {
    forall i :: 0 <= i < |points| ==> Distance(points[i], q) <= IntMax
  }

  /** The search for the closest points of one cell (lines 88-106): a nearer point replaces the
      list, an equally near one joins it, and the cell gets an id only when the list holds one
      point. */
  method Closest(points: seq<Point>, q: Point) returns (id: int)
    requires Reachable(points, q)
    ensures id == Label(points, q)
  {
    var closestDistance := IntMax;
    var closestPoints: seq<Point> := [];
    ghost var first, second := 0, 0;
    var k := 0;
    while k < |points|
      invariant 0 <= k <= |points| && closestDistance <= IntMax
      invariant k == 0 ==> closestPoints == [] && closestDistance == IntMax
      invariant k > 0 ==> 0 <= first < k && closestPoints != [] && closestPoints[0] == points[first]
      invariant k > 0 ==> Distance(points[first], q) == closestDistance
      invariant forall j :: 0 <= j < k ==> closestDistance <= Distance(points[j], q)
      invariant |closestPoints| == 1 ==> forall j :: 0 <= j < k && j != first ==> closestDistance < Distance(points[j], q)
      invariant |closestPoints| > 1 ==> 0 <= second < k && second != first && Distance(points[second], q) == closestDistance
    {
      var distance := Distance(points[k], q);
      if distance < closestDistance {
        closestPoints := [points[k]];
        first := k;
        closestDistance := distance;
      } else if distance == closestDistance {
        if closestPoints == [] {
          first := k;
        } else {
          second := k;
        }
        closestPoints := closestPoints + [points[k]];
      }
      k := k + 1;
    }
    if |closestPoints| == 1 {
      id := closestPoints[0].id;
      assert StrictlyNearest(points, q, first);
    } else {
      id := -1;
      forall i | 0 <= i < |points|
        ensures !StrictlyNearest(points, q, i)
      {
        var other := if first == i then second else first;
        assert other != i && Distance(points[other], q) <= Distance(points[i], q);
      }
    }
  }

  /** The points lie in the quadrant the input format allows, far enough from overflow. */
  predicate Modest(points: seq<Point>)
  {
    forall i :: 0 <= i < |points| ==> 0 <= points[i].x < Limit && 0 <= points[i].y < Limit
  }

  /** The box: `height` rows of `width` labelled cells. */
  ghost function Box(points: seq<Point>, width: nat, height: nat): (r: seq<seq<int>>)
    ensures |r| == height && forall y :: 0 <= y < height ==> |r[y]| == width
    ensures forall y, x :: 0 <= y < height && 0 <= x < width ==>
      r[y][x] == -1 || exists i :: StrictlyNearest(points, Point(IntMin, x, y), i) && points[i].id == r[y][x]
  {
    seq(height, y requires 0 <= y < height => seq(width, x requires 0 <= x < width => Label(points, Point(IntMin, x, y))))
  }

  /** Cells of a box within the bound are reached without overflow. */
  lemma ModestReachable(points: seq<Point>, q: Point)
    requires Modest(points) && 0 <= q.x < Limit && 0 <= q.y < Limit
    ensures Reachable(points, q)
  {
    forall i | 0 <= i < |points|
      ensures Distance(points[i], q) <= IntMax
    {
      assert Abs(points[i].x - q.x) < Limit && Abs(points[i].y - q.y) < Limit;
    }
  }

  /** Building the box row by row (lines 78-110). */
  method BuildBox(points: seq<Point>, width: int, height: int) returns (box: seq<seq<int>>)
    requires Modest(points) && 0 <= width <= Limit && 0 <= height <= Limit
    ensures box == Box(points, width, height)
  {
    box := [];
    var boxY := 0;
    while boxY < height
      invariant 0 <= boxY <= height && |box| == boxY
      invariant forall y :: 0 <= y < boxY ==> box[y] == Box(points, width, height)[y]
    {
      var row := seq(width, _ => -1);
      var boxX := 0;
      while boxX < width
        invariant 0 <= boxX <= width && |row| == width
        invariant forall x :: 0 <= x < boxX ==> row[x] == Label(points, Point(IntMin, x, boxY))
      {
        var boxPoint := Point(IntMin, boxX, boxY);
        ModestReachable(points, boxPoint);
        var id := Closest(points, boxPoint);
        row := row[boxX := id];
        boxX := boxX + 1;
      }
      box := box + [row];
      boxY := boxY + 1;
    }
  }

  // The infinite labels (lines 135-144).

  /** A box with at least one row and one cell per row, as `first!` and `last!` demand. */
  predicate Framed(box: seq<seq<int>>)
  {
    box != [] && forall y :: 0 <= y < |box| ==> box[y] != []
  }

  /** The labels on the edge of the box: the first and the last row, the first and the last
      column. */
  function Border(box: seq<seq<int>>): (r: set<int>)
    ensures box != [] ==> Values(box[0]) <= r && Values(box[|box| - 1]) <= r
  {
    set y, x | 0 <= y < |box| && 0 <= x < |box[y]| && (y == 0 || y == |box| - 1 || x == 0 || x == |box[y]| - 1) :: box[y][x]
  }

  /** The labels of a row. */
  function Values(row: seq<int>): set<int>
  {
    set v | v in row
  }

  /** Collecting the infinite labels (lines 136-144). */
  method Infinites(box: seq<seq<int>>) returns (inf: set<int>)
    requires Framed(box)
    ensures inf == Border(box)
  {
    inf := {};
    inf := inf + Values(box[0]);
    inf := inf + Values(box[|box| - 1]);
    var y := 0;
    while y < |box|
      invariant 0 <= y <= |box|
      invariant inf == Values(box[0]) + Values(box[|box| - 1]) + EdgesUpTo(box, y)
    {
      inf := inf + {box[y][0]};
      inf := inf + {box[y][|box[y]| - 1]};
      y := y + 1;
    }
    BorderParts(box);
  }

  /** The first and last labels of the first `y` rows. */
  function EdgesUpTo(box: seq<seq<int>>, y: nat): set<int>
    requires Framed(box) && y <= |box|
  {
    (set r | 0 <= r < y :: box[r][0]) + (set r | 0 <= r < y :: box[r][|box[r]| - 1])
  }

  /** The edge of the box is its first row, its last row and the ends of every row. */
  lemma BorderParts(box: seq<seq<int>>)
    requires Framed(box)
    ensures Border(box) == Values(box[0]) + Values(box[|box| - 1]) + EdgesUpTo(box, |box|)
  {
    var n := |box| - 1;
    forall v | v in Border(box)
      ensures v in Values(box[0]) + Values(box[n]) + EdgesUpTo(box, |box|)
    {
      var y, x :| 0 <= y < |box| && 0 <= x < |box[y]| && (y == 0 || y == n || x == 0 || x == |box[y]| - 1) && box[y][x] == v;
      if y == 0 {
        assert box[0][x] in box[0];
      } else if y == n {
        assert box[n][x] in box[n];
      }
    }
    assert Values(box[0]) + Values(box[n]) <= Border(box);
  }

  // The areas (lines 148-175).

  /** How many cells of a row hold `v`. */
  function CountRow(row: seq<int>, v: int): nat
  {
    if row == [] then 0 else CountRow(row[..|row| - 1], v) + (if row[|row| - 1] == v then 1 else 0)
  }

  /** How many cells of the box hold `v`. */
  function CountBox(box: seq<seq<int>>, v: int): nat
  {
    if box == [] then 0 else CountBox(box[..|box| - 1], v) + CountRow(box[|box| - 1], v)
  }

  /** A row counts `v` exactly when `v` occurs in it. */
  lemma {:induction false} CountRowOccurs(row: seq<int>, v: int)
    ensures CountRow(row, v) > 0 <==> v in row
  {
    if row != [] {
      var n := |row| - 1;
      CountRowOccurs(row[..n], v);
      assert row == row[..n] + [row[n]];
    }
  }

  /** The box counts `v` exactly when some cell holds `v`. */
  lemma {:induction false} CountBoxOccurs(box: seq<seq<int>>, v: int)
    ensures CountBox(box, v) > 0 <==> exists y :: 0 <= y < |box| && v in box[y]
  {
    if box != [] {
      var n := |box| - 1;
      CountBoxOccurs(box[..n], v);
      CountRowOccurs(box[n], v);
      assert forall y :: 0 <= y < n ==> box[..n][y] == box[y];
    }
  }

  /** The tally of the labels that are not infinite (lines 149-167): every cell adds one to the
      entry of its label, creating it when missing. */
  method Areas(box: seq<seq<int>>, inf: set<int>) returns (areas: map<int, int>)
    ensures forall v :: v in areas ==> v !in inf && areas[v] == CountBox(box, v) > 0
    ensures forall v :: v !in inf && CountBox(box, v) > 0 ==> v in areas
  {
    areas := map[];
    var y := 0;
    while y < |box|
      invariant 0 <= y <= |box|
      invariant forall v :: v in areas ==> v !in inf && areas[v] == CountBox(box[..y], v) > 0
      invariant forall v :: v !in inf && CountBox(box[..y], v) > 0 ==> v in areas
    {
      var row := box[y];
      var x := 0;
      while x < |row|
        invariant 0 <= x <= |row|
        invariant forall v :: v in areas ==> v !in inf && areas[v] == CountBox(box[..y], v) + CountRow(row[..x], v) > 0
        invariant forall v :: v !in inf && CountBox(box[..y], v) + CountRow(row[..x], v) > 0 ==> v in areas
      {
        var value := row[x];
        assert row[..x + 1][..x] == row[..x];
        if value !in inf {
          var newArea: int;
          if value in areas {
            newArea := areas[value] + 1;
          } else {
            newArea := 1;
          }
          areas := areas[value := newArea];
        }
        x := x + 1;
      }
      assert row[..x] == row;
      assert box[..y + 1][..y] == box[..y];
      y := y + 1;
    }
    assert box[..y] == box;
  }

  /** A set that is not empty has an element. */
  lemma Inhabited(s: set<int>)
    ensures s == {} || exists x :: x in s
  {
    if forall y :: y !in s {
      assert s == {};
    }
  }

  /** `areas.max` by value (lines 171-173): some entry of greatest value. The dictionary is visited
      in no fixed order, so the loop picks its next key freely. */
  method LargestArea(areas: map<int, int>) returns (key: int, value: int)
    requires areas != map[]
    ensures key in areas && value == areas[key]
    ensures forall k :: k in areas ==> areas[k] <= value
  {
    var keys := areas.Keys;
    Inhabited(keys);
    key :| key in keys;
    value := areas[key];
    keys := keys - {key};
    while keys != {}
      invariant keys <= areas.Keys && key in areas && value == areas[key]
      invariant forall k :: k in areas && k !in keys ==> areas[k] <= value
      decreases keys
    {
      Inhabited(keys);
      var k :| k in keys;
      if value < areas[k] {
        key, value := k, areas[k];
      }
      keys := keys - {k};
    }
  }

  /** The box of part 1, from (0, 0) to the greatest coordinates. */
  ghost function Grid(points: seq<Point>): seq<seq<int>>
    requires points != [] && Modest(points)
  {
    ModestBounds(points);
    Box(points, Greatest(Xs(points)) + 1, Greatest(Ys(points)) + 1)
  }

  /** A label that does not touch the edge of the box. */
  ghost predicate Finite(points: seq<Point>, v: int)
    requires points != [] && Modest(points)
  {
    v !in Border(Grid(points))
  }

  /** The number of cells of the box with label `v`. */
  ghost function Area(points: seq<Point>, v: int): nat
    requires points != [] && Modest(points)
  {
    CountBox(Grid(points), v)
  }

  /** Part 1 (lines 47-175): the largest area among the labels that do not touch the edge of the
      box; `None` where `areas.max` finds no entry and the program stops. */
  method LargestFiniteArea(points: seq<Point>) returns (r: Option<(int, int)>)
    requires points != [] && Modest(points)
    ensures r.Some? ==> Finite(points, r.value.0) && r.value.1 == Area(points, r.value.0)
    ensures r.Some? ==> forall v :: Finite(points, v) ==> Area(points, v) <= r.value.1
    ensures r.None? ==> forall v :: Finite(points, v) ==> Area(points, v) == 0
  {
    var minX, minY, maxX, maxY := Bounds(points);
    ModestBounds(points);
    var width, height := maxX + 1, maxY + 1;
    var box := BuildBox(points, width, height);
    var inf := Infinites(box);
    var areas := Areas(box, inf);
    if areas == map[] {
      return None;
    }
    var key, value := LargestArea(areas);
    forall v | v !in inf
      ensures CountBox(box, v) <= value
    {
      if CountBox(box, v) > 0 {
        assert v in areas;
      }
    }
    return Some((key, value));
  }

  /** The box of points in the quadrant has at least one row and one column, within the bound. */
  lemma ModestBounds(points: seq<Point>)
    requires points != [] && Modest(points)
    ensures 0 <= Greatest(Xs(points)) < Limit && 0 <= Greatest(Ys(points)) < Limit
  {
    GreatestBounds(Xs(points));
    GreatestBounds(Ys(points));
    assert Xs(points)[0] == points[0].x && Ys(points)[0] == points[0].y;
  }

  // Part 2 (lines 177-194).

  /** The example has 6 points and a safe distance of 32; the puzzle 10000. */
  function SafeDistance(points: seq<Point>): int
  {
    if |points| == 6 then 32 else 10000
  }

  /** The total distance from a cell to every point (line 186). */
  function Total(points: seq<Point>, q: Point): nat
  {
    if points == [] then 0 else Total(points[..|points| - 1], q) + Distance(points[|points| - 1], q)
  }

  /** The total distance is zero exactly at a cell every point shares. */
  lemma {:induction false} TotalZero(points: seq<Point>, q: Point)
    ensures Total(points, q) == 0 <==> forall i :: 0 <= i < |points| ==> points[i].x == q.x && points[i].y == q.y
  {
    if points != [] {
      var n := |points| - 1;
      TotalZero(points[..n], q);
      assert forall i :: 0 <= i < n ==> points[..n][i] == points[i];
    }
  }

  /** The total distance is at least the distance to each point. */
  lemma {:induction false} TotalAtLeast(points: seq<Point>, q: Point, i: int)
    requires 0 <= i < |points|
    ensures Distance(points[i], q) <= Total(points, q)
  {
    var n := |points| - 1;
    if i < n {
      TotalAtLeast(points[..n], q, i);
    }
  }

  /** A cell of the window, the rectangle spanned by the points. */
  predicate InWindow(p: Point, minX: int, maxX: int, minY: int, maxY: int)
  {
    minX <= p.x <= maxX && minY <= p.y <= maxY
  }

  /** A safe cell: in the window, with total distance below the safe distance. */
  predicate SafeCell(points: seq<Point>, p: Point, minX: int, maxX: int, minY: int, maxY: int)
  {
    p.id == -1 && InWindow(p, minX, maxX, minY, maxY) && Total(points, p) < SafeDistance(points)
  }

  /** Column by column, then row by row. */
  predicate Before(a: Point, b: Point)
  {
    a.x < b.x || (a.x == b.x && a.y < b.y)
  }

  /** The search for safe cells (lines 179-192): each column of the window from left to right, each
      cell from top to bottom. The closed ranges require the window not to be empty. */
  method SafePoints(points: seq<Point>, minX: int, maxX: int, minY: int, maxY: int) returns (safe: seq<Point>)
    requires minX <= maxX && minY <= maxY
    ensures forall p :: p in safe <==> SafeCell(points, p, minX, maxX, minY, maxY)
    ensures forall i, j :: 0 <= i < j < |safe| ==> Before(safe[i], safe[j])
  {
    safe := [];
    var x := minX;
    while x <= maxX
      invariant minX <= x <= maxX + 1
      invariant forall p :: p in safe ==> SafeCell(points, p, minX, maxX, minY, maxY) && p.x < x
      invariant forall p :: SafeCell(points, p, minX, maxX, minY, maxY) && p.x < x ==> p in safe
      invariant forall i, j :: 0 <= i < j < |safe| ==> Before(safe[i], safe[j])
    {
      var y := minY;
      while y <= maxY
        invariant minY <= y <= maxY + 1
        invariant forall p :: p in safe ==> SafeCell(points, p, minX, maxX, minY, maxY) && Before(p, Point(-1, x, y))
        invariant forall p :: SafeCell(points, p, minX, maxX, minY, maxY) && Before(p, Point(-1, x, y)) ==> p in safe
        invariant forall i, j :: 0 <= i < j < |safe| ==> Before(safe[i], safe[j])
      {
        var currentPoint := Point(-1, x, y);
        var totalDistance := Total(points, currentPoint);
        if totalDistance < SafeDistance(points) {
          safe := safe + [currentPoint];
        }
        y := y + 1;
      }
      x := x + 1;
    }
  }

  /** Every safe cell lies closer than the safe distance to each point. */
  lemma SafeNear(points: seq<Point>, p: Point, minX: int, maxX: int, minY: int, maxY: int, i: int)
    requires SafeCell(points, p, minX, maxX, minY, maxY) && 0 <= i < |points|
    ensures Distance(points[i], p) < SafeDistance(points)
  {
    TotalAtLeast(points, p, i);
  }

  /** The window of a non-empty input is not empty. */
  lemma ModestWindow(points: seq<Point>)
    requires points != [] && Modest(points)
    ensures Least(Xs(points)) <= Greatest(Xs(points)) && Least(Ys(points)) <= Greatest(Ys(points))
  {
    LeastBounds(Xs(points));
    LeastBounds(Ys(points));
    GreatestBounds(Xs(points));
    GreatestBounds(Ys(points));
    assert Xs(points)[0] == points[0].x && Ys(points)[0] == points[0].y;
  }

  /** Part 2 (lines 47-69 and 177-192): the safe cells of the window spanned by the points. */
  method SafeRegion(points: seq<Point>) returns (safe: seq<Point>)
    requires points != [] && Modest(points)
    ensures forall p :: p in safe <==>
      SafeCell(points, p, Least(Xs(points)), Greatest(Xs(points)), Least(Ys(points)), Greatest(Ys(points)))
    ensures forall i, j :: 0 <= i < j < |safe| ==> Before(safe[i], safe[j])
  {
    var minX, minY, maxX, maxY := Bounds(points);
    ModestWindow(points);
    safe := SafePoints(points, minX, maxX, minY, maxY);
  }
}
