/**
 * Day 10: the stars align. Each point moves by its velocity every second, in 32-bit arithmetic
 * that wraps around. The points are first stepped until their bounding box is narrower than 256
 * or shorter than 50, then inspected step by step while the box grows in neither direction; the
 * message appears at the last step before the box grows. The drawing is not modelled.
 */
module Stars {
  import opened Wrappers

  /** 2^32, and 2^31: `Int32` holds `-Half ..< Half`. */
  const Modulus: int := 0x1_0000_0000
  const Half: int := 0x8000_0000

  /** The box is sane once narrower than this or shorter than `SaneHeight` (lines 5-6). */
  const SaneWidth: int := 256
  const SaneHeight: int := 50

  predicate IsInt32(n: int)
  {
    -Half <= n < Half
  }

  /** Two's complement wrap-around of `&+` and `&-` on `Int32`. */
  function Wrap(n: int): (r: int)
    ensures IsInt32(r)
    ensures IsInt32(n) ==> r == n
  {
    (n + Half) % Modulus - Half
  }

  /** Adding a multiple of 2^32 does not change the wrapped value. */
  lemma WrapShift(n: int, m: int)
    ensures Wrap(n + m * Modulus) == Wrap(n)
  {
    var q := (n + Half) / Modulus;
    var r := (n + Half) % Modulus;
    assert n + m * Modulus + Half == (q + m) * Modulus + r;
  }

  /** Wrapping an intermediate sum changes nothing. */
  lemma WrapAdd(a: int, b: int)
    ensures Wrap(Wrap(a) + b) == Wrap(a + b)
  {
    var m := -((a + Half) / Modulus);
    assert Wrap(a) == a + m * Modulus;
    WrapShift(a + b, m);
    assert Wrap(a) + b == a + b + m * Modulus;
  }

  /** `int2`. */
  datatype Vec = Vec(x: int, y: int)

  /** `&+` on `int2`. */
  function Add(a: Vec, b: Vec): Vec
  {
    Vec(Wrap(a.x + b.x), Wrap(a.y + b.y))
  }

  /** `&-` on `int2`. */
  function Sub(a: Vec, b: Vec): Vec
  {
    Vec(Wrap(a.x - b.x), Wrap(a.y - b.y))
  }

  predicate IsVec32(v: Vec)
  {
    IsInt32(v.x) && IsInt32(v.y)
  }

  /** A point with its position and velocity (lines 8-29). */
  datatype Point = Point(id: int, position: Vec, vector: Vec)

  /** The initializer from `Int`s (lines 19-23): `Int32(_)` stops the program on a value out of
      range, here `None`. */
  function MakePoint(id: int, px: int, py: int, vx: int, vy: int): (r: Option<Point>)
    ensures r.Some? <==> IsInt32(px) && IsInt32(py) && IsInt32(vx) && IsInt32(vy)
    ensures r.Some? ==> r.value == Point(id, Vec(px, py), Vec(vx, vy))
  {
    if IsInt32(px) && IsInt32(py) && IsInt32(vx) && IsInt32(vy) then Some(Point(id, Vec(px, py), Vec(vx, vy))) else None
  }

  /** One second (lines 25-28): the position moves by the velocity, wrapping around. */
  function Step(p: Point): (q: Point)
    ensures q.id == p.id && q.vector == p.vector && IsVec32(q.position)
  {
    Point(p.id, Add(p.position, p.vector), p.vector)
  }

  /** `map { $0.step() }` (lines 122 and 165). */
  function StepAll(points: seq<Point>): (r: seq<Point>)
    ensures |r| == |points|
  {
    seq(|points|, i requires 0 <= i < |points| => Step(points[i]))
  }

  /** The points after `n` seconds. */
  function Advance(points: seq<Point>, n: nat): (r: seq<Point>)
    ensures |r| == |points|
    decreases n
  {
    if n == 0 then points else Advance(StepAll(points), n - 1)
  }

  /** One more second steps the points once more. */
  lemma {:induction false} AdvanceSucc(points: seq<Point>, n: nat)
    ensures Advance(points, n + 1) == StepAll(Advance(points, n))
    decreases n
  {
    if n > 0 {
      AdvanceSucc(StepAll(points), n - 1);
    }
  }

  /** A point after `n` seconds, in closed form: its position plus `n` times its velocity, wrapped
      once. */
  function Drift(p: Point, n: nat): Point
  {
    Point(p.id, Vec(Wrap(p.position.x + n * p.vector.x), Wrap(p.position.y + n * p.vector.y)), p.vector)
  }

  /** One second after `n` seconds is `n + 1` seconds of drift. */
  lemma StepDrift(p: Point, n: nat)
    ensures Step(Drift(p, n)) == Drift(p, n + 1)
  {
    WrapAdd(p.position.x + n * p.vector.x, p.vector.x);
    WrapAdd(p.position.y + n * p.vector.y, p.vector.y);
    assert p.position.x + n * p.vector.x + p.vector.x == p.position.x + (n + 1) * p.vector.x;
    assert p.position.y + n * p.vector.y + p.vector.y == p.position.y + (n + 1) * p.vector.y;
  }

  /** Stepping `n` times moves each point by `n` times its velocity, wrapped around: the wrap of
      each step does not accumulate. */
  lemma {:induction false} AdvanceDrift(points: seq<Point>, n: nat)
    requires forall i :: 0 <= i < |points| ==> IsVec32(points[i].position)
    ensures forall i :: 0 <= i < |points| ==> Advance(points, n)[i] == Drift(points[i], n)
  {
    if n > 0 {
      AdvanceDrift(points, n - 1);
      AdvanceSucc(points, n - 1);
      forall i | 0 <= i < |points|
        ensures Advance(points, n)[i] == Drift(points[i], n)
      {
        StepDrift(points[i], n - 1);
      }
    }
  }

  /** Without overflow, the position after `n` seconds is exactly position plus `n` times velocity. */
  lemma AdvanceExact(points: seq<Point>, n: nat, i: int)
    requires forall j :: 0 <= j < |points| ==> IsVec32(points[j].position)
    requires 0 <= i < |points|
    requires IsInt32(points[i].position.x + n * points[i].vector.x) && IsInt32(points[i].position.y + n * points[i].vector.y)
    ensures Advance(points, n)[i].position ==
      Vec(points[i].position.x + n * points[i].vector.x, points[i].position.y + n * points[i].vector.y)
  {
    AdvanceDrift(points, n);
  }

  // The bounding box (lines 40-73).

  /** The least and greatest coordinates seen so far. */
  datatype Corners = Corners(min: Vec, max: Vec)

  /** One point of the bounds loop (lines 51-67): each coordinate lowers a minimum or raises a
      maximum. */
  function Include(c: Corners, p: Vec): Corners
  {
    Corners(Vec(if p.x < c.min.x then p.x else c.min.x, if p.y < c.min.y then p.y else c.min.y),
            Vec(if p.x > c.max.x then p.x else c.max.x, if p.y > c.max.y then p.y else c.max.y))
  }

  /** The corners of the points, from `Int32.max` and `Int32.min` (lines 46-49). */
  function CornersOf(points: seq<Point>): (r: Corners)
    ensures r.min.x < Half && r.min.y < Half && -Half <= r.max.x && -Half <= r.max.y
  {
    if points == [] then Corners(Vec(Half - 1, Half - 1), Vec(-Half, -Half))
    else Include(CornersOf(points[..|points| - 1]), points[|points| - 1].position)
  }

  /** Every point lies within the corners. */
  lemma {:induction false} CornersContain(points: seq<Point>)
    ensures forall i :: 0 <= i < |points| ==>
      CornersOf(points).min.x <= points[i].position.x <= CornersOf(points).max.x &&
      CornersOf(points).min.y <= points[i].position.y <= CornersOf(points).max.y
  {
    if points != [] {
      var front := points[..|points| - 1];
      CornersContain(front);
      assert forall i :: 0 <= i < |front| ==> front[i] == points[i];
    }
  }

  /** The box: corners, and the size `max - min + (1, 1)` wrapped (lines 40-72). */
  datatype Bounds = Bounds(min: Vec, max: Vec, dimensions: Vec)

  /** The box of the points: their corners, and the size `max - min + 1` wrapped to 32 bits once,
      which is what `&-` followed by `&+` gives (`WrapAdd`). */
  function Frame(points: seq<Point>): (r: Bounds)
    ensures r.min == CornersOf(points).min && r.max == CornersOf(points).max
    ensures IsVec32(r.dimensions)
  {
    var c := CornersOf(points);
    Bounds(c.min, c.max, Vec(Wrap(c.max.x - c.min.x + 1), Wrap(c.max.y - c.min.y + 1)))
  }

  /** `&-` then `&+` wrap the size once. */
  lemma SizeWraps(low: Vec, high: Vec)
    ensures Add(Sub(high, low), Vec(1, 1)) == Vec(Wrap(high.x - low.x + 1), Wrap(high.y - low.y + 1))
  {
    WrapAdd(high.x - low.x, 1);
    WrapAdd(high.y - low.y, 1);
  }

  /** For points in 32-bit range, each side of the corners touches some point. */
  lemma {:induction false} CornersEnclose(points: seq<Point>)
    requires points != [] && forall i :: 0 <= i < |points| ==> IsVec32(points[i].position)
    ensures exists i :: 0 <= i < |points| && points[i].position.x == CornersOf(points).min.x
    ensures exists i :: 0 <= i < |points| && points[i].position.y == CornersOf(points).min.y
    ensures exists i :: 0 <= i < |points| && points[i].position.x == CornersOf(points).max.x
    ensures exists i :: 0 <= i < |points| && points[i].position.y == CornersOf(points).max.y
  {
    var n := |points| - 1;
    var c := CornersOf(points);
    var p := points[n].position;
    if n == 0 {
      assert CornersOf(points[..0]) == CornersOf([]);
      assert c == Include(CornersOf([]), points[0].position);
    } else {
      var front := points[..n];
      assert forall i :: 0 <= i < n ==> front[i] == points[i];
      CornersEnclose(front);
      var b := CornersOf(front);
      var a :| 0 <= a < n && front[a].position.x == b.min.x;
      var e :| 0 <= e < n && front[e].position.y == b.min.y;
      var f :| 0 <= f < n && front[f].position.x == b.max.x;
      var g :| 0 <= g < n && front[g].position.y == b.max.y;
      assert points[if p.x < b.min.x then n else a].position.x == c.min.x;
      assert points[if p.y < b.min.y then n else e].position.y == c.min.y;
      assert points[if p.x > b.max.x then n else f].position.x == c.max.x;
      assert points[if p.y > b.max.y then n else g].position.y == c.max.y;
    }
  }

  /** For points in 32-bit range, a box narrower than `Int32.max` has the width and height of its
      sides, at least one. */
  lemma FrameDimensions(points: seq<Point>)
    requires points != [] && forall i :: 0 <= i < |points| ==> IsVec32(points[i].position)
    ensures Frame(points).max.x - Frame(points).min.x + 1 < Half ==>
      Frame(points).dimensions.x == Frame(points).max.x - Frame(points).min.x + 1 >= 1
    ensures Frame(points).max.y - Frame(points).min.y + 1 < Half ==>
      Frame(points).dimensions.y == Frame(points).max.y - Frame(points).min.y + 1 >= 1
  {
    CornersEnclose(points);
  }

  /** With no points, the sentinels remain and the wrapped size is (2, 2). */
  lemma EmptyFrame()
    ensures Frame([]) == Bounds(Vec(Half - 1, Half - 1), Vec(-Half, -Half), Vec(2, 2))
  {
  }

  /** The bounds loop (lines 45-72). */
  method NewBounds(points: seq<Point>) returns (b: Bounds)
    ensures b == Frame(points)
  {
    var minX, minY, maxX, maxY := Half - 1, Half - 1, -Half, -Half;
    var k := 0;
    while k < |points|
      invariant 0 <= k <= |points|
      invariant CornersOf(points[..k]) == Corners(Vec(minX, minY), Vec(maxX, maxY))
    {
      var point := points[k];
      assert points[..k + 1][..k] == points[..k];
      if point.position.x < minX {
        minX := point.position.x;
      }
      if point.position.y < minY {
        minY := point.position.y;
      }
      if point.position.x > maxX {
        maxX := point.position.x;
      }
      if point.position.y > maxY {
        maxY := point.position.y;
      }
      k := k + 1;
    }
    assert points[..k] == points;
    var low := Vec(minX, minY);
    var high := Vec(maxX, maxY);
    SizeWraps(low, high);
    b := Bounds(low, high, Add(Sub(high, low), Vec(1, 1)));
  }

  // The two loops (lines 111-170).

  /** The box is still too wide and too tall to hold a message (line 119). */
  predicate Wide(b: Bounds)
  {
    b.dimensions.x > SaneWidth && b.dimensions.y > SaneHeight
  }

  /** The size after `k` seconds. */
  function DimsAt(points: seq<Point>, k: nat): Vec
  {
    Frame(Advance(points, k)).dimensions
  }

  /** Size `a` is no larger than size `b` in either direction (line 139). */
  predicate NoLarger(a: Vec, b: Vec)
  {
    a.x <= b.x && a.y <= b.y
  }

  /** Second `k + 1` grows the box in neither direction. */
  ghost predicate Shrinks(points: seq<Point>, k: nat)
  {
    NoLarger(DimsAt(points, k + 1), DimsAt(points, k))
  }

  /** The box is wide at each of the first `n` seconds. */
  ghost predicate AllWide(points: seq<Point>, n: nat)
  {
    n == 0 || (AllWide(points, n - 1) && Wide(Frame(Advance(points, n - 1))))
  }

  /** The box grows at no second from `start` up to `n`. */
  ghost predicate AllShrink(points: seq<Point>, start: nat, n: nat)
  {
    n <= start || (AllShrink(points, start, n - 1) && Shrinks(points, n - 1))
  }

  lemma {:induction false} AllWideAt(points: seq<Point>, n: nat, k: nat)
    requires AllWide(points, n) && k < n
    ensures Wide(Frame(Advance(points, k)))
  {
    if k < n - 1 {
      AllWideAt(points, n - 1, k);
    }
  }

  lemma {:induction false} AllShrinkAt(points: seq<Point>, start: nat, n: nat, k: nat)
    requires AllShrink(points, start, n) && start <= k < n
    ensures Shrinks(points, k)
  {
    if k < n - 1 {
      AllShrinkAt(points, start, n - 1, k);
    }
  }

  /** One second of either loop (lines 122-123 and 165-166): step every point, then measure. */
  method Tick(points: seq<Point>, step: nat, current: seq<Point>) returns (next: seq<Point>, bounds: Bounds)
    requires current == Advance(points, step)
    ensures next == Advance(points, step + 1) && bounds == Frame(next)
  {
    AdvanceSucc(points, step);
    next := StepAll(current);
    bounds := NewBounds(next);
  }

  /** The convergence loop (lines 115-125), for at most `fuel` steps: it stops at the first second
      whose box is sane. */
  method Converge(points: seq<Point>, fuel: nat) returns (current: seq<Point>, bounds: Bounds, step: nat)
    ensures step <= fuel && current == Advance(points, step) && bounds == Frame(current)
    ensures AllWide(points, step)
    ensures Wide(bounds) ==> step == fuel
  {
    current := points;
    bounds := NewBounds(current);
    step := 0;
    while Wide(bounds) && step < fuel
      invariant step <= fuel && current == Advance(points, step) && bounds == Frame(current)
      invariant AllWide(points, step)
    {
      assert AllWide(points, step + 1);
      current, bounds := Tick(points, step, current);
      step := step + 1;
    }
  }

  /** The inspection loop (lines 137-170), for at most `fuel` steps from the converged second
      `start`: it steps while the box grows in neither direction, and reports the second before the
      first growth. */
  method Inspect(points: seq<Point>, start: nat, current0: seq<Point>, bounds0: Bounds, fuel: nat)
    returns (r: Option<nat>)
    requires current0 == Advance(points, start) && bounds0 == Frame(current0)
    ensures r.Some? ==> r.value >= start && AllShrink(points, start, r.value) && !Shrinks(points, r.value)
  {
    var current, bounds, step := current0, bounds0, start;
    var previous := bounds;
    while NoLarger(bounds.dimensions, previous.dimensions) && step - start < fuel
      invariant start <= step <= start + fuel
      invariant current == Advance(points, step) && bounds == Frame(current)
      invariant step == start ==> previous == bounds
      invariant step > start ==> previous == Frame(Advance(points, step - 1))
      invariant step == start || AllShrink(points, start, step - 1)
    {
      previous := bounds;
      current, bounds := Tick(points, step, current);
      step := step + 1;
    }
    if NoLarger(bounds.dimensions, previous.dimensions) {
      return None;
    }
    step := step - 1;
    return Some(step);
  }

  /** Second `shown` is the message found from the first sane second `sane`: every earlier second
      was wide, the box grows at no second from `sane` to `shown`, and it grows right after. */
  ghost predicate Shown(points: seq<Point>, sane: nat, shown: nat)
  {
    sane <= shown && AllWide(points, sane) && !Wide(Frame(Advance(points, sane))) &&
    AllShrink(points, sane, shown) && !Shrinks(points, shown)
  }

  /** The second of the message (lines 111-170): `None` when either loop runs out of fuel. */
  method Message(points: seq<Point>, fuel: nat) returns (r: Option<nat>)
    ensures r.Some? ==> exists sane :: 0 <= sane <= r.value && Shown(points, sane, r.value)
  {
    var current, bounds, step := Converge(points, fuel);
    if Wide(bounds) {
      return None;
    }
    r := Inspect(points, step, current, bounds, fuel);
    if r.Some? {
      assert Shown(points, step, r.value);
    }
  }

  /** The first sane second is the first second whose box is sane. */
  lemma ShownFirstSane(points: seq<Point>, sane: nat, shown: nat, k: nat)
    requires Shown(points, sane, shown)
    ensures !Wide(Frame(Advance(points, k))) ==> sane <= k
  {
    if k < sane {
      AllWideAt(points, sane, k);
    }
  }

  /** Over a run of seconds that do not grow the box, the last box is the smallest. */
  lemma {:induction false} ShrinkRun(points: seq<Point>, start: nat, n: nat, k: nat)
    requires AllShrink(points, start, n) && start <= k <= n
    ensures NoLarger(DimsAt(points, n), DimsAt(points, k))
    decreases n - k
  {
    if k < n {
      ShrinkRun(points, start, n, k + 1);
      AllShrinkAt(points, start, n, k);
    }
  }

  /** The message second has the smallest box of all seconds inspected up to it. */
  lemma ShownSmallest(points: seq<Point>, sane: nat, shown: nat, k: nat)
    requires Shown(points, sane, shown) && sane <= k <= shown
    ensures NoLarger(DimsAt(points, shown), DimsAt(points, k))
  {
    ShrinkRun(points, sane, shown, k);
  }
}
