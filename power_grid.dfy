/**
 * Day 11: a 300 × 300 grid of fuel cells, numbered from 1 in both
 * directions. A cell's power level comes from its coordinates and the grid's
 * serial number; the puzzle asks for the square of cells with the largest
 * total power, first for squares of side 3, then for any side.
 */
module PowerGrid {

  /** The grid's side. */
  const Side := 300

  /** The smallest 64-bit integer, the start value of the maximum searches. */
  const IntMin := -0x8000_0000_0000_0000

  /** Integer division truncating toward zero, as Swift divides. */
  function Quot(a: int, b: int): (q: int)
    requires b > 0
    ensures a >= 0 ==> q == a / b
    ensures b * q <= a < b * q + b || b * q - b < a <= b * q
  {
    if a >= 0 then a / b else -((-a) / b)
  }

  /** The remainder that goes with `Quot`: it has the sign of `a`. */
  function Rem(a: int, b: int): (r: int)
    requires b > 0
    ensures -b < r < b && (a >= 0 ==> r == a % b)
  {
    a - b * Quot(a, b)
  }

  /** The power level of cell (x, y): the hundreds digit of `(rack·y + serial)·rack`, minus 5, where
      the rack is `x + 10`. A non-negative product gives a level in -5..4. */
  function Power(serial: int, x: int, y: int): (p: int)
    ensures -14 <= p <= 4
    ensures serial >= 0 && x >= 1 && y >= 0 ==> -5 <= p
  {
    var rack := x + 10;
    var level := (rack * y + serial) * rack;
    Rem(Quot(level, 100), 10) - 5
  }

  /** The four examples of power levels the program checks. */
  lemma PowerExamples()
    ensures Power(8, 3, 5) == 4
    ensures Power(57, 122, 79) == -5
    ensures Power(39, 217, 196) == 0
    ensures Power(71, 101, 153) == 4
  {
  }

  /** Cell (x, y) exists. */
  predicate InGrid(x: int, y: int)
  {
    1 <= x <= Side && 1 <= y <= Side
  }

  /** The total power of the `n` cells from (x, y) down. */
  function Column(serial: int, x: int, y: int, n: nat): int
  {
    if n == 0 then 0 else Column(serial, x, y, n - 1) + Power(serial, x, y + n - 1)
  }

  /** The total power of the `w` columns of `n` cells from (x, y) on. */
  function Block(serial: int, x: int, y: int, w: nat, n: nat): int
  {
    if w == 0 then 0 else Block(serial, x, y, w - 1, n) + Column(serial, x + w - 1, y, n)
  }

  /** The total power of the square of side `size` with top-left cell (x, y). */
  function Square(serial: int, x: int, y: int, size: nat): int
  {
    Block(serial, x, y, size, size)
  }

  /** A column of `n` cells inside the grid totals between -5 and 4 per cell. */
  lemma {:induction false} ColumnBounds(serial: int, x: int, y: int, n: nat)
    requires serial >= 0 && x >= 1 && y >= 1
    ensures -5 * n <= Column(serial, x, y, n) <= 4 * n
    decreases n
  {
    if n > 0 {
      ColumnBounds(serial, x, y, n - 1);
    }
  }

  /** A block of `w` columns of `n` cells totals between -5 and 4 per cell. */
  lemma {:induction false} BlockBounds(serial: int, x: int, y: int, w: nat, n: nat)
    requires serial >= 0 && x >= 1 && y >= 1
    ensures -5 * (w * n) <= Block(serial, x, y, w, n) <= 4 * (w * n)
    ensures n <= Side ==> -5 * Side * w <= Block(serial, x, y, w, n)
    decreases w
  {
    if w > 0 {
      BlockBounds(serial, x, y, w - 1, n);
      ColumnBounds(serial, x + w - 1, y, n);
      assert (w - 1) * n == w * n - n;
    }
  }

  /** A square of side at most 300 never totals as little as `Int.min`, so the first square scanned
      always becomes the maximum so far. */
  lemma SquareAboveIntMin(serial: int, x: int, y: int, size: nat)
    requires serial >= 0 && x >= 1 && y >= 1 && size <= Side
    ensures Square(serial, x, y, size) > IntMin
  {
    BlockBounds(serial, x, y, size, size);
  }

  /** The square of side `size` with top-left cell (x, y) lies in the grid. */
  predicate SquareInGrid(x: int, y: int, size: nat)
  {
    1 <= x && 1 <= y && x + size - 1 <= Side && y + size - 1 <= Side
  }

  /** Every square of side `size` whose top-left corner the scan visits, x and y up to `last`, lies in
      the grid. */
  predicate ScanInGrid(size: nat, last: int)
  {
    forall x, y :: 1 <= x <= last && 1 <= y <= last ==> SquareInGrid(x, y, size)
  }

  /** The scan of `largestTotalPower`, which visits corners up to 298, stays in the grid exactly for
      sides up to 3: from side 4 on, the square at (298, 298) reaches row and column 301. */
  lemma WrittenScanInGrid(size: nat)
    ensures ScanInGrid(size, 298) <==> size <= 3
  {
    if size > 3 {
      assert !SquareInGrid(298, 298, size);
    }
  }

  /** With corners up to `301 - size`, as intended, every side from 1 to 300 stays in the grid. */
  lemma FixedScanInGrid(size: nat)
    requires 1 <= size <= Side
    ensures ScanInGrid(size, Side + 1 - size)
  {
  }

  /** Corner (x', y') comes before (x, y) in the scan, which runs over x outside and y inside. */
  predicate Before(x': int, y': int, x: int, y: int)
  {
    x' < x || (x' == x && y' < y)
  }

  /** No square of side `size` with its corner at most `last` in both directions totals more than
      `bound`. */
  predicate AtMost(serial: int, size: nat, last: int, bound: int)
  {
    forall x, y :: 1 <= x <= last && 1 <= y <= last ==> Square(serial, x, y, size) <= bound
  }

  /** Every square of side `size` whose corner comes before (cornerX, cornerY) totals less than `bound`. */
  predicate FirstAbove(serial: int, size: nat, last: int, cornerX: int, cornerY: int, bound: int)
  {
    forall x, y :: 1 <= x <= last && 1 <= y <= last && Before(x, y, cornerX, cornerY) ==> Square(serial, x, y, size) < bound
  }

  /** `AtMost` for side `size` over all its corners in the grid, up to `301 - size`. */
  predicate SideAtMost(serial: int, size: nat, bound: int)
  {
    AtMost(serial, size, Side + 1 - size, bound)
  }

  /** Every square of side `size` in the grid totals less than `bound`. */
  predicate SideBelow(serial: int, size: nat, bound: int)
  {
    SideAtMost(serial, size, bound - 1)
  }

  /** A larger bound is still a bound. */
  lemma AtMostRaise(serial: int, size: nat, last: int, bound: int, bound': int)
    requires AtMost(serial, size, last, bound) && bound <= bound'
    ensures AtMost(serial, size, last, bound')
  {
  }

  /** Every side from 1 up to `size - 1` has all its squares at most `bound`. */
  predicate SidesAtMost(serial: int, size: nat, bound: int)
  {
    forall s: nat :: 1 <= s < size ==> SideAtMost(serial, s, bound)
  }

  /** Every side from 1 up to `size - 1` has all its squares below `bound`. */
  predicate SidesBelow(serial: int, size: nat, bound: int)
  {
    forall s: nat :: 1 <= s < size ==> SideBelow(serial, s, bound)
  }

  /** Sides bounded by `bound` are all below any larger total. */
  lemma SidesRaise(serial: int, size: nat, bound: int, bound': int)
    requires SidesAtMost(serial, size, bound) && bound < bound'
    ensures SidesBelow(serial, size, bound')
  {
    forall s: nat | 1 <= s < size
      ensures SideBelow(serial, s, bound')
    {
      assert SideAtMost(serial, s, bound);
      AtMostRaise(serial, s, Side + 1 - s, bound, bound' - 1);
      assert SideAtMost(serial, s, bound' - 1);
    }
  }

  /** Sides bounded by `bound` together with a side `size` bounded by `p <= bound`. */
  lemma SidesExtend(serial: int, size: nat, bound: int, p: int)
    requires SidesAtMost(serial, size, bound) && SideAtMost(serial, size, p) && p <= bound
    ensures SidesAtMost(serial, size + 1, bound)
  {
    AtMostRaise(serial, size, Side + 1 - size, p, bound);
  }

  /** Sides below `bound` are also at most `bound`; a new maximum `bound` bounds its own side too. */
  lemma SidesStart(serial: int, size: nat, bound: int)
    requires SidesBelow(serial, size, bound) && SideAtMost(serial, size, bound)
    ensures SidesAtMost(serial, size + 1, bound)
  {
    forall s: nat | 1 <= s < size
      ensures SideAtMost(serial, s, bound)
    {
      assert SideBelow(serial, s, bound);
      AtMostRaise(serial, s, Side + 1 - s, bound - 1, bound);
      assert SideAtMost(serial, s, bound);
    }
  }

  /** The grid of power levels, filled once by the initializer. */
  class Board {
    const serial: int
    const cells: array2<int>

    /** Row `y - 1`, column `x - 1` holds the power level of cell (x, y). */
    predicate Valid()
      reads this, cells
    {
      cells.Length0 == Side && cells.Length1 == Side &&
      forall i, j :: 0 <= i < Side && 0 <= j < Side ==> cells[i, j] == Power(serial, j + 1, i + 1)
    }

    /** `init(serial:)`: computes every cell's power level. */
    constructor (serial: int)
      ensures this.serial == serial && Valid() && fresh(cells)
    {
      this.serial := serial;
      var grid := new int[Side, Side];
      var x := 1;
      while x <= Side
        invariant 1 <= x <= Side + 1
        invariant forall i, j :: 0 <= i < Side && 0 <= j < x - 1 ==> grid[i, j] == Power(serial, j + 1, i + 1)
      {
        var y := 1;
        ghost var column := x - 1;
        while y <= Side
          invariant 1 <= y <= Side + 1
          invariant forall i, j :: 0 <= i < Side && 0 <= j < x - 1 ==> grid[i, j] == Power(serial, j + 1, i + 1)
          invariant forall i :: 0 <= i < y - 1 ==> grid[i, column] == Power(serial, x, i + 1)
        {
          grid[y - 1, x - 1] := Power(serial, x, y);
          y := y + 1;
        }
        x := x + 1;
      }
      cells := grid;
    }

    /** The subscript: the power level of cell (x, y), numbered from 1. */
    function Cell(x: int, y: int): (p: int)
      requires Valid() && InGrid(x, y)
      reads this, cells
      ensures p == Power(serial, x, y)
    {
      cells[y - 1, x - 1]
    }

    /** `totalPower`: the total power of the square of side `size` with top-left cell (x, y). */
    method TotalPower(x: int, y: int, size: nat) returns (total: int)
      requires Valid() && SquareInGrid(x, y, size)
      ensures total == Square(serial, x, y, size)
    {
      total := 0;
      var dx := 0;
      while dx < size
        invariant 0 <= dx <= size
        invariant total == Block(serial, x, y, dx, size)
      {
        var dy := 0;
        while dy < size
          invariant 0 <= dy <= size
          invariant total == Block(serial, x, y, dx, size) + Column(serial, x + dx, y, dy)
        {
          total := total + cells[y + dy - 1, x + dx - 1];
          dy := dy + 1;
        }
        dx := dx + 1;
      }
    }

    /** The scan of `largestTotalPower(of:)` over the corners up to `last` in both directions: the
        square with the largest total, the first in scan order among equal totals. */
    method Scan(size: nat, last: int) returns (bestX: int, bestY: int, best: int)
      requires Valid() && serial >= 0 && 1 <= last && last + size - 1 <= Side
      ensures 1 <= bestX <= last && 1 <= bestY <= last && best == Square(serial, bestX, bestY, size)
      ensures AtMost(serial, size, last, best) && FirstAbove(serial, size, last, bestX, bestY, best)
    {
      bestX, bestY, best := -1, -1, IntMin;
      var x := 1;
      while x <= last
        invariant 1 <= x <= last + 1
        invariant x == 1 ==> bestX == -1 && best == IntMin
        invariant x > 1 ==> 1 <= bestX < x && 1 <= bestY <= last && best == Square(serial, bestX, bestY, size)
        invariant forall x', y' :: 1 <= x' < x && 1 <= y' <= last ==> Square(serial, x', y', size) <= best
        invariant forall x', y' :: 1 <= x' < x && 1 <= y' <= last && Before(x', y', bestX, bestY) ==>
          Square(serial, x', y', size) < best
      {
        var y := 1;
        while y <= last
          invariant 1 <= y <= last + 1
          invariant x == 1 && y == 1 ==> bestX == -1 && best == IntMin
          invariant x > 1 || y > 1 ==>
            (1 <= bestX <= x && 1 <= bestY <= last && Before(bestX, bestY, x, y) &&
            best == Square(serial, bestX, bestY, size))
          invariant forall x', y' :: 1 <= x' <= last && 1 <= y' <= last && Before(x', y', x, y) ==>
            Square(serial, x', y', size) <= best
          invariant forall x', y' :: (1 <= x' <= last && 1 <= y' <= last && Before(x', y', x, y) &&
            Before(x', y', bestX, bestY)) ==> Square(serial, x', y', size) < best
        {
          var power := TotalPower(x, y, size);
          SquareAboveIntMin(serial, x, y, size);
          if power > best {
            bestX, bestY, best := x, y, power;
          }
          y := y + 1;
        }
        x := x + 1;
      }
    }

    /** `largestTotalPower(of:)` as written: corners up to 298, which keeps the squares in the grid
        only for sides up to 3. */
    method LargestTotalPower(size: nat) returns (bestX: int, bestY: int, best: int)
      requires Valid() && serial >= 0 && size <= 3
      ensures 1 <= bestX <= 298 && 1 <= bestY <= 298 && best == Square(serial, bestX, bestY, size)
      ensures AtMost(serial, size, 298, best) && FirstAbove(serial, size, 298, bestX, bestY, best)
    {
      bestX, bestY, best := Scan(size, 298);
    }

    /** `largestTotalPowerSized` with the scan for each side running over the corners up to
        `301 - size`: the largest square of any side from 1 to 300, the smallest side among equal
        totals (every smaller side stays strictly below) and, for that side, the first corner in scan
        order. */
    method LargestTotalPowerSized() returns (bestX: int, bestY: int, bestSize: int, best: int)
      requires Valid() && serial >= 0
      ensures 1 <= bestSize <= Side && 1 <= bestX <= Side + 1 - bestSize && 1 <= bestY <= Side + 1 - bestSize
      ensures best == Square(serial, bestX, bestY, bestSize)
      ensures SidesAtMost(serial, Side + 1, best) && SidesBelow(serial, bestSize, best)
      ensures FirstAbove(serial, bestSize, Side + 1 - bestSize, bestX, bestY, best)
    {
      bestX, bestY, bestSize, best := -1, -1, -1, IntMin;
      var size := 1;
      while size <= Side
        invariant 1 <= size <= Side + 1
        invariant size == 1 ==> best == IntMin
        invariant size > 1 ==> (1 <= bestSize < size && 1 <= bestX <= Side + 1 - bestSize &&
          1 <= bestY <= Side + 1 - bestSize && best == Square(serial, bestX, bestY, bestSize) &&
          FirstAbove(serial, bestSize, Side + 1 - bestSize, bestX, bestY, best))
        invariant SidesAtMost(serial, size, best)
        invariant size > 1 ==> SidesBelow(serial, bestSize, best)
      {
        var x, y, p := Scan(size, Side + 1 - size);
        SquareAboveIntMin(serial, x, y, size);
        if p > best {
          SidesRaise(serial, size, best, p);
          SidesStart(serial, size, p);
          bestX, bestY, bestSize, best := x, y, size, p;
        } else {
          SidesExtend(serial, size, best, p);
        }
        size := size + 1;
      }
    }
  }
}
