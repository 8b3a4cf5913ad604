/**
 * Day 3: rectangular claims on a sheet of fabric. Each claim is a square
 * `#id @ x,y: w x h`; the fabric counts, cell by cell, how many claims cover
 * it, reports how many cells are claimed more than once and which claims
 * overlap no other.
 */
module FabricClaims {
  import opened Wrappers

  /** A parsed claim; the parser only accepts digits, so every field is a natural number. */
  datatype Square = Square(id: string, x: nat, y: nat, width: nat, height: nat)

  /** Cell (x, y) lies in `xRange` × `yRange`, the half-open ranges [x, x + width) and [y, y + height). */
  predicate Covers(s: Square, x: int, y: int)
  {
    s.x <= x < s.x + s.width && s.y <= y < s.y + s.height
  }

  /** How many of `squares` cover cell (x, y). */
  function Coverage(squares: seq<Square>, x: int, y: int): nat
  {
    if squares == [] then 0
    else Coverage(squares[..|squares| - 1], x, y) + (if Covers(squares[|squares| - 1], x, y) then 1 else 0)
  }

  /** The rows of counts the fill produces for a `w` × `h` fabric. */
  function Counts(squares: seq<Square>, w: nat, h: nat): seq<seq<int>>
  {
    seq(h, y => seq(w, x => Coverage(squares, x, y)))
  }

  /** `rows` has `h` rows of `w` cells each. */
  predicate Shaped(rows: seq<seq<int>>, w: nat, h: nat)
  {
    |rows| == h && forall y :: 0 <= y < h ==> |rows[y]| == w
  }

  /** The square fits inside a `w` × `h` fabric. */
  predicate Inside(s: Square, w: nat, h: nat)
  {
    s.x + s.width <= w && s.y + s.height <= h
  }

  /** Every cell of a square that is part of `squares` is covered at least once. */
  lemma {:induction false} CoverageOfMember(squares: seq<Square>, i: nat, x: int, y: int)
    requires i < |squares| && Covers(squares[i], x, y)
    ensures Coverage(squares, x, y) >= 1
    decreases |squares|
  {
    if i < |squares| - 1 {
      CoverageOfMember(squares[..|squares| - 1], i, x, y);
    }
  }

  /** A cell no square covers has count 0, and a count never exceeds the number of squares. */
  lemma {:induction false} CoverageBounds(squares: seq<Square>, x: int, y: int)
    ensures Coverage(squares, x, y) <= |squares|
    ensures (forall i :: 0 <= i < |squares| ==> !Covers(squares[i], x, y)) ==> Coverage(squares, x, y) == 0
    decreases |squares|
  {
    if squares != [] {
      var init := squares[..|squares| - 1];
      CoverageBounds(init, x, y);
      assert forall i :: 0 <= i < |init| ==> init[i] == squares[i];
    }
  }

  /** The innermost fill loop: column `x` gains one in rows [lo, hi). */
  method AddColumn(rows: seq<seq<int>>, w: nat, h: nat, x: nat, lo: nat, hi: nat) returns (rows': seq<seq<int>>)
    requires Shaped(rows, w, h) && x < w && lo <= hi <= h
    ensures Shaped(rows', w, h)
    ensures forall yy, xx :: 0 <= yy < h && 0 <= xx < w ==>
      rows'[yy][xx] == rows[yy][xx] + (if xx == x && lo <= yy < hi then 1 else 0)
  {
    rows' := rows;
    var y := lo;
    while y < hi
      invariant lo <= y <= hi
      invariant Shaped(rows', w, h)
      invariant forall yy, xx :: 0 <= yy < h && 0 <= xx < w ==>
        rows'[yy][xx] == rows[yy][xx] + (if xx == x && lo <= yy < y then 1 else 0)
    {
      rows' := rows'[y := rows'[y][x := rows'[y][x] + 1]];
      y := y + 1;
    }
  }

  /** The two inner fill loops: every cell of `s` gains one. */
  method AddSquare(rows: seq<seq<int>>, w: nat, h: nat, s: Square) returns (rows': seq<seq<int>>)
    requires Shaped(rows, w, h) && Inside(s, w, h)
    ensures Shaped(rows', w, h)
    ensures forall yy, xx :: 0 <= yy < h && 0 <= xx < w ==>
      rows'[yy][xx] == rows[yy][xx] + (if Covers(s, xx, yy) then 1 else 0)
  {
    rows' := rows;
    var x := s.x;
    while x < s.x + s.width
      invariant s.x <= x <= s.x + s.width
      invariant Shaped(rows', w, h)
      invariant forall yy, xx :: 0 <= yy < h && 0 <= xx < w ==>
        rows'[yy][xx] == rows[yy][xx] + (if s.x <= xx < x && s.y <= yy < s.y + s.height then 1 else 0)
    {
      rows' := AddColumn(rows', w, h, x, s.y, s.y + s.height);
      x := x + 1;
    }
  }

  /** The fill: start from zeros and add every square in turn, giving each cell its coverage. */
  method Fill(squares: seq<Square>, w: nat, h: nat) returns (rows: seq<seq<int>>)
    requires forall i :: 0 <= i < |squares| ==> Inside(squares[i], w, h)
    ensures rows == Counts(squares, w, h)
  {
    rows := seq(h, _ => seq(w, _ => 0));
    assert squares[..0] == [];
    forall y | 0 <= y < h
      ensures rows[y] == Counts([], w, h)[y]
    {
    }
    var i := 0;
    while i < |squares|
      invariant 0 <= i <= |squares|
      invariant rows == Counts(squares[..i], w, h)
    {
      var rows' := AddSquare(rows, w, h, squares[i]);
      assert squares[..i + 1][..i] == squares[..i];
      forall y | 0 <= y < h
        ensures rows'[y] == Counts(squares[..i + 1], w, h)[y]
      {
      }
      rows := rows';
      i := i + 1;
    }
    assert squares[..|squares|] == squares;
  }

  /** Number of cells of one row counted more than once. */
  function RowUsed(row: seq<int>): nat
  {
    if row == [] then 0 else RowUsed(row[..|row| - 1]) + (if row[|row| - 1] > 1 then 1 else 0)
  }

  /** Number of cells of the whole fabric counted more than once. */
  function GridUsed(rows: seq<seq<int>>): nat
  {
    if rows == [] then 0 else GridUsed(rows[..|rows| - 1]) + RowUsed(rows[|rows| - 1])
  }

  /** `determineUsed`: the loops over rows and cells counting cells above 1. */
  method Used(rows: seq<seq<int>>) returns (count: nat)
    ensures count == GridUsed(rows)
  {
    count := 0;
    var i := 0;
    while i < |rows|
      invariant 0 <= i <= |rows|
      invariant count == GridUsed(rows[..i])
    {
      var row := rows[i];
      var inRow := 0;
      var j := 0;
      while j < |row|
        invariant 0 <= j <= |row|
        invariant inRow == RowUsed(row[..j])
      {
        assert row[..j + 1][..j] == row[..j];
        if row[j] > 1 {
          inRow := inRow + 1;
        }
        j := j + 1;
      }
      assert row[..|row|] == row;
      assert rows[..i + 1][..i] == rows[..i];
      count := count + inRow;
      i := i + 1;
    }
    assert rows[..|rows|] == rows;
  }

  /** A row has no cell above 1 exactly when its count is 0, and the count is at most its length. */
  lemma {:induction false} RowUsedMeaning(row: seq<int>)
    ensures RowUsed(row) <= |row|
    ensures RowUsed(row) == 0 <==> forall x :: 0 <= x < |row| ==> row[x] <= 1
    decreases |row|
  {
    if row != [] {
      var init := row[..|row| - 1];
      RowUsedMeaning(init);
      assert forall x :: 0 <= x < |init| ==> init[x] == row[x];
    }
  }

  /** No cell is claimed twice exactly when the used count is 0. */
  lemma {:induction false} GridUsedMeaning(rows: seq<seq<int>>)
    ensures GridUsed(rows) == 0 <==> forall y, x :: 0 <= y < |rows| && 0 <= x < |rows[y]| ==> rows[y][x] <= 1
    decreases |rows|
  {
    if rows != [] {
      var init := rows[..|rows| - 1];
      GridUsedMeaning(init);
      RowUsedMeaning(rows[|rows| - 1]);
      assert forall y :: 0 <= y < |init| ==> init[y] == rows[y];
    }
  }

  /** A grid of `w`-wide rows has at most `w` used cells per row. */
  lemma {:induction false} GridUsedBound(rows: seq<seq<int>>, w: nat)
    requires forall y :: 0 <= y < |rows| ==> |rows[y]| == w
    ensures GridUsed(rows) <= |rows| * w
    decreases |rows|
  {
    if rows != [] {
      var init := rows[..|rows| - 1];
      GridUsedBound(init, w);
      RowUsedMeaning(rows[|rows| - 1]);
      calc {
        GridUsed(rows);
      ==
        GridUsed(init) + RowUsed(rows[|rows| - 1]);
      <=
        |init| * w + w;
      ==
        |rows| * w;
      }
    }
  }

  /** Column `x` from row `y` up to `hi`, as the filter's inner loop sees it: `Some(false)` at the
      first cell above 1, `None` where the program would stop (a row or column past the grid, or the
      fatal error on a 0), `Some(true)` when every cell is exactly 1. */
  function ColumnCheck(rows: seq<seq<int>>, x: nat, y: nat, hi: nat): Option<bool>
    decreases hi - y
  {
    if y >= hi then Some(true)
    else if y >= |rows| || x >= |rows[y]| then None
    else if rows[y][x] > 1 then Some(false)
    else if rows[y][x] == 1 then ColumnCheck(rows, x, y + 1, hi)
    else None
  }

  /** The filter's closure for square `s`, columns from `x` on. */
  function SquareCheck(rows: seq<seq<int>>, s: Square, x: nat): Option<bool>
    decreases s.x + s.width - x
  {
    if x >= s.x + s.width then Some(true)
    else match ColumnCheck(rows, x, s.y, s.y + s.height)
      case Some(true) => SquareCheck(rows, s, x + 1)
      case other => other
  }

  /** The filter over all squares, or `None` if some closure stops the program. */
  function CleanCheck(rows: seq<seq<int>>, squares: seq<Square>): Option<seq<Square>>
  {
    if squares == [] then Some([])
    else match CleanCheck(rows, squares[..|squares| - 1])
      case None => None
      case Some(clean) =>
        match SquareCheck(rows, squares[|squares| - 1], squares[|squares| - 1].x)
        case None => None
        case Some(ok) => Some(if ok then clean + [squares[|squares| - 1]] else clean)
  }

  /** Once a prefix of the squares stops the program, so do all the squares. */
  lemma {:induction false} CleanCheckStops(rows: seq<seq<int>>, squares: seq<Square>, i: nat)
    requires i <= |squares| && CleanCheck(rows, squares[..i]) == None
    ensures CleanCheck(rows, squares) == None
    decreases |squares|
  {
    if i < |squares| {
      var init := squares[..|squares| - 1];
      assert init[..i] == squares[..i];
      CleanCheckStops(rows, init, i);
    } else {
      assert squares[..i] == squares;
    }
  }

  /** The closure of `determineClean`: the nested loops with their early exits. */
  method CheckSquare(rows: seq<seq<int>>, s: Square) returns (result: Option<bool>)
    ensures result == SquareCheck(rows, s, s.x)
  {
    var x := s.x;
    while x < s.x + s.width
      invariant s.x <= x <= s.x + s.width
      invariant SquareCheck(rows, s, s.x) == SquareCheck(rows, s, x)
    {
      var y := s.y;
      while y < s.y + s.height
        invariant s.y <= y <= s.y + s.height
        invariant ColumnCheck(rows, x, s.y, s.y + s.height) == ColumnCheck(rows, x, y, s.y + s.height)
      {
        if y >= |rows| || x >= |rows[y]| {
          return None;
        }
        if rows[y][x] > 1 {
          return Some(false);
        } else if rows[y][x] == 1 {
          y := y + 1;
        } else {
          return None;
        }
      }
      x := x + 1;
    }
    return Some(true);
  }

  /** `determineClean`'s filter over the squares in insertion order. */
  method Clean(rows: seq<seq<int>>, squares: seq<Square>) returns (clean: Option<seq<Square>>)
    ensures clean == CleanCheck(rows, squares)
  {
    var kept := [];
    var i := 0;
    while i < |squares|
      invariant 0 <= i <= |squares|
      invariant CleanCheck(rows, squares[..i]) == Some(kept)
    {
      assert squares[..i + 1][..i] == squares[..i];
      var ok := CheckSquare(rows, squares[i]);
      if ok.None? {
        CleanCheckStops(rows, squares, i + 1);
        return None;
      }
      if ok.value {
        kept := kept + [squares[i]];
      }
      i := i + 1;
    }
    assert squares[..|squares|] == squares;
    return Some(kept);
  }

  /** Cell (x, y) lies inside `rows` and is covered at least once. */
  predicate Claimed(rows: seq<seq<int>>, x: int, y: int)
  {
    0 <= y < |rows| && 0 <= x < |rows[y]| && rows[y][x] >= 1
  }

  /** Cell (x, y) lies inside `rows` and is covered exactly once. */
  predicate Single(rows: seq<seq<int>>, x: int, y: int)
  {
    0 <= y < |rows| && 0 <= x < |rows[y]| && rows[y][x] == 1
  }

  /** Over cells that are all claimed, a column check never stops the program and says whether
      every cell is claimed once. */
  lemma {:induction false} ColumnCheckMeaning(rows: seq<seq<int>>, x: nat, y: nat, hi: nat)
    requires forall yy :: y <= yy < hi ==> Claimed(rows, x, yy)
    ensures ColumnCheck(rows, x, y, hi) == Some(forall yy :: y <= yy < hi ==> Single(rows, x, yy))
    decreases hi - y
  {
    if y < hi {
      assert Claimed(rows, x, y);
      ColumnCheckMeaning(rows, x, y + 1, hi);
      var rest := forall yy :: y + 1 <= yy < hi ==> Single(rows, x, yy);
      assert (forall yy :: y <= yy < hi ==> Single(rows, x, yy)) == (Single(rows, x, y) && rest);
    }
  }

  /** The same for all columns of a square from `x` on. */
  lemma {:induction false} SquareCheckMeaning(rows: seq<seq<int>>, s: Square, x: nat)
    requires s.x <= x
    requires forall yy, xx :: Covers(s, xx, yy) ==> Claimed(rows, xx, yy)
    ensures SquareCheck(rows, s, x) == Some(forall yy, xx :: x <= xx && Covers(s, xx, yy) ==> Single(rows, xx, yy))
    decreases s.x + s.width - x
  {
    if x < s.x + s.width {
      forall yy | s.y <= yy < s.y + s.height
        ensures Claimed(rows, x, yy)
      {
        assert Covers(s, x, yy);
      }
      ColumnCheckMeaning(rows, x, s.y, s.y + s.height);
      SquareCheckMeaning(rows, s, x + 1);
      var column := forall yy :: s.y <= yy < s.y + s.height ==> Single(rows, x, yy);
      var rest := forall yy, xx :: x + 1 <= xx && Covers(s, xx, yy) ==> Single(rows, xx, yy);
      assert (forall yy, xx :: x <= xx && Covers(s, xx, yy) ==> Single(rows, xx, yy)) == (column && rest) by {
        if column && rest {
          forall yy, xx | x <= xx && Covers(s, xx, yy)
            ensures Single(rows, xx, yy)
          {
            if xx == x {
              assert s.y <= yy < s.y + s.height;
            }
          }
        }
        if column && !rest {
          var yy, xx :| x + 1 <= xx && Covers(s, xx, yy) && !Single(rows, xx, yy);
          assert x <= xx;
        }
        if !column {
          var yy :| s.y <= yy < s.y + s.height && !Single(rows, x, yy);
          assert Covers(s, x, yy);
        }
      }
    }
  }

  /** Square `s` overlaps no claim of `all`: every cell it covers is covered exactly once. */
  ghost predicate Alone(all: seq<Square>, s: Square)
  {
    forall yy, xx :: Covers(s, xx, yy) ==> Coverage(all, xx, yy) == 1
  }

  /** The squares of `some`, in order, that overlap nothing in `all`. */
  ghost function Lonely(all: seq<Square>, some: seq<Square>): seq<Square>
  {
    if some == [] then []
    else Lonely(all, some[..|some| - 1]) + (if Alone(all, some[|some| - 1]) then [some[|some| - 1]] else [])
  }

  /** On the counts of its own squares, `determineClean` never stops the program and returns, in
      insertion order, exactly the squares that overlap no other. */
  lemma {:induction false} CleanCheckMeaning(all: seq<Square>, w: nat, h: nat, n: nat)
    requires n <= |all|
    requires forall i :: 0 <= i < |all| ==> Inside(all[i], w, h)
    ensures CleanCheck(Counts(all, w, h), all[..n]) == Some(Lonely(all, all[..n]))
  {
    if n > 0 {
      CleanCheckMeaning(all, w, h, n - 1);
      assert all[..n][..n - 1] == all[..n - 1];
      assert all[..n][n - 1] == all[n - 1];
      var s := all[n - 1];
      var rows := Counts(all, w, h);
      forall yy, xx | Covers(s, xx, yy)
        ensures Claimed(rows, xx, yy)
      {
        CoverageOfMember(all, n - 1, xx, yy);
      }
      SquareCheckMeaning(rows, s, s.x);
      assert (forall yy, xx :: s.x <= xx && Covers(s, xx, yy) ==> Single(rows, xx, yy)) == Alone(all, s) by {
        forall yy, xx | Covers(s, xx, yy)
          ensures rows[yy][xx] == Coverage(all, xx, yy)
        {
        }
      }
      assert SquareCheck(rows, s, s.x) == Some(Alone(all, s));
      var tail := if Alone(all, s) then [s] else [];
      assert Lonely(all, all[..n - 1]) + [] == Lonely(all, all[..n - 1]);
      var sq := all[..n];
      assert sq != [] && sq[..|sq| - 1] == all[..n - 1] && sq[|sq| - 1] == s;
      assert CleanCheck(rows, sq[..|sq| - 1]) == Some(Lonely(all, all[..n - 1]));
      assert CleanCheck(rows, sq) == Some(Lonely(all, all[..n - 1]) + tail);
      assert Lonely(all, all[..n]) == Lonely(all, all[..n - 1]) + tail;
    }
  }

  /** The fabric: its squares, the size that holds them all, and the cached fill. `filledWith`,
      `filledWidth` and `filledHeight` record what the cache was built from. */
  class Fabric {
    var squares: seq<Square>
    var width: nat
    var height: nat
    var cachedFabric: Option<seq<seq<int>>>
    ghost var filledWith: seq<Square>
    ghost var filledWidth: nat
    ghost var filledHeight: nat

    /** Every square fits with a spare row and column; a cache holds the counts of a prefix of the
        squares, and of the current fabric if nothing was added since. */
    ghost predicate Valid()
      reads this
    {
      (forall i :: 0 <= i < |squares| ==>
         squares[i].x + squares[i].width < width && squares[i].y + squares[i].height < height) &&
      (cachedFabric.Some? ==>
         cachedFabric.value == Counts(filledWith, filledWidth, filledHeight) &&
         filledWith <= squares &&
         (|filledWith| == |squares| ==> filledWidth == width && filledHeight == height))
    }

    constructor ()
      ensures Valid() && squares == [] && width == 0 && height == 0 && cachedFabric == None
    {
      squares := [];
      width := 0;
      height := 0;
      cachedFabric := None;
      filledWith := [];
    }

    /** `add(square:)`: append, and raise the size to at least x + w + 1 by y + h + 1. */
    method Add(square: Square)
      requires Valid()
      modifies this
      ensures Valid()
      ensures squares == old(squares) + [square]
      ensures width == if old(width) < square.x + square.width + 1 then square.x + square.width + 1 else old(width)
      ensures height == if old(height) < square.y + square.height + 1 then square.y + square.height + 1 else old(height)
      ensures cachedFabric == old(cachedFabric)
      ensures unchanged(`filledWith, `filledWidth, `filledHeight)
    {
      squares := squares + [square];
      var w := square.x + square.width + 1;
      var h := square.y + square.height + 1;
      if width < w {
        width := w;
      }
      if height < h {
        height := h;
      }
    }

    /** `fillInFabric`: the cached grid if there is one, even if squares were added since; otherwise
        the counts of the current squares, which become the cache. */
    method FillInFabric() returns (rows: seq<seq<int>>)
      requires Valid()
      modifies this
      ensures Valid()
      ensures old(cachedFabric).Some? ==> rows == old(cachedFabric).value && unchanged(this)
      ensures old(cachedFabric).None? ==> rows == Counts(squares, width, height) && cachedFabric == Some(rows)
      ensures rows == Counts(filledWith, filledWidth, filledHeight)
      ensures unchanged(`squares, `width, `height)
    {
      if cachedFabric.Some? {
        return cachedFabric.value;
      }
      rows := Fill(squares, width, height);
      cachedFabric := Some(rows);
      filledWith, filledWidth, filledHeight := squares, width, height;
    }

    /** `determineUsed`: the number of cells of the filled grid claimed more than once. */
    method DetermineUsed() returns (count: nat)
      requires Valid()
      modifies this
      ensures Valid() && unchanged(`squares, `width, `height)
      ensures count == GridUsed(Counts(filledWith, filledWidth, filledHeight))
      ensures old(cachedFabric).None? ==> count == GridUsed(Counts(squares, width, height))
    {
      var rows := FillInFabric();
      count := Used(rows);
    }

    /** `determineClean`: the filter over the squares in insertion order against the filled grid.
        When the grid is current it never stops the program and keeps exactly the lonely squares. */
    method DetermineClean() returns (clean: Option<seq<Square>>)
      requires Valid()
      modifies this
      ensures Valid() && unchanged(`squares, `width, `height)
      ensures clean == CleanCheck(Counts(filledWith, filledWidth, filledHeight), squares)
      ensures filledWith == squares ==> clean == Some(Lonely(squares, squares))
    {
      var rows := FillInFabric();
      clean := Clean(rows, squares);
      if filledWith == squares {
        CleanCheckMeaning(squares, width, height, |squares|);
        assert squares[..|squares|] == squares;
      }
    }
  }
}
