/**
 * Day 13: carts running on a track of straights, curves and intersections.
 * The track is read from a drawing in which carts stand on straight pieces;
 * the two curve glyphs are then told apart by their left neighbour. Every tick
 * the carts move one cell each in reading order; a cart turns on a curve and,
 * at an intersection, turns left, goes straight and turns right in turn.
 */
module Carts {
  import opened Wrappers

  /** A cell of the track. `CurveRight` (`/`) and `CurveLeft` (`\`) only exist until the curves are fixed. */
  datatype Space = StraightNS | StraightEW | CurveRight | CurveLeft | CurveSE | CurveSW | CurveNE | CurveNW
                 | Intersection | Blank

  datatype Direction = North | South | East | West

  /** The sides through which a cell lets a cart in or out. */
  function Exits(s: Space): set<Direction>
  {
    match s
    case StraightNS => {North, South}
    case StraightEW => {East, West}
    case CurveSE => {South, East}
    case CurveSW => {South, West}
    case CurveNE => {North, East}
    case CurveNW => {North, West}
    case Intersection => {North, South, East, West}
    case _ => {}
  }

  /** A curve glyph whose orientation is not decided yet. */
  predicate Undecided(s: Space)
  {
    s == CurveRight || s == CurveLeft
  }

  /** The quarter turns clockwise from north. */
  function Bearing(d: Direction): int
  {
    match d
    case North => 0
    case East => 1
    case South => 2
    case West => 3
  }

  function Opposite(d: Direction): (r: Direction)
    ensures Bearing(r) == (Bearing(d) + 2) % 4
  {
    match d
    case North => South
    case South => North
    case East => West
    case West => East
  }

  /** `Direction.left`: a quarter turn anticlockwise. */
  function Left(d: Direction): (r: Direction)
    ensures Bearing(r) == (Bearing(d) + 3) % 4
  {
    match d
    case North => West
    case South => East
    case East => North
    case West => South
  }

  /** `Direction.right`: a quarter turn clockwise. */
  function Right(d: Direction): (r: Direction)
    ensures Bearing(r) == (Bearing(d) + 1) % 4
  {
    match d
    case North => East
    case South => West
    case East => South
    case West => North
  }

  /** Turning left and turning right undo each other. */
  lemma LeftRightInverse(d: Direction)
    ensures Right(Left(d)) == d && Left(Right(d)) == d
  {
  }

  /** Four left turns make a full circle, and no fewer do. */
  lemma LeftFour(d: Direction)
    ensures Left(Left(Left(Left(d)))) == d
    ensures Left(d) != d && Left(Left(d)) == Opposite(d) && Left(Left(Left(d))) == Right(d)
  {
  }

  /** A cart: its number, its cell, its heading and how many intersections it has crossed. */
  datatype Cart = Cart(id: int, x: int, y: int, direction: Direction, turns: nat)

  /** `Cart <`: reading order, by row and then by column. */
  predicate Precedes(a: Cart, b: Cart)
  {
    if a.y < b.y then true else if a.y > b.y then false else a.x < b.x
  }

  /** Two carts on the same cell. */
  predicate SamePlace(a: Cart, b: Cart)
  {
    a.x == b.x && a.y == b.y
  }

  /** `Cart ==`: carts are equal when their numbers are, wherever they stand. */
  predicate SameCart(a: Cart, b: Cart)
  {
    a.id == b.id
  }

  /** Reading order is a strict order in which every two carts on different cells are comparable,
      and it ignores everything but the cell. */
  lemma PrecedesOrder(a: Cart, b: Cart, c: Cart)
    ensures !Precedes(a, a)
    ensures Precedes(a, b) && Precedes(b, c) ==> Precedes(a, c)
    ensures Precedes(a, b) || Precedes(b, a) || SamePlace(a, b)
    ensures !(Precedes(a, b) && Precedes(b, a)) && !(Precedes(a, b) && SamePlace(a, b))
    ensures Precedes(a, b) <==> a.y < b.y || (a.y == b.y && a.x < b.x)
  {
  }

  /** Equality looks at the number only: a cart equals itself moved or turned, and two carts on
      the same cell are different carts when their numbers differ. */
  lemma SameCartIgnoresPlace(a: Cart, x: int, y: int, d: Direction, t: nat)
    ensures SameCart(a, Cart(a.id, x, y, d, t))
    ensures SamePlace(a, Cart(a.id + 1, a.x, a.y, a.direction, a.turns)) && !SameCart(a, Cart(a.id + 1, a.x, a.y, a.direction, a.turns))
  {
  }

  // Reading the drawing.

  /** The characters a drawing may hold; any other one stops the program. */
  predicate Allowed(c: char)
  {
    c == '/' || c == '\\' || c == '-' || c == '|' || c == '+' || c == '^' || c == 'v' || c == '<' || c == '>' || c == ' '
  }

  /** The heading of a cart drawn as `c`, if `c` draws a cart. */
  function Heading(c: char): (r: Option<Direction>)
    ensures r.Some? ==> Allowed(c)
  {
    match c
    case '^' => Some(North)
    case 'v' => Some(South)
    case '<' => Some(West)
    case '>' => Some(East)
    case _ => None
  }

  /** The piece of track laid for the character `c`: under a cart, the straight along its heading. */
  function Piece(c: char): Space
  {
    match c
    case '/' => CurveRight
    case '\\' => CurveLeft
    case '-' => StraightEW
    case '|' => StraightNS
    case '+' => Intersection
    case '^' => StraightNS
    case 'v' => StraightNS
    case '<' => StraightEW
    case '>' => StraightEW
    case _ => Blank
  }

  /** Under a cart lies the straight along its heading, and only a space lays no track. */
  lemma PieceUnderCart(c: char)
    ensures Heading(c).Some? ==> Exits(Piece(c)) == {Heading(c).value, Opposite(Heading(c).value)}
    ensures Allowed(c) ==> (Piece(c) == Blank <==> c == ' ')
  {
  }

  /** Every character of the line is allowed. */
  predicate RowKnown(line: string)
  {
    forall x :: 0 <= x < |line| ==> Allowed(line[x])
  }

  /** Every character of the drawing is allowed. */
  predicate Known(lines: seq<string>)
  {
    forall y :: 0 <= y < |lines| ==> RowKnown(lines[y])
  }

  /** The track as read, before the curves are fixed: one row per line, one cell per character. */
  function Laid(lines: seq<string>): (track: seq<seq<Space>>)
    ensures |track| == |lines|
    ensures forall y :: 0 <= y < |lines| ==> |track[y]| == |lines[y]|
  {
    seq(|lines|, y requires 0 <= y < |lines| => seq(|lines[y]|, x requires 0 <= x < |lines[y]| => Piece(lines[y][x])))
  }

  /** A cart found in the drawing: its cell and heading. */
  datatype Spot = Spot(x: int, y: int, heading: Direction)

  /** The carts drawn in `line`, which is row `y`, from left to right. */
  function RowSpots(line: string, y: int): seq<Spot>
  {
    if line == [] then []
    else
      var x := |line| - 1;
      RowSpots(line[..x], y) + (if Heading(line[x]).Some? then [Spot(x, y, Heading(line[x]).value)] else [])
  }

  /** The carts drawn in `lines`, in reading order. */
  function Spots(lines: seq<string>): seq<Spot>
  {
    if lines == [] then []
    else
      var y := |lines| - 1;
      Spots(lines[..y]) + RowSpots(lines[y], y)
  }

  /** The carts in the order found, numbered from 0, none having crossed an intersection yet. */
  function Numbered(spots: seq<Spot>): (carts: seq<Cart>)
    ensures |carts| == |spots|
  {
    seq(|spots|, i requires 0 <= i < |spots| => Cart(i, spots[i].x, spots[i].y, spots[i].heading, 0))
  }

  lemma NumberedAppend(spots: seq<Spot>, s: Spot)
    ensures Numbered(spots + [s]) == Numbered(spots) + [Cart(|spots|, s.x, s.y, s.heading, 0)]
  {
  }

  /** Row `y` holds a cart with heading `h` at column `x` exactly where the line draws one. */
  lemma {:induction false} RowSpotsExact(line: string, y: int, s: Spot)
    ensures s in RowSpots(line, y) <==> s.y == y && 0 <= s.x < |line| && Heading(line[s.x]) == Some(s.heading)
    decreases |line|
  {
    if line != [] {
      var x := |line| - 1;
      RowSpotsExact(line[..x], y, s);
    }
  }

  /** The carts of row `y` stand in that row, strictly from left to right. */
  lemma {:induction false} RowSpotsOrdered(line: string, y: int)
    ensures forall i :: 0 <= i < |RowSpots(line, y)| ==> RowSpots(line, y)[i].y == y && 0 <= RowSpots(line, y)[i].x < |line|
    ensures forall i, j :: 0 <= i < j < |RowSpots(line, y)| ==> RowSpots(line, y)[i].x < RowSpots(line, y)[j].x
    decreases |line|
  {
    if line != [] {
      RowSpotsOrdered(line[..|line| - 1], y);
    }
  }

  /** A cart is found exactly where the drawing shows one. */
  lemma {:induction false} SpotsExact(lines: seq<string>, s: Spot)
    ensures s in Spots(lines) <==> 0 <= s.y < |lines| && 0 <= s.x < |lines[s.y]| && Heading(lines[s.y][s.x]) == Some(s.heading)
    decreases |lines|
  {
    if lines != [] {
      var y := |lines| - 1;
      SpotsExact(lines[..y], s);
      RowSpotsExact(lines[y], y, s);
    }
  }

  /** The carts are found in strict reading order, every one inside the drawing. */
  lemma {:induction false} SpotsOrdered(lines: seq<string>)
    ensures forall i :: 0 <= i < |Spots(lines)| ==> 0 <= Spots(lines)[i].y < |lines| && 0 <= Spots(lines)[i].x < |lines[Spots(lines)[i].y]|
    ensures forall i, j :: 0 <= i < j < |Spots(lines)| ==>
      Spots(lines)[i].y < Spots(lines)[j].y || (Spots(lines)[i].y == Spots(lines)[j].y && Spots(lines)[i].x < Spots(lines)[j].x)
    decreases |lines|
  {
    if lines != [] {
      var y := |lines| - 1;
      var front, row := Spots(lines[..y]), RowSpots(lines[y], y);
      SpotsOrdered(lines[..y]);
      RowSpotsOrdered(lines[y], y);
      assert Spots(lines) == front + row;
      forall i | 0 <= i < |front|
        ensures 0 <= front[i].y < y && 0 <= front[i].x < |lines[front[i].y]|
      {
        assert lines[..y][front[i].y] == lines[front[i].y];
      }
    }
  }

  /** The carts read from a drawing are numbered 0, 1, 2, ... in reading order, and each stands on
      the straight piece laid along its heading. */
  lemma ParsedCarts(lines: seq<string>)
    ensures forall i :: 0 <= i < |Numbered(Spots(lines))| ==> Numbered(Spots(lines))[i].id == i
    ensures forall i, j :: 0 <= i < j < |Numbered(Spots(lines))| ==> Precedes(Numbered(Spots(lines))[i], Numbered(Spots(lines))[j])
    ensures forall c :: c in Numbered(Spots(lines)) ==>
      0 <= c.y < |lines| && 0 <= c.x < |lines[c.y]| && Heading(lines[c.y][c.x]) == Some(c.direction) &&
      Exits(Laid(lines)[c.y][c.x]) == {c.direction, Opposite(c.direction)}
  {
    var spots := Spots(lines);
    SpotsOrdered(lines);
    forall c | c in Numbered(spots)
      ensures 0 <= c.y < |lines| && 0 <= c.x < |lines[c.y]| && Heading(lines[c.y][c.x]) == Some(c.direction)
    {
      var i :| 0 <= i < |spots| && Numbered(spots)[i] == c;
      SpotsExact(lines, spots[i]);
      PieceUnderCart(lines[c.y][c.x]);
    }
  }

  /** Reading one line, row `y`, of the drawing (lines 126-161): the row starts blank, each character
      lays its piece (the switch of lines 129-160 is the table `Piece`) and each cart character also
      adds a cart numbered `|carts|`. */
  method ParseRow(line: string, y: int, found: seq<Cart>, ghost spots: seq<Spot>) returns (row: seq<Space>, carts: seq<Cart>, ok: bool)
    requires found == Numbered(spots)
    ensures ok <==> RowKnown(line)
    ensures ok ==> |row| == |line| && (forall x :: 0 <= x < |line| ==> row[x] == Piece(line[x]))
    ensures ok ==> carts == Numbered(spots + RowSpots(line, y))
  {
    row, carts, ok := seq(|line|, _ => Blank), found, true;
    var x := 0;
    ghost var seen := spots;
    while x < |line| && ok
      invariant 0 <= x <= |line| && |row| == |line|
      invariant ok ==> forall x' :: 0 <= x' < x ==> Allowed(line[x']) && row[x'] == Piece(line[x'])
      invariant ok ==> seen == spots + RowSpots(line[..x], y) && carts == Numbered(seen)
      invariant !ok ==> exists x' :: 0 <= x' < |line| && !Allowed(line[x'])
      decreases |line| - x, if ok then 1 else 0
    {
      var c := line[x];
      assert line[..x + 1][..x] == line[..x];
      assert RowSpots(line[..x + 1], y) ==
        RowSpots(line[..x], y) + (if Heading(c).Some? then [Spot(x, y, Heading(c).value)] else []);
      if !Allowed(c) {
        ok := false;
      } else {
        row := row[x := Piece(c)];
        if Heading(c).Some? {
          NumberedAppend(seen, Spot(x, y, Heading(c).value));
          carts := carts + [Cart(|carts|, x, y, Heading(c).value, 0)];
          seen := seen + [Spot(x, y, Heading(c).value)];
        }
        assert seen == spots + RowSpots(line[..x + 1], y);
        x := x + 1;
      }
    }
    assert ok ==> line[..x] == line;
  }

  /** Reading the drawing (lines 121-162), row by row. `ok` is false where the program stops on a
      character it does not know. */
  method Parse(lines: seq<string>) returns (track: seq<seq<Space>>, carts: seq<Cart>, ok: bool)
    ensures ok <==> Known(lines)
    ensures ok ==> track == Laid(lines) && carts == Numbered(Spots(lines))
  {
    track, carts, ok := [], [], true;
    var y := 0;
    while y < |lines| && ok
      invariant 0 <= y <= |lines| && |track| == y
      invariant ok ==> forall y' :: 0 <= y' < y ==> RowKnown(lines[y'])
      invariant ok ==> forall y' :: 0 <= y' < y ==> track[y'] == Laid(lines)[y']
      invariant ok ==> carts == Numbered(Spots(lines[..y]))
      invariant !ok ==> !Known(lines)
      decreases |lines| - y, if ok then 1 else 0
    {
      var row;
      row, carts, ok := ParseRow(lines[y], y, carts, Spots(lines[..y]));
      if ok {
        assert lines[..y + 1][..y] == lines[..y];
        assert row == Laid(lines)[y];
        track := track + [row];
        y := y + 1;
      }
    }
    if ok {
      assert lines[..y] == lines;
      assert track == Laid(lines);
    }
  }

  // Fixing the curves.

  /** A left neighbour that leads into a curve, as lines 168 and 174 judge it: a straight east-west
      piece or an intersection. */
  predicate Joins(s: Space)
  {
    s == StraightEW || s == Intersection
  }

  /** The orientation chosen for a curve glyph (lines 167-179): `\` is a top-right corner (`CurveSW`)
      when its left neighbour joins it and a bottom-left corner (`CurveNE`) otherwise; `/` is a
      bottom-right corner (`CurveNW`) or a top-left corner (`CurveSE`). Other cells stay. */
  function Fix(s: Space, joins: bool): Space
  {
    if s == CurveLeft then (if joins then CurveSW else CurveNE)
    else if s == CurveRight then (if joins then CurveNW else CurveSE)
    else s
  }

  /** A decided curve: one exit north or south and one east or west. */
  predicate Corner(s: Space)
  {
    s == CurveSE || s == CurveSW || s == CurveNE || s == CurveNW
  }

  /** Fixing decides every curve glyph and touches nothing else: the glyph keeps its slant, the curve
      opens to the west exactly when the left neighbour was judged to join it, and whether a cell
      joins its right neighbour is unchanged. */
  lemma FixMeaning(s: Space, joins: bool)
    ensures !Undecided(Fix(s, joins)) && Joins(Fix(s, joins)) == Joins(s)
    ensures !Undecided(s) ==> Fix(s, joins) == s
    ensures Undecided(s) ==> Corner(Fix(s, joins)) && (West in Exits(Fix(s, joins)) <==> joins)
    ensures Corner(Fix(s, joins)) ==> ((North in Exits(Fix(s, joins))) != (South in Exits(Fix(s, joins))) &&
      (East in Exits(Fix(s, joins))) != (West in Exits(Fix(s, joins))))
    ensures s == CurveLeft ==> Exits(Fix(s, joins)) == {South, West} || Exits(Fix(s, joins)) == {North, East}
    ensures s == CurveRight ==> Exits(Fix(s, joins)) == {South, East} || Exits(Fix(s, joins)) == {North, West}
  {
  }

  /** Fixing keeps whether a cell joins its right neighbour (helper). */
  lemma FixKeepsJoins(s: Space, joins: bool)
    ensures Joins(Fix(s, joins)) == Joins(s)
  {
  }

  /** A row after fixing, judging each curve by its left neighbour. */
  function FixedRow(row: seq<Space>): (r: seq<Space>)
    ensures |r| == |row|
  {
    seq(|row|, x requires 0 <= x < |row| => Fix(row[x], x > 0 && Joins(row[x - 1])))
  }

  /** The track after fixing, row by row. */
  function Fixed(track: seq<seq<Space>>): (r: seq<seq<Space>>)
    ensures |r| == |track|
  {
    seq(|track|, y requires 0 <= y < |track| => FixedRow(track[y]))
  }

  /** After fixing, no undecided curve is left. */
  lemma FixedDecided(track: seq<seq<Space>>)
    ensures forall y, x :: 0 <= y < |track| && 0 <= x < |track[y]| ==> !Undecided(Fixed(track)[y][x])
  {
    forall y, x | 0 <= y < |track| && 0 <= x < |track[y]|
      ensures !Undecided(Fixed(track)[y][x])
    {
      FixMeaning(track[y][x], x > 0 && Joins(track[y][x - 1]));
    }
  }

  /** Fixing one row in place (lines 166-180): each curve glyph of the row as read is decided by the
      cell to its left as it stands now, which may already be fixed. */
  method FixRow(row: seq<Space>) returns (fixed: seq<Space>)
    ensures fixed == FixedRow(row)
  {
    fixed := row;
    var x := 0;
    while x < |row|
      invariant 0 <= x <= |row| && |fixed| == |row|
      invariant forall x' :: 0 <= x' < x ==> fixed[x'] == FixedRow(row)[x']
      invariant forall x' :: x <= x' < |row| ==> fixed[x'] == row[x']
    {
      var value := row[x];
      var joins := x > 0 && (fixed[x - 1] == StraightEW || fixed[x - 1] == Intersection);
      if x > 0 {
        FixKeepsJoins(row[x - 1], x - 1 > 0 && Joins(row[x - 2]));
        assert fixed[x - 1] == Fix(row[x - 1], x - 1 > 0 && Joins(row[x - 2]));
      }
      assert joins == (x > 0 && Joins(row[x - 1]));
      if value == CurveLeft {
        if joins {
          fixed := fixed[x := CurveSW];
        } else {
          fixed := fixed[x := CurveNE];
        }
      } else if value == CurveRight {
        if joins {
          fixed := fixed[x := CurveNW];
        } else {
          fixed := fixed[x := CurveSE];
        }
      }
      x := x + 1;
    }
  }

  /** Fixing the curves of the whole track (lines 165-181), row by row. */
  method FixCurves(laid: seq<seq<Space>>) returns (track: seq<seq<Space>>)
    ensures track == Fixed(laid)
  {
    track := laid;
    var y := 0;
    while y < |laid|
      invariant 0 <= y <= |laid| && |track| == |laid|
      invariant forall y' :: 0 <= y' < y ==> track[y'] == Fixed(laid)[y']
    {
      var fixed := FixRow(laid[y]);
      track := track[y := fixed];
      y := y + 1;
    }
  }

  /** The corrected judgement: a curve opens to the west when the cell to its left, already fixed,
      opens to the east, which a curve can do as well as a straight piece or an intersection. */
  function FixedRowConnected(row: seq<Space>): (r: seq<Space>)
    ensures |r| == |row|
  {
    if row == [] then []
    else
      var front := FixedRowConnected(row[..|row| - 1]);
      front + [Fix(row[|row| - 1], |row| > 1 && East in Exits(front[|row| - 2]))]
  }

  /** A row whose decided curves connect to their left neighbours: each curve glyph opens west
      exactly when the cell to its left opens east. */
  predicate CurvesConnect(row: seq<Space>, fixed: seq<Space>)
    requires |fixed| == |row|
  {
    (forall x :: 0 <= x < |row| && Undecided(row[x]) && West in Exits(fixed[x]) ==> x > 0 && East in Exits(fixed[x - 1])) &&
    (forall x :: 0 < x < |row| && Undecided(row[x]) && East in Exits(fixed[x - 1]) ==> West in Exits(fixed[x]))
  }

  /** The corrected fixing leaves no glyph undecided. */
  lemma {:induction false} FixedRowDecided(row: seq<Space>)
    ensures forall x :: 0 <= x < |row| ==> !Undecided(FixedRowConnected(row)[x])
    decreases |row|
  {
    if row != [] {
      var n := |row| - 1;
      var front := FixedRowConnected(row[..n]);
      var f := FixedRowConnected(row);
      FixedRowDecided(row[..n]);
      FixMeaning(row[n], n > 0 && East in Exits(front[n - 1]));
      assert f == front + [Fix(row[n], n > 0 && East in Exits(front[n - 1]))];
      forall x | 0 <= x < |row|
        ensures !Undecided(f[x])
      {
        if x < n {
          assert f[x] == front[x];
        }
      }
    }
  }

  /** The corrected fixing connects every curve to its left neighbour. */
  lemma {:induction false} FixedRowConnects(row: seq<Space>)
    ensures CurvesConnect(row, FixedRowConnected(row))
    decreases |row|
  {
    if row != [] {
      var n := |row| - 1;
      var front := FixedRowConnected(row[..n]);
      var f := FixedRowConnected(row);
      var joins := n > 0 && East in Exits(front[n - 1]);
      FixedRowConnects(row[..n]);
      FixMeaning(row[n], joins);
      assert f == front + [Fix(row[n], joins)];
      forall x | 0 <= x < |row| && Undecided(row[x]) && West in Exits(f[x])
        ensures x > 0 && East in Exits(f[x - 1])
      {
        if x < n {
          assert row[..n][x] == row[x] && f[x] == front[x];
          if x > 0 {
            assert f[x - 1] == front[x - 1];
          }
        } else if n > 0 {
          assert f[n - 1] == front[n - 1];
        }
      }
      forall x | 0 < x < |row| && Undecided(row[x]) && East in Exits(f[x - 1])
        ensures West in Exits(f[x])
      {
        assert f[x - 1] == front[x - 1];
        if x < n {
          assert row[..n][x] == row[x] && f[x] == front[x];
        }
      }
    }
  }

  /** The fixing as written misreads a `\` right after a top-left `/`: in the smallest loop, drawn
      `/\` over `\/`, the top-right corner becomes a bottom-left one and does not open towards the
      top-left corner that opens east into it. */
  lemma FixedRowMisses()
    ensures FixedRow([CurveRight, CurveLeft]) == [CurveSE, CurveNE]
    ensures !CurvesConnect([CurveRight, CurveLeft], FixedRow([CurveRight, CurveLeft]))
    ensures FixedRowConnected([CurveRight, CurveLeft]) == [CurveSE, CurveSW]
  {
    var row := [CurveRight, CurveLeft];
    assert FixedRow(row)[0] == CurveSE && FixedRow(row)[1] == CurveNE;
    assert row[..1] == [CurveRight];
    assert FixedRowConnected(row[..1]) == [CurveSE];
  }

  // Moving a cart.

  /** The column step of a heading. */
  function DX(d: Direction): int
  {
    if d == East then 1 else if d == West then -1 else 0
  }

  /** The row step of a heading; rows grow southwards. */
  function DY(d: Direction): int
  {
    if d == South then 1 else if d == North then -1 else 0
  }

  /** The heading after an intersection, by the number of intersections crossed before: left,
      straight on, right, and again. */
  function Turn(d: Direction, turns: nat): Direction
  {
    match turns % 3
    case 0 => Left(d)
    case 1 => d
    case _ => Right(d)
  }

  /** Cell (x, y) exists in the track; the program traps on any other. */
  predicate OnTrack(track: seq<seq<Space>>, x: int, y: int)
  {
    0 <= y < |track| && 0 <= x < |track[y]|
  }

  /** `moveCart` (lines 275-354): one cell along the heading, then a turn by the cell reached. `None`
      where the program stops: off the track, on a blank or an undecided curve, or on a curve that does
      not open towards the cart. */
  function Move(track: seq<seq<Space>>, c: Cart): Option<Cart>
  {
    var x, y := c.x + DX(c.direction), c.y + DY(c.direction);
    if !OnTrack(track, x, y) then None
    else
      match track[y][x]
      case StraightNS => Some(Cart(c.id, x, y, c.direction, c.turns))
      case StraightEW => Some(Cart(c.id, x, y, c.direction, c.turns))
      case CurveSE =>
        if c.direction == North then Some(Cart(c.id, x, y, East, c.turns))
        else if c.direction == West then Some(Cart(c.id, x, y, South, c.turns))
        else None
      case CurveSW =>
        if c.direction == North then Some(Cart(c.id, x, y, West, c.turns))
        else if c.direction == East then Some(Cart(c.id, x, y, South, c.turns))
        else None
      case CurveNE =>
        if c.direction == South then Some(Cart(c.id, x, y, East, c.turns))
        else if c.direction == West then Some(Cart(c.id, x, y, North, c.turns))
        else None
      case CurveNW =>
        if c.direction == South then Some(Cart(c.id, x, y, West, c.turns))
        else if c.direction == East then Some(Cart(c.id, x, y, North, c.turns))
        else None
      case Intersection => Some(Cart(c.id, x, y, Turn(c.direction, c.turns), c.turns + 1))
      case _ => None
  }

  /** A move goes exactly one cell along the heading and keeps the cart's number. It fails only off
      the track, on a cell without track or with an undecided curve, or on a curve the cart cannot
      enter, which is one not open on the side the cart comes from. A straight piece keeps heading and
      count; a curve sends the cart out of its other side; an intersection counts one more crossing
      and turns by the count before it. */
  lemma MoveMeaning(track: seq<seq<Space>>, c: Cart)
    ensures var r := Move(track, c);
      var x, y := c.x + DX(c.direction), c.y + DY(c.direction);
      && (r.Some? ==> r.value.id == c.id && r.value.x == x && r.value.y == y && (x - c.x) * (x - c.x) + (y - c.y) * (y - c.y) == 1)
      && (r.Some? <==> (OnTrack(track, x, y) && track[y][x] != Blank && !Undecided(track[y][x]) &&
            (Corner(track[y][x]) ==> Opposite(c.direction) in Exits(track[y][x]))))
      && (r.Some? ==> r.value.turns == c.turns + (if track[y][x] == Intersection then 1 else 0))
      && (r.Some? && (track[y][x] == StraightNS || track[y][x] == StraightEW) ==> r.value.direction == c.direction)
      && (r.Some? && Corner(track[y][x]) ==>
            r.value.direction in Exits(track[y][x]) && r.value.direction != Opposite(c.direction))
      && (r.Some? && track[y][x] == Intersection ==> r.value.direction == Turn(c.direction, c.turns))
  {
  }

  /** Three intersections in a row turn a cart left, straight on and right in some order, so it
      leaves the third one with the heading it had before the first. */
  lemma TurnCycle(d: Direction, turns: nat)
    ensures Turn(Turn(Turn(d, turns), turns + 1), turns + 2) == d
    ensures Turn(d, turns + 3) == Turn(d, turns)
  {
    assert (turns + 3) % 3 == turns % 3;
    if turns % 3 == 0 {
      assert (turns + 1) % 3 == 1 && (turns + 2) % 3 == 2;
    } else if turns % 3 == 1 {
      assert (turns + 1) % 3 == 2 && (turns + 2) % 3 == 0;
    } else {
      assert (turns + 1) % 3 == 0 && (turns + 2) % 3 == 1;
    }
  }
}
