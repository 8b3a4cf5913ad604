/**
 * Day 9: the marble game. Marbles `1 ..< lastMarble + 1` are placed in turn into a circle that
 * starts with marble 0. A marble is normally placed between the marbles one and two places
 * clockwise of the current one; a multiple of 23 is instead kept by the player, who also takes the
 * marble seven places counter-clockwise. The score is the highest total of any player.
 *
 * The specification works on values: the circle is a sequence read clockwise, with the index of
 * the current marble. The program's linked marbles are a `Circle` whose `cw` and `ccw` links are
 * arrays indexed by marble value, rewired in place.
 */
module Marbles {
  import opened Wrappers

  /** A marble whose value is a multiple of this scores (line 63). */
  const Scoring: int := 23

  // The circle as a value.

  /** The index clockwise of `i` in a circle of `n` marbles. */
  function Next(n: nat, i: nat): (j: nat)
    requires i < n
    ensures j < n
  {
    if i + 1 < n then i + 1 else 0
  }

  /** The index counter-clockwise of `i` in a circle of `n` marbles. */
  function Prev(n: nat, i: nat): (j: nat)
    requires i < n
    ensures j < n
  {
    if i == 0 then n - 1 else i - 1
  }

  /** The index `k` places counter-clockwise of `i` (`.ccw` taken `k` times). */
  function BackBy(n: nat, i: nat, k: nat): (j: nat)
    requires i < n
    ensures j < n
  {
    if k == 0 then i else Prev(n, BackBy(n, i, k - 1))
  }

  lemma MulStep(x: int, y: int, n: nat)
    requires x < y
    ensures x * n + n <= y * n
  {
    var d: nat := y - x - 1;
    assert y * n == x * n + n + d * n;
  }

  lemma Euclid(a: int, n: int)
    requires n > 0
    ensures a == (a / n) * n + a % n && 0 <= a % n < n
  {
  }

  /** Euclidean division is determined by a quotient and a remainder in range. */
  lemma DivMod(a: int, n: int, q: int, r: int)
    requires n > 0 && 0 <= r < n && a == q * n + r
    ensures a / n == q && a % n == r
  {
    var q0 := a / n;
    var r0 := a % n;
    Euclid(a, n);
    if q0 > q {
      MulStep(q, q0, n);
      assert false;
    } else if q0 < q {
      MulStep(q0, q, n);
      assert false;
    }
  }

  lemma PrevMod(n: nat, a: int)
    requires n > 0
    ensures Prev(n, a % n) == (a - 1) % n
  {
    var b := a % n;
    var q := a / n;
    Euclid(a, n);
    if b == 0 {
      DivMod(a - 1, n, q - 1, n - 1);
    } else {
      DivMod(a - 1, n, q, b - 1);
    }
  }

  /** Reducing a number in `-n ..< n` modulo `n`. */
  lemma Wraps(a: int, n: int)
    requires n > 0 && a < n
    ensures -n <= a ==> a % n == if a >= 0 then a else a + n
  {
    if a >= 0 {
      DivMod(a, n, 0, a);
    } else if -n <= a {
      DivMod(a, n, -1, a + n);
    }
  }

  /** Going `k` places counter-clockwise is subtracting `k` modulo the size of the circle. */
  lemma {:induction false} BackByMod(n: nat, i: nat, k: nat)
    requires i < n
    ensures BackBy(n, i, k) == (i - k) % n
  {
    if k > 0 {
      var a := i - (k - 1);
      BackByMod(n, i, k - 1);
      PrevMod(n, a);
      assert BackBy(n, i, k) == Prev(n, a % n) == (a - 1) % n;
      assert a - 1 == i - k;
    }
  }

  /** The marbles read clockwise, and the index of the current one. */
  datatype Ring = Ring(marbles: seq<int>, current: nat)

  predicate Placed(r: Ring)
  {
    r.current < |r.marbles|
  }

  /** No marble appears twice. */
  predicate Distinct(s: seq<int>)
  {
    forall i, j :: 0 <= i < j < |s| ==> s[i] != s[j]
  }

  /** Marble `m` goes between the marbles one and two places clockwise of the current one, and
      becomes current (lines 76-87). */
  function Insert(r: Ring, m: int): (s: Ring)
    requires Placed(r)
    ensures Placed(s) && |s.marbles| == |r.marbles| + 1 && s.marbles[s.current] == m
  {
    var q := Next(|r.marbles|, r.current);
    Ring(r.marbles[..q + 1] + [m] + r.marbles[q + 1..], q + 1)
  }

  /** The marble seven places counter-clockwise of the current one (line 66). */
  function Taken(r: Ring): (t: int)
    requires Placed(r)
  {
    r.marbles[BackBy(|r.marbles|, r.current, 7)]
  }

  /** In a circle of at least seven, the taken marble sits seven places before the current one,
      wrapping round the end at most once. */
  lemma TakenIndex(r: Ring)
    requires Placed(r) && |r.marbles| >= 7
    ensures r.current >= 7 ==> Taken(r) == r.marbles[r.current - 7]
    ensures r.current < 7 ==> Taken(r) == r.marbles[r.current + |r.marbles| - 7]
  {
    BackByMod(|r.marbles|, r.current, 7);
    Wraps(r.current - 7, |r.marbles|);
  }

  /** That marble is unlinked and its clockwise neighbour becomes current (lines 66-74). A circle
      of one marble links that marble to itself again and stays as it is. */
  function Remove(r: Ring): (s: Ring)
    requires Placed(r)
    ensures Placed(s)
  {
    var n := |r.marbles|;
    var j := BackBy(n, r.current, 7);
    if n == 1 then r else Ring(r.marbles[..j] + r.marbles[j + 1..], if j == n - 1 then 0 else j)
  }

  /** The new marble sits right after the marble clockwise of the old current one, and right
      before the marble after that; nothing else is added. */
  lemma InsertBetween(r: Ring, m: int)
    requires Placed(r)
    ensures var n := |r.marbles|; var s := Insert(r, m);
      s.marbles[Prev(n + 1, s.current)] == r.marbles[Next(n, r.current)] &&
      s.marbles[Next(n + 1, s.current)] == r.marbles[Next(n, Next(n, r.current))]
    ensures multiset(Insert(r, m).marbles) == multiset(r.marbles) + multiset{m}
  {
    var q := Next(|r.marbles|, r.current);
    assert r.marbles == r.marbles[..q + 1] + r.marbles[q + 1..];
  }

  /** The new current marble is the one that was clockwise of the taken one. */
  lemma RemoveCurrent(r: Ring)
    requires Placed(r)
    ensures var n := |r.marbles|;
      Remove(r).marbles[Remove(r).current] == r.marbles[Next(n, BackBy(n, r.current, 7))]
  {
  }

  /** In a circle of two or more, the taken marble leaves and the rest stay. */
  lemma RemoveTaken(r: Ring)
    requires Placed(r) && |r.marbles| >= 2
    ensures |Remove(r).marbles| == |r.marbles| - 1
    ensures multiset(Remove(r).marbles) + multiset{Taken(r)} == multiset(r.marbles)
  {
    var j := BackBy(|r.marbles|, r.current, 7);
    assert r.marbles == r.marbles[..j] + [r.marbles[j]] + r.marbles[j + 1..];
  }

  // The game as a value.

  /** The circle, each player's score, and whose turn it is. */
  datatype Game = Game(ring: Ring, scores: seq<int>, player: nat)

  predicate Ready(g: Game)
  {
    Placed(g.ring) && g.player < |g.scores|
  }

  /** Marble `m`'s turn (lines 61-94). */
  function Turn(g: Game, m: int): (h: Game)
    requires Ready(g)
    ensures Ready(h) && |h.scores| == |g.scores|
  {
    var next := (g.player + 1) % |g.scores|;
    if m % Scoring == 0 then
      Game(Remove(g.ring), g.scores[g.player := g.scores[g.player] + m + Taken(g.ring)], next)
    else
      Game(Insert(g.ring, m), g.scores, next)
  }

  /** The game after the marbles up to `last` (lines 53-95). */
  function Play(players: nat, last: int): (g: Game)
    requires players >= 1
    ensures Ready(g) && |g.scores| == players
    decreases last
  {
    if last < 1 then Game(Ring([0], 0), Zeros(players), 0)
    else Turn(Play(players, last - 1), last)
  }

  /** Every player starts at zero (line 53). */
  function Zeros(players: nat): (s: seq<int>)
    ensures |s| == players && forall i :: 0 <= i < players ==> s[i] == 0
  {
    seq(players, _ => 0)
  }

  /** The largest element. */
  function Max(s: seq<int>): int
    requires s != []
  {
    if |s| == 1 then s[0]
    else var m := Max(s[..|s| - 1]); if s[|s| - 1] > m then s[|s| - 1] else m
  }

  lemma {:induction false} MaxMeaning(s: seq<int>)
    requires s != []
    ensures Max(s) in s
    ensures forall i :: 0 <= i < |s| ==> s[i] <= Max(s)
  {
    if |s| > 1 {
      MaxMeaning(s[..|s| - 1]);
      assert s == s[..|s| - 1] + [s[|s| - 1]];
    }
  }

  /** The high score (line 97); `None` without players, where the program stops. */
  function HighScore(players: int, last: int): (r: Option<int>)
    ensures r.None? <==> players < 1
    ensures r.Some? ==> r.value in Play(players, last).scores
    ensures r.Some? ==> forall i :: 0 <= i < players ==> Play(players, last).scores[i] <= r.value
  {
    if players < 1 then None
    else
      MaxMeaning(Play(players, last).scores);
      Some(Max(Play(players, last).scores))
  }

  // Properties of the game.

  /** Each turn passes to the next player, wrapping around. */
  lemma TurnPlayer(g: Game, m: int)
    requires Ready(g)
    ensures Turn(g, m).player == (g.player + 1) % |g.scores|
  {
  }

  /** Adding one and reducing commutes with reducing first. */
  lemma SuccMod(a: int, n: int)
    requires n > 0
    ensures (a % n + 1) % n == (a + 1) % n
  {
    var p := a % n;
    var q := a / n;
    Euclid(a, n);
    if p + 1 < n {
      DivMod(p + 1, n, 0, p + 1);
      DivMod(a + 1, n, q, p + 1);
    } else {
      DivMod(p + 1, n, 1, 0);
      MulSucc(q, n);
      DivMod(a + 1, n, q + 1, 0);
    }
  }

  lemma MulSucc(q: int, n: int)
    ensures (q + 1) * n == q * n + n
  {
  }

  lemma NextPlayer(before: int, after: int, k: int, n: int)
    requires n > 0 && before == (k - 1) % n && after == (before + 1) % n
    ensures after == k % n
  {
    SuccMod(k - 1, n);
  }

  /** Turn `m` is played by player `(m - 1) % players`: the index advances by one each marble. */
  lemma {:induction false} PlayPlayer(players: nat, last: nat)
    requires players >= 1
    ensures Play(players, last).player == last % players
  {
    if last == 0 {
      DivMod(0, players, 0, 0);
    } else {
      PlayAdvances(players, last);
      PlayPlayer(players, last - 1);
      NextPlayer(Play(players, last - 1).player, Play(players, last).player, last, players);
    }
  }

  lemma PlayAdvances(players: nat, last: int)
    requires players >= 1 && last >= 1
    ensures Play(players, last).player == (Play(players, last - 1).player + 1) % players
  {
    PlayStep(players, last);
    TurnPlayer(Play(players, last - 1), last);
  }

  /** Positions in the sequence after inserting `m` after index `q`. */
  lemma InsertIndex(ms: seq<int>, q: nat, m: int, i: nat)
    requires q < |ms| && i <= |ms|
    ensures (ms[..q + 1] + [m] + ms[q + 1..])[i] == if i <= q then ms[i] else if i == q + 1 then m else ms[i - 1]
  {
  }

  /** Positions in the sequence after removing index `j`. */
  lemma RemoveIndex(ms: seq<int>, j: nat, i: nat)
    requires j < |ms| && i < |ms| - 1
    ensures (ms[..j] + ms[j + 1..])[i] == if i < j then ms[i] else ms[i + 1]
  {
  }

  /** The marble at index `q` appears nowhere else. */
  predicate Unique(ms: seq<int>, q: nat)
    requires q < |ms|
  {
    forall k :: 0 <= k < |ms| && k != q ==> ms[k] != ms[q]
  }

  lemma DistinctUnique(ms: seq<int>, q: nat)
    requires Distinct(ms) && q < |ms|
    ensures Unique(ms, q)
  {
    forall k | 0 <= k < |ms| && k != q
      ensures ms[k] != ms[q]
    {
      if k < q {
        assert ms[k] != ms[q];
      } else {
        assert ms[q] != ms[k];
      }
    }
  }

  lemma DistinctAt(ms: seq<int>, a: nat, b: nat)
    requires Distinct(ms) && a < |ms| && b < |ms| && a != b
    ensures ms[a] != ms[b]
  {
  }

  lemma InsertDistinct(ms: seq<int>, q: nat, m: int)
    requires q < |ms| && Distinct(ms) && m !in ms
    ensures Distinct(ms[..q + 1] + [m] + ms[q + 1..])
  {
    var s := ms[..q + 1] + [m] + ms[q + 1..];
    forall a, b | 0 <= a < b < |s|
      ensures s[a] != s[b]
    {
      InsertIndex(ms, q, m, a);
      InsertIndex(ms, q, m, b);
      if a != q + 1 && b != q + 1 {
        DistinctAt(ms, if a <= q then a else a - 1, if b <= q then b else b - 1);
      }
    }
  }

  lemma RemoveDistinct(ms: seq<int>, j: nat)
    requires j < |ms| && Distinct(ms)
    ensures Distinct(ms[..j] + ms[j + 1..])
  {
    var s := ms[..j] + ms[j + 1..];
    forall a, b | 0 <= a < b < |s|
      ensures s[a] != s[b]
    {
      RemoveIndex(ms, j, a);
      RemoveIndex(ms, j, b);
      DistinctAt(ms, if a < j then a else a + 1, if b < j then b else b + 1);
    }
  }

  /** The circle holds every marble placed so far, once, with values up to `last`. */
  ghost predicate Holds(r: Ring, last: int)
  {
    Distinct(r.marbles) && forall i :: 0 <= i < |r.marbles| ==> 0 <= r.marbles[i] <= last
  }

  lemma InsertHolds(r: Ring, m: int)
    requires Placed(r) && Holds(r, m - 1) && m >= 1
    ensures Holds(Insert(r, m), m)
  {
    var q := Next(|r.marbles|, r.current);
    InsertDistinct(r.marbles, q, m);
    forall i | 0 <= i < |r.marbles| + 1
      ensures 0 <= Insert(r, m).marbles[i] <= m
    {
      InsertIndex(r.marbles, q, m, i);
    }
  }

  lemma RemoveHolds(r: Ring, last: int)
    requires Placed(r) && Holds(r, last)
    ensures Holds(Remove(r), last)
  {
    var n := |r.marbles|;
    var j := BackBy(n, r.current, 7);
    if n > 1 {
      RemoveDistinct(r.marbles, j);
      forall i | 0 <= i < n - 1
        ensures 0 <= Remove(r).marbles[i] <= last
      {
        RemoveIndex(r.marbles, j, i);
      }
    }
  }

  /** The circle holds each of the marbles placed so far at most once. */
  lemma {:induction false} PlayHolds(players: nat, last: int)
    requires players >= 1
    ensures Holds(Play(players, last).ring, if last < 0 then 0 else last)
    decreases last
  {
    if last >= 1 {
      PlayHolds(players, last - 1);
      var g := Play(players, last - 1);
      if last % Scoring == 0 {
        RemoveHolds(g.ring, last - 1);
        var h := Remove(g.ring);
        assert forall i :: 0 <= i < |h.marbles| ==> 0 <= h.marbles[i] <= last;
      } else {
        InsertHolds(g.ring, last);
      }
    }
  }

  /** Each marble grows the circle by one, and each multiple of 23 shrinks it by one. */
  lemma {:induction false} PlaySize(players: nat, last: int)
    requires players >= 1 && last >= 0
    ensures |Play(players, last).ring.marbles| == 1 + last - 2 * (last / Scoring)
    decreases last
  {
    if last == 0 {
      DivMod(0, Scoring, 0, 0);
    } else {
      PlaySize(players, last - 1);
      var g := Play(players, last - 1);
      var q := (last - 1) / Scoring;
      var p := (last - 1) % Scoring;
      Euclid(last - 1, Scoring);
      if p + 1 == Scoring {
        DivMod(last, Scoring, q + 1, 0);
        assert |g.ring.marbles| >= 2;
        RemoveTaken(g.ring);
      } else {
        DivMod(last, Scoring, q, p + 1);
      }
    }
  }

  /** When a multiple of 23 comes up, the circle holds at least 23 marbles. */
  lemma ScoringSize(players: nat, m: int)
    requires players >= 1 && m >= 1 && m % Scoring == 0
    ensures |Play(players, m - 1).ring.marbles| >= Scoring
  {
    PlaySize(players, m - 1);
    ScoringCount(m);
  }

  /** Before a multiple of 23, more marbles have been placed than taken: `m - 2 * ((m - 1) / 23)`
      is at least 23. */
  lemma ScoringCount(m: int)
    requires m >= 1 && m % Scoring == 0
    ensures 1 + (m - 1) - 2 * ((m - 1) / Scoring) >= Scoring
  {
    Euclid(m, Scoring);
    var k := m / Scoring;
    assert m == 23 * k && k >= 1;
    DivMod(m - 1, Scoring, k - 1, Scoring - 1);
  }

  function Sum(s: seq<int>): int
  {
    if s == [] then 0 else Sum(s[..|s| - 1]) + s[|s| - 1]
  }

  lemma {:induction false} SumAppend(a: seq<int>, b: seq<int>)
    ensures Sum(a + b) == Sum(a) + Sum(b)
    decreases |b|
  {
    if b == [] {
      assert a + b == a;
    } else {
      SumAppend(a, b[..|b| - 1]);
      assert (a + b)[..|a + b| - 1] == a + b[..|b| - 1];
    }
  }

  lemma SumOne(x: int)
    ensures Sum([x]) == x
  {
    assert [x][..0] == [];
  }

  lemma SumUpdate(s: seq<int>, i: int, v: int)
    requires 0 <= i < |s|
    ensures Sum(s[i := v]) == Sum(s) - s[i] + v
  {
    var a, b := s[..i], s[i + 1..];
    SplitAt(s, i);
    SplitAt(s[i := v], i);
    SplitSum(s, a, s[i], b);
    SplitSum(s[i := v], a, v, b);
  }

  /** The sum of a sequence split round one element. */
  lemma SplitSum(s: seq<int>, a: seq<int>, x: int, b: seq<int>)
    requires s == a + ([x] + b)
    ensures Sum(s) == Sum(a) + x + Sum(b)
  {
    SumAppend(a, [x] + b);
    SumAppend([x], b);
    SumOne(x);
  }

  lemma {:induction false} SumZeros(n: nat)
    ensures Sum(Zeros(n)) == 0
  {
    if n > 0 {
      assert Zeros(n)[..n - 1] == Zeros(n - 1);
      SumZeros(n - 1);
    }
  }

  lemma InsertSum(ms: seq<int>, q: nat, m: int)
    requires q < |ms|
    ensures Sum(ms[..q + 1] + [m] + ms[q + 1..]) == Sum(ms) + m
  {
    assert ms == ms[..q + 1] + ms[q + 1..];
    SumAppend(ms[..q + 1] + [m], ms[q + 1..]);
    SumAppend(ms[..q + 1], [m]);
    SumAppend(ms[..q + 1], ms[q + 1..]);
    SumOne(m);
  }

  lemma RemoveSum(ms: seq<int>, j: nat)
    requires j < |ms|
    ensures Sum(ms[..j] + ms[j + 1..]) + ms[j] == Sum(ms)
  {
    SplitAt(ms, j);
    SplitSum(ms, ms[..j], ms[j], ms[j + 1..]);
    SumAppend(ms[..j], ms[j + 1..]);
  }

  lemma SplitAt(s: seq<int>, i: nat)
    requires i < |s|
    ensures s == s[..i] + ([s[i]] + s[i + 1..])
  {
  }

  /** A turn moves value between the circle and the scores and adds the new marble's. */
  lemma TurnConserves(g: Game, m: int)
    requires Ready(g) && (m % Scoring == 0 ==> |g.ring.marbles| >= 2)
    ensures Sum(Turn(g, m).scores) + Sum(Turn(g, m).ring.marbles) == Sum(g.scores) + Sum(g.ring.marbles) + m
  {
    var ms := g.ring.marbles;
    var n := |ms|;
    if m % Scoring == 0 {
      var j := BackBy(n, g.ring.current, 7);
      RemoveSum(ms, j);
      SumUpdate(g.scores, g.player, g.scores[g.player] + m + ms[j]);
      assert Turn(g, m).ring.marbles == ms[..j] + ms[j + 1..];
      assert Turn(g, m).scores == g.scores[g.player := g.scores[g.player] + m + ms[j]];
    } else {
      var q := Next(n, g.ring.current);
      InsertSum(ms, q, m);
      assert Turn(g, m).ring.marbles == ms[..q + 1] + [m] + ms[q + 1..];
      assert Turn(g, m).scores == g.scores;
    }
  }

  /** `0 + 1 + ... + n`. */
  function Triangle(n: nat): nat
  {
    if n == 0 then 0 else Triangle(n - 1) + n
  }

  lemma {:induction false} TriangleClosed(n: nat)
    ensures 2 * Triangle(n) == n * (n + 1)
  {
    if n > 0 {
      TriangleClosed(n - 1);
    }
  }

  /** No marble is lost: the scores and the circle together hold `0 + 1 + ... + last`. */
  lemma {:induction false} PlayConserves(players: nat, last: nat)
    requires players >= 1
    ensures Sum(Play(players, last).scores) + Sum(Play(players, last).ring.marbles) == Triangle(last)
    decreases last
  {
    if last == 0 {
      SumZeros(players);
      SumOne(0);
    } else {
      PlayConserves(players, last - 1);
      var g := Play(players, last - 1);
      if last % Scoring == 0 {
        ScoringSize(players, last);
      }
      TurnConserves(g, last);
    }
  }

  /** Only a multiple of 23 scores, and only for the player whose turn it is, by the marble's
      value plus the taken marble's. */
  lemma TurnScores(g: Game, m: int, i: int)
    requires Ready(g) && 0 <= i < |g.scores|
    ensures Turn(g, m).scores[i] ==
      g.scores[i] + (if m % Scoring == 0 && i == g.player then m + Taken(g.ring) else 0)
  {
  }

  // The program's linked circle.

  /** Each marble's `cw` link is the next marble clockwise. */
  ghost predicate ClockwiseLinked(marbles: seq<int>, cws: seq<int>)
  {
    forall i :: 0 <= i < |marbles| ==> 0 <= marbles[i] < |cws| && cws[marbles[i]] == marbles[Next(|marbles|, i)]
  }

  /** Each marble's `ccw` link is the next marble counter-clockwise. */
  ghost predicate CounterclockwiseLinked(marbles: seq<int>, ccws: seq<int>)
  {
    forall i :: 0 <= i < |marbles| ==> 0 <= marbles[i] < |ccws| && ccws[marbles[i]] == marbles[Prev(|marbles|, i)]
  }

  lemma InsertClockwiseAt(ms: seq<int>, q: nat, m: int, cws: seq<int>, s: seq<int>, c: seq<int>, i: nat)
    requires q < |ms| && Unique(ms, q) && ClockwiseLinked(ms, cws) && 0 <= m < |cws| && m !in ms
    requires s == ms[..q + 1] + [m] + ms[q + 1..] && c == cws[ms[q] := m][m := ms[Next(|ms|, q)]]
    requires i < |s|
    ensures 0 <= s[i] < |c| && c[s[i]] == s[Next(|s|, i)]
  {
    InsertIndex(ms, q, m, i);
    InsertIndex(ms, q, m, Next(|s|, i));
  }

  lemma InsertClockwise(ms: seq<int>, q: nat, m: int, cws: seq<int>)
    requires q < |ms| && Unique(ms, q) && ClockwiseLinked(ms, cws) && 0 <= m < |cws| && m !in ms
    ensures ClockwiseLinked(ms[..q + 1] + [m] + ms[q + 1..], cws[ms[q] := m][m := ms[Next(|ms|, q)]])
  {
    var s := ms[..q + 1] + [m] + ms[q + 1..];
    var c := cws[ms[q] := m][m := ms[Next(|ms|, q)]];
    forall i | 0 <= i < |s|
      ensures 0 <= s[i] < |c| && c[s[i]] == s[Next(|s|, i)]
    {
      InsertClockwiseAt(ms, q, m, cws, s, c, i);
    }
  }

  lemma InsertCounterclockwiseAt(ms: seq<int>, q: nat, m: int, ccws: seq<int>, s: seq<int>, c: seq<int>, i: nat)
    requires q < |ms| && Unique(ms, Next(|ms|, q)) && CounterclockwiseLinked(ms, ccws)
    requires 0 <= m < |ccws| && m !in ms
    requires s == ms[..q + 1] + [m] + ms[q + 1..] && c == ccws[m := ms[q]][ms[Next(|ms|, q)] := m]
    requires i < |s|
    ensures 0 <= s[i] < |c| && c[s[i]] == s[Prev(|s|, i)]
  {
    InsertIndex(ms, q, m, i);
    InsertIndex(ms, q, m, Prev(|s|, i));
  }

  lemma InsertCounterclockwise(ms: seq<int>, q: nat, m: int, ccws: seq<int>)
    requires q < |ms| && Unique(ms, Next(|ms|, q)) && CounterclockwiseLinked(ms, ccws)
    requires 0 <= m < |ccws| && m !in ms
    ensures CounterclockwiseLinked(ms[..q + 1] + [m] + ms[q + 1..], ccws[m := ms[q]][ms[Next(|ms|, q)] := m])
  {
    var s := ms[..q + 1] + [m] + ms[q + 1..];
    var c := ccws[m := ms[q]][ms[Next(|ms|, q)] := m];
    forall i | 0 <= i < |s|
      ensures 0 <= s[i] < |c| && c[s[i]] == s[Prev(|s|, i)]
    {
      InsertCounterclockwiseAt(ms, q, m, ccws, s, c, i);
    }
  }

  /** Rewiring the two neighbours around a new marble links the inserted circle (lines 78-85). */
  lemma InsertLinks(r: Ring, m: int, cws: seq<int>, ccws: seq<int>)
    requires Placed(r) && Distinct(r.marbles)
    requires ClockwiseLinked(r.marbles, cws) && CounterclockwiseLinked(r.marbles, ccws)
    requires 0 <= m < |cws| && m < |ccws| && m !in r.marbles
    ensures var n := |r.marbles|; var left := r.marbles[Next(n, r.current)];
      var right := r.marbles[Next(n, Next(n, r.current))]; var s := Insert(r, m).marbles;
      Distinct(s) && ClockwiseLinked(s, cws[left := m][m := right]) &&
      CounterclockwiseLinked(s, ccws[m := left][right := m])
  {
    var ms := r.marbles;
    var q := Next(|ms|, r.current);
    InsertDistinct(ms, q, m);
    DistinctUnique(ms, q);
    DistinctUnique(ms, Next(|ms|, q));
    InsertClockwise(ms, q, m, cws);
    InsertCounterclockwise(ms, q, m, ccws);
    assert Insert(r, m).marbles == ms[..q + 1] + [m] + ms[q + 1..];
  }

  lemma RemoveClockwiseAt(ms: seq<int>, j: nat, cws: seq<int>, s: seq<int>, c: seq<int>, i: nat)
    requires 2 <= |ms| && j < |ms| && Unique(ms, Prev(|ms|, j)) && ClockwiseLinked(ms, cws)
    requires s == ms[..j] + ms[j + 1..] && c == cws[ms[Prev(|ms|, j)] := ms[Next(|ms|, j)]]
    requires i < |s|
    ensures 0 <= s[i] < |c| && c[s[i]] == s[Next(|s|, i)]
  {
    RemoveIndex(ms, j, i);
    RemoveIndex(ms, j, Next(|s|, i));
  }

  lemma RemoveClockwise(ms: seq<int>, j: nat, cws: seq<int>)
    requires 2 <= |ms| && j < |ms| && Unique(ms, Prev(|ms|, j)) && ClockwiseLinked(ms, cws)
    ensures ClockwiseLinked(ms[..j] + ms[j + 1..], cws[ms[Prev(|ms|, j)] := ms[Next(|ms|, j)]])
  {
    var s := ms[..j] + ms[j + 1..];
    var c := cws[ms[Prev(|ms|, j)] := ms[Next(|ms|, j)]];
    forall i | 0 <= i < |s|
      ensures 0 <= s[i] < |c| && c[s[i]] == s[Next(|s|, i)]
    {
      RemoveClockwiseAt(ms, j, cws, s, c, i);
    }
  }

  lemma RemoveCounterclockwiseAt(ms: seq<int>, j: nat, ccws: seq<int>, s: seq<int>, c: seq<int>, i: nat)
    requires 2 <= |ms| && j < |ms| && Unique(ms, Next(|ms|, j)) && CounterclockwiseLinked(ms, ccws)
    requires s == ms[..j] + ms[j + 1..] && c == ccws[ms[Next(|ms|, j)] := ms[Prev(|ms|, j)]]
    requires i < |s|
    ensures 0 <= s[i] < |c| && c[s[i]] == s[Prev(|s|, i)]
  {
    RemoveIndex(ms, j, i);
    RemoveIndex(ms, j, Prev(|s|, i));
  }

  lemma RemoveCounterclockwise(ms: seq<int>, j: nat, ccws: seq<int>)
    requires 2 <= |ms| && j < |ms| && Unique(ms, Next(|ms|, j)) && CounterclockwiseLinked(ms, ccws)
    ensures CounterclockwiseLinked(ms[..j] + ms[j + 1..], ccws[ms[Next(|ms|, j)] := ms[Prev(|ms|, j)]])
  {
    var s := ms[..j] + ms[j + 1..];
    var c := ccws[ms[Next(|ms|, j)] := ms[Prev(|ms|, j)]];
    forall i | 0 <= i < |s|
      ensures 0 <= s[i] < |c| && c[s[i]] == s[Prev(|s|, i)]
    {
      RemoveCounterclockwiseAt(ms, j, ccws, s, c, i);
    }
  }

  /** Linking the neighbours of the taken marble to each other links the circle without it
      (lines 67-71). */
  lemma RemoveLinks(r: Ring, cws: seq<int>, ccws: seq<int>)
    requires Placed(r) && Distinct(r.marbles)
    requires ClockwiseLinked(r.marbles, cws) && CounterclockwiseLinked(r.marbles, ccws)
    ensures var n := |r.marbles|; var j := BackBy(n, r.current, 7);
      var left := r.marbles[Prev(n, j)]; var right := r.marbles[Next(n, j)]; var s := Remove(r).marbles;
      Distinct(s) && ClockwiseLinked(s, cws[left := right]) && CounterclockwiseLinked(s, ccws[right := left])
  {
    var ms := r.marbles;
    var n := |ms|;
    var j := BackBy(n, r.current, 7);
    if n == 1 {
      assert cws[ms[0] := ms[0]] == cws;
      assert ccws[ms[0] := ms[0]] == ccws;
    } else {
      RemoveDistinct(ms, j);
      DistinctUnique(ms, Prev(n, j));
      DistinctUnique(ms, Next(n, j));
      RemoveClockwise(ms, j, cws);
      RemoveCounterclockwise(ms, j, ccws);
      assert Remove(r).marbles == ms[..j] + ms[j + 1..];
    }
  }

  /** The links of a circle: a `cw` and a `ccw` entry for every marble, consistent with the
      clockwise order, and the current marble. */
  ghost predicate Wired(ring: Ring, cws: seq<int>, ccws: seq<int>, current: int)
  {
    |cws| == |ccws| && Placed(ring) && ring.marbles[ring.current] == current &&
    Distinct(ring.marbles) && ClockwiseLinked(ring.marbles, cws) && CounterclockwiseLinked(ring.marbles, ccws)
  }

  /** Unlinking the taken marble and making its clockwise neighbour current wires the circle
      without it (lines 66-74). */
  lemma TakeRewires(r: Ring, cws: seq<int>, ccws: seq<int>, current: int, t: int)
    requires Wired(r, cws, ccws, current) && t == Taken(r)
    ensures 0 <= t < |cws| && 0 <= ccws[t] < |cws| && 0 <= cws[t] < |ccws|
    ensures Wired(Remove(r), cws[ccws[t] := cws[t]], ccws[cws[t] := ccws[t]], cws[t])
  {
    var n := |r.marbles|;
    var j := BackBy(n, r.current, 7);
    assert Taken(r) == r.marbles[j];
    assert ccws[r.marbles[j]] == r.marbles[Prev(n, j)] && cws[r.marbles[j]] == r.marbles[Next(n, j)];
    RemoveLinks(r, cws, ccws);
    RemoveCurrent(r);
  }

  /** Following `ccw` from the marble `k` places counter-clockwise reaches the one `k + 1` places. */
  lemma CounterclockwiseStep(r: Ring, ccws: seq<int>, k: nat)
    requires Placed(r) && CounterclockwiseLinked(r.marbles, ccws)
    ensures var n := |r.marbles|;
      ccws[r.marbles[BackBy(n, r.current, k)]] == r.marbles[BackBy(n, r.current, k + 1)]
  {
  }

  /** `.ccw` seven times from the current marble reaches the taken marble (line 66). */
  lemma CounterclockwiseSeven(r: Ring, ccws: seq<int>)
    requires Placed(r) && CounterclockwiseLinked(r.marbles, ccws)
    ensures var c := r.marbles[r.current];
      0 <= c < |ccws| && 0 <= ccws[c] < |ccws| && 0 <= ccws[ccws[c]] < |ccws| && 0 <= ccws[ccws[ccws[c]]] < |ccws| &&
      0 <= ccws[ccws[ccws[ccws[c]]]] < |ccws| && 0 <= ccws[ccws[ccws[ccws[ccws[c]]]]] < |ccws| && 0 <= ccws[ccws[ccws[ccws[ccws[ccws[c]]]]]] < |ccws| &&
      ccws[ccws[ccws[ccws[ccws[ccws[ccws[c]]]]]]] == Taken(r)
  {
    var n := |r.marbles|;
    var b0 := r.marbles[BackBy(n, r.current, 0)];
    CounterclockwiseStep(r, ccws, 0);
    var b1 := r.marbles[BackBy(n, r.current, 1)];
    CounterclockwiseStep(r, ccws, 1);
    var b2 := r.marbles[BackBy(n, r.current, 2)];
    CounterclockwiseStep(r, ccws, 2);
    var b3 := r.marbles[BackBy(n, r.current, 3)];
    CounterclockwiseStep(r, ccws, 3);
    var b4 := r.marbles[BackBy(n, r.current, 4)];
    CounterclockwiseStep(r, ccws, 4);
    var b5 := r.marbles[BackBy(n, r.current, 5)];
    CounterclockwiseStep(r, ccws, 5);
    var b6 := r.marbles[BackBy(n, r.current, 6)];
    CounterclockwiseStep(r, ccws, 6);
    assert r.marbles[r.current] == b0 && ccws[b0] == b1 && ccws[b1] == b2 && ccws[b2] == b3;
    assert ccws[b3] == b4 && ccws[b4] == b5 && ccws[b5] == b6 && ccws[b6] == Taken(r);
  }

  /** The circle of linked marbles, indexed by value: `cw[v]` and `ccw[v]` are the marbles
      clockwise and counter-clockwise of marble `v` (lines 3-12). */
  class Circle {
    var cw: seq<int>
    var ccw: seq<int>
    var current: int
    /** The marbles in the circle, read clockwise. */
    ghost var ring: Ring

    ghost predicate Valid()
      reads this
    {
      Wired(ring, cw, ccw, current)
    }

    /** Marble 0 linked to itself (lines 57-59), with room for the marbles below `size`. */
    constructor(size: nat)
      requires size >= 1
      ensures Valid() && ring == Ring([0], 0) && |cw| == size
    {
      cw := seq(size, _ => 0);
      ccw := seq(size, _ => 0);
      current := 0;
      ring := Ring([0], 0);
    }

    /** Place marble `m` (lines 76-87). */
    method Place(m: int)
      requires Valid() && 0 <= m < |cw| && m !in ring.marbles
      modifies this
      ensures Valid() && ring == Insert(old(ring), m) && |cw| == |old(cw)|
    {
      ghost var n := |ring.marbles|;
      var left := cw[current];
      var right := cw[left];
      assert left == ring.marbles[Next(n, ring.current)];
      InsertLinks(ring, m, cw, ccw);
      cw := cw[left := m];
      ccw := ccw[m := left];
      ccw := ccw[right := m];
      cw := cw[m := right];
      current := m;
      ring := Insert(ring, m);
    }

    /** The marble seven places counter-clockwise of the current one (line 66). */
    method SevenBack() returns (other: int)
      requires Valid()
      ensures other == Taken(ring)
    {
      CounterclockwiseSeven(ring, ccw);
      other := ccw[ccw[ccw[ccw[ccw[ccw[ccw[current]]]]]]];
    }

    /** Take the marble seven places counter-clockwise, link its neighbours to each other and make
      the clockwise one current (lines 66-74). */
    method Take() returns (value: int)
      requires Valid()
      modifies this
      ensures Valid() && value == Taken(old(ring)) && ring == Remove(old(ring)) && |cw| == |old(cw)|
    {
      ghost var r0 := ring;
      var other := SevenBack();
      TakeRewires(r0, cw, ccw, current, other);
      var otherLeft := ccw[other];
      var otherRight := cw[other];
      cw, ccw, current, ring := cw[otherLeft := otherRight], ccw[otherRight := otherLeft], otherRight, Remove(r0);
      value := other;
    }
  }

  lemma PlayStep(players: nat, m: int)
    requires players >= 1 && m >= 1
    ensures Play(players, m) == Turn(Play(players, m - 1), m)
  {
  }

  lemma TurnScoring(g: Game, m: int)
    requires Ready(g) && m % Scoring == 0
    ensures Turn(g, m).ring == Remove(g.ring)
    ensures Turn(g, m).scores == g.scores[g.player := g.scores[g.player] + m + Taken(g.ring)]
  {
  }

  lemma TurnPlacing(g: Game, m: int)
    requires Ready(g) && m % Scoring != 0
    ensures Turn(g, m).ring == Insert(g.ring, m) && Turn(g, m).scores == g.scores
  {
  }

  /** Once the marbles run out, the game is the game up to the last marble. */
  lemma PlayOver(players: nat, next: int, last: int)
    requires players >= 1 && 1 <= next <= (if last < 1 then 1 else last + 1) && next > last
    ensures Play(players, next - 1) == Play(players, last)
  {
    if last < 1 {
      assert next == 1;
      assert Play(players, 0) == Game(Ring([0], 0), Zeros(players), 0);
      assert Play(players, last) == Game(Ring([0], 0), Zeros(players), 0);
    } else {
      assert next - 1 == last;
    }
  }

  /** The largest score (line 97). */
  method Maximum(a: array<int>) returns (m: int)
    requires a.Length >= 1
    ensures m == Max(a[..])
  {
    m := a[0];
    var k := 1;
    assert a[..1] == [a[0]];
    while k < a.Length
      invariant 1 <= k <= a.Length && m == Max(a[..k])
    {
      assert a[..k + 1][..k] == a[..k];
      if a[k] > m {
        m := a[k];
      }
      k := k + 1;
    }
    assert a[..k] == a[..];
  }

  /** One marble's turn on the linked circle (lines 63-88). */
  method PlayMarble(circle: Circle, scores: array<int>, playerIndex: nat, marbleIndex: int, ghost game: Game)
    requires circle.Valid() && Ready(game) && Holds(game.ring, marbleIndex - 1) && marbleIndex >= 1
    requires marbleIndex < |circle.cw|
    requires circle.ring == game.ring && scores[..] == game.scores && playerIndex == game.player
    modifies circle, scores
    ensures circle.Valid() && |circle.cw| == old(|circle.cw|)
    ensures circle.ring == Turn(game, marbleIndex).ring && scores[..] == Turn(game, marbleIndex).scores
  {
    if marbleIndex % Scoring == 0 {
      scores[playerIndex] := scores[playerIndex] + marbleIndex;
      ghost var scored := scores[..];
      var other := circle.Take();
      assert scores[..] == scored;
      scores[playerIndex] := scores[playerIndex] + other;
      TurnScoring(game, marbleIndex);
    } else {
      circle.Place(marbleIndex);
      TurnPlacing(game, marbleIndex);
    }
  }

  /** The game (lines 51-98). */
  method Run(players: int, lastMarble: int) returns (r: Option<int>)
    ensures r == HighScore(players, lastMarble)
  {
    if players < 1 {
      return None;
    }
    var scores := new int[players](_ => 0);
    var marbleIndex := 1;
    var playerIndex: nat := 0;
    var circle := new Circle(if lastMarble < 0 then 1 else lastMarble + 1);
    ghost var game := Play(players, 0);
    assert scores[..] == Zeros(players);
    while marbleIndex <= lastMarble
      invariant 1 <= marbleIndex <= if lastMarble < 1 then 1 else lastMarble + 1
      invariant circle.Valid() && |circle.cw| == if lastMarble < 0 then 1 else lastMarble + 1
      invariant scores.Length == players && game == Play(players, marbleIndex - 1)
      invariant circle.ring == game.ring && scores[..] == game.scores && playerIndex == game.player
      decreases lastMarble - marbleIndex
    {
      PlayHolds(players, marbleIndex - 1);
      PlayStep(players, marbleIndex);
      PlayMarble(circle, scores, playerIndex, marbleIndex, game);
      playerIndex := (playerIndex + 1) % players;
      game := Turn(game, marbleIndex);
      marbleIndex := marbleIndex + 1;
    }
    PlayOver(players, marbleIndex, lastMarble);
    var best := Maximum(scores);
    return Some(best);
  }
}
