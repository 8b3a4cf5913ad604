/**
 * Day 14: the recipe scoreboard. Two elves stand on an append-only list of
 * single-digit scores; each step appends the digits of the sum of their two
 * scores and moves each elf forward by one plus its own score, wrapping
 * around. Part 1 reads the ten scores after a given count, part 2 searches
 * the growing list for a pattern of digits.
 */
module Recipes {
  import opened Wrappers

  /** A score: every score on the board is a single decimal digit. */
  type Digit = d: nat | d <= 9

  /** The scoreboard's state: the scores and the two elves' positions. */
  datatype Board = Board(scores: seq<Digit>, elf1: int, elf2: int)

  /** Both elves stand on a score. */
  predicate Consistent(b: Board)
  {
    0 <= b.elf1 < |b.scores| && 0 <= b.elf2 < |b.scores|
  }

  /** The board `init` and `reset` set up. */
  const Initial: Board := Board([3, 7], 0, 1)

  /** The digits a step appends for the sum of two scores: the tens digit when it is not zero, then
      the ones digit. */
  function NewDigits(sum: nat): (r: seq<Digit>)
    requires sum <= 18
    ensures 1 <= |r| <= 2
  {
    if sum / 10 != 0 then [sum / 10, sum % 10] else [sum % 10]
  }

  /** A list of digits read as a decimal number, most significant first (the `reduce` of `finalScore`). */
  function Decimal(ds: seq<Digit>): nat
  {
    if ds == [] then 0 else Decimal(ds[..|ds| - 1]) * 10 + ds[|ds| - 1]
  }

  /** The last `k` decimal digits of `n`, most significant first. */
  function DigitsOf(n: nat, k: nat): seq<Digit>
  {
    if k == 0 then [] else DigitsOf(n / 10, k - 1) + [n % 10]
  }

  function Pow10(k: nat): nat
  {
    if k == 0 then 1 else 10 * Pow10(k - 1)
  }

  /** Reading digits as a number and writing the number back with as many digits gives the digits:
      `finalScore`'s number says exactly which ten scores follow. */
  lemma {:induction false} DecimalRoundTrip(ds: seq<Digit>)
    ensures Decimal(ds) < Pow10(|ds|)
    ensures DigitsOf(Decimal(ds), |ds|) == ds
    decreases |ds|
  {
    if ds != [] {
      var init := ds[..|ds| - 1];
      DecimalRoundTrip(init);
      var n := Decimal(init);
      assert (n * 10 + ds[|ds| - 1]) / 10 == n;
      assert (n * 10 + ds[|ds| - 1]) % 10 == ds[|ds| - 1];
      assert ds == init + [ds[|ds| - 1]];
    }
  }

  /** The digits a step appends spell the sum of the two scores, with no leading zero. */
  lemma NewDigitsSpellSum(sum: nat)
    requires sum <= 18
    ensures Decimal(NewDigits(sum)) == sum
    ensures |NewDigits(sum)| == 2 <==> sum >= 10
  {
    var r := NewDigits(sum);
    assert r[..|r| - 1] == if sum >= 10 then [1] else [];
    if sum >= 10 {
      assert [1 as Digit][..0] == [];
    }
  }

  /** One `step`: append the digits of the two current scores' sum, then move each elf forward by one
      plus its score, modulo the new count. */
  function Next(b: Board): (r: Board)
    requires Consistent(b)
    ensures Consistent(r)
  {
    var scores := b.scores + NewDigits(b.scores[b.elf1] as nat + b.scores[b.elf2]);
    Board(scores, (b.elf1 + scores[b.elf1] + 1) % |scores|, (b.elf2 + scores[b.elf2] + 1) % |scores|)
  }

  /** A step keeps every existing score and appends one or two: exactly the digits of the sum. */
  lemma NextAppends(b: Board)
    requires Consistent(b)
    ensures b.scores < Next(b).scores && |Next(b).scores| <= |b.scores| + 2
    ensures Next(b).scores[|b.scores|..] == NewDigits(b.scores[b.elf1] as nat + b.scores[b.elf2])
  {
    var d := NewDigits(b.scores[b.elf1] as nat + b.scores[b.elf2]);
    assert Next(b).scores == b.scores + d;
    assert (b.scores + d)[|b.scores|..] == d;
  }

  /** `Next` on every board; a board with an elf off the scores is left as it is. On a board with both
      elves on a score it keeps them there and appends at least one score. */
  function Turn(b: Board): (r: Board)
    ensures Consistent(b) ==> Consistent(r) && b.scores < r.scores
  {
    if Consistent(b) then NextAppends(b); Next(b) else b
  }

  /** `f` applied `k` times. */
  function Repeat(f: Board -> Board, b: Board, k: nat): Board
  {
    if k == 0 then b else f(Repeat(f, b, k - 1))
  }

  /** Applying `f` once before `k` more applications is applying it `k + 1` times. */
  lemma {:induction false} RepeatShift(f: Board -> Board, b: Board, k: nat)
    ensures Repeat(f, f(b), k) == Repeat(f, b, k + 1)
    decreases k
  {
    if k > 0 {
      RepeatShift(f, b, k - 1);
    }
  }

  /** Turns keep both elves on a score. */
  lemma {:induction false} RepeatTurnConsistent(b: Board, k: nat)
    requires Consistent(b)
    ensures Consistent(Repeat(Turn, b, k))
    decreases k
  {
    if k > 0 {
      RepeatTurnConsistent(b, k - 1);
    }
  }

  /** The board after `k` steps. */
  function Iterate(b: Board, k: nat): (r: Board)
    requires Consistent(b)
    ensures Consistent(r)
  {
    RepeatTurnConsistent(b, k);
    Repeat(Turn, b, k)
  }

  /** The board after `k + 1` steps is one step past the board after `k`. */
  lemma IterateLast(b: Board, k: nat)
    requires Consistent(b)
    ensures Iterate(b, k + 1) == Next(Iterate(b, k))
  {
  }

  /** Stepping once and then `k` times is stepping `k + 1` times. */
  lemma IterateShift(b: Board, k: nat)
    requires Consistent(b)
    ensures Iterate(Next(b), k) == Iterate(b, k + 1)
  {
    RepeatShift(Turn, b, k);
  }

  /** `f` keeps the elves on the board and appends at least one score. */
  ghost predicate Appends(f: Board -> Board)
  {
    forall x :: Consistent(x) ==> Consistent(f(x)) && x.scores < f(x).scores
  }

  /** Repeating a function that appends only ever appends, at least one score per application. */
  lemma {:induction false} RepeatAppends(f: Board -> Board, b: Board, k: nat)
    requires Appends(f) && Consistent(b)
    ensures Consistent(Repeat(f, b, k))
    ensures b.scores <= Repeat(f, b, k).scores && |Repeat(f, b, k).scores| >= |b.scores| + k
    decreases k
  {
    if k > 0 {
      RepeatAppends(f, b, k - 1);
    }
  }

  lemma TurnAppends()
    ensures Appends(Turn)
  {
  }

  /** Steps only append: the scores of a board are a prefix of the scores `k` steps later, and each
      step adds at least one score. */
  lemma IterateGrows(b: Board, k: nat)
    requires Consistent(b)
    ensures b.scores <= Iterate(b, k).scores && |Iterate(b, k).scores| >= |b.scores| + k
  {
    TurnAppends();
    RepeatAppends(Turn, b, k);
  }

  /** `finalScore`: 0 while fewer than `after + 10` scores exist, otherwise the ten scores from
      `after` on read as one decimal number, so that its ten digits are exactly those scores. */
  function FinalScore(scores: seq<Digit>, after: int): (r: nat)
    requires after >= 0 || |scores| < after + 10
    ensures r < Pow10(10)
    ensures |scores| >= after + 10 ==> DigitsOf(r, 10) == scores[after..after + 10]
    ensures |scores| < after + 10 ==> r == 0
  {
    if |scores| < after + 10 then 0
    else
      var final := scores[after..after + 10];
      DecimalRoundTrip(final);
      Decimal(final)
  }

  /** Whether `pattern` lies in `scores` starting at `j`. */
  predicate At(scores: seq<Digit>, pattern: seq<int>, j: int)
  {
    0 <= j && j + |pattern| <= |scores| && scores[j..j + |pattern|] == pattern
  }

  /** Whether a window lies in a prefix does not depend on what follows the prefix. */
  lemma AtPrefix(s: seq<Digit>, t: seq<Digit>, pattern: seq<int>, j: int)
    requires s <= t && 0 <= j && j + |pattern| <= |s|
    ensures At(t, pattern, j) == At(s, pattern, j)
  {
    assert t[j..j + |pattern|] == s[j..j + |pattern|];
  }

  /** The first start in `[lo, hi)` where `pattern` lies in `scores`. */
  function WindowHit(scores: seq<Digit>, pattern: seq<int>, lo: int, hi: int): (r: Option<int>)
    requires 0 <= lo && hi + |pattern| <= |scores|
    ensures r.Some? ==> lo <= r.value < hi
    decreases hi - lo
  {
    if lo >= hi then None
    else if scores[lo..lo + |pattern|] == pattern then Some(lo)
    else WindowHit(scores, pattern, lo + 1, hi)
  }

  /** `WindowHit` finds a window that holds the pattern and none before it; finding nothing means no
      window in the range holds it. */
  lemma {:induction false} WindowHitFirst(scores: seq<Digit>, pattern: seq<int>, lo: int, hi: int)
    requires 0 <= lo && hi + |pattern| <= |scores|
    ensures var r := WindowHit(scores, pattern, lo, hi);
      && (r.Some? ==> At(scores, pattern, r.value))
      && (r.Some? ==> forall j :: lo <= j < r.value ==> !At(scores, pattern, j))
      && (r.None? ==> forall j :: lo <= j < hi ==> !At(scores, pattern, j))
    decreases hi - lo
  {
    if lo < hi && scores[lo..lo + |pattern|] != pattern {
      WindowHitFirst(scores, pattern, lo + 1, hi);
    }
  }

  /** The check at the top of `recipes`' loop: once there are `|pattern| + 3` scores, the three windows
      whose starts are `count - |pattern| - 3` up to, but not including, `count - |pattern|`. */
  function Check(b: Board, pattern: seq<int>): (r: Option<int>)
    ensures r.Some? ==> |b.scores| - |pattern| - 3 <= r.value < |b.scores| - |pattern|
    ensures r.Some? ==> At(b.scores, pattern, r.value)
    ensures r.None? && |b.scores| >= |pattern| + 3 ==>
      forall j :: |b.scores| - |pattern| - 3 <= j < |b.scores| - |pattern| ==> !At(b.scores, pattern, j)
  {
    var count := |b.scores|;
    if count >= |pattern| + 3 then
      WindowHitFirst(b.scores, pattern, count - |pattern| - 3, count - |pattern|);
      WindowHit(b.scores, pattern, count - |pattern| - 3, count - |pattern|)
    else None
  }

  /** `recipes(pattern:)` with at most `fuel` steps: check, then step, until a check succeeds. */
  function Search(b: Board, pattern: seq<int>, fuel: nat): (r: Option<int>)
    requires Consistent(b)
    ensures r.Some? ==> r.value >= |b.scores| - |pattern| - 3
    decreases fuel
  {
    match Check(b, pattern)
    case Some(i) => Some(i)
    case None => if fuel == 0 then None else NextAppends(b); Search(Next(b), pattern, fuel - 1)
  }

  /** One round of `recipes`: a check that finds nothing, then a step. */
  lemma SearchStep(b: Board, pattern: seq<int>, fuel: nat)
    requires Consistent(b) && Check(b, pattern).None? && fuel > 0
    ensures Search(b, pattern, fuel) == Search(Next(b), pattern, fuel - 1)
  {
  }

  /** No window of `pattern` starting below `n` lies in `scores`. */
  predicate NoneBefore(scores: seq<Digit>, pattern: seq<int>, n: int)
  {
    forall j :: 0 <= j < n ==> !At(scores, pattern, j)
  }

  function Max0(x: int): nat
  {
    if x < 0 then 0 else x
  }

  /** The check as evidently intended: as soon as a window fits, look at the windows from
      `max(0, count - |pattern| - 3)`, so that the windows starting at 0 are not skipped. */
  function CheckFixed(b: Board, pattern: seq<int>): Option<int>
  {
    var count := |b.scores|;
    if count > |pattern| then WindowHit(b.scores, pattern, Max0(count - |pattern| - 3), count - |pattern|)
    else None
  }

  function SearchFixed(b: Board, pattern: seq<int>, fuel: nat): Option<int>
    requires Consistent(b)
    decreases fuel
  {
    match CheckFixed(b, pattern)
    case Some(i) => Some(i)
    case None => if fuel == 0 then None else SearchFixed(Next(b), pattern, fuel - 1)
  }

  /** A failed intended check leaves no window below the next board's first checked start: each step
      appends at most two scores, so the checked ranges of consecutive boards leave no gap. */
  lemma NoneBeforeNext(b: Board, pattern: seq<int>)
    requires Consistent(b) && CheckFixed(b, pattern).None?
    requires NoneBefore(b.scores, pattern, |b.scores| - |pattern| - 3)
    ensures NoneBefore(Next(b).scores, pattern, |Next(b).scores| - |pattern| - 3)
  {
    var c := |b.scores|;
    var s := Next(b).scores;
    NextAppends(b);
    if c > |pattern| {
      WindowHitFirst(b.scores, pattern, Max0(c - |pattern| - 3), c - |pattern|);
    }
    forall j | 0 <= j < |s| - |pattern| - 3
      ensures !At(s, pattern, j)
    {
      AtPrefix(b.scores, s, pattern, j);
    }
  }

  /** A successful intended check finds the first occurrence when none lies below its range. */
  lemma CheckFixedFirst(b: Board, pattern: seq<int>)
    requires NoneBefore(b.scores, pattern, |b.scores| - |pattern| - 3) && CheckFixed(b, pattern).Some?
    ensures At(b.scores, pattern, CheckFixed(b, pattern).value)
    ensures NoneBefore(b.scores, pattern, CheckFixed(b, pattern).value)
  {
    var c := |b.scores|;
    WindowHitFirst(b.scores, pattern, Max0(c - |pattern| - 3), c - |pattern|);
  }

  /** The board on which the intended search stops. */
  function SearchFixedBoard(b: Board, pattern: seq<int>, fuel: nat): (r: Board)
    requires Consistent(b)
    ensures Consistent(r)
    decreases fuel
  {
    if CheckFixed(b, pattern).Some? || fuel == 0 then b else SearchFixedBoard(Next(b), pattern, fuel - 1)
  }

  /** With the intended check the search returns the first occurrence of the pattern: it lies in the
      scores of the board the search stops on, and no earlier start holds it. Starting from the
      initial board the hypothesis holds trivially. */
  lemma {:induction false} SearchFixedFirst(b: Board, pattern: seq<int>, fuel: nat)
    requires Consistent(b) && NoneBefore(b.scores, pattern, |b.scores| - |pattern| - 3)
    ensures SearchFixed(b, pattern, fuel).Some? ==>
      At(SearchFixedBoard(b, pattern, fuel).scores, pattern, SearchFixed(b, pattern, fuel).value) &&
      NoneBefore(SearchFixedBoard(b, pattern, fuel).scores, pattern, SearchFixed(b, pattern, fuel).value)
    decreases fuel
  {
    if CheckFixed(b, pattern).Some? {
      CheckFixedFirst(b, pattern);
    } else if fuel > 0 {
      NoneBeforeNext(b, pattern);
      SearchFixedFirst(Next(b), pattern, fuel - 1);
    }
  }

  /** The first two steps from the initial board. */
  lemma FirstTwoSteps()
    ensures Next(Initial) == Board([3, 7, 1, 0], 0, 1)
    ensures Next(Board([3, 7, 1, 0], 0, 1)) == Board([3, 7, 1, 0, 1, 0], 4, 3)
  {
  }

  /** One more failed check extends the run of failed checks. */
  lemma MissesExtend(start: Board, pattern: seq<int>, n: nat)
    requires Consistent(start) && Check(Iterate(start, n), pattern).None?
    requires forall k :: 0 <= k < n ==> Check(Iterate(start, k), pattern).None?
    ensures forall k :: 0 <= k < n + 1 ==> Check(Iterate(start, k), pattern).None?
  {
  }

  /** When the checks on the first `n` boards all find nothing, the search is the search from the
      board `n` steps on, with `n` steps less. */
  lemma {:induction false} SearchSkip(start: Board, pattern: seq<int>, fuel: nat, n: nat)
    requires Consistent(start) && n <= fuel
    requires forall k :: 0 <= k < n ==> Check(Iterate(start, k), pattern).None?
    ensures Search(start, pattern, fuel) == Search(Iterate(start, n), pattern, fuel - n)
    decreases n
  {
    if n > 0 {
      var m := n - 1;
      SearchSkip(start, pattern, fuel, m);
      IterateLast(start, m);
      SearchStep(Iterate(start, m), pattern, fuel - m);
      assert m + 1 == n && fuel - m - 1 == fuel - n;
    }
  }

  /** The gap in the check as written: when a step takes the count from `|pattern| + 2` straight to
      `|pattern| + 4`, the window at 0 is never checked, so `recipes` never answers 0. */
  lemma {:induction false} SearchSkipsZero(b: Board, pattern: seq<int>, fuel: nat)
    requires Consistent(b) && |b.scores| == |pattern| + 2 && |Next(b).scores| == |pattern| + 4
    ensures Search(b, pattern, fuel) != Some(0)
  {
    if fuel > 0 {
      SearchStep(b, pattern, fuel);
    }
  }

  /** The same gap one step later. */
  lemma SearchSkipsZeroLater(b: Board, pattern: seq<int>, fuel: nat)
    requires Consistent(b) && |b.scores| < |pattern| + 3
    requires |Next(b).scores| == |pattern| + 2 && |Next(Next(b)).scores| == |pattern| + 4
    ensures Search(b, pattern, fuel) != Some(0)
  {
    if fuel > 0 {
      SearchStep(b, pattern, fuel);
      SearchSkipsZero(Next(b), pattern, fuel - 1);
    }
  }

  /** The scoreboard starts with two scores, four after one step and six after two. */
  lemma FirstCounts()
    ensures |Next(Initial).scores| == 4 && |Next(Next(Initial)).scores| == 6
  {
    FirstTwoSteps();
  }

  /** The check as written skips the start 0 on the first boards: the pattern 3, 7 lies at the very
      start of every scoreboard, yet `recipes` never answers 0 for it. */
  lemma SearchSkipsStart(fuel: nat)
    ensures At(Initial.scores, [3, 7], 0)
    ensures Search(Initial, [3, 7], fuel) != Some(0)
  {
    assert Initial.scores[0..2] == [3, 7];
    FirstCounts();
    SearchSkipsZeroLater(Initial, [3, 7], fuel);
  }

  /** The intended check answers 0 for the pattern 3, 7 after one step. */
  lemma SearchFixedFindsStart(fuel: nat)
    ensures fuel >= 1 ==> SearchFixed(Initial, [3, 7], fuel) == Some(0)
  {
    FirstTwoSteps();
    var b1 := Board([3, 7, 1, 0], 0, 1);
    assert b1.scores[0..2] == [3, 7];
    assert CheckFixed(b1, [3, 7]) == Some(0);
  }

  /** The scoreboard class: the scores and the two elves, updated in place, with a step counter. */
  class ScoreBoard {
    var scores: seq<Digit>
    var elf1: int
    var elf2: int
    var steps: int

    predicate Valid()
      reads this
    {
      Consistent(State()) && steps >= 0
    }

    function State(): Board
      reads this
    {
      Board(scores, elf1, elf2)
    }

    constructor ()
      ensures Valid() && State() == Initial && steps == 0
    {
      scores := [3, 7];
      elf1 := 0;
      elf2 := 1;
      steps := 0;
    }

    /** `reset`: back to the two initial scores with the elves on them. */
    method Reset()
      modifies this
      ensures Valid() && State() == Initial && steps == 0
    {
      scores := [3, 7];
      elf1 := 0;
      elf2 := 1;
      steps := 0;
    }

    /** `step`: append the new digits, then move both elves; the counter grows by one. */
    method Step()
      requires Valid()
      modifies this
      ensures Valid() && State() == Next(old(State())) && steps == old(steps) + 1
    {
      var result: nat := scores[elf1] as nat + scores[elf2];
      var tens := result / 10;
      var ones := result % 10;
      if tens != 0 {
        scores := scores + [tens];
      }
      scores := scores + [ones];
      assert scores == old(scores) + NewDigits(result);
      elf1 := (elf1 + scores[elf1] + 1) % |scores|;
      elf2 := (elf2 + scores[elf2] + 1) % |scores|;
      steps := steps + 1;
    }

    /** `step(until:)`: step until there are at least `until + 10` scores, and not once more. */
    method StepUntil(until: int) returns (ghost n: nat)
      requires Valid()
      modifies this
      ensures Valid() && steps == old(steps) + n
      ensures State() == Iterate(old(State()), n)
      ensures |scores| >= until + 10
      ensures forall k :: 0 <= k < n ==> |Iterate(old(State()), k).scores| < until + 10
    {
      n := 0;
      while |scores| < until + 10
        invariant Valid() && steps == old(steps) + n
        invariant State() == Iterate(old(State()), n)
        invariant forall k :: 0 <= k < n ==> |Iterate(old(State()), k).scores| < until + 10
        decreases until + 10 - |scores|
      {
        IterateLast(old(State()), n);
        Step();
        n := n + 1;
      }
    }

    /** The check at the top of `recipes`' loop on the current scores: once there are `|pattern| + 3`
        scores, the three windows before the last, scanned in order. */
    method CheckWindows(pattern: seq<int>) returns (idx: Option<int>)
      ensures idx == Check(State(), pattern)
      ensures idx.Some? ==> At(scores, pattern, idx.value)
    {
      if |scores| < |pattern| + 3 {
        return None;
      }
      var lo, hi := |scores| - |pattern| - 3, |scores| - |pattern|;
      var i := lo;
      while i < hi
        invariant lo <= i && (i <= hi || lo >= hi)
        invariant WindowHit(scores, pattern, lo, hi) == WindowHit(scores, pattern, i, hi)
      {
        if scores[i..i + |pattern|] == pattern {
          return Some(i);
        }
        i := i + 1;
      }
      return None;
    }

    /** `recipes(pattern:)`, giving up after `fuel` steps (the source loops until it finds the pattern). */
    method FindPattern(pattern: seq<int>, fuel: nat) returns (idx: Option<int>, ghost n: nat)
      requires Valid()
      modifies this
      ensures Valid() && idx == Search(old(State()), pattern, fuel)
      ensures n <= fuel && steps == old(steps) + n && State() == Iterate(old(State()), n)
      ensures idx.Some? ==> At(scores, pattern, idx.value)
    {
      n := 0;
      var left := fuel;
      ghost var start, b := State(), State();
      idx := CheckWindows(pattern);
      while idx.None? && left > 0
        invariant Valid() && State() == b && steps == old(steps) + n && n <= fuel && left == fuel - n
        invariant b == Iterate(start, n)
        invariant forall k :: 0 <= k < n ==> Check(Iterate(start, k), pattern).None?
        invariant idx == Check(b, pattern) && (idx.Some? ==> At(scores, pattern, idx.value))
        decreases left
      {
        MissesExtend(start, pattern, n);
        IterateLast(start, n);
        Step();
        b := Next(b);
        left := left - 1;
        n := n + 1;
        idx := CheckWindows(pattern);
      }
      SearchSkip(start, pattern, fuel, n);
    }
  }
}
