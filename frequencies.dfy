/**
 * Day 1: the frequency drift analyser. A list of shifts is read through an
 * iterator that either stops after the last shift or cycles forever; part 1
 * sums one pass, part 2 looks for the first running frequency reached twice.
 * The two copies of the program share this iterator and both loops.
 */
module Frequencies {
  import opened Wrappers

  /** Sum of a list of shifts, element by element from the front. */
  function Sum(s: seq<int>): int
    decreases |s|
  {
    if s == [] then 0 else Sum(s[..|s| - 1]) + s[|s| - 1]
  }

  lemma SumPrefixStep(s: seq<int>, k: nat)
    requires k < |s|
    ensures Sum(s[..k + 1]) == Sum(s[..k]) + s[k]
  {
    assert s[..k + 1][..k] == s[..k];
  }

  /** The iterator over the shifts: `head` is the index of the next shift handed out. */
  class ShiftIterator {
    const shifts: seq<int>
    const infinite: bool
    var head: int

    /** In finite mode `head` never passes the end; in infinite mode it always names a shift. */
    predicate Valid()
      reads this
    {
      0 <= head <= |shifts| && (infinite ==> head < |shifts|)
    }

    constructor (shifts: seq<int>, infinite: bool)
      requires infinite ==> |shifts| > 0
      ensures this.shifts == shifts && this.infinite == infinite && head == 0 && Valid()
    {
      this.shifts := shifts;
      this.infinite := infinite;
      head := 0;
    }

    /** `next()`. Infinite mode hands out `shifts[head]` and wraps `head` back to 0 at the end; finite mode
        hands out `shifts[head]` until the end and nil from then on, without moving. */
    method Next() returns (value: Option<int>)
      requires Valid()
      modifies this
      ensures Valid()
      ensures infinite ==> value == Some(shifts[old(head)]) && head == if old(head) == |shifts| - 1 then 0 else old(head) + 1
      ensures !infinite && old(head) < |shifts| ==> value == Some(shifts[old(head)]) && head == old(head) + 1
      ensures !infinite && old(head) >= |shifts| ==> value == None && head == old(head)
    {
      if infinite {
        var v := shifts[head];
        head := head + 1;
        if head >= |shifts| {
          head := 0;
        }
        return Some(v);
      } else {
        if head >= |shifts| {
          return None;
        }
        var v := shifts[head];
        head := head + 1;
        return Some(v);
      }
    }
  }

  /** Part 1: run a finite iterator to its end, adding every shift to the frequency, which starts at 0. */
  method FinalFrequency(shifts: seq<int>) returns (currentFrequency: int)
    ensures currentFrequency == Sum(shifts)
  {
    var it := new ShiftIterator(shifts, false);
    currentFrequency := 0;
    var shift := it.Next();
    while shift.Some?
      invariant it.Valid() && it.shifts == shifts && !it.infinite
      invariant shift.Some? ==> 1 <= it.head && shift.value == shifts[it.head - 1] &&
                                currentFrequency == Sum(shifts[..it.head - 1])
      invariant shift.None? ==> it.head == |shifts| && currentFrequency == Sum(shifts[..it.head])
      decreases |shifts| - it.head, shift.Some?
    {
      SumPrefixStep(shifts, it.head - 1);
      currentFrequency := currentFrequency + shift.value;
      shift := it.Next();
    }
    assert shifts[..|shifts|] == shifts;
  }

  /** Where the infinite iterator's `head` stands after `k` calls. */
  function Cursor(shifts: seq<int>, k: nat): (h: nat)
    requires |shifts| > 0
    ensures h < |shifts|
    decreases k
  {
    if k == 0 then 0 else if Cursor(shifts, k - 1) + 1 >= |shifts| then 0 else Cursor(shifts, k - 1) + 1
  }

  /** The frequency after `k` shifts of the cycled list. */
  function Freq(shifts: seq<int>, k: nat): int
    requires |shifts| > 0
    decreases k
  {
    if k == 0 then 0 else Freq(shifts, k - 1) + shifts[Cursor(shifts, k - 1)]
  }

  /** The first pass hands out the shifts in order. */
  lemma {:induction false} CursorFirstPass(shifts: seq<int>, i: nat)
    requires i < |shifts|
    ensures Cursor(shifts, i) == i
    decreases i
  {
    if i > 0 {
      CursorFirstPass(shifts, i - 1);
    }
  }

  /** After a full pass the cursor is back where it was: the shifts cycle with period `|shifts|`. */
  lemma {:induction false} CursorCycles(shifts: seq<int>, k: nat)
    requires |shifts| > 0
    ensures Cursor(shifts, k + |shifts|) == Cursor(shifts, k)
    decreases k
  {
    if k == 0 {
      CursorFirstPass(shifts, |shifts| - 1);
    } else {
      CursorCycles(shifts, k - 1);
      assert k + |shifts| - 1 == (k - 1) + |shifts|;
    }
  }

  /** Every full pass moves the frequency by the sum of the shifts (the part 1 answer). */
  lemma {:induction false} FreqFullPass(shifts: seq<int>, k: nat)
    requires |shifts| > 0
    ensures Freq(shifts, k + |shifts|) == Freq(shifts, k) + Sum(shifts)
    decreases k
  {
    if k == 0 {
      FreqFirstPass(shifts, |shifts|);
      assert shifts[..|shifts|] == shifts;
    } else {
      FreqFullPass(shifts, k - 1);
      CursorCycles(shifts, k - 1);
      assert k + |shifts| - 1 == (k - 1) + |shifts|;
    }
  }

  lemma {:induction false} FreqFirstPass(shifts: seq<int>, i: nat)
    requires 0 < |shifts| && i <= |shifts|
    ensures Freq(shifts, i) == Sum(shifts[..i])
    decreases i
  {
    if i > 0 {
      FreqFirstPass(shifts, i - 1);
      CursorFirstPass(shifts, i - 1);
      SumPrefixStep(shifts, i - 1);
    }
  }

  /** The frequencies recorded after shifts 1..k; the starting 0 is recorded only when `seeded`. */
  function Visited(shifts: seq<int>, seeded: bool, k: nat): set<int>
    requires |shifts| > 0
    decreases k
  {
    if k == 0 then (if seeded then {0} else {}) else Visited(shifts, seeded, k - 1) + {Freq(shifts, k)}
  }

  /** The part 2 loop from step `k` on, with at most `fuel` more shifts: the first frequency already in `seen`. */
  function RepeatSearch(shifts: seq<int>, seen: set<int>, k: nat, fuel: nat): Option<int>
    requires |shifts| > 0
    decreases fuel
  {
    if fuel == 0 then None
    else if Freq(shifts, k + 1) in seen then Some(Freq(shifts, k + 1))
    else RepeatSearch(shifts, seen + {Freq(shifts, k + 1)}, k + 1, fuel - 1)
  }

  /** No frequency among steps `k+1..j` was recorded before it was reached. */
  ghost predicate FreshUpTo(shifts: seq<int>, seeded: bool, k: nat, j: nat)
    requires |shifts| > 0
  {
    forall i :: k < i <= j ==> Freq(shifts, i) !in Visited(shifts, seeded, i - 1)
  }

  /** A repeat found by the search is the frequency at some step `j` that was reached before, and no earlier step
      repeated. */
  lemma {:induction false} RepeatFound(shifts: seq<int>, seeded: bool, k: nat, fuel: nat) returns (j: nat)
    requires |shifts| > 0 && RepeatSearch(shifts, Visited(shifts, seeded, k), k, fuel).Some?
    ensures k < j <= k + fuel
    ensures RepeatSearch(shifts, Visited(shifts, seeded, k), k, fuel) == Some(Freq(shifts, j))
    ensures Freq(shifts, j) in Visited(shifts, seeded, j - 1)
    ensures FreshUpTo(shifts, seeded, k, j - 1)
    decreases fuel
  {
    if Freq(shifts, k + 1) in Visited(shifts, seeded, k) {
      j := k + 1;
    } else {
      assert Visited(shifts, seeded, k) + {Freq(shifts, k + 1)} == Visited(shifts, seeded, k + 1);
      j := RepeatFound(shifts, seeded, k + 1, fuel - 1);
      forall i | k < i <= j - 1 ensures Freq(shifts, i) !in Visited(shifts, seeded, i - 1) {
        if i > k + 1 {
          assert k + 1 < i <= j - 1;
        }
      }
    }
  }

  /** No repeat found means none of the searched steps repeated. */
  lemma {:induction false} RepeatNotFound(shifts: seq<int>, seeded: bool, k: nat, fuel: nat)
    requires |shifts| > 0 && RepeatSearch(shifts, Visited(shifts, seeded, k), k, fuel).None?
    ensures FreshUpTo(shifts, seeded, k, k + fuel)
    decreases fuel
  {
    if fuel > 0 {
      assert Freq(shifts, k + 1) !in Visited(shifts, seeded, k);
      assert Visited(shifts, seeded, k) + {Freq(shifts, k + 1)} == Visited(shifts, seeded, k + 1);
      RepeatNotFound(shifts, seeded, k + 1, fuel - 1);
      forall i | k < i <= k + fuel ensures Freq(shifts, i) !in Visited(shifts, seeded, i - 1) {
        if i > k + 1 {
          assert k + 1 < i <= k + 1 + (fuel - 1);
        }
      }
    }
  }

  /** Part 2: cycle the shifts, recording every frequency reached, and stop at the first one already recorded.
      The starting 0 is not recorded. The loop is cut off after `fuel` shifts. */
  method FirstRepeat(shifts: seq<int>, fuel: nat) returns (repeat: Option<int>)
    requires |shifts| > 0
    ensures repeat == RepeatSearch(shifts, Visited(shifts, false, 0), 0, fuel)
  {
    var it := new ShiftIterator(shifts, true);
    var visitedFrequencies: set<int> := {};
    var currentFrequency := 0;
    var steps := 0;
    while steps < fuel
      invariant 0 <= steps <= fuel
      invariant it.Valid() && it.shifts == shifts && it.infinite && it.head == Cursor(shifts, steps)
      invariant currentFrequency == Freq(shifts, steps)
      invariant visitedFrequencies == Visited(shifts, false, steps)
      invariant RepeatSearch(shifts, visitedFrequencies, steps, fuel - steps) ==
                RepeatSearch(shifts, Visited(shifts, false, 0), 0, fuel)
    {
      var shift := it.Next();
      currentFrequency := currentFrequency + shift.value;
      assert currentFrequency == Freq(shifts, steps + 1);
      if currentFrequency in visitedFrequencies {
        return Some(currentFrequency);
      }
      visitedFrequencies := visitedFrequencies + {currentFrequency};
      steps := steps + 1;
    }
    return None;
  }

  /** Since 0 is not recorded at the start, the shifts +1, -1 repeat 1 (reached at steps 1 and 3), not 0. */
  lemma UnseededStart()
    ensures RepeatSearch([1, -1], Visited([1, -1], false, 0), 0, 3) == Some(1)
    ensures RepeatSearch([1, -1], Visited([1, -1], true, 0), 0, 3) == Some(0)
  {
    var s := [1, -1];
    assert Freq(s, 1) == 1;
    assert Freq(s, 2) == 0;
    assert Freq(s, 3) == 1;
  }

  /** `input.split(separator: "\n")`: the lines between newlines, empty ones dropped. */
  function SplitLines(input: string): (lines: seq<string>)
    ensures forall i :: 0 <= i < |lines| ==> lines[i] != [] && '\n' !in lines[i]
    decreases |input|
  {
    if input == [] then []
    else
      var rest := SplitLines(input[1..]);
      if input[0] == '\n' then rest
      else if rest != [] && input[1..] != [] && input[1] != '\n' then [[input[0]] + rest[0]] + rest[1..]
      else [[input[0]]] + rest
  }

  function Concat(lines: seq<string>): string
    decreases |lines|
  {
    if lines == [] then [] else lines[0] + Concat(lines[1..])
  }

  /** The input without its newlines. */
  function WithoutNewlines(input: string): string
    decreases |input|
  {
    if input == [] then [] else (if input[0] == '\n' then [] else [input[0]]) + WithoutNewlines(input[1..])
  }

  /** Splitting drops exactly the newlines: the lines, joined back without separators, are the input's other
      characters in order. */
  lemma {:induction false} SplitLinesKeepsText(input: string)
    ensures Concat(SplitLines(input)) == WithoutNewlines(input)
    decreases |input|
  {
    if input != [] {
      SplitLinesKeepsText(input[1..]);
      var rest := SplitLines(input[1..]);
      assert WithoutNewlines(input) == (if input[0] == '\n' then [] else [input[0]]) + WithoutNewlines(input[1..]);
      if input[0] != '\n' {
        if rest != [] && input[1..] != [] && input[1] != '\n' {
          var lines := [[input[0]] + rest[0]] + rest[1..];
          assert SplitLines(input) == lines;
          assert lines[1..] == rest[1..];
          calc {
            Concat(lines);
            ([input[0]] + rest[0]) + Concat(rest[1..]);
            [input[0]] + (rest[0] + Concat(rest[1..]));
            [input[0]] + Concat(rest);
          }
        } else {
          var lines := [[input[0]]] + rest;
          assert SplitLines(input) == lines;
          assert lines[1..] == rest;
        }
      }
    }
  }
}
