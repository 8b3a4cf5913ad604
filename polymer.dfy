/**
 * Day 5: a polymer is a chain of units, each a letter type with a polarity
 * (lower case negative, upper case positive). Two adjacent units of the same
 * type and opposite polarity react and vanish; `react` scans the chain with a
 * head that steps back after each reaction, and can also drop every unit of
 * one skipped type.
 */
module Polymer {
  import opened Wrappers

  /** A unit: its type is the lower-case letter, its case the polarity. */
  datatype Unit = Negative(kind: char) | Positive(kind: char)

  /** `lowercased()` on one ASCII character. */
  function Lower(c: char): char
  {
    if 'A' <= c <= 'Z' then (c as int + 32) as char else c
  }

  /** `uppercased()` on one ASCII character. */
  function Upper(c: char): char
  {
    if 'a' <= c <= 'z' then (c as int - 32) as char else c
  }

  /** `Unit.from`: negative when the character is its own lower case, else positive; the type is lower case. */
  function From(c: char): (u: Unit)
    ensures u.kind == Lower(c)
    ensures u.Negative? <==> c == Lower(c)
  {
    var lowerCased := Lower(c);
    if c == lowerCased then Negative(lowerCased) else Positive(lowerCased)
  }

  /** `description`: the type, upper-cased for a positive unit. */
  function Description(u: Unit): char
  {
    match u
    case Negative(x) => x
    case Positive(x) => Upper(x)
  }

  predicate IsLetter(c: char)
  {
    'a' <= c <= 'z' || 'A' <= c <= 'Z'
  }

  /** The type of a unit made from a letter is a lower-case letter. */
  predicate LetterUnit(u: Unit)
  {
    'a' <= u.kind <= 'z'
  }

  /** For letters, reading a unit back from its description gives the unit, and describing the unit
      read from a letter gives the letter. */
  lemma DescriptionRoundTrip(u: Unit, c: char)
    ensures LetterUnit(u) ==> From(Description(u)) == u
    ensures IsLetter(c) ==> LetterUnit(From(c)) && Description(From(c)) == c
  {
  }

  /** `>-<`: the same type with opposite polarity. */
  predicate Reacts(a: Unit, b: Unit): (r: bool)
    ensures r <==> a.kind == b.kind && a.Negative? != b.Negative?
  {
    match (a, b)
    case (Negative(x), Positive(y)) => x == y
    case (Positive(x), Negative(y)) => x == y
    case _ => false
  }

  /** `>-<` is symmetric and irreflexive. */
  lemma ReactsMeaning(a: Unit, b: Unit)
    ensures Reacts(a, b) == Reacts(b, a)
    ensures !Reacts(a, a)
  {
  }

  /** `Chain(value:)`: one unit per character. */
  function Parse(value: string): (units: seq<Unit>)
    ensures |units| == |value|
    ensures forall i :: 0 <= i < |value| ==> units[i] == From(value[i])
  {
    seq(|value|, i requires 0 <= i < |value| => From(value[i]))
  }

  /** The joined descriptions of the units. */
  function Describe(units: seq<Unit>): string
  {
    seq(|units|, i requires 0 <= i < |units| => Description(units[i]))
  }

  /** A chain read from letters describes back to the same letters. */
  lemma ParseRoundTrip(value: string)
    requires forall i :: 0 <= i < |value| ==> IsLetter(value[i])
    ensures Describe(Parse(value)) == value
  {
    forall i | 0 <= i < |value|
      ensures Describe(Parse(value))[i] == value[i]
    {
      DescriptionRoundTrip(Negative('a'), value[i]);
    }
  }

  /** The unit's type, as a string, equals `skipping`. */
  predicate Skipped(u: Unit, skipping: string)
  {
    [u.kind] == skipping
  }

  /** Where the head may be: at 0, or on a unit. */
  predicate HeadOk(units: seq<Unit>, head: int)
  {
    head == 0 || 0 <= head < |units|
  }

  /** The scan of `react` from a given state of the loop: drop a skipped second unit, else a skipped
      first unit, else remove a reacting pair and step back (not below 0), else move on. It only
      removes units, so it never lengthens the chain. */
  function Scan(units: seq<Unit>, head: nat, skipping: string): (r: seq<Unit>)
    requires HeadOk(units, head)
    ensures |r| <= |units|
    decreases 2 * |units| - head
  {
    if head >= |units| - 1 then units
    else if Skipped(units[head + 1], skipping) then Scan(units[..head + 1] + units[head + 2..], head, skipping)
    else if Skipped(units[head], skipping) then Scan(units[..head] + units[head + 1..], head, skipping)
    else if Reacts(units[head], units[head + 1]) then
      Scan(units[..head] + units[head + 2..], if head - 1 < 0 then 0 else head - 1, skipping)
    else Scan(units, head + 1, skipping)
  }

  /** `react(skipping:)`: the loop over the chain with its moving head. */
  method React(chain: seq<Unit>, skipping: string) returns (units: seq<Unit>)
    ensures units == Scan(chain, 0, skipping)
  {
    units := chain;
    var head := 0;
    while head < |units| - 1
      invariant HeadOk(units, head)
      invariant Scan(units, head, skipping) == Scan(chain, 0, skipping)
      decreases 2 * |units| - head
    {
      var one := units[head + 0];
      var two := units[head + 1];
      if [two.kind] == skipping {
        units := units[..head + 1] + units[head + 2..];
      } else if [one.kind] == skipping {
        units := units[..head] + units[head + 1..];
      } else if Reacts(one, two) {
        ghost var before := units;
        units := units[..head] + units[head + 1..];
        units := units[..head] + units[head + 1..];
        assert units == before[..head] + before[head + 2..];
        head := head - 1;
        if head < 0 {
          head := 0;
        }
      } else {
        head := head + 1;
      }
    }
  }

  /** What the loop keeps about the units before the head: none is skipped, the unit at a non-zero
      head is not skipped, and no two of them up to the head react. */
  predicate Settled(units: seq<Unit>, head: nat, skipping: string)
  {
    HeadOk(units, head) &&
    (forall i :: 0 <= i < head ==> !Skipped(units[i], skipping)) &&
    (0 < head < |units| ==> !Skipped(units[head], skipping)) &&
    (forall i :: 0 <= i < head && i + 1 < |units| ==> !Reacts(units[i], units[i + 1]))
  }

  /** No two adjacent units react. */
  predicate Stable(units: seq<Unit>)
  {
    forall i :: 0 <= i < |units| - 1 ==> !Reacts(units[i], units[i + 1])
  }

  /** From a settled state the scan ends with a chain where nothing reacts and, once two or more
      units are left, none of the skipped type. */
  lemma {:induction false} ScanSettles(units: seq<Unit>, head: nat, skipping: string)
    requires Settled(units, head, skipping)
    ensures Stable(Scan(units, head, skipping))
    ensures |Scan(units, head, skipping)| >= 2 ==>
            forall i :: 0 <= i < |Scan(units, head, skipping)| ==> !Skipped(Scan(units, head, skipping)[i], skipping)
    decreases 2 * |units| - head
  {
    if head >= |units| - 1 {
    } else if Skipped(units[head + 1], skipping) {
      var next := units[..head + 1] + units[head + 2..];
      assert forall i :: 0 <= i <= head ==> next[i] == units[i];
      ScanSettles(next, head, skipping);
    } else if Skipped(units[head], skipping) {
      var next := units[..head] + units[head + 1..];
      assert head == 0;
      ScanSettles(next, head, skipping);
    } else if Reacts(units[head], units[head + 1]) {
      var next := units[..head] + units[head + 2..];
      var back := if head - 1 < 0 then 0 else head - 1;
      assert forall i :: 0 <= i < head ==> next[i] == units[i];
      ScanSettles(next, back, skipping);
    } else {
      ScanSettles(units, head + 1, skipping);
    }
  }

  /** The scan keeps only units it was given. */
  lemma {:induction false} ScanShrinks(units: seq<Unit>, head: nat, skipping: string)
    requires HeadOk(units, head)
    ensures multiset(Scan(units, head, skipping)) <= multiset(units)
    decreases 2 * |units| - head
  {
    if head >= |units| - 1 {
    } else if Skipped(units[head + 1], skipping) {
      var next := units[..head + 1] + units[head + 2..];
      Removed(units, head + 1, head + 2);
      ScanShrinks(next, head, skipping);
    } else if Skipped(units[head], skipping) {
      var next := units[..head] + units[head + 1..];
      Removed(units, head, head + 1);
      ScanShrinks(next, head, skipping);
    } else if Reacts(units[head], units[head + 1]) {
      var next := units[..head] + units[head + 2..];
      Removed(units, head, head + 2);
      ScanShrinks(next, if head - 1 < 0 then 0 else head - 1, skipping);
    } else {
      ScanShrinks(units, head + 1, skipping);
    }
  }

  /** Cutting out `units[i..j]` leaves a sub-multiset. */
  lemma Removed(units: seq<Unit>, i: nat, j: nat)
    requires i <= j <= |units|
    ensures multiset(units[..i] + units[j..]) <= multiset(units)
  {
    assert units == units[..i] + units[i..j] + units[j..];
  }

  /** Without a skipped type only reacting pairs go: the scan removes `pairs` pairs. */
  lemma {:induction false} ScanRemovesPairs(units: seq<Unit>, head: nat) returns (pairs: nat)
    requires HeadOk(units, head)
    ensures |units| == |Scan(units, head, [])| + 2 * pairs
    decreases 2 * |units| - head
  {
    if head >= |units| - 1 {
      pairs := 0;
    } else if Reacts(units[head], units[head + 1]) {
      var next := units[..head] + units[head + 2..];
      var rest := ScanRemovesPairs(next, if head - 1 < 0 then 0 else head - 1);
      pairs := rest + 1;
    } else {
      pairs := ScanRemovesPairs(units, head + 1);
    }
  }

  /** `react` leaves no adjacent reacting pair, and removes every skipped unit unless a single unit
      is left. */
  lemma ReactSettles(chain: seq<Unit>, skipping: string)
    ensures Stable(Scan(chain, 0, skipping))
    ensures |Scan(chain, 0, skipping)| >= 2 ==>
            forall i :: 0 <= i < |Scan(chain, 0, skipping)| ==> !Skipped(Scan(chain, 0, skipping)[i], skipping)
  {
    ScanSettles(chain, 0, skipping);
  }

  /** `react` keeps only units it was given, so never lengthens the chain, and without a skipped
      type keeps the parity of the length. */
  lemma ReactShrinks(chain: seq<Unit>, skipping: string)
    ensures multiset(Scan(chain, 0, skipping)) <= multiset(chain)
    ensures |Scan(chain, 0, skipping)| <= |chain|
    ensures skipping == [] ==> |Scan(chain, 0, skipping)| % 2 == |chain| % 2
  {
    ScanShrinks(chain, 0, skipping);
    if skipping == [] {
      var pairs := ScanRemovesPairs(chain, 0);
    }
  }

  /** A lone unit of the skipped type survives, because the loop needs two units to look at. */
  lemma LoneSkippedSurvives()
    ensures Scan([Negative('b')], 0, "b") == [Negative('b')]
  {
  }

  const Alphabet: string := "abcdefghijklmnopqrstuvwxyz"

  /** Part 2: react once per letter of the alphabet, skipping that letter, and keep the first letter
      whose result is strictly shorter than all before it. The `Int.max` start is `None`. */
  method BestLetter(chain: seq<Unit>) returns (bestLetter: string, bestLetterCount: Option<nat>, ghost k: nat)
    ensures k < |Alphabet| && bestLetter == [Alphabet[k]]
    ensures bestLetterCount == Some(|Scan(chain, 0, bestLetter)|)
    ensures forall j :: 0 <= j < |Alphabet| ==> bestLetterCount.value <= |Scan(chain, 0, [Alphabet[j]])|
    ensures forall j :: 0 <= j < k ==> bestLetterCount.value < |Scan(chain, 0, [Alphabet[j]])|
  {
    bestLetter := "";
    bestLetterCount := None;
    k := 0;
    var i := 0;
    while i < |Alphabet|
      invariant 0 <= i <= |Alphabet|
      invariant i == 0 <==> bestLetterCount.None?
      invariant i > 0 ==> k < i && bestLetter == [Alphabet[k]] && bestLetterCount == Some(|Scan(chain, 0, bestLetter)|)
      invariant i > 0 ==> forall j :: 0 <= j < i ==> bestLetterCount.value <= |Scan(chain, 0, [Alphabet[j]])|
      invariant i > 0 ==> forall j :: 0 <= j < k ==> bestLetterCount.value < |Scan(chain, 0, [Alphabet[j]])|
    {
      var letter := [Alphabet[i]];
      var result := React(chain, letter);
      if bestLetterCount.None? || |result| < bestLetterCount.value {
        bestLetter := letter;
        bestLetterCount := Some(|result|);
        k := i;
      }
      i := i + 1;
    }
  }
}
