/**
 * Day 2: warehouse box ids. Each id is tallied letter by letter; the checksum
 * multiplies how many distinct ids have a letter exactly twice by how many
 * have one exactly three times, and the pair search looks for two ids that
 * differ in exactly one position.
 */
module BoxIds {
  import opened Wrappers

  /** How often each letter of `id` occurs: the reference for the tally loop. */
  function Tallies(id: string): map<char, int>
  {
    map l | l in id :: multiset(id)[l]
  }

  /** Some letter of `id` occurs exactly `n` times. */
  predicate HasCount(id: string, n: int)
  {
    exists l | l in id :: multiset(id)[l] == n
  }

  /** A box: its id, its letter tallies, and whether some letter occurs exactly twice or exactly three times. */
  datatype Box = Box(id: string, groups: map<char, int>, twoGroups: bool, threeGroups: bool)

  /** The box `Box(id:)` builds: the tallies hold exactly the letters of the id, each with its
      number of occurrences, and each flag says whether some tally is 2 or 3. */
  function BoxOf(id: string): (b: Box)
    ensures b.id == id
    ensures forall l :: l in b.groups <==> l in id
    ensures forall l :: l in b.groups ==> b.groups[l] == multiset(id)[l] > 0
    ensures b.twoGroups <==> exists l | l in b.groups :: b.groups[l] == 2
    ensures b.threeGroups <==> exists l | l in b.groups :: b.groups[l] == 3
  {
    TalliesCount(id);
    Box(id, Tallies(id), HasCount(id, 2), HasCount(id, 3))
  }

  /** `Box.init(id:)`: tally the letters one by one, then scan the tallies for a 2 and a 3. */
  method NewBox(id: string) returns (box: Box)
    ensures box == BoxOf(id)
  {
    var groups := Tally(id);
    var twoGroups, threeGroups := GroupFlags(groups);
    TalliesCount(id);
    box := Box(id, groups, twoGroups, threeGroups);
  }

  /** The tally loop: each letter's entry is created at 1 or raised by 1. */
  method Tally(id: string) returns (groups: map<char, int>)
    ensures groups == Tallies(id)
  {
    groups := map[];
    var i := 0;
    while i < |id|
      invariant 0 <= i <= |id|
      invariant groups == Tallies(id[..i])
    {
      var letter := id[i];
      assert id[..i + 1] == id[..i] + [letter];
      TalliesSnoc(id[..i], letter);
      if letter in groups {
        groups := groups[letter := groups[letter] + 1];
      } else {
        groups := groups[letter := 1];
      }
      i := i + 1;
    }
    assert id[..|id|] == id;
  }

  /** One more letter raises its own tally by one, from nothing to 1 when it is new. */
  lemma TalliesSnoc(s: string, c: char)
    ensures c in Tallies(s) ==> Tallies(s + [c]) == Tallies(s)[c := Tallies(s)[c] + 1]
    ensures c !in Tallies(s) ==> Tallies(s + [c]) == Tallies(s)[c := 1]
  {
    var t, t' := Tallies(s), Tallies(s + [c]);
    assert multiset(s + [c]) == multiset(s) + multiset{c};
    assert forall l :: l in s + [c] <==> l in s || l == c;
    assert t'.Keys == t.Keys + {c};
  }

  /** The tallies hold exactly the letters of the id, each with its number of occurrences, and so none is 0. */
  lemma TalliesCount(id: string)
    ensures forall l :: l in Tallies(id) <==> l in id
    ensures forall l :: l in Tallies(id) ==> Tallies(id)[l] == multiset(id)[l] > 0
  {
  }

  /** The scan over the tallies: stops early once both flags are set; the dictionary's order does not matter. */
  method GroupFlags(groups: map<char, int>) returns (twoGroups: bool, threeGroups: bool)
    ensures twoGroups <==> exists l | l in groups :: groups[l] == 2
    ensures threeGroups <==> exists l | l in groups :: groups[l] == 3
  {
    twoGroups, threeGroups := false, false;
    var left := groups.Keys;
    while left != {}
      invariant left <= groups.Keys
      invariant twoGroups <==> exists l | l in groups.Keys - left :: groups[l] == 2
      invariant threeGroups <==> exists l | l in groups.Keys - left :: groups[l] == 3
      decreases left
    {
      var l :| l in left;
      var value := groups[l];
      if value == 3 {
        threeGroups := true;
      } else if value == 2 {
        twoGroups := true;
      }
      left := left - {l};
      if twoGroups && threeGroups {
        return;
      }
    }
  }

  /** Letters equal at the same index, over the shorter of the two ids: no more than either id has. */
  function Common(a: string, b: string): (r: string)
    ensures |r| <= |a| && |r| <= |b|
    decreases |a|
  {
    if a == [] || b == [] then []
    else (if a[0] == b[0] then [a[0]] else []) + Common(a[1..], b[1..])
  }

  /** `commonLetters(_:)`: the `zip` loop appending every letter the two ids share at the same index. */
  method CommonLetters(a: string, b: string) returns (common: string)
    ensures common == Common(a, b)
  {
    common := [];
    var i := 0;
    var n := if |a| < |b| then |a| else |b|;
    while i < n
      invariant 0 <= i <= n
      invariant common + Common(a[i..], b[i..]) == Common(a, b)
    {
      assert a[i..][1..] == a[i + 1..] && b[i..][1..] == b[i + 1..];
      if a[i] == b[i] {
        common := common + [a[i]];
      }
      i := i + 1;
    }
  }

  /** Sharing letters does not depend on which box asks. */
  lemma {:induction false} CommonSymmetric(a: string, b: string)
    ensures Common(a, b) == Common(b, a)
    decreases |a|
  {
    if a != [] && b != [] {
      CommonSymmetric(a[1..], b[1..]);
    }
  }

  /** An id shares all its letters with itself. */
  lemma {:induction false} CommonSelf(a: string)
    ensures Common(a, a) == a
    decreases |a|
  {
    if a != [] {
      CommonSelf(a[1..]);
      assert a == [a[0]] + a[1..];
    }
  }

  /** Positions where two ids of equal length differ. */
  function Differences(a: string, b: string): nat
    requires |a| == |b|
    decreases |a|
  {
    if a == [] then 0 else (if a[0] != b[0] then 1 else 0) + Differences(a[1..], b[1..])
  }

  /** For ids of equal length, losing exactly one letter means the ids differ in exactly one position. */
  lemma {:induction false} CommonDifferences(a: string, b: string)
    requires |a| == |b|
    ensures |Common(a, b)| + Differences(a, b) == |a|
    decreases |a|
  {
    if a != [] {
      CommonDifferences(a[1..], b[1..]);
    }
  }

  /** The distinct ids that have some letter exactly `n` times: boxes are equal and hashed by id. */
  function IdsWithCount(ids: seq<string>, n: int): set<string>
  {
    set id | id in ids && HasCount(id, n)
  }

  /** The checksum loop: boxes go into the set of twos and the set of threes, and the sizes are multiplied. */
  method Checksum(ids: seq<string>) returns (checksum: int)
    ensures checksum == |IdsWithCount(ids, 2)| * |IdsWithCount(ids, 3)|
  {
    var twos: set<string> := {};
    var threes: set<string> := {};
    var i := 0;
    while i < |ids|
      invariant 0 <= i <= |ids|
      invariant twos == IdsWithCount(ids[..i], 2) && threes == IdsWithCount(ids[..i], 3)
    {
      var box := NewBox(ids[i]);
      assert ids[..i + 1] == ids[..i] + [ids[i]];
      if box.twoGroups {
        twos := twos + {box.id};
      }
      if box.threeGroups {
        threes := threes + {box.id};
      }
      i := i + 1;
    }
    assert ids[..|ids|] == ids;
    checksum := |twos| * |threes|;
  }

  /** Boxes `i` and `j` are different ids that share all but one letter of the first box's length. */
  predicate IsMatch(ids: seq<string>, i: int, j: int)
    requires 0 < |ids| && 0 <= i < |ids| && 0 <= j < |ids|
  {
    ids[i] != ids[j] && |Common(ids[i], ids[j])| == |ids[0]| - 1
  }

  /** Pair (i, j) comes before (i', j') in the nested loops. */
  predicate Earlier(i: int, j: int, i': int, j': int)
  {
    i < i' || (i == i' && j < j')
  }

  /** The pair search: for each box, each other box in order; the first matching ordered pair gives its
      common letters. */
  method FindPair(ids: seq<string>) returns (found: Option<string>, ghost bi: int, ghost bj: int)
    requires |ids| > 0
    ensures found.Some? ==> 0 <= bi < |ids| && 0 <= bj < |ids| && IsMatch(ids, bi, bj) &&
                            found.value == Common(ids[bi], ids[bj])
    ensures found.Some? ==> forall i, j :: 0 <= i < |ids| && 0 <= j < |ids| && Earlier(i, j, bi, bj) ==> !IsMatch(ids, i, j)
    ensures found.None? ==> forall i, j :: 0 <= i < |ids| && 0 <= j < |ids| ==> !IsMatch(ids, i, j)
  {
    var targetSize := |ids[0]| - 1;
    bi, bj := 0, 0;
    var i := 0;
    while i < |ids|
      invariant 0 <= i <= |ids|
      invariant forall i', j :: 0 <= i' < i && 0 <= j < |ids| ==> !IsMatch(ids, i', j)
    {
      var j := 0;
      while j < |ids|
        invariant 0 <= j <= |ids|
        invariant forall i', j' :: 0 <= i' < i && 0 <= j' < |ids| ==> !IsMatch(ids, i', j')
        invariant forall j' :: 0 <= j' < j ==> !IsMatch(ids, i, j')
      {
        if ids[i] != ids[j] {
          var common := CommonLetters(ids[i], ids[j]);
          if |common| == targetSize {
            return Some(common), i, j;
          }
        }
        j := j + 1;
      }
      i := i + 1;
    }
    return None, bi, bj;
  }
}
