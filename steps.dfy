/**
 * Day 7, part 1: the sleigh assembly instructions. Each instruction says that
 * one step must be finished before another can begin; the steps are done one at
 * a time, always the alphabetically first step whose prerequisites are all done.
 * Step names are single letters here; the parsing of the instruction lines is
 * not modelled, so an instruction is a pair (before, after).
 */
module Steps {
  import opened Wrappers

  // Sorted arrays of step names.

  /** The steps of an array, as a set. */
  function Elems(s: seq<char>): set<char>
  {
    set x | x in s
  }

  /** Strictly increasing: sorted and without repeats. */
  predicate Strict(s: seq<char>)
  {
    forall i, j :: 0 <= i < j < |s| ==> s[i] < s[j]
  }

  /** No step occurs twice. */
  predicate Distinct(s: seq<char>)
  {
    forall i, j :: 0 <= i < j < |s| ==> s[i] != s[j]
  }

  /** `append` followed by `sort()` on a sorted array: `c` goes before the first larger step. */
  function InsertSorted(c: char, s: seq<char>): (r: seq<char>)
    ensures |r| == |s| + 1
  {
    if s == [] || c < s[0] then [c] + s else [s[0]] + InsertSorted(c, s[1..])
  }

  /** Inserting a new step into a strictly increasing array keeps it strictly increasing and adds
      exactly that step. */
  lemma {:induction false} InsertSortedStrict(c: char, s: seq<char>)
    requires Strict(s) && c !in s
    ensures Strict(InsertSorted(c, s)) && Elems(InsertSorted(c, s)) == Elems(s) + {c}
    decreases |s|
  {
    if s == [] || c < s[0] {
      forall x | x in Elems(s)
        ensures c < x
      {
        var k :| 0 <= k < |s| && s[k] == x;
        assert s[0] <= s[k];
      }
      StrictCons(c, s);
    } else {
      StrictSplit(s);
      InsertSortedStrict(c, s[1..]);
      assert s[0] != c;
      StrictCons(s[0], InsertSorted(c, s[1..]));
    }
  }

  /** A strictly increasing array is its head before its larger tail. */
  lemma StrictSplit(s: seq<char>)
    requires Strict(s) && s != []
    ensures Strict(s[1..]) && Elems(s) == {s[0]} + Elems(s[1..])
    ensures forall x :: x in Elems(s[1..]) ==> s[0] < x
  {
    assert s == [s[0]] + s[1..];
    forall x | x in Elems(s[1..])
      ensures s[0] < x
    {
      var k :| 0 <= k < |s[1..]| && s[1..][k] == x;
      assert s[k + 1] == x;
    }
  }

  /** Putting a step before an array of larger steps keeps it strictly increasing. */
  lemma StrictCons(h: char, rest: seq<char>)
    requires Strict(rest) && forall x :: x in Elems(rest) ==> h < x
    ensures Strict([h] + rest) && Elems([h] + rest) == {h} + Elems(rest)
  {
    var r := [h] + rest;
    forall i, j | 0 <= i < j < |r|
      ensures r[i] < r[j]
    {
      assert r[j] == rest[j - 1];
      if i == 0 {
        assert rest[j - 1] in Elems(rest);
      } else {
        assert r[i] == rest[i - 1];
      }
    }
  }

  /** The least step of a non-empty set. */
  ghost function MinOf(S: set<char>): (m: char)
    requires S != {}
    ensures m in S && forall x :: x in S ==> m <= x
    decreases S
  {
    var x :| x in S;
    if S == {x} then x
    else
      assert forall z :: z in S ==> z == x || z in S - {x};
      var y := MinOf(S - {x});
      if x < y then x else y
  }

  /** The steps of a set in alphabetical order. */
  ghost function SortedOf(S: set<char>): seq<char>
    decreases S
  {
    if S == {} then [] else [MinOf(S)] + SortedOf(S - {MinOf(S)})
  }

  /** `sorted()` on a set gives a strictly increasing array holding exactly its steps. */
  lemma {:induction false} SortedOfMeaning(S: set<char>)
    ensures Strict(SortedOf(S)) && Elems(SortedOf(S)) == S
    decreases S
  {
    if S != {} {
      var m := MinOf(S);
      var rest := SortedOf(S - {m});
      SortedOfMeaning(S - {m});
      StrictCons(m, rest);
    }
  }

  /** A strictly increasing array is determined by its steps. */
  lemma {:induction false} StrictUnique(a: seq<char>, b: seq<char>)
    requires Strict(a) && Strict(b) && Elems(a) == Elems(b)
    ensures a == b
    decreases |a|
  {
    ElemsEmpty(a);
    ElemsEmpty(b);
    if a != [] && b != [] {
      StrictSplit(a);
      StrictSplit(b);
      assert a[0] == b[0] by {
        assert a[0] in Elems(b) && b[0] in Elems(a);
        assert a[0] <= b[0] && b[0] <= a[0];
      }
      assert a[0] !in Elems(a[1..]) && b[0] !in Elems(b[1..]);
      assert Elems(a[1..]) == Elems(a) - {a[0]};
      assert Elems(b[1..]) == Elems(b) - {b[0]};
      StrictUnique(a[1..], b[1..]);
      assert a == [a[0]] + a[1..] && b == [b[0]] + b[1..];
    }
  }

  /** The steps of an array with one more step at the end. */
  lemma ElemsSnoc(a: seq<char>, x: char)
    ensures Elems(a + [x]) == Elems(a) + {x}
  {
  }

  /** Only the empty array has no steps. */
  lemma ElemsEmpty(s: seq<char>)
    ensures Elems(s) == {} <==> s == []
  {
    if s != [] {
      assert s[0] in Elems(s);
    }
  }

  /** The tail of a strictly increasing array is the array without its head. */
  lemma StrictTail(a: seq<char>)
    requires Strict(a) && a != []
    ensures Strict(a[1..]) && Elems(a[1..]) == Elems(a) - {a[0]}
  {
    assert a == [a[0]] + a[1..];
    forall x | x in a[1..]
      ensures x != a[0]
    {
      var k :| 0 <= k < |a[1..]| && a[1..][k] == x;
      assert a[k + 1] == x;
    }
  }

  /** The head of a strictly increasing array is the least of its steps. */
  lemma StrictHead(a: seq<char>)
    requires Strict(a) && a != []
    ensures a[0] in Elems(a) && a[0] == MinOf(Elems(a))
  {
    assert a[0] in Elems(a);
    var m := MinOf(Elems(a));
    var k :| 0 <= k < |a| && a[k] == m;
    assert a[0] in Elems(a);
  }

  /** A strictly increasing array is the sorted form of its steps. */
  lemma StrictSorted(a: seq<char>)
    requires Strict(a)
    ensures a == SortedOf(Elems(a))
  {
    SortedOfMeaning(Elems(a));
    StrictUnique(a, SortedOf(Elems(a)));
  }

  /** A strictly increasing array has no repeats. */
  lemma StrictDistinct(a: seq<char>)
    requires Strict(a)
    ensures Distinct(a)
  {
  }

  /** An array without repeats has as many steps as its set. */
  lemma {:induction false} DistinctCard(a: seq<char>)
    requires Distinct(a)
    ensures |Elems(a)| == |a|
    decreases |a|
  {
    if a != [] {
      var n := |a| - 1;
      DistinctCard(a[..n]);
      assert a == a[..n] + [a[n]];
      assert Elems(a) == Elems(a[..n]) + {a[n]};
      assert a[n] !in Elems(a[..n]);
    }
  }

  // The dependency graph (lines 15-43).

  /** An instruction "Step `before` must be finished before step `after` can begin". */
  datatype Instruction = Instruction(before: char, after: char)

  /** Every step named by the instructions. */
  function AllSteps(ins: seq<Instruction>): set<char>
  {
    (set i | 0 <= i < |ins| :: ins[i].before) + (set i | 0 <= i < |ins| :: ins[i].after)
  }

  /** The steps that must be finished before `b`. */
  function Prereqs(ins: seq<Instruction>, b: char): set<char>
  {
    set i | 0 <= i < |ins| && ins[i].after == b :: ins[i].before
  }

  /** The steps that wait for some other step. */
  function Waiting(ins: seq<Instruction>): set<char>
  {
    set i | 0 <= i < |ins| :: ins[i].after
  }

  /** The shape of the graph built from instructions: every step that waits has a prerequisite, and
      every step mentioned is a step. */
  predicate Graph(all: set<char>, deps: map<char, set<char>>)
  {
    deps.Keys <= all &&
    forall k :: k in deps ==> deps[k] != {} && deps[k] <= all
  }

  /** The dependency map of some instructions: an entry for each waiting step, holding its
      prerequisites. */
  predicate DepsOf(ins: seq<Instruction>, deps: map<char, set<char>>)
  {
    deps.Keys == Waiting(ins) && forall b :: b in deps ==> deps[b] == Prereqs(ins, b)
  }

  /** Building the step set and the dependency map (lines 15-43): each instruction adds both of its
      steps, and adds `before` to the entry of `after`, creating it when missing. */
  method BuildGraph(ins: seq<Instruction>) returns (all: set<char>, deps: map<char, set<char>>)
    ensures all == AllSteps(ins)
    ensures deps.Keys == Waiting(ins) && forall b :: b in deps ==> deps[b] == Prereqs(ins, b)
  {
    all := {};
    deps := map[];
    var i := 0;
    while i < |ins|
      invariant 0 <= i <= |ins|
      invariant all == AllSteps(ins[..i])
      invariant DepsOf(ins[..i], deps)
    {
      var one, two := ins[i].before, ins[i].after;
      AllStep(ins, i);
      DepsStep(ins, i, deps);
      all := all + {one};
      all := all + {two};
      var dependentSteps: set<char>;
      if two in deps {
        dependentSteps := deps[two];
      } else {
        dependentSteps := {};
      }
      dependentSteps := dependentSteps + {one};
      deps := deps[two := dependentSteps];
      i := i + 1;
    }
    assert ins[..i] == ins;
  }

  /** One more instruction adds its two steps to the step set. */
  lemma AllStep(ins: seq<Instruction>, i: nat)
    requires i < |ins|
    ensures AllSteps(ins[..i + 1]) == AllSteps(ins[..i]) + {ins[i].before} + {ins[i].after}
  {
    var p, q := ins[..i], ins[..i + 1];
    assert forall k :: 0 <= k < i ==> q[k] == p[k];
    assert q[i] == ins[i];
  }

  /** One more instruction adds its `before` to the entry of its `after`. */
  lemma DepsStep(ins: seq<Instruction>, i: nat, deps: map<char, set<char>>)
    requires i < |ins| && DepsOf(ins[..i], deps)
    ensures DepsOf(ins[..i + 1], deps[ins[i].after :=
      (if ins[i].after in deps then deps[ins[i].after] else {}) + {ins[i].before}])
  {
    var p, q := ins[..i], ins[..i + 1];
    assert forall k :: 0 <= k < i ==> q[k] == p[k];
    assert q[i] == ins[i];
    assert Waiting(q) == Waiting(p) + {ins[i].after};
    assert forall b :: Prereqs(q, b) == Prereqs(p, b) + (if b == ins[i].after then {ins[i].before} else {});
    assert ins[i].after !in deps ==> Prereqs(p, ins[i].after) == {};
  }

  /** The graph built from any instructions has the shape the schedulers rely on. */
  lemma BuiltGraph(ins: seq<Instruction>, all: set<char>, deps: map<char, set<char>>)
    requires all == AllSteps(ins)
    requires deps.Keys == Waiting(ins) && forall b :: b in deps ==> deps[b] == Prereqs(ins, b)
    ensures Graph(all, deps)
  {
    forall k | k in deps
      ensures deps[k] != {} && deps[k] <= all && k in all
    {
      var i :| 0 <= i < |ins| && ins[i].after == k;
      assert ins[i].before in Prereqs(ins, k);
    }
  }

  // Part 1: the order of the steps (lines 60-94).

  /** The steps that can be done once the steps of `visited` are: not done yet, and either waiting
      for nothing or with every prerequisite done. */
  function Ready(all: set<char>, deps: map<char, set<char>>, visited: set<char>): set<char>
  {
    set s | s in all && s !in visited && (s !in deps || deps[s] <= visited)
  }

  /** The steps that a scan of the dependency map (lines 78-89 and 150-166) adds: those that wait,
      are not done, not in progress and have every prerequisite done. */
  function Newly(deps: map<char, set<char>>, visited: set<char>, busy: set<char>): set<char>
  {
    set s | s in deps && s !in visited && s !in busy && deps[s] <= visited
  }

  /** The order of part 1 from the done steps `visited` on: the least ready step, then the order
      from there, until no step is ready. */
  ghost function TopoOrder(all: set<char>, deps: map<char, set<char>>, visited: set<char>): (r: seq<char>)
    ensures r == [] <==> Ready(all, deps, visited) == {}
    ensures r != [] ==> r[0] in Ready(all, deps, visited)
    decreases all - visited
  {
    var ready := Ready(all, deps, visited);
    if ready == {} then []
    else
      var m := MinOf(ready);
      [m] + TopoOrder(all, deps, visited + {m})
  }

  /** The steps taken before position `i` of an order that starts with `m`. */
  lemma PrefixElems(m: char, rest: seq<char>, i: nat)
    requires i <= |rest|
    ensures Elems(([m] + rest)[..i + 1]) == {m} + Elems(rest[..i])
  {
    assert ([m] + rest)[..i + 1] == [m] + rest[..i];
  }

  /** The order takes only steps that were not done, each once. */
  lemma {:induction false} TopoFresh(all: set<char>, deps: map<char, set<char>>, visited: set<char>)
    ensures Elems(TopoOrder(all, deps, visited)) <= all - visited
    ensures Distinct(TopoOrder(all, deps, visited))
    decreases all - visited
  {
    var ready := Ready(all, deps, visited);
    if ready != {} {
      var m := MinOf(ready);
      var rest := TopoOrder(all, deps, visited + {m});
      TopoFresh(all, deps, visited + {m});
      var r := [m] + rest;
      assert r == TopoOrder(all, deps, visited);
      assert Elems(r) == {m} + Elems(rest);
      forall i, j | 0 <= i < j < |r|
        ensures r[i] != r[j]
      {
        assert r[j] == rest[j - 1] && rest[j - 1] in Elems(rest);
        if i > 0 {
          assert r[i] == rest[i - 1];
        }
      }
    }
  }

  /** Each step of the order is, when it is taken, ready and the alphabetically first ready step:
      its prerequisites are done and no smaller step could be taken. */
  lemma {:induction false} TopoLeast(all: set<char>, deps: map<char, set<char>>, visited: set<char>, i: nat)
    requires i < |TopoOrder(all, deps, visited)|
    ensures TopoOrder(all, deps, visited)[i] in Ready(all, deps, visited + Elems(TopoOrder(all, deps, visited)[..i]))
    ensures forall s :: s in Ready(all, deps, visited + Elems(TopoOrder(all, deps, visited)[..i])) ==>
      TopoOrder(all, deps, visited)[i] <= s
    decreases all - visited
  {
    var ready := Ready(all, deps, visited);
    var m := MinOf(ready);
    var rest := TopoOrder(all, deps, visited + {m});
    var r := [m] + rest;
    assert r == TopoOrder(all, deps, visited);
    if i == 0 {
      assert Elems(r[..0]) == {};
      assert visited + Elems(r[..0]) == visited;
    } else {
      TopoLeast(all, deps, visited + {m}, i - 1);
      PrefixElems(m, rest, i - 1);
      assert visited + Elems(r[..i]) == (visited + {m}) + Elems(rest[..i - 1]);
      assert r[i] == rest[i - 1];
    }
  }

  /** A step of the order is taken only after every step it waits for. */
  lemma TopoPrereqs(all: set<char>, deps: map<char, set<char>>, visited: set<char>, i: nat)
    requires i < |TopoOrder(all, deps, visited)|
    requires TopoOrder(all, deps, visited)[i] in deps
    ensures deps[TopoOrder(all, deps, visited)[i]] <= visited + Elems(TopoOrder(all, deps, visited)[..i])
  {
    TopoLeast(all, deps, visited, i);
  }

  /** When the order ends, every step not done waits for a step that is not done either: with a
      cycle in the instructions, the steps on it are never taken. */
  lemma {:induction false} TopoStuck(all: set<char>, deps: map<char, set<char>>, visited: set<char>)
    ensures forall s :: s in all && s !in visited + Elems(TopoOrder(all, deps, visited)) ==>
      s in deps && !(deps[s] <= visited + Elems(TopoOrder(all, deps, visited)))
    decreases all - visited
  {
    var ready := Ready(all, deps, visited);
    if ready == {} {
      assert Elems(TopoOrder(all, deps, visited)) == {};
      forall s | s in all && s !in visited + Elems(TopoOrder(all, deps, visited))
        ensures s in deps && !(deps[s] <= visited + Elems(TopoOrder(all, deps, visited)))
      {
        assert s !in ready;
      }
    } else {
      var m := MinOf(ready);
      var rest := TopoOrder(all, deps, visited + {m});
      TopoStuck(all, deps, visited + {m});
      assert TopoOrder(all, deps, visited) == [m] + rest;
      assert visited + Elems(TopoOrder(all, deps, visited)) == (visited + {m}) + Elems(rest);
    }
  }

  /** The order from the start holds every step exactly when it is as long as the step set, which is
      the check of lines 92-94. */
  lemma TopoComplete(all: set<char>, deps: map<char, set<char>>)
    ensures |TopoOrder(all, deps, {})| == |all| <==> Elems(TopoOrder(all, deps, {})) == all
  {
    var r := TopoOrder(all, deps, {});
    TopoFresh(all, deps, {});
    DistinctCard(r);
    if |r| == |all| {
      SubsetCard(Elems(r), all);
    }
  }

  /** A subset as large as its superset is the whole set. */
  lemma SubsetCard(a: set<char>, b: set<char>)
    requires a <= b && |a| == |b|
    ensures a == b
  {
    assert a * b == a && a + b == b;
    assert |b - a| == 0;
    assert b - a == {};
  }

  /** How the order goes on from the done steps `visited`. */
  lemma TopoStep(all: set<char>, deps: map<char, set<char>>, visited: set<char>)
    ensures Ready(all, deps, visited) == {} ==> TopoOrder(all, deps, visited) == []
    ensures Ready(all, deps, visited) != {} ==>
      (TopoOrder(all, deps, visited) ==
       [MinOf(Ready(all, deps, visited))] + TopoOrder(all, deps, visited + {MinOf(Ready(all, deps, visited))}))
  {
  }

  /** The starting array (line 63): the steps that wait for nothing, in order. */
  method Roots(all: set<char>, deps: map<char, set<char>>) returns (toVisit: seq<char>)
    ensures Strict(toVisit) && Elems(toVisit) == set s | s in all && s !in deps
  {
    toVisit := [];
    var left := all;
    while left != {}
      invariant left <= all
      invariant Strict(toVisit) && Elems(toVisit) == set s | s in all - left && s !in deps
      decreases left
    {
      var s :| s in left;
      assert s !in Elems(toVisit);
      left := left - {s};
      if s !in deps {
        InsertSortedStrict(s, toVisit);
        toVisit := InsertSorted(s, toVisit);
      }
    }
  }

  /** With a graph built from instructions, the steps that wait for nothing are exactly the steps
      ready at the start. */
  lemma RootsReady(all: set<char>, deps: map<char, set<char>>)
    requires Graph(all, deps)
    ensures (set s | s in all && s !in deps) == Ready(all, deps, {})
  {
  }

  /** The scan of the dependency map (lines 78-89, and 150-166 with the steps in progress as
      `busy`): each waiting step that is not done, not in progress, not queued and has every
      prerequisite done is appended to the queue, which is sorted again. The map is visited in no
      fixed order, so the scan picks its next key freely. */
  method ScanReady(deps: map<char, set<char>>, visited: set<char>, busy: set<char>, toVisit: seq<char>)
    returns (r: seq<char>)
    requires Strict(toVisit)
    ensures Strict(r) && Elems(r) == Elems(toVisit) + Newly(deps, visited, busy)
  {
    r := toVisit;
    var keys := deps.Keys;
    ghost var seen: set<char> := {};
    while keys != {}
      invariant keys + seen == deps.Keys && keys !! seen
      invariant Strict(r) && Elems(r) == Elems(toVisit) + (Newly(deps, visited, busy) * seen)
      decreases keys
    {
      var step :| step in keys;
      keys := keys - {step};
      seen := seen + {step};
      if step in visited || step in busy {
        continue;
      }
      if step !in r && deps[step] <= visited {
        InsertSortedStrict(step, r);
        r := InsertSorted(step, r);
      }
    }
  }

  /** After step `m`, the least ready one, is done, the ready steps are the others that were ready
      and those that a scan adds. */
  lemma ReadyStep(all: set<char>, deps: map<char, set<char>>, visited: set<char>, m: char)
    requires Graph(all, deps) && m in Ready(all, deps, visited)
    ensures Ready(all, deps, visited + {m}) == (Ready(all, deps, visited) - {m}) + Newly(deps, visited + {m}, {})
  {
  }

  /** Part 1 (lines 60-94): repeatedly take the first queued step, record it, and scan for steps
      that became ready; the program stops with an error when not every step was done, which happens
      when the instructions contain a cycle. */
  method Order(all: set<char>, deps: map<char, set<char>>) returns (r: Option<seq<char>>)
    requires Graph(all, deps)
    ensures r == (if |TopoOrder(all, deps, {})| == |all| then Some(TopoOrder(all, deps, {})) else None)
  {
    var toVisit := Roots(all, deps);
    RootsReady(all, deps);
    var visited: set<char> := {};
    var finalOrder: seq<char> := [];
    while toVisit != []
      invariant visited <= all
      invariant Strict(toVisit) && Elems(toVisit) == Ready(all, deps, visited)
      invariant finalOrder + TopoOrder(all, deps, visited) == TopoOrder(all, deps, {})
      decreases all - visited
    {
      var current := toVisit[0];
      StrictHead(toVisit);
      StrictTail(toVisit);
      toVisit := toVisit[1..];
      ghost var before := visited;
      ghost var rest := TopoOrder(all, deps, before + {current});
      TopoStep(all, deps, before);
      assert (finalOrder + [current]) + rest == finalOrder + ([current] + rest);
      finalOrder := finalOrder + [current];
      visited := visited + {current};
      ReadyStep(all, deps, before, current);
      toVisit := ScanReady(deps, visited, {}, toVisit);
    }
    TopoStep(all, deps, visited);
    assert finalOrder == TopoOrder(all, deps, {}) by {
      assert finalOrder + [] == finalOrder;
    }
    if |finalOrder| != |all| {
      return None;
    }
    return Some(finalOrder);
  }
}
