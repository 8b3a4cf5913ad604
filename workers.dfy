/**
 * Day 7, part 2: the same steps done by a crew of workers (lines 99-189). A step takes
 * `additionalTime` seconds plus its position in the alphabet; every second, the steps finishing now
 * are recorded in alphabetical order, the steps that became ready are queued, and each idle worker
 * takes the first queued step.
 */
module Workers {
  import opened Wrappers
  import opened Steps

  /** A step in progress and the second at which it is finished (lines 101-104). */
  datatype Task = Task(step: char, completedAt: int)

  /** The state of the loop of lines 130-189: the workers, the queue `toVisit`, the done steps, the
      order in which they were done, and the current second. */
  datatype Floor = Floor(workers: seq<Option<Task>>, toVisit: seq<char>, visited: set<char>,
                         order: seq<char>, time: int)

  /** The workers and the queue after the idle workers took their steps. */
  datatype Crew = Crew(workers: seq<Option<Task>>, toVisit: seq<char>)

  /** How the scheduling loop ends: every step done (with the second after the last tick), a trap
      in the duration arithmetic, or out of fuel (the loop of the program does not stop when the
      instructions hold a cycle). */
  datatype Outcome = Finished(time: int, order: seq<char>) | Trapped | Unfinished

  // Configuration (lines 113-115).

  /** The puzzle example has exactly 6 steps, and then no additional time. */
  function Additional(all: set<char>): int
  {
    if |all| == 6 then 0 else 60
  }

  /** The puzzle example has 2 workers, the real puzzle 5. */
  function CrewSize(all: set<char>): nat
  {
    if |all| == 6 then 2 else 5
  }

  /** The duration of a step (lines 174-175): its code point minus 64, which traps as an unsigned
      32-bit subtraction below 64, plus the additional time. */
  function Duration(step: char, extra: int): (d: Option<int>)
    ensures d.Some? <==> step as int >= 64
    ensures d.Some? ==> d.value - extra == step as int - 64
  {
    if step as int < 64 then None else Some(extra + (step as int - 64))
  }

  // The workers.

  /** A worker whose task finishes at second `t`. */
  predicate Finishes(w: Option<Task>, t: int)
  {
    w.Some? && w.value.completedAt == t
  }

  /** The steps in progress. */
  function Busy(ws: seq<Option<Task>>): set<char>
  {
    set i | 0 <= i < |ws| && ws[i].Some? :: ws[i].value.step
  }

  /** The steps whose tasks finish at second `t`. */
  function Finishing(ws: seq<Option<Task>>, t: int): set<char>
  {
    set i | 0 <= i < |ws| && Finishes(ws[i], t) :: ws[i].value.step
  }

  /** No two workers do the same step. */
  predicate WorkersDistinct(ws: seq<Option<Task>>)
  {
    forall i, j :: 0 <= i < j < |ws| && ws[i].Some? && ws[j].Some? ==> ws[i].value.step != ws[j].value.step
  }

  /** The steps finishing at second `t`, in worker order (lines 132-139). */
  function Completed(ws: seq<Option<Task>>, t: int): seq<char>
    decreases |ws|
  {
    if ws == [] then []
    else
      var n := |ws| - 1;
      Completed(ws[..n], t) + (if Finishes(ws[n], t) then [ws[n].value.step] else [])
  }

  /** The workers with the finishing tasks removed. */
  function Freed(ws: seq<Option<Task>>, t: int): (r: seq<Option<Task>>)
  {
    seq(|ws|, i requires 0 <= i < |ws| => if Finishes(ws[i], t) then None else ws[i])
  }

  /** The completed array holds exactly the finishing steps. */
  lemma {:induction false} CompletedSteps(ws: seq<Option<Task>>, t: int)
    ensures Elems(Completed(ws, t)) == Finishing(ws, t)
    decreases |ws|
  {
    if ws != [] {
      var n := |ws| - 1;
      CompletedSteps(ws[..n], t);
      var tail := if Finishes(ws[n], t) then [ws[n].value.step] else [];
      assert Elems(Completed(ws, t)) == Elems(Completed(ws[..n], t)) + Elems(tail);
      forall x | x in Finishing(ws, t)
        ensures x in Finishing(ws[..n], t) + Elems(tail)
      {
        var i :| 0 <= i < |ws| && Finishes(ws[i], t) && ws[i].value.step == x;
        if i < n {
          assert ws[..n][i] == ws[i];
        }
      }
      forall x | x in Finishing(ws[..n], t)
        ensures x in Finishing(ws, t)
      {
        var i :| 0 <= i < n && Finishes(ws[..n][i], t) && ws[..n][i].value.step == x;
        assert ws[i] == ws[..n][i];
      }
    }
  }

  /** With every step done by at most one worker, no step completes twice. */
  lemma {:induction false} CompletedDistinct(ws: seq<Option<Task>>, t: int)
    requires WorkersDistinct(ws)
    ensures Distinct(Completed(ws, t))
    decreases |ws|
  {
    if ws != [] {
      var n := |ws| - 1;
      var pre := ws[..n];
      assert WorkersDistinct(pre) by {
        forall i, j | 0 <= i < j < n && pre[i].Some? && pre[j].Some?
          ensures pre[i].value.step != pre[j].value.step
        {
          assert pre[i] == ws[i] && pre[j] == ws[j];
        }
      }
      CompletedDistinct(pre, t);
      if Finishes(ws[n], t) {
        CompletedSteps(pre, t);
        var x := ws[n].value.step;
        assert x !in Finishing(pre, t) by {
          forall i | 0 <= i < n && Finishes(pre[i], t)
            ensures pre[i].value.step != x
          {
            assert pre[i] == ws[i];
          }
        }
        var c := Completed(pre, t);
        var r := c + [x];
        forall i, j | 0 <= i < j < |r|
          ensures r[i] != r[j]
        {
          if j == |c| {
            assert r[i] == c[i] && c[i] in Elems(c);
          } else {
            assert r[i] == c[i] && r[j] == c[j];
          }
        }
      }
    }
  }

  /** Freeing the finishing workers leaves the other steps in progress, and none finishing. */
  lemma FreedBusy(ws: seq<Option<Task>>, t: int)
    requires WorkersDistinct(ws)
    ensures Finishing(ws, t) <= Busy(ws)
    ensures Busy(Freed(ws, t)) == Busy(ws) - Finishing(ws, t)
    ensures WorkersDistinct(Freed(ws, t))
  {
    var fr := Freed(ws, t);
    forall x | x in Busy(fr)
      ensures x in Busy(ws) - Finishing(ws, t)
    {
      var i :| 0 <= i < |fr| && fr[i].Some? && fr[i].value.step == x;
      assert ws[i] == fr[i] && !Finishes(ws[i], t);
    }
    forall x | x in Busy(ws) - Finishing(ws, t)
      ensures x in Busy(fr)
    {
      var i :| 0 <= i < |ws| && ws[i].Some? && ws[i].value.step == x;
      assert fr[i] == ws[i];
    }
  }

  /** When no task finishes, freeing changes nothing. */
  lemma FreedNone(ws: seq<Option<Task>>, t: int)
    requires Finishing(ws, t) == {}
    ensures Freed(ws, t) == ws
  {
    assert forall i :: 0 <= i < |ws| && Finishes(ws[i], t) ==> ws[i].value.step in Finishing(ws, t);
  }

  /** Collecting the finishing tasks (lines 132-139): each worker whose task finishes now is
      recorded and made idle. */
  method CollectDone(ws: seq<Option<Task>>, t: int) returns (done: seq<char>, workers: seq<Option<Task>>)
    ensures done == Completed(ws, t) && workers == Freed(ws, t)
  {
    done := [];
    workers := ws;
    var idx := 0;
    while idx < |ws|
      invariant 0 <= idx <= |ws| && |workers| == |ws|
      invariant done == Completed(ws[..idx], t)
      invariant forall i :: 0 <= i < idx ==> workers[i] == (if Finishes(ws[i], t) then None else ws[i])
      invariant forall i :: idx <= i < |ws| ==> workers[i] == ws[i]
    {
      assert ws[..idx + 1][..idx] == ws[..idx];
      if workers[idx].Some? && workers[idx].value.completedAt == t {
        done := done + [workers[idx].value.step];
        workers := workers[idx := None];
      }
      idx := idx + 1;
    }
    assert ws[..idx] == ws;
  }

  /** `sorted()` on an array of distinct steps: here by insertion into a sorted array. */
  method SortSteps(s: seq<char>) returns (r: seq<char>)
    requires Distinct(s)
    ensures r == SortedOf(Elems(s))
  {
    r := [];
    var k := 0;
    while k < |s|
      invariant 0 <= k <= |s|
      invariant Strict(r) && Elems(r) == Elems(s[..k])
    {
      assert s[k] !in Elems(s[..k]);
      InsertSortedStrict(s[k], r);
      r := InsertSorted(s[k], r);
      assert s[..k + 1] == s[..k] + [s[k]];
      k := k + 1;
    }
    assert s[..k] == s;
    StrictSorted(r);
  }

  // One second of the loop.

  /** The floor after the finishing tasks are recorded (lines 132-167): when any finished, they are
      appended to the order in alphabetical order and marked done, and the scan queues the steps
      that are waiting, not done, not in progress, and whose prerequisites are all done. */
  ghost function Settled(deps: map<char, set<char>>, f: Floor): (r: Floor)
    ensures r.time == f.time && |r.workers| == |f.workers|
  {
    var done := Completed(f.workers, f.time);
    var freed := Freed(f.workers, f.time);
    if done == [] then Floor(freed, f.toVisit, f.visited, f.order, f.time)
    else
      var visited := f.visited + Elems(done);
      Floor(freed, SortedOf(Elems(f.toVisit) + Newly(deps, visited, Busy(freed))), visited,
            f.order + SortedOf(Elems(done)), f.time)
  }

  /** Recording the finished tasks leaves no worker on a finished task, only appends to the order,
      and adds exactly the finishing steps to it. */
  lemma SettledShape(deps: map<char, set<char>>, f: Floor)
    ensures forall i :: 0 <= i < |Settled(deps, f).workers| ==> !Finishes(Settled(deps, f).workers[i], f.time)
    ensures |f.order| <= |Settled(deps, f).order| && Settled(deps, f).order[..|f.order|] == f.order
    ensures Elems(Settled(deps, f).order) == Elems(f.order) + Finishing(f.workers, f.time)
  {
    CompletedSteps(f.workers, f.time);
    SortedOfMeaning(Elems(Completed(f.workers, f.time)));
  }

  /** Adds a worker in front of the crew a later assignment produced. */
  function Prepend(w: Option<Task>, r: Option<Crew>): Option<Crew>
  {
    match r
    case None => None
    case Some(c) => Some(Crew([w] + c.workers, c.toVisit))
  }

  /** The scheduling of lines 170-180: each idle worker, in order, takes the first queued step
      and finishes it after its duration; a duration that traps stops everything. */
  function Assign(ws: seq<Option<Task>>, tv: seq<char>, t: int, extra: int): (r: Option<Crew>)
    ensures r.Some? ==> |r.value.workers| == |ws|
    decreases |ws|
  {
    if ws == [] then Some(Crew([], tv))
    else if ws[0].None? && tv != [] then
      match Duration(tv[0], extra)
      case None => None
      case Some(d) => Prepend(Some(Task(tv[0], t + d)), Assign(ws[1..], tv[1..], t, extra))
    else Prepend(ws[0], Assign(ws[1..], tv, t, extra))
  }

  /** One second of the loop (lines 130-188): record the finished tasks, assign the idle workers,
      and advance the clock. */
  ghost function Advance(deps: map<char, set<char>>, extra: int, f: Floor): (r: Option<Floor>)
    ensures r.Some? ==> r.value.time == f.time + 1 && |r.value.workers| == |f.workers|
  {
    Place(Settled(deps, f), extra)
  }

  /** A second that does not trap only appends to the order. */
  lemma AdvanceExtends(deps: map<char, set<char>>, extra: int, f: Floor)
    requires Advance(deps, extra, f).Some?
    ensures |f.order| <= |Advance(deps, extra, f).value.order|
    ensures Advance(deps, extra, f).value.order[..|f.order|] == f.order
  {
    SettledShape(deps, f);
  }

  /** The idle workers take their steps and the clock advances (lines 170-188). */
  function Place(s: Floor, extra: int): Option<Floor>
  {
    match Assign(s.workers, s.toVisit, s.time, extra)
    case None => None
    case Some(c) => Some(Floor(c.workers, c.toVisit, s.visited, s.order, s.time + 1))
  }

  /** The state before the loop (lines 117-125): idle workers, the steps that wait for nothing
      queued in order, nothing done, second 0. */
  ghost function Start(all: set<char>, deps: map<char, set<char>>): Floor
  {
    Floor(seq(CrewSize(all), _ => None), SortedOf(set s | s in all && s !in deps), {}, [], 0)
  }

  /** The loop of lines 130-189, for at most `fuel` seconds: it stops when as many steps are done
      as there are steps. */
  ghost function RunFloor(all: set<char>, deps: map<char, set<char>>, extra: int, f: Floor, fuel: nat): (r: Outcome)
    ensures r.Finished? ==> |r.order| == |all| && f.time <= r.time
    decreases fuel, 0
  {
    if |f.order| == |all| then Finished(f.time, f.order)
    else if fuel == 0 then Unfinished
    else Follow(all, deps, extra, Advance(deps, extra, f), fuel - 1)
  }

  /** The loop after one second: a trap ends it, otherwise it goes on from the new state. */
  ghost function Follow(all: set<char>, deps: map<char, set<char>>, extra: int, next: Option<Floor>, fuel: nat): (r: Outcome)
    ensures r.Finished? ==> next.Some? && |r.order| == |all| && next.value.time <= r.time
    decreases fuel, 1
  {
    match next
    case None => Trapped
    case Some(g) => RunFloor(all, deps, extra, g, fuel)
  }

  /** A finished run extends the order it started with. */
  lemma {:induction false} RunExtends(all: set<char>, deps: map<char, set<char>>, extra: int, f: Floor, fuel: nat)
    requires RunFloor(all, deps, extra, f, fuel).Finished?
    ensures |f.order| <= |RunFloor(all, deps, extra, f, fuel).order|
    ensures RunFloor(all, deps, extra, f, fuel).order[..|f.order|] == f.order
    decreases fuel
  {
    if |f.order| != |all| {
      var g := Advance(deps, extra, f).value;
      AdvanceExtends(deps, extra, f);
      RunExtends(all, deps, extra, g, fuel - 1);
      var o := RunFloor(all, deps, extra, f, fuel).order;
      assert o == RunFloor(all, deps, extra, g, fuel - 1).order;
      assert o[..|f.order|] == o[..|g.order|][..|f.order|];
    }
  }

  // What the loop keeps.

  /** Every step done has its prerequisites done earlier. */
  predicate PrereqsFirst(deps: map<char, set<char>>, order: seq<char>)
  {
    forall i :: 0 <= i < |order| && order[i] in deps ==> deps[order[i]] <= Elems(order[..i])
  }

  /** The invariant of the loop: the queue is sorted without repeats, no two workers share a step,
      the queued and the busy steps are apart and are together exactly the ready steps, and the
      order holds each done step once, after its prerequisites. */
  ghost predicate FloorOk(all: set<char>, deps: map<char, set<char>>, f: Floor)
  {
    Strict(f.toVisit) && WorkersDistinct(f.workers) && Busy(f.workers) !! Elems(f.toVisit) &&
    Elems(f.toVisit) + Busy(f.workers) == Ready(all, deps, f.visited) &&
    f.visited <= all && Elems(f.order) == f.visited && Distinct(f.order) && PrereqsFirst(deps, f.order)
  }

  /** The steps of a workers array with one more worker in front. */
  lemma BusyCons(w: Option<Task>, ws: seq<Option<Task>>)
    ensures Busy([w] + ws) == (if w.Some? then {w.value.step} else {}) + Busy(ws)
  {
    var r := [w] + ws;
    forall x | x in Busy(r)
      ensures x in (if w.Some? then {w.value.step} else {}) + Busy(ws)
    {
      var i :| 0 <= i < |r| && r[i].Some? && r[i].value.step == x;
      if i > 0 {
        assert r[i] == ws[i - 1];
      }
    }
    forall x | x in Busy(ws)
      ensures x in Busy(r)
    {
      var i :| 0 <= i < |ws| && ws[i].Some? && ws[i].value.step == x;
      assert r[i + 1] == ws[i];
    }
    if w.Some? {
      assert r[0] == w;
    }
  }

  /** The number of queued steps the idle workers took. */
  function Taken(ws: seq<Option<Task>>, tv: seq<char>, t: int, extra: int): int
    requires Assign(ws, tv, t, extra).Some?
  {
    |tv| - |Assign(ws, tv, t, extra).value.toVisit|
  }

  /** The idle workers take a prefix of the queue: what stays queued is a suffix of it. */
  lemma {:induction false} AssignQueue(ws: seq<Option<Task>>, tv: seq<char>, t: int, extra: int)
    requires Assign(ws, tv, t, extra).Some?
    ensures 0 <= Taken(ws, tv, t, extra) <= |tv|
    ensures Assign(ws, tv, t, extra).value.toVisit == tv[Taken(ws, tv, t, extra)..]
    decreases |ws|
  {
    if ws != [] {
      if ws[0].None? && tv != [] {
        AssignQueue(ws[1..], tv[1..], t, extra);
        assert tv[1..][Taken(ws[1..], tv[1..], t, extra)..] == tv[Taken(ws, tv, t, extra)..];
      } else {
        AssignQueue(ws[1..], tv, t, extra);
      }
    }
  }

  /** The steps in progress after the assignment are those before and the steps taken. */
  lemma {:induction false} AssignBusy(ws: seq<Option<Task>>, tv: seq<char>, t: int, extra: int)
    requires Assign(ws, tv, t, extra).Some?
    ensures 0 <= Taken(ws, tv, t, extra) <= |tv|
    ensures Busy(Assign(ws, tv, t, extra).value.workers) == Busy(ws) + Elems(tv[..Taken(ws, tv, t, extra)])
    decreases |ws|
  {
    AssignQueue(ws, tv, t, extra);
    if ws == [] {
      assert tv[..Taken(ws, tv, t, extra)] == [];
    } else if ws[0].None? && tv != [] {
      AssignBusy(ws[1..], tv[1..], t, extra);
      AssignBusyTake(ws, tv, t, extra);
    } else {
      AssignBusy(ws[1..], tv, t, extra);
      AssignBusyKeep(ws, tv, t, extra);
    }
  }

  /** The step of an idle first worker taking the first queued step. */
  lemma AssignBusyTake(ws: seq<Option<Task>>, tv: seq<char>, t: int, extra: int)
    requires ws != [] && ws[0].None? && tv != [] && Assign(ws, tv, t, extra).Some?
    requires 0 <= Taken(ws[1..], tv[1..], t, extra) <= |tv| - 1
    requires Busy(Assign(ws[1..], tv[1..], t, extra).value.workers) ==
      Busy(ws[1..]) + Elems(tv[1..][..Taken(ws[1..], tv[1..], t, extra)])
    ensures Busy(Assign(ws, tv, t, extra).value.workers) == Busy(ws) + Elems(tv[..Taken(ws, tv, t, extra)])
  {
    var c := Assign(ws, tv, t, extra).value;
    var d := Duration(tv[0], extra).value;
    var rest := Assign(ws[1..], tv[1..], t, extra).value;
    var k' := Taken(ws[1..], tv[1..], t, extra);
    var k := k' + 1;
    assert Taken(ws, tv, t, extra) == k;
    assert ws == [ws[0]] + ws[1..];
    BusyCons(ws[0], ws[1..]);
    assert c.workers == [Some(Task(tv[0], t + d))] + rest.workers;
    BusyCons(Some(Task(tv[0], t + d)), rest.workers);
    assert tv[..k] == [tv[0]] + tv[1..][..k'];
    assert Elems(tv[..k]) == {tv[0]} + Elems(tv[1..][..k']);
  }

  /** The step of a first worker that stays as it is. */
  lemma AssignBusyKeep(ws: seq<Option<Task>>, tv: seq<char>, t: int, extra: int)
    requires ws != [] && !(ws[0].None? && tv != []) && Assign(ws, tv, t, extra).Some?
    requires 0 <= Taken(ws[1..], tv, t, extra) <= |tv|
    requires Busy(Assign(ws[1..], tv, t, extra).value.workers) ==
      Busy(ws[1..]) + Elems(tv[..Taken(ws[1..], tv, t, extra)])
    ensures Busy(Assign(ws, tv, t, extra).value.workers) == Busy(ws) + Elems(tv[..Taken(ws, tv, t, extra)])
  {
    var c := Assign(ws, tv, t, extra).value;
    var rest := Assign(ws[1..], tv, t, extra).value;
    assert ws == [ws[0]] + ws[1..];
    BusyCons(ws[0], ws[1..]);
    assert c.workers == [ws[0]] + rest.workers;
    BusyCons(ws[0], rest.workers);
  }

  /** Busy workers keep their tasks, and each new task finishes after the duration of its step. */
  lemma {:induction false} AssignKeeps(ws: seq<Option<Task>>, tv: seq<char>, t: int, extra: int)
    requires Assign(ws, tv, t, extra).Some?
    ensures forall i :: 0 <= i < |ws| && ws[i].Some? ==> Assign(ws, tv, t, extra).value.workers[i] == ws[i]
    ensures forall i :: 0 <= i < |ws| && ws[i].None? && Assign(ws, tv, t, extra).value.workers[i].Some? ==>
      Assign(ws, tv, t, extra).value.workers[i].value.completedAt ==
      t + extra + (Assign(ws, tv, t, extra).value.workers[i].value.step as int - 64)
    decreases |ws|
  {
    if ws != [] {
      var c := Assign(ws, tv, t, extra).value;
      var tv' := if ws[0].None? && tv != [] then tv[1..] else tv;
      var rest := Assign(ws[1..], tv', t, extra).value;
      AssignKeeps(ws[1..], tv', t, extra);
      assert c.workers == [c.workers[0]] + rest.workers;
      forall i | 0 <= i < |ws| && ws[i].Some?
        ensures c.workers[i] == ws[i]
      {
        if i > 0 {
          assert c.workers[i] == rest.workers[i - 1] && ws[i] == ws[1..][i - 1];
        }
      }
      forall i | 0 <= i < |ws| && ws[i].None? && c.workers[i].Some?
        ensures c.workers[i].value.completedAt == t + extra + (c.workers[i].value.step as int - 64)
      {
        if i > 0 {
          assert c.workers[i] == rest.workers[i - 1] && ws[i] == ws[1..][i - 1];
        }
      }
    }
  }

  /** No worker stays idle while a step is queued. */
  lemma {:induction false} AssignFills(ws: seq<Option<Task>>, tv: seq<char>, t: int, extra: int)
    requires Assign(ws, tv, t, extra).Some?
    ensures Assign(ws, tv, t, extra).value.toVisit != [] ==>
      forall i :: 0 <= i < |ws| ==> Assign(ws, tv, t, extra).value.workers[i].Some?
    decreases |ws|
  {
    if ws != [] {
      var c := Assign(ws, tv, t, extra).value;
      if ws[0].None? && tv != [] {
        var rest := Assign(ws[1..], tv[1..], t, extra).value;
        AssignFills(ws[1..], tv[1..], t, extra);
        forall i | 0 <= i < |ws| && c.toVisit != []
          ensures c.workers[i].Some?
        {
          if i > 0 {
            assert c.workers[i] == rest.workers[i - 1];
          }
        }
      } else {
        var rest := Assign(ws[1..], tv, t, extra).value;
        AssignFills(ws[1..], tv, t, extra);
        assert c.workers == [ws[0]] + rest.workers;
        AssignQueue(ws, tv, t, extra);
        assert tv == [] ==> c.toVisit == [];
        forall i | 0 <= i < |ws| && c.toVisit != []
          ensures c.workers[i].Some?
        {
          if i > 0 {
            assert c.workers[i] == rest.workers[i - 1];
          }
        }
      }
    }
  }

  /** Steps taken from a queue without repeats and apart from the busy ones leave no two workers on
      the same step. */
  lemma {:induction false} AssignDistinct(ws: seq<Option<Task>>, tv: seq<char>, t: int, extra: int)
    requires Assign(ws, tv, t, extra).Some?
    requires WorkersDistinct(ws) && Distinct(tv) && Busy(ws) !! Elems(tv)
    ensures WorkersDistinct(Assign(ws, tv, t, extra).value.workers)
    decreases |ws|
  {
    if ws != [] {
      var c := Assign(ws, tv, t, extra).value;
      var tail := ws[1..];
      assert WorkersDistinct(tail) by {
        forall i, j | 0 <= i < j < |tail| && tail[i].Some? && tail[j].Some?
          ensures tail[i].value.step != tail[j].value.step
        {
          assert tail[i] == ws[i + 1] && tail[j] == ws[j + 1];
        }
      }
      assert ws == [ws[0]] + tail;
      BusyCons(ws[0], tail);
      var tv' := if ws[0].None? && tv != [] then tv[1..] else tv;
      var rest := Assign(tail, tv', t, extra).value;
      assert Distinct(tv') && Elems(tv') <= Elems(tv) by {
        if tv' != tv {
          assert forall i :: 0 <= i < |tv'| ==> tv'[i] == tv[i + 1];
        }
      }
      AssignDistinct(tail, tv', t, extra);
      AssignBusy(tail, tv', t, extra);
      var k := Taken(tail, tv', t, extra);
      assert c.workers == [c.workers[0]] + rest.workers;
      var head := c.workers[0];
      assert head.Some? ==> head.value.step !in Busy(rest.workers) by {
        if head.Some? {
          if ws[0].None? {
            assert head.value.step == tv[0] && tv[0] !in Busy(tail);
            assert tv[0] !in Elems(tv'[..k]) by {
              forall i | 0 <= i < k
                ensures tv'[..k][i] != tv[0]
              {
                assert tv'[..k][i] == tv[i + 1];
              }
            }
          } else {
            assert head == ws[0];
            assert ws[0].value.step !in Busy(tail) by {
              forall i | 0 <= i < |tail| && tail[i].Some?
                ensures tail[i].value.step != ws[0].value.step
              {
                assert tail[i] == ws[i + 1];
              }
            }
            assert ws[0].value.step !in Elems(tv'[..k]) by {
              forall i | 0 <= i < k
                ensures tv'[..k][i] != ws[0].value.step
              {
                assert tv'[..k][i] in Elems(tv);
                assert ws[0].value.step in Busy(ws);
              }
            }
          }
        }
      }
      forall i, j | 0 <= i < j < |c.workers| && c.workers[i].Some? && c.workers[j].Some?
        ensures c.workers[i].value.step != c.workers[j].value.step
      {
        assert c.workers[j] == rest.workers[j - 1];
        if i == 0 {
          assert rest.workers[j - 1].value.step in Busy(rest.workers);
        } else {
          assert c.workers[i] == rest.workers[i - 1];
        }
      }
    }
  }

  // The loop keeps its invariant.

  /** Two arrays without repeats and without common steps make one without repeats. */
  lemma DistinctAppend(a: seq<char>, b: seq<char>)
    requires Distinct(a) && Distinct(b) && Elems(a) !! Elems(b)
    ensures Distinct(a + b) && Elems(a + b) == Elems(a) + Elems(b)
  {
    var r := a + b;
    forall i, j | 0 <= i < j < |r|
      ensures r[i] != r[j]
    {
      if j >= |a| {
        assert r[j] == b[j - |a|] && b[j - |a|] in Elems(b);
        if i < |a| {
          assert r[i] == a[i] && a[i] in Elems(a);
        } else {
          assert r[i] == b[i - |a|];
        }
      } else {
        assert r[i] == a[i] && r[j] == a[j];
      }
    }
  }

  /** Appending steps whose prerequisites are all in the order keeps prerequisites first. */
  lemma PrereqsAppend(deps: map<char, set<char>>, order: seq<char>, more: seq<char>)
    requires PrereqsFirst(deps, order)
    requires forall s :: s in Elems(more) && s in deps ==> deps[s] <= Elems(order)
    ensures PrereqsFirst(deps, order + more)
  {
    var r := order + more;
    forall i | 0 <= i < |r| && r[i] in deps
      ensures deps[r[i]] <= Elems(r[..i])
    {
      if i < |order| {
        assert r[..i] == order[..i];
      } else {
        assert r[i] == more[i - |order|] && more[i - |order|] in Elems(more);
        assert Elems(order) <= Elems(r[..i]) by {
          forall x | x in Elems(order)
            ensures x in Elems(r[..i])
          {
            var k :| 0 <= k < |order| && order[k] == x;
            assert r[..i][k] == x;
          }
        }
      }
    }
  }

  /** Recording the finished tasks keeps the invariant. */
  lemma SettleKeeps(all: set<char>, deps: map<char, set<char>>, f: Floor)
    requires Graph(all, deps) && FloorOk(all, deps, f)
    ensures FloorOk(all, deps, Settled(deps, f))
  {
    var done := Completed(f.workers, f.time);
    var freed := Freed(f.workers, f.time);
    CompletedSteps(f.workers, f.time);
    FreedBusy(f.workers, f.time);
    if done == [] {
      FreedNone(f.workers, f.time);
    } else {
      var d := Elems(done);
      var visited := f.visited + d;
      var busy := Busy(freed);
      var sorted := SortedOf(d);
      SortedOfMeaning(d);
      StrictDistinct(sorted);
      DistinctAppend(f.order, sorted);
      forall s | s in Elems(sorted) && s in deps
        ensures deps[s] <= Elems(f.order)
      {
        assert s in Ready(all, deps, f.visited);
      }
      PrereqsAppend(deps, f.order, sorted);
      var queued := SortedOf(Elems(f.toVisit) + Newly(deps, visited, busy));
      SortedOfMeaning(Elems(f.toVisit) + Newly(deps, visited, busy));
      assert Elems(queued) + busy == Ready(all, deps, visited) by {
        forall s | s in Ready(all, deps, visited)
          ensures s in Elems(queued) + busy
        {
          if s !in deps {
            assert s in Ready(all, deps, f.visited);
          } else if deps[s] <= f.visited {
            assert s in Ready(all, deps, f.visited);
          }
        }
        forall s | s in Elems(queued) + busy
          ensures s in Ready(all, deps, visited)
        {
          if s in Elems(f.toVisit) || s in busy {
            assert s in Ready(all, deps, f.visited);
          }
        }
      }
    }
  }

  /** The idle workers taking their steps keeps the invariant. */
  lemma AssignOk(all: set<char>, deps: map<char, set<char>>, f: Floor, extra: int)
    requires FloorOk(all, deps, f) && Assign(f.workers, f.toVisit, f.time, extra).Some?
    ensures FloorOk(all, deps, Floor(Assign(f.workers, f.toVisit, f.time, extra).value.workers,
                                     Assign(f.workers, f.toVisit, f.time, extra).value.toVisit,
                                     f.visited, f.order, f.time + 1))
  {
    var c := Assign(f.workers, f.toVisit, f.time, extra).value;
    AssignQueue(f.workers, f.toVisit, f.time, extra);
    AssignBusy(f.workers, f.toVisit, f.time, extra);
    StrictDistinct(f.toVisit);
    AssignDistinct(f.workers, f.toVisit, f.time, extra);
    StrictCut(f.toVisit, Taken(f.workers, f.toVisit, f.time, extra));
  }

  /** Cutting a strictly increasing array in two: the rest stays strictly increasing, and the two
      parts share no step. */
  lemma StrictCut(tv: seq<char>, k: int)
    requires Strict(tv) && 0 <= k <= |tv|
    ensures Strict(tv[k..])
    ensures Elems(tv) == Elems(tv[..k]) + Elems(tv[k..]) && Elems(tv[..k]) !! Elems(tv[k..])
  {
    StrictDistinct(tv);
    assert tv == tv[..k] + tv[k..];
    forall i, j | 0 <= i < j < |tv[..k]|
      ensures tv[..k][i] != tv[..k][j]
    {
    }
    forall i, j | 0 <= i < j < |tv[k..]|
      ensures tv[k..][i] < tv[k..][j]
    {
      assert tv[k..][i] == tv[k + i] && tv[k..][j] == tv[k + j];
    }
    forall x | x in Elems(tv[..k])
      ensures x !in Elems(tv[k..])
    {
      var i :| 0 <= i < k && tv[..k][i] == x;
      forall j | 0 <= j < |tv[k..]|
        ensures tv[k..][j] != x
      {
        assert tv[k..][j] == tv[k + j] && tv[i] == x;
      }
    }
  }

  /** One second keeps the invariant. */
  lemma AdvanceKeeps(all: set<char>, deps: map<char, set<char>>, extra: int, f: Floor)
    requires Graph(all, deps) && FloorOk(all, deps, f) && Advance(deps, extra, f).Some?
    ensures FloorOk(all, deps, Advance(deps, extra, f).value)
  {
    SettleKeeps(all, deps, f);
    AssignOk(all, deps, Settled(deps, f), extra);
  }

  /** The state before the loop satisfies the invariant. */
  lemma StartOk(all: set<char>, deps: map<char, set<char>>)
    requires Graph(all, deps)
    ensures FloorOk(all, deps, Start(all, deps))
  {
    RootsReady(all, deps);
    SortedOfMeaning(set s | s in all && s !in deps);
    var f := Start(all, deps);
    assert Busy(f.workers) == {};
    assert Elems(f.order) == {};
  }

  /** When the loop ends with every step done, the order holds each step exactly once, each after
      the steps it waits for. */
  lemma {:induction false} RunDone(all: set<char>, deps: map<char, set<char>>, extra: int, f: Floor, fuel: nat)
    requires Graph(all, deps) && FloorOk(all, deps, f)
    requires RunFloor(all, deps, extra, f, fuel).Finished?
    ensures Distinct(RunFloor(all, deps, extra, f, fuel).order)
    ensures Elems(RunFloor(all, deps, extra, f, fuel).order) == all
    ensures PrereqsFirst(deps, RunFloor(all, deps, extra, f, fuel).order)
    decreases fuel
  {
    if |f.order| == |all| {
      DistinctCard(f.order);
      SubsetCard(f.visited, all);
    } else {
      var g := Advance(deps, extra, f).value;
      AdvanceKeeps(all, deps, extra, f);
      RunDone(all, deps, extra, g, fuel - 1);
    }
  }

  /** Part 2 from the start: a finished schedule does every step once, after its prerequisites. */
  lemma ScheduleDone(all: set<char>, deps: map<char, set<char>>, fuel: nat)
    requires Graph(all, deps)
    requires RunFloor(all, deps, Additional(all), Start(all, deps), fuel).Finished?
    ensures Distinct(RunFloor(all, deps, Additional(all), Start(all, deps), fuel).order)
    ensures Elems(RunFloor(all, deps, Additional(all), Start(all, deps), fuel).order) == all
    ensures PrereqsFirst(deps, RunFloor(all, deps, Additional(all), Start(all, deps), fuel).order)
  {
    StartOk(all, deps);
    RunDone(all, deps, Additional(all), Start(all, deps), fuel);
  }

  // The loop, as the program runs it.

  /** The scheduling loop of lines 170-180 over the workers. */
  method AssignWork(ws: seq<Option<Task>>, tv: seq<char>, t: int, extra: int) returns (r: Option<Crew>)
    ensures r == Assign(ws, tv, t, extra)
  {
    var workers := ws;
    var toVisit := tv;
    var idx := 0;
    LiftNothing(Assign(ws, tv, t, extra));
    assert ws[0..] == ws && workers[..0] == [];
    while idx < |ws|
      invariant 0 <= idx <= |ws| && |workers| == |ws| && workers[idx..] == ws[idx..]
      invariant Assign(ws, tv, t, extra) == Lift(workers[..idx], Assign(ws[idx..], toVisit, t, extra))
    {
      ghost var later := ws[idx..];
      assert later[0] == ws[idx] && later[1..] == ws[idx + 1..];
      if workers[idx] == None && toVisit != [] {
        var step := toVisit[0];
        toVisit := toVisit[1..];
        if step as int < 64 {
          return None;
        }
        var completedAt := t + extra + (step as int - 64);
        LiftPrepend(workers[..idx], Some(Task(step, completedAt)), Assign(ws[idx + 1..], toVisit, t, extra));
        workers := workers[idx := Some(Task(step, completedAt))];
      } else {
        LiftPrepend(workers[..idx], workers[idx], Assign(ws[idx + 1..], toVisit, t, extra));
      }
      assert workers[..idx + 1] == workers[..idx] + [workers[idx]];
      idx := idx + 1;
    }
    assert workers[..idx] == workers && ws[idx..] == [];
    assert workers + [] == workers;
    return Some(Crew(workers, toVisit));
  }

  /** Puts the workers already scheduled in front of the crew the rest produces. */
  function Lift(pre: seq<Option<Task>>, r: Option<Crew>): Option<Crew>
  {
    match r
    case None => None
    case Some(c) => Some(Crew(pre + c.workers, c.toVisit))
  }

  /** With no worker scheduled yet, nothing is added. */
  lemma LiftNothing(r: Option<Crew>)
    ensures Lift([], r) == r
  {
    if r.Some? {
      assert [] + r.value.workers == r.value.workers;
    }
  }

  /** Scheduling one more worker in front of the rest is scheduling it after the earlier ones. */
  lemma LiftPrepend(pre: seq<Option<Task>>, w: Option<Task>, r: Option<Crew>)
    ensures Lift(pre, Prepend(w, r)) == Lift(pre + [w], r)
  {
    if r.Some? {
      assert pre + ([w] + r.value.workers) == (pre + [w]) + r.value.workers;
    }
  }

  /** Appending the finished steps to the order and marking them done (lines 143-146). */
  method Record(order: seq<char>, visited: set<char>, sorted: seq<char>)
    returns (order': seq<char>, visited': set<char>)
    ensures order' == order + sorted && visited' == visited + Elems(sorted)
  {
    order', visited' := order, visited;
    var k := 0;
    while k < |sorted|
      invariant 0 <= k <= |sorted|
      invariant order' == order + sorted[..k] && visited' == visited + Elems(sorted[..k])
    {
      assert sorted[..k + 1] == sorted[..k] + [sorted[k]];
      ElemsSnoc(sorted[..k], sorted[k]);
      order' := order' + [sorted[k]];
      visited' := visited' + {sorted[k]};
      k := k + 1;
    }
    assert sorted[..k] == sorted;
  }

  /** Recording the finished tasks (lines 132-167). */
  method Settle(deps: map<char, set<char>>, f: Floor) returns (s: Floor)
    requires Strict(f.toVisit) && WorkersDistinct(f.workers)
    ensures s == Settled(deps, f)
  {
    var done, workers := CollectDone(f.workers, f.time);
    var toVisit, visited, order := f.toVisit, f.visited, f.order;
    if done != [] {
      CompletedDistinct(f.workers, f.time);
      var sorted := SortSteps(done);
      SortedOfMeaning(Elems(done));
      order, visited := Record(order, visited, sorted);
      var inProcess := Busy(workers);
      toVisit := ScanReady(deps, visited, inProcess, toVisit);
      StrictSorted(toVisit);
    }
    s := Floor(workers, toVisit, visited, order, f.time);
  }

  /** One second of the loop (lines 132-188). */
  method Tick(deps: map<char, set<char>>, extra: int, f: Floor) returns (g: Option<Floor>)
    requires Strict(f.toVisit) && WorkersDistinct(f.workers)
    ensures g == Advance(deps, extra, f)
  {
    var s := Settle(deps, f);
    g := PlaceWork(s, extra);
  }

  /** The idle workers take their steps and the clock advances (lines 170-188). */
  method PlaceWork(s: Floor, extra: int) returns (g: Option<Floor>)
    ensures g == Place(s, extra)
  {
    var crew := AssignWork(s.workers, s.toVisit, s.time, extra);
    if crew.None? {
      return None;
    }
    return Some(Floor(crew.value.workers, crew.value.toVisit, s.visited, s.order, s.time + 1));
  }

  /** One second from a state that keeps the invariant leads to another. */
  method Second(all: set<char>, deps: map<char, set<char>>, extra: int, f: Floor) returns (g: Option<Floor>)
    requires Graph(all, deps) && FloorOk(all, deps, f)
    ensures g == Advance(deps, extra, f) && (g.Some? ==> FloorOk(all, deps, g.value))
  {
    g := Tick(deps, extra, f);
    if g.Some? {
      AdvanceKeeps(all, deps, extra, f);
    }
  }

  /** Part 2 (lines 112-189): the loop runs until as many steps are done as there are steps, here
      for at most `fuel` seconds. */
  method Schedule(all: set<char>, deps: map<char, set<char>>, fuel: nat) returns (r: Outcome)
    requires Graph(all, deps)
    ensures r == RunFloor(all, deps, Additional(all), Start(all, deps), fuel)
  {
    var workers: seq<Option<Task>> := seq(CrewSize(all), _ => None);
    var toVisit := Roots(all, deps);
    StrictSorted(toVisit);
    var f := Floor(workers, toVisit, {}, [], 0);
    assert f == Start(all, deps);
    StartOk(all, deps);
    r := Drive(all, deps, Additional(all), f, fuel);
  }

  /** One pass of the loop body (lines 130-188) from a state not yet done: the outcome when the loop
      stops here (out of fuel, or trapped), otherwise the next state, from which the run goes on the
      same. */
  method Round(all: set<char>, deps: map<char, set<char>>, extra: int, f: Floor, left: nat)
    returns (stop: Option<Outcome>, next: Floor)
    requires Graph(all, deps) && FloorOk(all, deps, f) && |f.order| != |all|
    ensures stop.Some? ==> stop.value == RunFloor(all, deps, extra, f, left)
    ensures stop.None? ==> left > 0 && FloorOk(all, deps, next)
    ensures stop.None? ==> RunFloor(all, deps, extra, next, left - 1) == RunFloor(all, deps, extra, f, left)
  {
    RunStep(all, deps, extra, f, left);
    next := f;
    if left == 0 {
      return Some(Unfinished), next;
    }
    var g := Second(all, deps, extra, f);
    if g.None? {
      return Some(Trapped), next;
    }
    stop, next := None, g.value;
  }

  /** The loop of lines 130-189 from a state that keeps the invariant, for at most `fuel` seconds. */
  method Drive(all: set<char>, deps: map<char, set<char>>, extra: int, start: Floor, fuel: nat) returns (r: Outcome)
    requires Graph(all, deps) && FloorOk(all, deps, start)
    ensures r == RunFloor(all, deps, extra, start, fuel)
  {
    var f := start;
    var left := fuel;
    while |f.order| != |all|
      invariant FloorOk(all, deps, f)
      invariant RunFloor(all, deps, extra, f, left) == RunFloor(all, deps, extra, start, fuel)
      decreases left
    {
      var stop, next := Round(all, deps, extra, f, left);
      if stop.Some? {
        return stop.value;
      }
      f, left := next, left - 1;
    }
    RunStep(all, deps, extra, f, left);
    return Finished(f.time, f.order);
  }

  /** How the loop goes on from one state. */
  lemma RunStep(all: set<char>, deps: map<char, set<char>>, extra: int, f: Floor, fuel: nat)
    ensures |f.order| == |all| ==> RunFloor(all, deps, extra, f, fuel) == Finished(f.time, f.order)
    ensures |f.order| != |all| && fuel == 0 ==> RunFloor(all, deps, extra, f, fuel) == Unfinished
    ensures |f.order| != |all| && fuel > 0 ==>
      RunFloor(all, deps, extra, f, fuel) == Follow(all, deps, extra, Advance(deps, extra, f), fuel - 1)
  {
  }
}
