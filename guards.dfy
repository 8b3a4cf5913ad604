/**
 * Day 4: repose record. The sorted log is replayed into one `Day` per guard shift, holding the
 * half-open minute ranges the guard slept. Minutes asleep are then tallied per guard, and the
 * minutes of the sleepiest guard are tallied per minute; each tally keeps the first entry whose
 * running total strictly exceeds the best so far. Lines are given already parsed and sorted; dates
 * are day numbers.
 */
module Guards {
  import opened Wrappers

  const IntMin: int := -0x8000_0000_0000_0000

  /** A half-open range of minutes `start ..< end`. */
  datatype Range = Range(start: int, end: int)

  /** One shift of one guard (lines 4-14). */
  datatype Day = Day(guardID: string, date: int, start: int, sleeps: seq<Range>)

  /** A parsed log line (lines 42-44 and 107-108). */
  datatype Entry =
    | Shift(date: int, hour: int, minute: int, id: string)
    | Asleep(minute: int)
    | Awake(minute: int)
    | Unparsed

  /** The length of a range, as `endIndex - startIndex`. */
  function Length(r: Range): int
  {
    r.end - r.start
  }

  /** The minutes asleep of a list of ranges. */
  function Span(sleeps: seq<Range>): int
  {
    if sleeps == [] then 0 else Span(sleeps[..|sleeps| - 1]) + Length(sleeps[|sleeps| - 1])
  }

  /** `minutesAsleep` (lines 11-13): the sum of the lengths of the ranges. */
  function MinutesAsleep(d: Day): int
  {
    Span(d.sleeps)
  }

  /** Every range of the shift runs forwards, as Swift's `..<` demands. */
  predicate Rested(d: Day)
  {
    forall i :: 0 <= i < |d.sleeps| ==> d.sleeps[i].start <= d.sleeps[i].end
  }

  /** One more range adds its length. */
  lemma MinutesAsleepAppend(d: Day, r: Range)
    ensures MinutesAsleep(d.(sleeps := d.sleeps + [r])) == MinutesAsleep(d) + r.end - r.start
  {
    assert (d.sleeps + [r])[..|d.sleeps|] == d.sleeps;
  }

  /** A shift with forward ranges sleeps no negative time. */
  lemma {:induction false} RestedAsleep(sleeps: seq<Range>)
    requires forall i :: 0 <= i < |sleeps| ==> sleeps[i].start <= sleeps[i].end
    ensures Span(sleeps) >= 0
  {
    if sleeps != [] {
      RestedAsleep(sleeps[..|sleeps| - 1]);
    }
  }

  /** `Day` equality and hashing (lines 24-34) look at the guard only. */
  predicate SameGuard(a: Day, b: Day)
  {
    a.guardID == b.guardID
  }

  // Replaying the log (lines 46-115).

  /** The start minute of a shift (line 84): shifts that begin before midnight start at a negative
      minute. */
  function StartMinute(hour: int, minute: int): (s: int)
    ensures 0 <= minute < 60 ==> -60 <= s < 60 && (s >= 0 <==> hour == 0)
  {
    if hour == 0 then minute else minute - 60
  }

  /** The date of a shift (lines 72-79): a shift that begins before midnight belongs to the next
      day. */
  function ShiftDate(date: int, hour: int): (d: int)
    ensures d == date <==> hour == 0
  {
    if hour != 0 then date + 1 else date
  }

  /** The variables of the replay: the open shift, the last minute asleep, the closed shifts. */
  datatype Log = Log(day: Option<Day>, asleep: Option<int>, days: seq<Day>)

  /** One line of the log (lines 63-109); `None` where the program stops with a fatal error. */
  function Read(log: Log, e: Entry): (r: Option<Log>)
    ensures e.Unparsed? ==> r.None?
    ensures e.Shift? ==> r.Some? && r.value.days == Close(log) && r.value.asleep == log.asleep
    ensures e.Shift? ==> r.value.day == Some(Day(e.id, ShiftDate(e.date, e.hour), StartMinute(e.hour, e.minute), []))
    ensures e.Asleep? ==> r.Some? && r.value.asleep == Some(e.minute) && r.value.day == log.day && r.value.days == log.days
    ensures e.Awake? ==> (r.None? <==> log.asleep.None? || log.day.None? || log.asleep.value > e.minute)
    ensures e.Awake? && r.Some? ==> r.value.days == log.days && r.value.asleep == log.asleep && r.value.day.Some?
    ensures e.Awake? && r.Some? ==> r.value.day.value == log.day.value.(sleeps := log.day.value.sleeps + [Range(log.asleep.value, e.minute)])
  {
    match e
    case Shift(date, hour, minute, id) =>
      var days := if log.day.Some? then log.days + [log.day.value] else log.days;
      Some(Log(Some(Day(id, ShiftDate(date, hour), StartMinute(hour, minute), [])), log.asleep, days))
    case Asleep(minute) => Some(log.(asleep := Some(minute)))
    case Awake(minute) =>
      if log.asleep.None? || log.asleep.value > minute || log.day.None? then None
      else
        var d := log.day.value;
        Some(log.(day := Some(d.(sleeps := d.sleeps + [Range(log.asleep.value, minute)]))))
    case Unparsed => None
  }

  /** The replay of a prefix of the log. */
  function Replay(entries: seq<Entry>): (r: Option<Log>)
    ensures r.Some? ==> |Close(r.value)| == ShiftLines(entries)
  {
    if entries == [] then Some(Log(None, None, []))
    else
      match Replay(entries[..|entries| - 1])
      case None => None
      case Some(log) => Read(log, entries[|entries| - 1])
  }

  /** The closed shifts, with the open one stored last (lines 112-115). */
  function Close(log: Log): seq<Day>
  {
    if log.day.Some? then log.days + [log.day.value] else log.days
  }

  /** The shifts of a whole log, or `None` on a fatal error. */
  function Shifts(entries: seq<Entry>): (r: Option<seq<Day>>)
    ensures r.Some? ==> |r.value| == ShiftLines(entries)
    ensures r.None? <==> Replay(entries).None?
  {
    match Replay(entries)
    case None => None
    case Some(log) => Some(Close(log))
  }

  /** The replay loop (lines 46-115). */
  method Process(logs: seq<Entry>) returns (r: Option<seq<Day>>)
    ensures r == Shifts(logs)
  {
    var day: Option<Day> := None;
    var asleep: Option<int> := None;
    var days: seq<Day> := [];
    var k := 0;
    while k < |logs|
      invariant 0 <= k <= |logs|
      invariant Replay(logs[..k]) == Some(Log(day, asleep, days))
    {
      assert logs[..k + 1][..k] == logs[..k];
      match logs[k] {
      case Shift(date, hour, minute, id) =>
        if day.Some? {
          days := days + [day.value];
        }
        day := Some(Day(id, ShiftDate(date, hour), StartMinute(hour, minute), []));
      case Asleep(minute) =>
        asleep := Some(minute);
      case Awake(minute) =>
        if asleep.None? || asleep.value > minute || day.None? {
          ReplayStops(logs, k + 1);
          return None;
        }
        var d := day.value;
        day := Some(d.(sleeps := d.sleeps + [Range(asleep.value, minute)]));
      case Unparsed =>
        ReplayStops(logs, k + 1);
        return None;
      }
      k := k + 1;
    }
    assert logs[..k] == logs;
    if day.Some? {
      days := days + [day.value];
    }
    return Some(days);
  }

  /** Once the replay stops, it stays stopped. */
  lemma {:induction false} ReplayStops(entries: seq<Entry>, k: nat)
    requires k <= |entries| && Replay(entries[..k]) == None
    ensures Replay(entries) == None && Shifts(entries) == None
  {
    if k < |entries| {
      var n := |entries| - 1;
      assert entries[..n][..k] == entries[..k];
      ReplayStops(entries[..n], k);
      assert entries[..n] == entries[..|entries| - 1];
    } else {
      assert entries[..k] == entries;
    }
  }

  /** The number of shift lines. */
  function ShiftLines(entries: seq<Entry>): nat
  {
    if entries == [] then 0 else ShiftLines(entries[..|entries| - 1]) + (if entries[|entries| - 1].Shift? then 1 else 0)
  }

  /** Whether a sleep line occurs. */
  predicate SleptBefore(entries: seq<Entry>)
  {
    exists i :: 0 <= i < |entries| && entries[i].Asleep?
  }

  /** What a replay that has not stopped knows: one shift per shift line, an open shift after the
      first shift line, a last minute asleep after the first sleep line, forward ranges. */
  lemma {:induction false} ReplayKeeps(entries: seq<Entry>)
    requires Replay(entries).Some?
    ensures Replay(entries).value.day.Some? <==> ShiftLines(entries) > 0
    ensures Replay(entries).value.asleep.Some? <==> SleptBefore(entries)
    ensures forall i :: 0 <= i < |Close(Replay(entries).value)| ==> Rested(Close(Replay(entries).value)[i])
  {
    if entries != [] {
      var n := |entries| - 1;
      assert forall i :: 0 <= i < n ==> entries[..n][i] == entries[i];
      ReplayKeeps(entries[..n]);
      var log := Replay(entries[..n]).value;
      if entries[n].Awake? {
        var d := log.day.value;
        assert Close(Replay(entries).value) == log.days + [d.(sleeps := d.sleeps + [Range(log.asleep.value, entries[n].minute)])];
        assert Close(log) == log.days + [d];
        var d' := d.(sleeps := d.sleeps + [Range(log.asleep.value, entries[n].minute)]);
        assert Rested(d) by {
          assert d == Close(log)[|Close(log)| - 1];
        }
        assert Rested(d');
        var c := Close(Replay(entries).value);
        assert c == log.days + [d'];
        assert forall i :: 0 <= i < |log.days| ==> c[i] == Close(log)[i];
      }
    }
  }

  /** A successful replay yields one shift per shift line, each with forward ranges and a
      non-negative time asleep. */
  lemma ShiftsWellFormed(entries: seq<Entry>)
    requires Shifts(entries).Some?
    ensures |Shifts(entries).value| == ShiftLines(entries)
    ensures forall i :: 0 <= i < |Shifts(entries).value| ==> Rested(Shifts(entries).value[i]) && MinutesAsleep(Shifts(entries).value[i]) >= 0
  {
    ReplayKeeps(entries);
    forall i | 0 <= i < |Shifts(entries).value|
      ensures MinutesAsleep(Shifts(entries).value[i]) >= 0
    {
      RestedAsleep(Shifts(entries).value[i].sleeps);
    }
  }

  /** A wake line with no sleep line before it is fatal (lines 101-103). */
  lemma WakeWithoutSleep(entries: seq<Entry>, k: nat)
    requires k < |entries| && entries[k].Awake? && !SleptBefore(entries[..k])
    ensures Shifts(entries) == None
  {
    if Replay(entries[..k]).Some? {
      ReplayKeeps(entries[..k]);
      assert entries[..k + 1][..k] == entries[..k];
    } else {
      assert entries[..k + 1][..k] == entries[..k];
      ReplayStops(entries[..k + 1], k);
    }
    ReplayStops(entries, k + 1);
  }

  /** A line that matches no pattern is fatal (line 108). */
  lemma UnparsedFatal(entries: seq<Entry>, k: nat)
    requires k < |entries| && entries[k].Unparsed?
    ensures Shifts(entries) == None
  {
    assert entries[..k + 1][..k] == entries[..k];
    if Replay(entries[..k]).None? {
      ReplayStops(entries[..k + 1], k);
    }
    ReplayStops(entries, k + 1);
  }

  /** A wake line closes the range from the last sleep line (line 105). */
  lemma WakeCloses(d: int, id: string, asleep: int, awake: int)
    requires asleep <= awake
    ensures Shifts([Shift(d, 0, 0, id), Asleep(asleep), Awake(awake)]) == Some([Day(id, d, 0, [Range(asleep, awake)])])
  {
    var e := [Shift(d, 0, 0, id), Asleep(asleep), Awake(awake)];
    assert e[..2][..1] == [Shift(d, 0, 0, id)] && e[..2][..1][..0] == [];
    assert e[..2] == [Shift(d, 0, 0, id), Asleep(asleep)];
    assert Replay(e[..2][..1]) == Some(Log(Some(Day(id, d, 0, [])), None, []));
    assert Replay(e[..2]) == Some(Log(Some(Day(id, d, 0, [])), Some(asleep), []));
    assert e[..|e| - 1] == e[..2];
    assert [] + [Range(asleep, awake)] == [Range(asleep, awake)];
    assert Replay(e) == Some(Log(Some(Day(id, d, 0, [Range(asleep, awake)])), Some(asleep), []));
    assert [] + [Day(id, d, 0, [Range(asleep, awake)])] == [Day(id, d, 0, [Range(asleep, awake)])];
  }

  // Tallies (lines 122-170).

  /** The total weight of the events with key `k`. */
  function Sum<K(==)>(events: seq<(K, int)>, k: K): int
  {
    if events == [] then 0
    else Sum(events[..|events| - 1], k) + (if events[|events| - 1].0 == k then events[|events| - 1].1 else 0)
  }

  /** The keys of the events. */
  function KeysOf<K>(events: seq<(K, int)>): set<K>
  {
    set i | 0 <= i < |events| :: events[i].0
  }

  /** The running total compared at event `j`: the sum of its key up to and including it. */
  function Running<K(==)>(events: seq<(K, int)>, j: int): int
    requires 0 <= j < |events|
  {
    Sum(events[..j + 1], events[j].0)
  }

  /** Event `at` is the first whose running total reaches `best`. */
  ghost predicate FirstReach<K>(events: seq<(K, int)>, at: int, best: int, bestKey: K)
  {
    0 <= at < |events| && events[at].0 == bestKey && Running(events, at) == best &&
    forall j :: 0 <= j < at ==> Running(events, j) < best
  }

  /** `totals` holds the sum of every key that occurs, and no other key. */
  ghost predicate Tallied<K>(events: seq<(K, int)>, totals: map<K, int>)
  {
    totals.Keys == KeysOf(events) && forall k :: k in totals ==> totals[k] == Sum(events, k)
  }

  /** No total and no running total exceeds `best`. */
  ghost predicate Capped<K>(events: seq<(K, int)>, totals: map<K, int>, best: int)
  {
    (forall k :: k in totals ==> totals[k] <= best) && forall j :: 0 <= j < |events| ==> Running(events, j) <= best
  }

  /** `best` is the total of `bestKey`, which reached it first; with no events, `best` is
      `Int.min`. */
  ghost predicate Held<K>(events: seq<(K, int)>, totals: map<K, int>, best: int, bestKey: K)
  {
    (events == [] ==> best == IntMin) &&
    (events != [] ==> bestKey in totals && totals[bestKey] == best && exists at :: FirstReach(events, at, best, bestKey))
  }

  /** A tally with a leader: the sums per key, the greatest of them, and the key that reached it
      first. */
  ghost predicate Leading<K>(events: seq<(K, int)>, totals: map<K, int>, best: int, bestKey: K)
  {
    Tallied(events, totals) && Capped(events, totals, best) && Held(events, totals, best, bestKey)
  }

  /** The state of a tally: the totals per key, the best total and its key. */
  datatype Tally<K> = Tally(totals: map<K, int>, best: int, bestKey: K)

  /** The key's total grows by the weight, or starts at it. */
  function Grow<K(==)>(totals: map<K, int>, k: K, w: int): map<K, int>
  {
    totals[k := if k in totals then totals[k] + w else w]
  }

  /** One event of a tally (lines 128-140 and 155-167): a total strictly above the best takes the
      lead. */
  function Bump<K(==)>(t: Tally<K>, k: K, w: int): Tally<K>
  {
    var g := Grow(t.totals, k, w);
    if g[k] > t.best then Tally(g, g[k], k) else Tally(g, t.best, t.bestKey)
  }

  /** The empty tally. */
  lemma LeadingEmpty<K>(bestKey: K)
    ensures Leading([], map[], IntMin, bestKey)
  {
  }

  /** A key that does not occur sums to zero. */
  lemma {:induction false} SumAbsent<K>(events: seq<(K, int)>, k: K)
    requires k !in KeysOf(events)
    ensures Sum(events, k) == 0
  {
    if events != [] {
      var n := |events| - 1;
      assert KeysOf(events[..n]) <= KeysOf(events) by {
        forall x | x in KeysOf(events[..n])
          ensures x in KeysOf(events)
        {
          var i :| 0 <= i < n && events[..n][i].0 == x;
          assert events[i].0 == x;
        }
      }
      SumAbsent(events[..n], k);
    }
  }

  /** One more event adds its weight to its own key. */
  lemma SumSnoc<K>(events: seq<(K, int)>, k: K, w: int, x: K)
    ensures Sum(events + [(k, w)], x) == Sum(events, x) + (if k == x then w else 0)
  {
    assert (events + [(k, w)])[..|events|] == events;
  }

  /** One more event leaves the earlier running totals alone. */
  lemma RunningSnoc<K>(events: seq<(K, int)>, k: K, w: int)
    ensures forall j :: 0 <= j < |events| ==> Running(events + [(k, w)], j) == Running(events, j)
    ensures Running(events + [(k, w)], |events|) == Sum(events + [(k, w)], k)
  {
    var e := events + [(k, w)];
    forall j | 0 <= j < |events|
      ensures Running(e, j) == Running(events, j)
    {
      assert e[..j + 1] == events[..j + 1];
    }
    assert e[..|events| + 1] == e;
  }

  /** One more event adds its key. */
  lemma KeysSnoc<K>(events: seq<(K, int)>, k: K, w: int)
    ensures KeysOf(events + [(k, w)]) == KeysOf(events) + {k}
  {
    var e := events + [(k, w)];
    forall x | x in KeysOf(e)
      ensures x in KeysOf(events) + {k}
    {
      var i :| 0 <= i < |e| && e[i].0 == x;
      if i < |events| {
        assert events[i].0 == x;
      }
    }
    forall x | x in KeysOf(events)
      ensures x in KeysOf(e)
    {
      var i :| 0 <= i < |events| && events[i].0 == x;
      assert e[i].0 == x;
    }
    assert e[|events|].0 == k;
  }

  /** The grown totals are the sums of one more event. */
  lemma TalliedStep<K>(events: seq<(K, int)>, totals: map<K, int>, k: K, w: int)
    requires Tallied(events, totals)
    ensures Tallied(events + [(k, w)], Grow(totals, k, w))
    ensures Grow(totals, k, w)[k] == Sum(events + [(k, w)], k) == Running(events + [(k, w)], |events|)
  {
    if k !in totals {
      SumAbsent(events, k);
    }
    KeysSnoc(events, k, w);
    RunningSnoc(events, k, w);
    forall x | x in Grow(totals, k, w)
      ensures Grow(totals, k, w)[x] == Sum(events + [(k, w)], x)
    {
      SumSnoc(events, k, w, x);
    }
  }

  /** A cap that is not lowered and covers the new total covers one more event. */
  lemma CappedStep<K>(events: seq<(K, int)>, totals: map<K, int>, best: int, k: K, w: int, best': int)
    requires Capped(events, totals, best) && best <= best'
    requires Grow(totals, k, w)[k] <= best' && Running(events + [(k, w)], |events|) <= best'
    ensures Capped(events + [(k, w)], Grow(totals, k, w), best')
  {
    RunningSnoc(events, k, w);
    var e := events + [(k, w)];
    forall j | 0 <= j < |e|
      ensures Running(e, j) <= best'
    {
      if j < |events| {
        assert Running(e, j) == Running(events, j);
      }
    }
  }

  /** The leader after one more event: the new key when its total strictly exceeds the best, the
      old leader otherwise (whose total a weight of zero leaves unchanged). */
  lemma HeldStep<K>(events: seq<(K, int)>, totals: map<K, int>, best: int, bestKey: K, k: K, w: int)
    requires Held(events, totals, best, bestKey) && Capped(events, totals, best) && w >= 0
    requires Grow(totals, k, w)[k] == Running(events + [(k, w)], |events|)
    ensures var t := Bump(Tally(totals, best, bestKey), k, w);
      Held(events + [(k, w)], t.totals, t.best, t.bestKey)
  {
    RunningSnoc(events, k, w);
    var e := events + [(k, w)];
    var g := Grow(totals, k, w);
    if g[k] > best {
      assert FirstReach(e, |events|, g[k], k);
    } else if events != [] {
      var at :| FirstReach(events, at, best, bestKey);
      assert FirstReach(e, at, best, bestKey);
      if k == bestKey {
        assert g[k] == best;
      }
    }
  }

  /** One more event keeps a tally with a leader (lines 128-140 and 155-167). */
  lemma TallyStep<K>(events: seq<(K, int)>, totals: map<K, int>, best: int, bestKey: K, k: K, w: int)
    requires Leading(events, totals, best, bestKey) && w >= 0
    ensures var t := Bump(Tally(totals, best, bestKey), k, w);
      Leading(events + [(k, w)], t.totals, t.best, t.bestKey)
  {
    TalliedStep(events, totals, k, w);
    var g := Grow(totals, k, w);
    CappedStep(events, totals, best, k, w, if g[k] > best then g[k] else best);
    HeldStep(events, totals, best, bestKey, k, w);
  }

  /** The tally of a sequence of events, from no totals, `Int.min` and the key `init`. */
  function Fold<K(==)>(events: seq<(K, int)>, init: K): (r: Tally<K>)
    ensures IntMin <= r.best
    ensures r.bestKey == init || r.bestKey in r.totals
    ensures events != [] ==> events[|events| - 1].0 in r.totals
  {
    if events == [] then Tally(map[], IntMin, init)
    else Bump(Fold(events[..|events| - 1], init), events[|events| - 1].0, events[|events| - 1].1)
  }

  /** No event has a negative weight. */
  predicate Weighed<K>(events: seq<(K, int)>)
  {
    forall i :: 0 <= i < |events| ==> events[i].1 >= 0
  }

  /** With no negative weight, the tally holds every key's sum, and its leader has the greatest
      total and is the first to have reached it. */
  lemma {:induction false} FoldLeads<K>(events: seq<(K, int)>, init: K)
    requires Weighed(events)
    ensures Leading(events, Fold(events, init).totals, Fold(events, init).best, Fold(events, init).bestKey)
  {
    if events == [] {
      LeadingEmpty(init);
    } else {
      var n := |events| - 1;
      var t := Fold(events[..n], init);
      FoldLeads(events[..n], init);
      TallyStep(events[..n], t.totals, t.best, t.bestKey, events[n].0, events[n].1);
      assert events[..n] + [(events[n].0, events[n].1)] == events;
    }
  }

  /** The tally of one more event. */
  lemma FoldSnoc<K>(events: seq<(K, int)>, init: K, k: K, w: int)
    ensures Fold(events + [(k, w)], init) == Bump(Fold(events, init), k, w)
  {
    assert (events + [(k, w)])[..|events|] == events;
  }

  /** The events of the guard tally: each shift's guard with its minutes asleep. */
  function Sleeps(days: seq<Day>): seq<(string, int)>
  {
    seq(|days|, i requires 0 <= i < |days| => (days[i].guardID, MinutesAsleep(days[i])))
  }

  /** The tally of minutes asleep per guard (lines 122-141), starting from `Int.min` and `""`. */
  method Sleepiest(days: seq<Day>) returns (totals: map<string, int>, maxSleep: int, maxSleepId: string)
    ensures Tally(totals, maxSleep, maxSleepId) == Fold(Sleeps(days), "")
  {
    totals := map[];
    maxSleep := IntMin;
    maxSleepId := "";
    var k := 0;
    while k < |days|
      invariant 0 <= k <= |days|
      invariant Tally(totals, maxSleep, maxSleepId) == Fold(Sleeps(days[..k]), "")
    {
      var day := days[k];
      assert Sleeps(days[..k + 1]) == Sleeps(days[..k]) + [(day.guardID, MinutesAsleep(day))];
      FoldSnoc(Sleeps(days[..k]), "", day.guardID, MinutesAsleep(day));
      var currentTotal: int;
      if day.guardID in totals {
        currentTotal := totals[day.guardID] + MinutesAsleep(day);
      } else {
        currentTotal := MinutesAsleep(day);
      }
      totals := totals[day.guardID := currentTotal];
      if currentTotal > maxSleep {
        maxSleep := currentTotal;
        maxSleepId := day.guardID;
      }
      k := k + 1;
    }
    assert days[..k] == days;
  }

  /** The sleepiest guard of a replayed log has the greatest total, reached first. */
  lemma SleepiestLeads(entries: seq<Entry>)
    requires Shifts(entries).Some?
    ensures var t := Fold(Sleeps(Shifts(entries).value), "");
      Leading(Sleeps(Shifts(entries).value), t.totals, t.best, t.bestKey)
  {
    ShiftsWellFormed(entries);
    FoldLeads(Sleeps(Shifts(entries).value), "");
  }

  /** The shifts of one guard (line 146). */
  function OnDuty(days: seq<Day>, id: string): (r: seq<Day>)
    ensures forall i :: 0 <= i < |r| ==> r[i].guardID == id && r[i] in days
    ensures forall i :: 0 <= i < |days| && days[i].guardID == id ==> days[i] in r
  {
    if days == [] then []
    else
      var rest := OnDuty(days[..|days| - 1], id);
      assert forall i :: 0 <= i < |days| - 1 ==> days[..|days| - 1][i] == days[i];
      if days[|days| - 1].guardID == id then rest + [days[|days| - 1]] else rest
  }

  /** The minutes of a range, each with weight one (`Array(sleep)`, line 154). */
  function RangeEvents(r: Range): seq<(int, int)>
  {
    seq(if r.end > r.start then r.end - r.start else 0, i => (r.start + i, 1))
  }

  function SleepEvents(sleeps: seq<Range>): seq<(int, int)>
  {
    if sleeps == [] then [] else SleepEvents(sleeps[..|sleeps| - 1]) + RangeEvents(sleeps[|sleeps| - 1])
  }

  /** The events of the minute tally: every minute of every range of every shift, in order. */
  function MinuteEvents(days: seq<Day>): seq<(int, int)>
  {
    if days == [] then [] else MinuteEvents(days[..|days| - 1]) + SleepEvents(days[|days| - 1].sleeps)
  }

  /** The events of forward ranges number their minutes asleep. */
  lemma {:induction false} SleepEventsCount(sleeps: seq<Range>)
    requires forall i :: 0 <= i < |sleeps| ==> sleeps[i].start <= sleeps[i].end
    ensures |SleepEvents(sleeps)| == Span(sleeps)
  {
    if sleeps != [] {
      SleepEventsCount(sleeps[..|sleeps| - 1]);
    }
  }

  /** Every minute weighs one. */
  lemma {:induction false} MinuteWeights(days: seq<Day>)
    ensures Weighed(MinuteEvents(days))
  {
    if days != [] {
      var n := |days| - 1;
      MinuteWeights(days[..n]);
      SleepWeights(days[n].sleeps);
    }
  }

  lemma {:induction false} SleepWeights(sleeps: seq<Range>)
    ensures Weighed(SleepEvents(sleeps))
  {
    if sleeps != [] {
      SleepWeights(sleeps[..|sleeps| - 1]);
    }
  }

  /** The minute of the sleepiest guard is the one asleep most often, the first to reach that
      count. */
  lemma SleepiestMinuteLeads(days: seq<Day>, id: string)
    ensures var t := Fold(MinuteEvents(OnDuty(days, id)), IntMin);
      Leading(MinuteEvents(OnDuty(days, id)), t.totals, t.best, t.bestKey)
  {
    MinuteWeights(OnDuty(days, id));
    FoldLeads(MinuteEvents(OnDuty(days, id)), IntMin);
  }

  /** How many ranges cover minute `m`. */
  function Covered(sleeps: seq<Range>, m: int): nat
  {
    if sleeps == [] then 0
    else Covered(sleeps[..|sleeps| - 1], m) + (if sleeps[|sleeps| - 1].start <= m < sleeps[|sleeps| - 1].end then 1 else 0)
  }

  /** How many ranges of the shifts cover minute `m`. */
  function CoveredDays(days: seq<Day>, m: int): nat
  {
    if days == [] then 0 else CoveredDays(days[..|days| - 1], m) + Covered(days[|days| - 1].sleeps, m)
  }

  /** Sums add over concatenation. */
  lemma {:induction false} SumAppend<K>(a: seq<(K, int)>, b: seq<(K, int)>, k: K)
    ensures Sum(a + b, k) == Sum(a, k) + Sum(b, k)
  {
    if b != [] {
      var n := |b| - 1;
      SumAppend(a, b[..n], k);
      assert (a + b)[..|a + b| - 1] == a + b[..n];
      assert (a + b)[|a + b| - 1] == b[n];
    } else {
      assert a + b == a;
    }
  }

  /** A range counts a minute once when it covers it. */
  lemma {:induction false} SumRange(r: Range, m: int)
    ensures Sum(RangeEvents(r), m) == if r.start <= m < r.end then 1 else 0
    decreases r.end - r.start
  {
    if r.end > r.start {
      var r' := Range(r.start, r.end - 1);
      SumRange(r', m);
      RangeGrows(r', r.end - 1);
      SumSnoc(RangeEvents(r'), r.end - 1, 1, m);
    }
  }

  /** The count of a minute in the minute tally is the number of ranges covering it. */
  lemma {:induction false} SumMinutes(days: seq<Day>, m: int)
    ensures Sum(MinuteEvents(days), m) == CoveredDays(days, m)
  {
    if days != [] {
      var n := |days| - 1;
      SumMinutes(days[..n], m);
      SumAppend(MinuteEvents(days[..n]), SleepEvents(days[n].sleeps), m);
      SumSleeps(days[n].sleeps, m);
    }
  }

  lemma {:induction false} SumSleeps(sleeps: seq<Range>, m: int)
    ensures Sum(SleepEvents(sleeps), m) == Covered(sleeps, m)
  {
    if sleeps != [] {
      var n := |sleeps| - 1;
      SumSleeps(sleeps[..n], m);
      SumAppend(SleepEvents(sleeps[..n]), RangeEvents(sleeps[n]), m);
      SumRange(sleeps[n], m);
    }
  }

  /** The minutes of a range up to `minute`, one more. */
  lemma RangeGrows(r: Range, minute: int)
    requires r.start <= minute
    ensures RangeEvents(Range(r.start, minute + 1)) == RangeEvents(Range(r.start, minute)) + [(minute, 1)]
  {
  }

  /** The loop over a range ends with all its minutes. */
  lemma RangeDone(r: Range, minute: int)
    requires minute >= r.end && (r.start <= r.end ==> minute <= r.end) && (r.start > r.end ==> minute == r.start)
    ensures RangeEvents(Range(r.start, minute)) == RangeEvents(r)
  {
  }

  /** The tally after one more minute of a range. */
  lemma MinuteStep(sleep: Range, minute: int, seen0: seq<(int, int)>, t: Tally<int>)
    requires sleep.start <= minute && t == Fold(seen0 + RangeEvents(Range(sleep.start, minute)), IntMin)
    ensures Bump(t, minute, 1) == Fold(seen0 + RangeEvents(Range(sleep.start, minute + 1)), IntMin)
  {
    FoldSnoc(seen0 + RangeEvents(Range(sleep.start, minute)), IntMin, minute, 1);
    RangeGrows(sleep, minute);
    assert seen0 + RangeEvents(Range(sleep.start, minute + 1)) == seen0 + RangeEvents(Range(sleep.start, minute)) + [(minute, 1)];
  }

  /** One minute of the tally, as the loop writes it out. */
  lemma BumpCases(t: Tally<int>, minute: int, total: int)
    requires total == if minute in t.totals then t.totals[minute] + 1 else 1
    ensures Bump(t, minute, 1) == if total > t.best then Tally(t.totals[minute := total], total, minute) else Tally(t.totals[minute := total], t.best, t.bestKey)
  {
  }

  /** The innermost loop (lines 154-168): the minutes of one range. */
  method TallyRange(sleep: Range, counts0: map<int, int>, maxTotal0: int, maxMinute0: int, ghost seen0: seq<(int, int)>)
    returns (counts: map<int, int>, maxTotal: int, maxMinute: int)
    requires Tally(counts0, maxTotal0, maxMinute0) == Fold(seen0, IntMin)
    ensures Tally(counts, maxTotal, maxMinute) == Fold(seen0 + RangeEvents(sleep), IntMin)
  {
    counts, maxTotal, maxMinute := counts0, maxTotal0, maxMinute0;
    assert seen0 + RangeEvents(Range(sleep.start, sleep.start)) == seen0;
    ghost var t := Tally(counts, maxTotal, maxMinute);
    var minute := sleep.start;
    while minute < sleep.end
      invariant sleep.start <= minute && (sleep.start <= sleep.end ==> minute <= sleep.end)
      invariant sleep.start > sleep.end ==> minute == sleep.start
      invariant Tally(counts, maxTotal, maxMinute) == t
      invariant t == Fold(seen0 + RangeEvents(Range(sleep.start, minute)), IntMin)
      decreases sleep.end - minute
    {
      MinuteStep(sleep, minute, seen0, t);
      var currentTotal: int;
      if minute in counts {
        currentTotal := counts[minute] + 1;
      } else {
        currentTotal := 1;
      }
      BumpCases(t, minute, currentTotal);
      counts := counts[minute := currentTotal];
      if currentTotal > maxTotal {
        maxTotal := currentTotal;
        maxMinute := minute;
      }
      t := Bump(t, minute, 1);
      minute := minute + 1;
    }
    RangeDone(sleep, minute);
  }

  /** The events of the ranges up to `j`, one more. */
  lemma SleepsSnoc(seen0: seq<(int, int)>, sleeps: seq<Range>, j: nat)
    requires j < |sleeps|
    ensures seen0 + SleepEvents(sleeps[..j + 1]) == seen0 + SleepEvents(sleeps[..j]) + RangeEvents(sleeps[j])
  {
    assert sleeps[..j + 1][..j] == sleeps[..j];
  }

  /** The middle loop (lines 153-169): the ranges of one shift. */
  method TallySleeps(sleeps: seq<Range>, counts0: map<int, int>, maxTotal0: int, maxMinute0: int, ghost seen0: seq<(int, int)>)
    returns (counts: map<int, int>, maxTotal: int, maxMinute: int)
    requires Tally(counts0, maxTotal0, maxMinute0) == Fold(seen0, IntMin)
    ensures Tally(counts, maxTotal, maxMinute) == Fold(seen0 + SleepEvents(sleeps), IntMin)
  {
    counts, maxTotal, maxMinute := counts0, maxTotal0, maxMinute0;
    assert seen0 + SleepEvents(sleeps[..0]) == seen0;
    var j := 0;
    while j < |sleeps|
      invariant 0 <= j <= |sleeps|
      invariant Tally(counts, maxTotal, maxMinute) == Fold(seen0 + SleepEvents(sleeps[..j]), IntMin)
    {
      SleepsSnoc(seen0, sleeps, j);
      counts, maxTotal, maxMinute := TallyRange(sleeps[j], counts, maxTotal, maxMinute, seen0 + SleepEvents(sleeps[..j]));
      j := j + 1;
    }
    assert sleeps[..j] == sleeps;
  }

  /** The tally of the sleepiest guard's minutes (lines 146-170), starting from `Int.min` for both
      the count and the minute. */
  method SleepiestMinute(days: seq<Day>, id: string) returns (counts: map<int, int>, maxTotal: int, maxMinute: int)
    ensures Tally(counts, maxTotal, maxMinute) == Fold(MinuteEvents(OnDuty(days, id)), IntMin)
  {
    var dayEntries := OnDuty(days, id);
    counts := map[];
    maxTotal := IntMin;
    maxMinute := IntMin;
    var i := 0;
    while i < |dayEntries|
      invariant 0 <= i <= |dayEntries|
      invariant Tally(counts, maxTotal, maxMinute) == Fold(MinuteEvents(dayEntries[..i]), IntMin)
    {
      assert dayEntries[..i + 1][..i] == dayEntries[..i];
      counts, maxTotal, maxMinute := TallySleeps(dayEntries[i].sleeps, counts, maxTotal, maxMinute, MinuteEvents(dayEntries[..i]));
      i := i + 1;
    }
    assert dayEntries[..i] == dayEntries;
  }
}
