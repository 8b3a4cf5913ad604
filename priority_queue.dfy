/**
 * The frontier used by the cave path search: a list of (item, priority)
 * entries kept in ascending priority order.  `push` inserts after every entry
 * of equal or lower priority, so equal priorities leave in insertion order.
 */
module PriorityQueues {
  import opened Wrappers

  /** The entries are ordered by non-decreasing priority. */
  ghost predicate Sorted<T>(nodes: seq<(T, int)>)
  {
    forall i, j :: 0 <= i < j < |nodes| ==> nodes[i].1 <= nodes[j].1
  }

  /** Where `push` puts an entry of priority `p`: before the first entry of
      strictly greater priority, or at the end when there is none. */
  function InsertIndex<T>(nodes: seq<(T, int)>, p: int): (k: nat)
    ensures k <= |nodes|
    ensures forall i :: 0 <= i < k ==> nodes[i].1 <= p
    ensures k < |nodes| ==> p < nodes[k].1
  {
    if nodes == [] || p < nodes[0].1 then 0
    else 1 + InsertIndex(nodes[1..], p)
  }

  /** The entries after `push(item, priority: p)`. */
  function Insert<T>(nodes: seq<(T, int)>, item: T, p: int): seq<(T, int)>
  {
    var k := InsertIndex(nodes, p);
    nodes[..k] + [(item, p)] + nodes[k..]
  }

  /** The items of priority `p`, in queue order. */
  function WithPriority<T>(nodes: seq<(T, int)>, p: int): seq<T>
  {
    if nodes == [] then []
    else (if nodes[0].1 == p then [nodes[0].0] else []) + WithPriority(nodes[1..], p)
  }

  /** `push` keeps the entries sorted, so the head is always of minimum priority. */
  lemma InsertKeepsSorted<T>(nodes: seq<(T, int)>, item: T, p: int)
    requires Sorted(nodes)
    ensures Sorted(Insert(nodes, item, p))
    ensures forall i :: 0 <= i < |Insert(nodes, item, p)| ==>
              Insert(nodes, item, p)[0].1 <= Insert(nodes, item, p)[i].1
  {
    var k := InsertIndex(nodes, p);
    var r := Insert(nodes, item, p);
    assert |r| == |nodes| + 1;
    forall i, j | 0 <= i < j < |r| ensures r[i].1 <= r[j].1 {
      if j < k {
        assert r[i] == nodes[i] && r[j] == nodes[j];
      } else if j == k {
        assert r[j].1 == p;
      } else if i < k {
        assert r[j] == nodes[j - 1];
        assert nodes[i].1 <= nodes[k].1;
      } else if i == k {
        assert r[j] == nodes[j - 1];
        assert p < nodes[k].1 <= nodes[j - 1].1;
      } else {
        assert r[i] == nodes[i - 1] && r[j] == nodes[j - 1];
      }
    }
  }

  /** `push` adds exactly one entry and never merges or drops duplicates. */
  lemma InsertAddsOne<T>(nodes: seq<(T, int)>, item: T, p: int)
    ensures |Insert(nodes, item, p)| == |nodes| + 1
    ensures multiset(Insert(nodes, item, p)) == multiset(nodes) + multiset{(item, p)}
  {
    var k := InsertIndex(nodes, p);
    assert nodes == nodes[..k] + nodes[k..];
  }

  lemma {:induction false} WithPriorityAppend<T>(a: seq<(T, int)>, b: seq<(T, int)>, p: int)
    ensures WithPriority(a + b, p) == WithPriority(a, p) + WithPriority(b, p)
  {
    if a != [] {
      assert (a + b)[1..] == a[1..] + b;
      WithPriorityAppend(a[1..], b, p);
    } else {
      assert a + b == b;
    }
  }

  lemma {:induction false} WithPriorityAbove<T>(nodes: seq<(T, int)>, p: int)
    requires forall i :: 0 <= i < |nodes| ==> p < nodes[i].1
    ensures WithPriority(nodes, p) == []
  {
    if nodes != [] {
      WithPriorityAbove(nodes[1..], p);
    }
  }

  /** FIFO among equals: the pushed item comes out after every item already
      queued at the same priority. */
  lemma InsertIsFifo<T>(nodes: seq<(T, int)>, item: T, p: int)
    requires Sorted(nodes)
    ensures WithPriority(Insert(nodes, item, p), p) == WithPriority(nodes, p) + [item]
  {
    var k := InsertIndex(nodes, p);
    InsertSplit(nodes, item, p, p);
    AfterInsertIndex(nodes, p);
    assert WithPriority([(item, p)], p) == [item] by {
      assert [(item, p)][1..] == [];
    }
  }

  /** The items of priority `q` before and after a push, split at the insertion point. */
  lemma InsertSplit<T>(nodes: seq<(T, int)>, item: T, p: int, q: int)
    ensures var k := InsertIndex(nodes, p);
      && WithPriority(nodes, q) == WithPriority(nodes[..k], q) + WithPriority(nodes[k..], q)
      && WithPriority(Insert(nodes, item, p), q)
         == WithPriority(nodes[..k], q) + WithPriority([(item, p)], q) + WithPriority(nodes[k..], q)
  {
    var k := InsertIndex(nodes, p);
    var front, back := nodes[..k], nodes[k..];
    assert nodes == front + back;
    WithPriorityAppend(front, back, q);
    WithPriorityAppend(front + [(item, p)], back, q);
    WithPriorityAppend(front, [(item, p)], q);
  }

  /** No entry from the insertion point on has priority `p`. */
  lemma AfterInsertIndex<T>(nodes: seq<(T, int)>, p: int)
    requires Sorted(nodes)
    ensures WithPriority(nodes[InsertIndex(nodes, p)..], p) == []
  {
    var k := InsertIndex(nodes, p);
    forall i | 0 <= i < |nodes[k..]| ensures p < nodes[k..][i].1 {
      assert nodes[k..][i] == nodes[k + i];
    }
    WithPriorityAbove(nodes[k..], p);
  }

  /** A push leaves the items queued at every other priority untouched. */
  lemma InsertKeepsOthers<T>(nodes: seq<(T, int)>, item: T, p: int, q: int)
    requires q != p
    ensures WithPriority(Insert(nodes, item, p), q) == WithPriority(nodes, q)
  {
    InsertSplit(nodes, item, p, q);
    assert WithPriority([(item, p)], q) == [] by {
      assert [(item, p)][1..] == [];
    }
  }

  /** The queued items, in queue order. */
  function Items<T>(nodes: seq<(T, int)>): (items: seq<T>)
    ensures |items| == |nodes|
    ensures forall i :: 0 <= i < |nodes| ==> items[i] == nodes[i].0
  {
    if nodes == [] then [] else [nodes[0].0] + Items(nodes[1..])
  }

  /** `push` adds its item to the queued items once; nothing else changes. */
  lemma InsertItems<T>(nodes: seq<(T, int)>, item: T, p: int)
    ensures multiset(Items(Insert(nodes, item, p))) == multiset(Items(nodes)) + multiset{item}
  {
    var k := InsertIndex(nodes, p);
    ItemsConcat(nodes[..k], nodes[k..]);
    ItemsConcat(nodes[..k] + [(item, p)], nodes[k..]);
    ItemsConcat(nodes[..k], [(item, p)]);
    assert nodes == nodes[..k] + nodes[k..];
  }

  lemma ItemsConcat<T>(a: seq<(T, int)>, b: seq<(T, int)>)
    ensures Items(a + b) == Items(a) + Items(b)
  {
  }

  class PriorityQueue<T> {
    var nodes: seq<(T, int)>

    constructor ()
      ensures nodes == []
    {
      nodes := [];
    }

    function IsEmpty(): (empty: bool)
      reads this
      ensures empty <==> |nodes| == 0
    {
      nodes == []
    }

    /** Removes and returns the head item; an empty queue gives `None` and stays empty. */
    method Pop() returns (item: Option<T>)
      modifies this
      ensures old(nodes) == [] ==> item == None && nodes == []
      ensures old(nodes) != [] ==> item == Some(old(nodes)[0].0) && nodes == old(nodes)[1..]
    {
      if nodes == [] {
        return None;
      }
      item := Some(nodes[0].0);
      nodes := nodes[1..];
    }

    /** Scans for the first entry of strictly greater priority and inserts before it. */
    method Push(item: T, priority: int)
      modifies this
      ensures nodes == Insert(old(nodes), item, priority)
    {
      var insertIdx := -1;
      var idx := 0;
      while idx < |nodes|
        invariant 0 <= idx <= |nodes|
        invariant insertIdx == -1
        invariant forall i :: 0 <= i < idx ==> nodes[i].1 <= priority
      {
        if priority < nodes[idx].1 {
          insertIdx := idx;
          break;
        }
        idx := idx + 1;
      }
      if insertIdx == -1 {
        insertIdx := |nodes|;
      }
      nodes := nodes[..insertIdx] + [(item, priority)] + nodes[insertIdx..];
    }
  }

  /** Pushes (1, p1), (2, p3), (3, p2), (4, p2) and pops until empty. */
  method MixedInputOrder() returns (popped: seq<Option<int>>)
    ensures popped == [Some(1), Some(3), Some(4), Some(2), None]
  {
    var queue := new PriorityQueue<int>();
    queue.Push(1, 1);
    assert queue.nodes == [(1, 1)];
    queue.Push(2, 3);
    assert queue.nodes == [(1, 1), (2, 3)];
    assert InsertIndex([(2, 3)], 2) == 0;
    assert InsertIndex([(1, 1), (2, 3)], 2) == 1;
    queue.Push(3, 2);
    assert queue.nodes == [(1, 1), (3, 2), (2, 3)];
    assert InsertIndex([(2, 3)], 2) == 0;
    assert InsertIndex([(3, 2), (2, 3)], 2) == 1;
    assert InsertIndex([(1, 1), (3, 2), (2, 3)], 2) == 2;
    queue.Push(4, 2);
    assert queue.nodes == [(1, 1), (3, 2), (4, 2), (2, 3)];
    var a := queue.Pop();
    var b := queue.Pop();
    var c := queue.Pop();
    var d := queue.Pop();
    var e := queue.Pop();
    popped := [a, b, c, d, e];
  }

  /** Pushes 1, 2, 3, 4 all at priority 2; they leave in the same order. */
  method SamePrioritiesInOrder() returns (popped: seq<Option<int>>)
    ensures popped == [Some(1), Some(2), Some(3), Some(4), None]
  {
    var queue := new PriorityQueue<int>();
    queue.Push(1, 2);
    assert queue.nodes == [(1, 2)];
    queue.Push(2, 2);
    assert queue.nodes == [(1, 2), (2, 2)];
    queue.Push(3, 2);
    assert queue.nodes == [(1, 2), (2, 2), (3, 2)];
    queue.Push(4, 2);
    assert queue.nodes == [(1, 2), (2, 2), (3, 2), (4, 2)];
    var a := queue.Pop();
    var b := queue.Pop();
    var c := queue.Pop();
    var d := queue.Pop();
    var e := queue.Pop();
    popped := [a, b, c, d, e];
  }
}
