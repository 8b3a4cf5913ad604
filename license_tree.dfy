/**
 * Day 8: the license file is a flat list of numbers encoding a tree. A node
 * is a header (number of children, number of metadata entries), then its
 * children's encodings, then its metadata. The parser reads it with a moving
 * head and numbers the nodes in preorder; the tree's total metadata and its
 * value are computed by recursion.
 */
module LicenseTree {
  import opened Wrappers

  /** A node: its id, its children in order and its metadata entries. */
  datatype Node = Node(id: int, children: seq<Node>, metadata: seq<int>)

  function Sum(xs: seq<int>): int
  {
    if xs == [] then 0 else Sum(xs[..|xs| - 1]) + xs[|xs| - 1]
  }

  /** The numbers a node is read from: header, children, metadata. */
  function Encode(n: Node): seq<int>
    decreases n, 1
  {
    [|n.children|, |n.metadata|] + EncodeAll(n.children) + n.metadata
  }

  function EncodeAll(cs: seq<Node>): seq<int>
    decreases cs, 0
  {
    if cs == [] then [] else Encode(cs[0]) + EncodeAll(cs[1..])
  }

  /** Number of nodes in the tree. */
  function Size(n: Node): nat
    decreases n, 1
  {
    1 + SizeAll(n.children)
  }

  function SizeAll(cs: seq<Node>): nat
    decreases cs, 0
  {
    if cs == [] then 0 else Size(cs[0]) + SizeAll(cs[1..])
  }

  /** The ids of the tree in preorder. */
  function Ids(n: Node): seq<int>
    decreases n, 1
  {
    [n.id] + IdsAll(n.children)
  }

  function IdsAll(cs: seq<Node>): seq<int>
    decreases cs, 0
  {
    if cs == [] then [] else Ids(cs[0]) + IdsAll(cs[1..])
  }

  /** `ids` are the consecutive integers from `from`. */
  predicate Consecutive(ids: seq<int>, from: int)
  {
    forall k :: 0 <= k < |ids| ==> ids[k] == from + k
  }

  /** A node read at `head`, where the reading stopped and the next free id. */
  datatype Parsed = Parsed(node: Node, head: nat, nextID: int)

  /** Children read in turn, where the reading stopped and the next free id. */
  datatype ParsedAll = ParsedAll(nodes: seq<Node>, head: nat, nextID: int)

  /** `parseNode` from `head` with ids from `nextID`; `None` where the program would stop: a read
      past the end of the numbers, or a negative child count (an invalid range). A negative
      metadata count reads no metadata. */
  function DecodeNode(numbers: seq<int>, head: nat, nextID: int): (r: Option<Parsed>)
    requires head <= |numbers|
    ensures r.Some? ==> head + 2 <= r.value.head <= |numbers|
    decreases |numbers| - head, 0, 0
  {
    if head + 2 > |numbers| || numbers[head] < 0 then None
    else match DecodeChildren(numbers, head + 2, nextID + 1, numbers[head])
      case None => None
      case Some(all) =>
        var count := if numbers[head + 1] < 0 then 0 else numbers[head + 1];
        if all.head + count > |numbers| then None
        else Some(Parsed(Node(nextID, all.nodes, numbers[all.head..all.head + count]), all.head + count, all.nextID))
  }

  /** The child loop of `parseNode`: `count` nodes one after another. */
  function DecodeChildren(numbers: seq<int>, head: nat, nextID: int, count: nat): (r: Option<ParsedAll>)
    requires head <= |numbers|
    ensures r.Some? ==> head <= r.value.head <= |numbers|
    decreases |numbers| - head, 1, count
  {
    if count == 0 then Some(ParsedAll([], head, nextID))
    else match DecodeNode(numbers, head, nextID)
      case None => None
      case Some(first) =>
        match DecodeChildren(numbers, first.head, first.nextID, count - 1)
        case None => None
        case Some(rest) => Some(ParsedAll([first.node] + rest.nodes, rest.head, rest.nextID))
  }

  /** No number from `head` on is negative, as in a license file. */
  predicate Natural(numbers: seq<int>, head: nat)
  {
    forall i :: head <= i < |numbers| ==> numbers[i] >= 0
  }

  /** A node read from non-negative numbers has as many children and metadata entries as its header
      says, and spans exactly its own encoding. */
  lemma {:induction false} DecodeNodeSpans(numbers: seq<int>, head: nat, nextID: int)
    requires head <= |numbers| && Natural(numbers, head) && DecodeNode(numbers, head, nextID).Some?
    ensures var p := DecodeNode(numbers, head, nextID).value;
      |p.node.children| == numbers[head] &&
      |p.node.metadata| == numbers[head + 1] &&
      numbers[head..p.head] == Encode(p.node)
    decreases |numbers| - head, 0, 0
  {
    var p := DecodeNode(numbers, head, nextID).value;
    var all := DecodeChildren(numbers, head + 2, nextID + 1, numbers[head]).value;
    DecodeChildrenSpan(numbers, head + 2, nextID + 1, numbers[head]);
    assert numbers[head..p.head] ==
           [numbers[head], numbers[head + 1]] + numbers[head + 2..all.head] + numbers[all.head..p.head];
  }

  lemma {:induction false} DecodeChildrenSpan(numbers: seq<int>, head: nat, nextID: int, count: nat)
    requires head <= |numbers| && Natural(numbers, head) && DecodeChildren(numbers, head, nextID, count).Some?
    ensures var r := DecodeChildren(numbers, head, nextID, count).value;
      |r.nodes| == count && numbers[head..r.head] == EncodeAll(r.nodes)
    decreases |numbers| - head, 1, count
  {
    if count > 0 {
      var first := DecodeNode(numbers, head, nextID).value;
      var rest := DecodeChildren(numbers, first.head, first.nextID, count - 1).value;
      DecodeNodeSpans(numbers, head, nextID);
      DecodeChildrenSpan(numbers, first.head, first.nextID, count - 1);
      var nodes := [first.node] + rest.nodes;
      assert nodes[0] == first.node && nodes[1..] == rest.nodes;
      calc {
        numbers[head..rest.head];
        numbers[head..first.head] + numbers[first.head..rest.head];
        Encode(first.node) + EncodeAll(rest.nodes);
      }
    }
  }

  lemma {:induction false} IdsSize(n: Node)
    ensures |Ids(n)| == Size(n)
    decreases n, 1
  {
    IdsAllSize(n.children);
  }

  lemma {:induction false} IdsAllSize(cs: seq<Node>)
    ensures |IdsAll(cs)| == SizeAll(cs)
    decreases cs, 0
  {
    if cs != [] {
      IdsSize(cs[0]);
      IdsAllSize(cs[1..]);
    }
  }

  /** `numbers` holds `e` from `head` on. */
  predicate HoldsAt(numbers: seq<int>, head: nat, e: seq<int>)
    decreases |e|
  {
    if e == [] then head <= |numbers|
    else head < |numbers| && numbers[head] == e[0] && HoldsAt(numbers, head + 1, e[1..])
  }

  /** Where `numbers` holds `a + b`, it holds `a` and then `b`. */
  lemma {:induction false} HoldsSplit(numbers: seq<int>, head: nat, a: seq<int>, b: seq<int>)
    requires HoldsAt(numbers, head, a + b)
    ensures HoldsAt(numbers, head, a) && HoldsAt(numbers, head + |a|, b)
    decreases |a|
  {
    if a == [] {
      assert a + b == b;
      HoldsFits(numbers, head, b);
    } else {
      assert (a + b)[1..] == a[1..] + b;
      HoldsSplit(numbers, head + 1, a[1..], b);
    }
  }

  /** What `numbers` holds at `head` fits in it. */
  lemma {:induction false} HoldsFits(numbers: seq<int>, head: nat, e: seq<int>)
    requires HoldsAt(numbers, head, e)
    ensures head + |e| <= |numbers|
    decreases |e|
  {
    if e != [] {
      HoldsFits(numbers, head + 1, e[1..]);
    }
  }

  /** What `numbers` holds at `head` is the slice from there. */
  lemma {:induction false} HoldsSlice(numbers: seq<int>, head: nat, e: seq<int>)
    requires HoldsAt(numbers, head, e)
    ensures head + |e| <= |numbers| && numbers[head..head + |e|] == e
    decreases |e|
  {
    if e != [] {
      HoldsSlice(numbers, head + 1, e[1..]);
      assert numbers[head..head + |e|] == [numbers[head]] + numbers[head + 1..head + |e|];
    }
  }

  /** Consecutive integers split in two are two runs of consecutive integers, and back. */
  lemma RunSplit(id: int, a: seq<int>, b: seq<int>)
    ensures Consecutive(a + b, id) <==> Consecutive(a, id) && Consecutive(b, id + |a|)
  {
    if Consecutive(a, id) && Consecutive(b, id + |a|) {
      forall k | 0 <= k < |a + b|
        ensures (a + b)[k] == id + k
      {
        if k >= |a| {
          assert (a + b)[k] == b[k - |a|];
        }
      }
    }
    if Consecutive(a + b, id) {
      forall k | 0 <= k < |b|
        ensures b[k] == id + |a| + k
      {
        assert (a + b)[|a| + k] == b[k];
      }
      forall k | 0 <= k < |a|
        ensures a[k] == id + k
      {
        assert (a + b)[k] == a[k];
      }
    }
  }

  /** One step of the child loop: the first child, then the rest. */
  lemma DecodeChildrenCons(numbers: seq<int>, head: nat, id: int, nodes: seq<Node>, h: nat, i: int, end: nat, next: int)
    requires head <= |numbers| && nodes != []
    requires DecodeNode(numbers, head, id) == Some(Parsed(nodes[0], h, i))
    requires DecodeChildren(numbers, h, i, |nodes| - 1) == Some(ParsedAll(nodes[1..], end, next))
    ensures DecodeChildren(numbers, head, id, |nodes|) == Some(ParsedAll(nodes, end, next))
  {
    assert [nodes[0]] + nodes[1..] == nodes;
  }

  /** One node: the header, the children, then `count` metadata entries. */
  lemma DecodeNodeParts(numbers: seq<int>, head: nat, id: int, all: ParsedAll, count: nat)
    requires head + 2 <= |numbers| && numbers[head] >= 0 && numbers[head + 1] == count
    requires DecodeChildren(numbers, head + 2, id + 1, numbers[head]) == Some(all)
    requires all.head + count <= |numbers|
    ensures DecodeNode(numbers, head, id) ==
            Some(Parsed(Node(id, all.nodes, numbers[all.head..all.head + count]), all.head + count, all.nextID))
  {
  }

  /** Where `numbers` holds a node's encoding: its header, then its children's encodings, then its
      metadata. */
  lemma EncodedParts(numbers: seq<int>, head: nat, n: Node)
    requires HoldsAt(numbers, head, Encode(n))
    ensures head + |Encode(n)| <= |numbers|
    ensures numbers[head] == |n.children| && numbers[head + 1] == |n.metadata|
    ensures HoldsAt(numbers, head + 2, EncodeAll(n.children))
    ensures |Encode(n)| == 2 + |EncodeAll(n.children)| + |n.metadata|
    ensures numbers[head + 2 + |EncodeAll(n.children)|..head + |Encode(n)|] == n.metadata
  {
    var header, kids := [|n.children|, |n.metadata|], EncodeAll(n.children);
    HoldsFits(numbers, head, Encode(n));
    HoldsSplit(numbers, head, header + kids, n.metadata);
    HoldsSplit(numbers, head, header, kids);
    HoldsSlice(numbers, head, header);
    assert numbers[head] == numbers[head..head + 2][0];
    assert numbers[head + 1] == numbers[head..head + 2][1];
    HoldsSlice(numbers, head + 2 + |kids|, n.metadata);
  }

  /** Where `numbers` holds the encodings of a non-empty list of nodes: the first, then the rest. */
  lemma EncodedAllParts(numbers: seq<int>, head: nat, cs: seq<Node>)
    requires cs != [] && HoldsAt(numbers, head, EncodeAll(cs))
    ensures HoldsAt(numbers, head, Encode(cs[0]))
    ensures HoldsAt(numbers, head + |Encode(cs[0])|, EncodeAll(cs[1..]))
    ensures |EncodeAll(cs)| == |Encode(cs[0])| + |EncodeAll(cs[1..])|
    ensures head + |EncodeAll(cs)| <= |numbers|
  {
    HoldsSplit(numbers, head, Encode(cs[0]), EncodeAll(cs[1..]));
    HoldsFits(numbers, head, EncodeAll(cs));
  }

  /** Consecutive ids of a non-empty list of nodes: the first tree's, then the rest's. */
  lemma IdsAllParts(cs: seq<Node>, id: int)
    requires cs != [] && Consecutive(IdsAll(cs), id)
    ensures Consecutive(Ids(cs[0]), id) && Consecutive(IdsAll(cs[1..]), id + Size(cs[0]))
    ensures SizeAll(cs) == Size(cs[0]) + SizeAll(cs[1..])
  {
    IdsSize(cs[0]);
    RunSplit(id, Ids(cs[0]), IdsAll(cs[1..]));
  }

  /** Consecutive ids of a tree: its own id, then its children's. */
  lemma IdsParts(n: Node, id: int)
    requires Consecutive(Ids(n), id)
    ensures n.id == id && Consecutive(IdsAll(n.children), id + 1) && Size(n) == 1 + SizeAll(n.children)
  {
    RunSplit(id, [n.id], IdsAll(n.children));
    assert Ids(n)[0] == n.id;
  }

  /** Reading back the encoding of a tree numbered in preorder from `id` gives the tree again, stops
      right after the encoding and leaves the next id after the tree's. */
  lemma {:induction false} DecodeEncoded(numbers: seq<int>, head: nat, n: Node, id: int)
    requires HoldsAt(numbers, head, Encode(n))
    requires Consecutive(Ids(n), id)
    ensures DecodeNode(numbers, head, id) == Some(Parsed(n, head + |Encode(n)|, id + Size(n)))
    decreases n, 1
  {
    EncodedParts(numbers, head, n);
    IdsParts(n, id);
    var kids := EncodeAll(n.children);
    DecodeEncodedAll(numbers, head + 2, n.children, id + 1);
    DecodeNodeParts(numbers, head, id, ParsedAll(n.children, head + 2 + |kids|, id + 1 + SizeAll(n.children)), |n.metadata|);
    assert Node(id, n.children, n.metadata) == n;
  }

  lemma {:induction false} DecodeEncodedAll(numbers: seq<int>, head: nat, cs: seq<Node>, id: int)
    requires HoldsAt(numbers, head, EncodeAll(cs))
    requires Consecutive(IdsAll(cs), id)
    ensures head <= |numbers|
    ensures DecodeChildren(numbers, head, id, |cs|) == Some(ParsedAll(cs, head + |EncodeAll(cs)|, id + SizeAll(cs)))
    decreases cs, 0
  {
    if cs == [] {
      HoldsFits(numbers, head, EncodeAll(cs));
    } else {
      EncodedAllParts(numbers, head, cs);
      IdsAllParts(cs, id);
      var h, i := head + |Encode(cs[0])|, id + Size(cs[0]);
      DecodeEncoded(numbers, head, cs[0], id);
      DecodeEncodedAll(numbers, h, cs[1..], i);
      DecodeChildrenCons(numbers, head, id, cs, h, i, head + |EncodeAll(cs)|, id + SizeAll(cs));
    }
  }

  /** Ids are handed out in preorder from `nextID`, one per node, and the next free id follows them. */
  lemma {:induction false} DecodeNodeIds(numbers: seq<int>, head: nat, nextID: int)
    requires head <= |numbers| && DecodeNode(numbers, head, nextID).Some?
    ensures var p := DecodeNode(numbers, head, nextID).value;
      p.node.id == nextID && Consecutive(Ids(p.node), nextID) && p.nextID == nextID + Size(p.node)
    decreases |numbers| - head, 0, 0
  {
    var p := DecodeNode(numbers, head, nextID).value;
    DecodeChildrenIds(numbers, head + 2, nextID + 1, numbers[head]);
    RunSplit(nextID, [nextID], IdsAll(p.node.children));
  }

  lemma {:induction false} DecodeChildrenIds(numbers: seq<int>, head: nat, nextID: int, count: nat)
    requires head <= |numbers| && DecodeChildren(numbers, head, nextID, count).Some?
    ensures var r := DecodeChildren(numbers, head, nextID, count).value;
      Consecutive(IdsAll(r.nodes), nextID) && r.nextID == nextID + SizeAll(r.nodes)
    decreases |numbers| - head, 1, count
  {
    if count > 0 {
      var first := DecodeNode(numbers, head, nextID).value;
      var rest := DecodeChildren(numbers, first.head, first.nextID, count - 1).value;
      DecodeNodeIds(numbers, head, nextID);
      DecodeChildrenIds(numbers, first.head, first.nextID, count - 1);
      var nodes := [first.node] + rest.nodes;
      assert nodes[0] == first.node && nodes[1..] == rest.nodes;
      IdsSize(first.node);
      RunSplit(nextID, Ids(first.node), IdsAll(rest.nodes));
    }
  }

  /** The parser: the numbers, the read position and the next node id. */
  class Parser {
    var head: int
    var numbers: seq<int>
    var nextID: int

    constructor (numbers: seq<int>)
      ensures this.numbers == numbers && head == 0 && nextID == 0
    {
      this.numbers := numbers;
      head := 0;
      nextID := 0;
    }

    /** `parse`: restart at the first number, keeping the id counter. */
    method Parse() returns (root: Option<Node>)
      modifies this
      ensures numbers == old(numbers)
      ensures root.Some? <==> DecodeNode(numbers, 0, old(nextID)).Some?
      ensures root.Some? ==> root.value == DecodeNode(numbers, 0, old(nextID)).value.node &&
                             head == DecodeNode(numbers, 0, old(nextID)).value.head &&
                             nextID == DecodeNode(numbers, 0, old(nextID)).value.nextID
    {
      head := 0;
      root := ParseNode();
    }

    /** `parseNode`: header, then the children by recursion, then the metadata. */
    method ParseNode() returns (node: Option<Node>)
      requires 0 <= head <= |numbers|
      modifies this
      ensures numbers == old(numbers)
      ensures node.Some? <==> DecodeNode(numbers, old(head), old(nextID)).Some?
      ensures node.Some? ==> node.value == DecodeNode(numbers, old(head), old(nextID)).value.node &&
                             head == DecodeNode(numbers, old(head), old(nextID)).value.head &&
                             nextID == DecodeNode(numbers, old(head), old(nextID)).value.nextID
      decreases |numbers| - head
    {
      var id := nextID;
      nextID := nextID + 1;
      if head >= |numbers| {
        return None;
      }
      var numberOfChildren := numbers[head];
      head := head + 1;
      if head >= |numbers| {
        return None;
      }
      var numberOfMetadataEntries := numbers[head];
      head := head + 1;
      if numberOfChildren < 0 {
        return None;
      }
      var children := ParseChildren(numberOfChildren);
      if children.None? {
        return None;
      }
      var metadata := ReadMetadata(numberOfMetadataEntries);
      if metadata.None? {
        return None;
      }
      node := Some(Node(id, children.value, metadata.value));
    }

    /** The metadata loop of `parseNode`: read numbers until there are `entries` of them. */
    method ReadMetadata(entries: int) returns (metadata: Option<seq<int>>)
      requires 0 <= head <= |numbers|
      modifies `head
      ensures var count := if entries < 0 then 0 else entries;
        (metadata.Some? <==> old(head) + count <= |numbers|) &&
        (metadata.Some? ==> metadata.value == numbers[old(head)..old(head) + count] && head == old(head) + count)
    {
      ghost var count := if entries < 0 then 0 else entries;
      var read := [];
      while |read| < entries
        invariant old(head) <= head <= |numbers|
        invariant head - old(head) == |read| <= count && read == numbers[old(head)..head]
        decreases entries - |read|
      {
        if head >= |numbers| {
          return None;
        }
        read := read + [numbers[head]];
        head := head + 1;
      }
      metadata := Some(read);
    }

    /** The child loop of `parseNode`: read `count` children, each a recursive `parseNode`. */
    method ParseChildren(count: nat) returns (children: Option<seq<Node>>)
      requires 2 <= head <= |numbers|
      modifies this
      ensures numbers == old(numbers)
      ensures children.Some? <==> DecodeChildren(numbers, old(head), old(nextID), count).Some?
      ensures children.Some? ==> children.value == DecodeChildren(numbers, old(head), old(nextID), count).value.nodes &&
                                 head == DecodeChildren(numbers, old(head), old(nextID), count).value.head &&
                                 nextID == DecodeChildren(numbers, old(head), old(nextID), count).value.nextID
      decreases |numbers| - head + 2, count
    {
      var nodes := [];
      var k := 0;
      ghost var whole := DecodeChildren(numbers, head, nextID, count);
      assert whole.Some? ==> [] + whole.value.nodes == whole.value.nodes;
      while k < count
        invariant 0 <= k <= count
        invariant old(head) <= head <= |numbers| && numbers == old(numbers)
        invariant DecodeChildren(numbers, old(head), old(nextID), count) ==
                  Prefixed(nodes, DecodeChildren(numbers, head, nextID, count - k))
      {
        ghost var rest := DecodeChildren(numbers, head, nextID, count - k);
        var child := ParseNode();
        if child.None? {
          return None;
        }
        ghost var after := DecodeChildren(numbers, head, nextID, count - k - 1);
        assert rest == Prefixed([child.value], after);
        if after.Some? {
          assert nodes + ([child.value] + after.value.nodes) == (nodes + [child.value]) + after.value.nodes;
        }
        nodes := nodes + [child.value];
        k := k + 1;
      }
      assert nodes + [] == nodes;
      children := Some(nodes);
    }
  }

  /** The children read so far in front of those still to read. */
  function Prefixed(nodes: seq<Node>, r: Option<ParsedAll>): Option<ParsedAll>
  {
    match r
    case None => None
    case Some(rest) => Some(ParsedAll(nodes + rest.nodes, rest.head, rest.nextID))
  }

  /** `totalMetadata`: the sum of every metadata entry of the node and all its descendants. */
  function TotalMetadata(n: Node): (r: int)
    ensures r == Sum(AllMetadata(n))
    decreases n, 1
  {
    SumAppend(n.metadata, AllMetadataOf(n.children));
    Sum(n.metadata) + ChildrenTotals(n.children)
  }

  /** The totals of a list of children: the sum of all their metadata. */
  function ChildrenTotals(cs: seq<Node>): (r: int)
    ensures r == Sum(AllMetadataOf(cs))
    decreases cs, 0
  {
    if cs == [] then 0
    else
      SumAppend(AllMetadataOf(cs[..|cs| - 1]), AllMetadata(cs[|cs| - 1]));
      ChildrenTotals(cs[..|cs| - 1]) + TotalMetadata(cs[|cs| - 1])
  }

  /** All metadata of the tree, node by node in preorder. */
  function AllMetadata(n: Node): seq<int>
    decreases n, 1
  {
    n.metadata + AllMetadataOf(n.children)
  }

  function AllMetadataOf(cs: seq<Node>): seq<int>
    decreases cs, 0
  {
    if cs == [] then [] else AllMetadataOf(cs[..|cs| - 1]) + AllMetadata(cs[|cs| - 1])
  }

  lemma {:induction false} SumAppend(a: seq<int>, b: seq<int>)
    ensures Sum(a + b) == Sum(a) + Sum(b)
    decreases |b|
  {
    if b != [] {
      assert (a + b)[..|a + b| - 1] == a + b[..|b| - 1];
      SumAppend(a, b[..|b| - 1]);
    } else {
      assert a + b == a;
    }
  }

  /** The value of a node: a leaf's metadata sum; otherwise each metadata entry picks a child by its 1-based index,
      entries past the children count 0, and a negative entry stops the program, as `children[idx - 1]` does. */
  function Value(n: Node): (r: Option<int>)
    ensures n.children == [] ==> r == Some(Sum(n.metadata))
    ensures n.children != [] && (exists e :: e in n.metadata && e < 0) ==> r.None?
    decreases n, 1, 0
  {
    if n.children == [] then Some(Sum(n.metadata)) else PickedValues(n, n.metadata)
  }

  /** The closure `value` maps over the metadata: what one entry contributes, or None where it traps. */
  function Picked(n: Node, idx: int): Option<int>
    decreases n, 0, 0
  {
    if idx == 0 then Some(0)
    else if idx > |n.children| then Some(0)
    else if idx < 0 then None
    else Value(n.children[idx - 1])
  }

  /** The `map` and `reduce` over the entries: the sum of what each entry picks, or None once one traps. */
  function PickedValues(n: Node, entries: seq<int>): (r: Option<int>)
    ensures (exists e :: e in entries && e < 0) ==> r.None?
    decreases n, 0, |entries| + 1
  {
    if entries == [] then Some(0)
    else
      assert entries == entries[..|entries| - 1] + [entries[|entries| - 1]];
      match (PickedValues(n, entries[..|entries| - 1]), Picked(n, entries[|entries| - 1]))
      case (Some(sum), Some(v)) => Some(sum + v)
      case _ => None
  }

  /** An entry that does not trap: not negative, and naming a child only if that child has a value. */
  predicate Pickable(n: Node, e: int)
  {
    e >= 0 && (1 <= e <= |n.children| ==> Value(n.children[e - 1]).Some?)
  }

  /** The value of an inner node exists exactly when no entry is negative and every child an entry names has a value. */
  lemma {:induction false} PickedValuesDefined(n: Node, entries: seq<int>)
    ensures PickedValues(n, entries).Some? <==> forall e :: e in entries ==> Pickable(n, e)
    decreases |entries|
  {
    if entries != [] {
      var init, e := entries[..|entries| - 1], entries[|entries| - 1];
      assert entries == init + [e];
      PickedValuesDefined(n, init);
      assert Picked(n, e).Some? <==> Pickable(n, e);
      if forall x :: x in init ==> Pickable(n, x) {
        if Pickable(n, e) {
          forall x | x in entries ensures Pickable(n, x) {
            if x != e {
              assert x in init;
            }
          }
        }
      }
    }
  }

  /** A value where there is one, 0 otherwise: the weight of a child that no entry names does not matter. */
  function ValueOrZero(r: Option<int>): int
  {
    if r.Some? then r.value else 0
  }

  /** Each child's value counted as many times as the entries name it. */
  function WeightedValues(n: Node, entries: seq<int>, k: nat): int
    requires k <= |n.children|
    decreases n, 0, k
  {
    if k == 0 then 0
    else WeightedValues(n, entries, k - 1) + multiset(entries)[k] * ValueOrZero(Value(n.children[k - 1]))
  }

  /** One more entry adds its child's value once, or nothing if it names no child. */
  lemma {:induction false} WeightedSnoc(n: Node, entries: seq<int>, e: int, k: nat)
    requires k <= |n.children|
    ensures WeightedValues(n, entries + [e], k) ==
            WeightedValues(n, entries, k) + (if 1 <= e <= k then ValueOrZero(Value(n.children[e - 1])) else 0)
    decreases k
  {
    if k > 0 {
      WeightedSnoc(n, entries, e, k - 1);
      assert multiset(entries + [e]) == multiset(entries) + multiset{e};
    }
  }

  /** Where the value of an inner node exists, it is the sum, over its children, of how often the metadata names the
      child times the child's value: the order of entries does not matter. */
  lemma {:induction false} PickedByCounts(n: Node, entries: seq<int>)
    ensures PickedValues(n, entries).Some? ==> PickedValues(n, entries).value == WeightedValues(n, entries, |n.children|)
    decreases |entries|
  {
    if entries == [] {
      WeightedEmpty(n, |n.children|);
    } else {
      var init := entries[..|entries| - 1];
      var e := entries[|entries| - 1];
      PickedByCounts(n, init);
      assert entries == init + [e];
      WeightedSnoc(n, init, e, |n.children|);
    }
  }

  lemma {:induction false} WeightedEmpty(n: Node, k: nat)
    requires k <= |n.children|
    ensures WeightedValues(n, [], k) == 0
    decreases k
  {
    if k > 0 {
      WeightedEmpty(n, k - 1);
    }
  }
}
