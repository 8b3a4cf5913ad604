/**
 * Day 12: a row of pots, each with or without a plant, evolving one
 * generation at a time. A pot's next state is looked up in the notes by the
 * five-pot pattern around it. The hall keeps only the stretch of pots that
 * matters: `headID` is the number of the first pot kept, and before each
 * generation the row is padded with empty pots or trimmed at the front so
 * that exactly two empty pots precede the first plant.
 */
module Pots {

  /** A stretch of pots and the number of its first pot. */
  datatype Row = Row(pots: seq<bool>, head: int)

  /** `generatePots`: a pot holds a plant exactly where the layout has `#`. */
  function Layout(s: string): (r: seq<bool>)
    ensures |r| == |s|
    ensures forall i :: 0 <= i < |s| ==> (r[i] <==> s[i] == '#')
  {
    if s == [] then [] else Layout(s[..|s| - 1]) + [s[|s| - 1] == '#']
  }

  /** The pots as the hall's description draws them: `#` for a plant, `.` for none. */
  function Render(pots: seq<bool>): (r: string)
    ensures |r| == |pots|
    ensures forall i :: 0 <= i < |pots| ==> r[i] == (if pots[i] then '#' else '.')
  {
    if pots == [] then [] else Render(pots[..|pots| - 1]) + [if pots[|pots| - 1] then '#' else '.']
  }

  /** Reading back a drawn row gives the same pots, so patterns and rows determine each other. */
  lemma LayoutRender(pots: seq<bool>)
    ensures Layout(Render(pots)) == pots
  {
    var r := Layout(Render(pots));
    assert forall i :: 0 <= i < |pots| ==> r[i] == pots[i];
  }

  /** Two rows with the same drawing are the same row. */
  lemma RenderInjective(p: seq<bool>, q: seq<bool>)
    requires Render(p) == Render(q)
    ensures p == q
  {
    LayoutRender(p);
    LayoutRender(q);
  }

  /** `plantValue`: the sum of the numbers of the pots holding a plant. */
  function Value(pots: seq<bool>, head: int): int
  {
    if pots == [] then 0
    else Value(pots[..|pots| - 1], head) + (if pots[|pots| - 1] then |pots| - 1 + head else 0)
  }

  /** How many pots hold a plant. */
  function Count(pots: seq<bool>): (r: nat)
    ensures r <= |pots|
  {
    if pots == [] then 0 else Count(pots[..|pots| - 1]) + (if pots[|pots| - 1] then 1 else 0)
  }

  /** The numbers of the pots holding a plant. */
  function Positions(r: Row): set<int>
  {
    set i | 0 <= i < |r.pots| && r.pots[i] :: i + r.head
  }

  /** Renumbering the pots by `d` moves the value by `d` per plant. */
  lemma {:induction false} ValueShift(pots: seq<bool>, head: int, d: int)
    ensures Value(pots, head + d) == Value(pots, head) + d * Count(pots)
    decreases |pots|
  {
    if pots != [] {
      ValueShift(pots[..|pots| - 1], head, d);
    }
  }

  /** An empty pot put in front, with the numbering moved back by one, keeps the value. */
  lemma {:induction false} ValuePadFront(pots: seq<bool>, head: int)
    ensures Value([false] + pots, head - 1) == Value(pots, head)
    decreases |pots|
  {
    if pots != [] {
      var init := pots[..|pots| - 1];
      ValuePadFront(init, head);
      assert ([false] + pots)[..|pots|] == [false] + init;
    }
  }

  /** An empty pot added at the end keeps the value. */
  lemma ValuePadBack(pots: seq<bool>, head: int)
    ensures Value(pots + [false], head) == Value(pots, head)
  {
    assert (pots + [false])[..|pots|] == pots;
  }

  /** Adding an empty pot in front, as `next` pads, keeps the plants' numbers. */
  lemma PositionsPadFront(r: Row)
    ensures Positions(Row([false] + r.pots, r.head - 1)) == Positions(r)
  {
    var s := Row([false] + r.pots, r.head - 1);
    forall x | x in Positions(s)
      ensures x in Positions(r)
    {
      var i :| 0 <= i < |s.pots| && s.pots[i] && x == i + s.head;
      assert r.pots[i - 1];
    }
    forall x | x in Positions(r)
      ensures x in Positions(s)
    {
      var i :| 0 <= i < |r.pots| && r.pots[i] && x == i + r.head;
      assert s.pots[i + 1];
    }
  }

  /** Adding an empty pot at the end keeps the plants' numbers. */
  lemma PositionsPadBack(r: Row)
    ensures Positions(Row(r.pots + [false], r.head)) == Positions(r)
  {
    var s := Row(r.pots + [false], r.head);
    forall x | x in Positions(s)
      ensures x in Positions(r)
    {
      var i :| 0 <= i < |s.pots| && s.pots[i] && x == i + s.head;
      assert r.pots[i];
    }
    forall x | x in Positions(r)
      ensures x in Positions(s)
    {
      var i :| 0 <= i < |r.pots| && r.pots[i] && x == i + r.head;
      assert s.pots[i];
    }
  }

  /** The front padding of `next`: afterwards the first two pots are empty. */
  function PadFront(r: Row): (r': Row)
    requires true in r.pots
    ensures true in r'.pots
  {
    var a := if r.pots[0] then Row([false] + r.pots, r.head - 1) else r;
    assert true in a.pots by {
      var i :| 0 <= i < |r.pots| && r.pots[i];
      assert a.pots[i + |a.pots| - |r.pots|];
    }
    if !a.pots[0] && a.pots[1] then Row([false] + a.pots, a.head - 1) else a
  }

  /** The back padding of `next`: afterwards the last two pots are empty. */
  function PadBack(r: Row): (r': Row)
    requires true in r.pots
    ensures true in r'.pots
  {
    var a := if r.pots[|r.pots| - 1] then Row(r.pots + [false], r.head) else r;
    if !a.pots[|a.pots| - 1] && a.pots[|a.pots| - 2] then Row(a.pots + [false], a.head) else a
  }

  /** The compression loop of `next`: drop the first pot while the first three are empty. */
  function Compress(r: Row): (r': Row)
    requires true in r.pots
    ensures true in r'.pots
    decreases |r.pots|
  {
    if !r.pots[0] && !r.pots[1] && !r.pots[2] then
      assert true in r.pots[1..] by {
        var i :| 0 <= i < |r.pots| && r.pots[i];
        assert r.pots[1..][i - 1];
      }
      Compress(Row(r.pots[1..], r.head + 1))
    else r
  }

  /** The row `next` builds the new generation from: padded at both ends, then compressed. */
  function Frame(r: Row): Row
    requires true in r.pots
  {
    Compress(PadBack(PadFront(r)))
  }

  /** Two empty pots, then a plant, at the front; two empty pots at the end. */
  predicate Framed(r: Row)
  {
    |r.pots| >= 5 && !r.pots[0] && !r.pots[1] && r.pots[2] && !r.pots[|r.pots| - 1] && !r.pots[|r.pots| - 2]
  }

  /** Two rows with the same plants, numbered alike, and the same value. */
  predicate Same(r: Row, s: Row)
  {
    Positions(r) == Positions(s) && Value(r.pots, r.head) == Value(s.pots, s.head)
  }

  /** An empty pot in front, with the numbering moved back by one, changes nothing that counts. */
  lemma SamePadFront(r: Row)
    ensures Same(Row([false] + r.pots, r.head - 1), r)
  {
    PositionsPadFront(r);
    ValuePadFront(r.pots, r.head);
  }

  /** An empty pot at the end changes nothing that counts. */
  lemma SamePadBack(r: Row)
    ensures Same(Row(r.pots + [false], r.head), r)
  {
    PositionsPadBack(r);
    ValuePadBack(r.pots, r.head);
  }

  /** The front padding leaves two empty pots in front and keeps the plants' numbers and the value. */
  lemma PadFrontKeeps(r: Row)
    requires true in r.pots
    ensures var f := PadFront(r);
      |f.pots| >= 2 && !f.pots[0] && !f.pots[1] && Same(f, r)
  {
    if r.pots[0] {
      var a := Row([false] + r.pots, r.head - 1);
      SamePadFront(r);
      SamePadFront(a);
    } else if r.pots[1] {
      SamePadFront(r);
    }
  }

  /** The back padding leaves two empty pots at the end and keeps the pots already there, the plants'
      numbers and the value. */
  lemma PadBackKeeps(r: Row)
    requires true in r.pots
    ensures var b := PadBack(r);
      && r.pots <= b.pots && !b.pots[|b.pots| - 1] && !b.pots[|b.pots| - 2] && Same(b, r)
  {
    if r.pots[|r.pots| - 1] {
      var a := Row(r.pots + [false], r.head);
      SamePadBack(r);
      SamePadBack(a);
    } else if r.pots[|r.pots| - 2] {
      SamePadBack(r);
    }
  }

  /** Compression stops at two empty pots before the first plant and keeps the empty pots at the end. */
  lemma {:induction false} CompressFrames(r: Row)
    requires true in r.pots && |r.pots| >= 2 && !r.pots[0] && !r.pots[1]
    requires !r.pots[|r.pots| - 1] && !r.pots[|r.pots| - 2]
    ensures Framed(Compress(r))
    decreases |r.pots|
  {
    if !r.pots[2] {
      CompressFrames(Row(r.pots[1..], r.head + 1));
    }
  }

  /** Compression keeps the plants' numbers and the value. */
  lemma {:induction false} CompressSame(r: Row)
    requires true in r.pots
    ensures Same(Compress(r), r)
    decreases |r.pots|
  {
    if !r.pots[0] && !r.pots[1] && !r.pots[2] {
      var s := Row(r.pots[1..], r.head + 1);
      assert [false] + s.pots == r.pots;
      SamePadFront(s);
      CompressSame(s);
    }
  }

  /** The row `next` builds the new generation from holds the same plants, numbered alike, with the
      same value, between exactly two empty pots in front and at least two at the end. */
  lemma FrameKeeps(r: Row)
    requires true in r.pots
    ensures Framed(Frame(r)) && Same(Frame(r), r)
  {
    PadFrontKeeps(r);
    var f := PadFront(r);
    PadBackKeeps(f);
    var b := PadBack(f);
    assert !b.pots[0] && !b.pots[1];
    CompressFrames(b);
    CompressSame(b);
  }

  /** Whether pot `j` of the stretch holds a plant; pots outside it hold none. */
  function Pot(pots: seq<bool>, j: int): bool
  {
    0 <= j < |pots| && pots[j]
  }

  /** The five pots centred on pot `i`. */
  function Window(pots: seq<bool>, i: int): seq<bool>
  {
    [Pot(pots, i - 2), Pot(pots, i - 1), Pot(pots, i), Pot(pots, i + 1), Pot(pots, i + 2)]
  }

  /** The note for a five-pot pattern, looked up by its drawing; a pattern without a note gives no plant. */
  function Rule(notes: map<string, bool>, w: seq<bool>): bool
  {
    var key := Render(w);
    key in notes && notes[key]
  }

  /** The rule application of `next`: every pot of the stretch looks up the pattern around it. */
  function NextPots(pots: seq<bool>, notes: map<string, bool>): (r: seq<bool>)
    ensures |r| == |pots|
  {
    seq(|pots|, i requires 0 <= i < |pots| => Rule(notes, Window(pots, i)))
  }

  /** Renumbering through an empty pot in front: pot `j + 1` of the padded stretch is pot `j`. */
  lemma PotPadFront(pots: seq<bool>)
    ensures forall j :: Pot([false] + pots, j + 1) == Pot(pots, j)
  {
  }

  /** An empty pot in front does not change the next state of the pots already there. */
  lemma NextPadFront(pots: seq<bool>, notes: map<string, bool>)
    ensures NextPots([false] + pots, notes)[1..] == NextPots(pots, notes)
  {
    var p := [false] + pots;
    forall i | 0 <= i < |pots|
      ensures NextPots(p, notes)[i + 1] == NextPots(pots, notes)[i]
    {
      assert Window(p, i + 1) == Window(pots, i);
    }
  }

  /** An empty pot at the end does not change the next state of the pots already there. */
  lemma NextPadBack(pots: seq<bool>, notes: map<string, bool>)
    ensures NextPots(pots + [false], notes)[..|pots|] == NextPots(pots, notes)
  {
    var p := pots + [false];
    forall i | 0 <= i < |pots|
      ensures NextPots(p, notes)[i] == NextPots(pots, notes)[i]
    {
      assert Window(p, i) == Window(pots, i);
    }
  }

  /** The hall: the initial layout, the current stretch of pots, its first pot's number, the
      generation and the notes. */
  class Hall {
    const initialLayout: string
    var generation: int
    var headID: int
    var pots: seq<bool>
    var notes: map<string, bool>

    /** `init(initialLayout:)`: generation 0, pots numbered from 0, no notes. */
    constructor (initialLayout: string)
      ensures this.initialLayout == initialLayout && pots == Layout(initialLayout)
      ensures generation == 0 && headID == 0 && notes == map[]
    {
      this.initialLayout := initialLayout;
      generation := 0;
      headID := 0;
      notes := map[];
      pots := Layout(initialLayout);
    }

    /** `addNote`: the pattern now leads to `hasPlant`; nothing else changes. */
    method AddNote(pattern: string, hasPlant: bool)
      modifies this
      ensures notes == old(notes)[pattern := hasPlant]
      ensures pots == old(pots) && headID == old(headID) && generation == old(generation)
    {
      notes := notes[pattern := hasPlant];
    }

    /** `next`: pad, compress, then apply the notes to every pot; one generation more. The source
        reads past the stretch when no pot holds a plant. */
    method Next()
      requires true in pots
      modifies this
      ensures var f := Frame(Row(old(pots), old(headID)));
        pots == NextPots(f.pots, notes) && headID == f.head
      ensures generation == old(generation) + 1 && notes == old(notes)
    {
      PadFrontInPlace();
      PadBackInPlace();
      CompressInPlace();
      pots := NextPots(pots, notes);
      generation := generation + 1;
    }

    /** The front padding of `next`, in place. */
    method PadFrontInPlace()
      requires true in pots
      modifies this
      ensures Row(pots, headID) == PadFront(old(Row(pots, headID)))
      ensures notes == old(notes) && generation == old(generation)
    {
      if pots[0] {
        pots := [false] + pots;
        headID := headID - 1;
      }
      if !pots[0] && pots[1] {
        pots := [false] + pots;
        headID := headID - 1;
      }
    }

    /** The back padding of `next`, in place. */
    method PadBackInPlace()
      requires true in pots
      modifies this
      ensures Row(pots, headID) == PadBack(old(Row(pots, headID)))
      ensures notes == old(notes) && generation == old(generation)
    {
      var lastIndex := |pots| - 1;
      if pots[lastIndex] {
        pots := pots + [false];
      }
      lastIndex := |pots| - 1;
      if !pots[lastIndex] && pots[lastIndex - 1] {
        pots := pots + [false];
      }
    }

    /** The compression loop of `next`, in place. */
    method CompressInPlace()
      requires true in pots
      modifies this
      ensures Row(pots, headID) == Compress(old(Row(pots, headID)))
      ensures notes == old(notes) && generation == old(generation)
    {
      while !pots[0] && !pots[1] && !pots[2]
        invariant true in pots
        invariant Compress(Row(pots, headID)) == Compress(old(Row(pots, headID)))
        invariant notes == old(notes) && generation == old(generation)
        decreases |pots|
      {
        pots := pots[1..];
        headID := headID + 1;
      }
    }

    /** `reset`: back to the initial layout, numbered from 0, at generation 0; the notes stay. */
    method Reset()
      modifies this
      ensures pots == Layout(initialLayout) && headID == 0 && generation == 0 && notes == old(notes)
    {
      headID := 0;
      generation := 0;
      pots := Layout(initialLayout);
    }
  }
}
