/**
 * Day 13, worked examples: two small drawings on which the collision checks of
 * `Course` go wrong as written, and what the corrected checks give on them.
 */
module CartExamples {
  import opened Wrappers
  import opened Carts
  import opened CartRuns

  /** The track drawn `v>-` over `^  `: a cart going south, one going east, and one going north
      right below the first. */
  const MissTrack: seq<seq<Space>> := [[StraightNS, StraightEW, StraightEW], [StraightNS, Blank, Blank]]
  const MissCarts: seq<Cart> := [Cart(0, 0, 0, South, 0), Cart(1, 1, 0, East, 0), Cart(2, 0, 1, North, 0)]

  /** The drawing `v>-` over `^  ` reads as that track and those carts. */
  lemma MissDrawing()
    ensures Laid(["v>-", "^  "]) == MissTrack
    ensures Numbered(Spots(["v>-", "^  "])) == MissCarts
  {
    var lines := ["v>-", "^  "];
    assert Laid(lines)[0] == MissTrack[0];
    assert Laid(lines)[1] == MissTrack[1];
    assert lines[..1] == ["v>-"] && lines[..1][..0] == [];
    assert "v>-"[..2] == "v>" && "v>"[..1] == "v" && "v"[..0] == [];
    assert "^  "[..2] == "^ " && "^ "[..1] == "^" && "^"[..0] == [];
    assert Spots(lines) == [Spot(0, 0, South), Spot(1, 0, East), Spot(0, 1, North)];
  }

  /** The three carts are already in reading order. */
  lemma MissCartsOrdered()
    ensures Sorted(MissCarts) == MissCarts
  {
    SortedKeeps(MissCarts);
  }

  /** The three carts stand on different cells. */
  lemma MissCartsApart()
    ensures Apart(MissCarts)
  {
  }

  /** The check of neighbours as written misses a collision: the first cart moves onto the third,
      which is not its neighbour in the array, and the two have passed each other by the end of the
      tick, so the first tick reports nothing although two carts shared cell (0, 1). */
  lemma FirstCollisionMissed()
    ensures ScanFirst(MissTrack, MissCarts, 0) == Ticked([Cart(0, 0, 1, South, 0), Cart(1, 2, 0, East, 0), Cart(2, 0, 0, North, 0)])
    ensures !NeverMeet(MissTrack, MissCarts, 0)
  {
    var moved := MissCarts[0 := Cart(0, 0, 1, South, 0)];
    assert Move(MissTrack, MissCarts[0]) == Some(Cart(0, 0, 1, South, 0));
    assert !Apart(moved) by { assert SamePlace(moved[0], moved[2]); }
    assert FirstAdjacent(moved, 0) == None;
    assert ScanFirst(MissTrack, MissCarts, 0) == ScanFirst(MissTrack, moved, 1);
    var moved2 := moved[1 := Cart(1, 2, 0, East, 0)];
    assert Move(MissTrack, moved[1]) == Some(Cart(1, 2, 0, East, 0));
    assert FirstAdjacent(moved2, 0) == None;
    assert ScanFirst(MissTrack, moved, 1) == ScanFirst(MissTrack, moved2, 2);
    var moved3 := moved2[2 := Cart(2, 0, 0, North, 0)];
    assert Move(MissTrack, moved2[2]) == Some(Cart(2, 0, 0, North, 0));
    assert FirstAdjacent(moved3, 0) == None;
    assert ScanFirst(MissTrack, moved2, 2) == ScanFirst(MissTrack, moved3, 3);
  }

  /** The corrected tick reports the collision at (0, 1) on the first move. */
  lemma FirstCollisionFixedFinds()
    ensures ScanFirstFixed(MissTrack, MissCarts, 0) == Collided(0, 1)
  {
    var moved := MissCarts[0 := Cart(0, 0, 1, South, 0)];
    assert Move(MissTrack, MissCarts[0]) == Some(Cart(0, 0, 1, South, 0));
    assert MeetsOther(moved, 0) by { assert SamePlace(moved[2], moved[0]); }
  }

  // A counterexample to the collision check of `lastCart`: two carts crash on a crossing and a third
  // runs onto the wreck in the same tick.

  /** The track drawn as `>+<` over ` ^ `, without its carts. */
  const WreckTrack: seq<seq<Space>> := [[StraightEW, Intersection, StraightEW], [Blank, StraightNS, Blank]]

  /** The carts of that drawing. */
  const WreckCarts: seq<Cart> := [Cart(0, 0, 0, East, 0), Cart(1, 2, 0, West, 0), Cart(2, 1, 1, North, 0)]

  /** The drawing lays that track. */
  lemma WreckDrawingTrack()
    ensures Laid([">+<", " ^ "]) == WreckTrack
  {
    var lines := [">+<", " ^ "];
    assert Laid(lines)[0] == WreckTrack[0];
    assert Laid(lines)[1] == WreckTrack[1];
  }

  /** The drawing holds those carts. */
  lemma WreckDrawingCarts()
    ensures Numbered(Spots([">+<", " ^ "])) == WreckCarts
  {
    var lines := [">+<", " ^ "];
    assert lines[..1] == [">+<"] && lines[..1][..0] == [];
    assert ">+<"[..2] == ">+" && ">+"[..1] == ">" && ">"[..0] == [];
    assert " ^ "[..2] == " ^" && " ^"[..1] == " " && " "[..0] == [];
    assert Spots(lines) == [Spot(0, 0, East), Spot(2, 0, West), Spot(1, 1, North)];
  }

  /** The carts are already in reading order. */
  lemma WreckCartsOrdered()
    ensures Sorted(WreckCarts) == WreckCarts
  {
    SortedKeeps(WreckCarts);
  }

  /** The carts have different numbers. */
  lemma WreckCartsUnique()
    ensures UniqueIds(WreckCarts)
  {
  }

  /** The carts stand on different cells. */
  lemma WreckCartsApart()
    ensures ApartRunning(WreckCarts, {})
  {
  }

  /** The carts after the three moves of the first tick, all on the crossing. */
  const WreckMoved: seq<Cart> := [Cart(0, 1, 0, North, 1), Cart(1, 1, 0, South, 1), Cart(2, 1, 0, West, 1)]

  /** The carts after the first and the second move of the first tick. */
  const WreckFirst: seq<Cart> := WreckCarts[0 := WreckMoved[0]]
  const WreckSecond: seq<Cart> := WreckFirst[1 := WreckMoved[1]]

  /** The middle of the top row is the crossing. */
  lemma WreckCrossing()
    ensures OnTrack(WreckTrack, 1, 0) && WreckTrack[0][1] == Intersection
  {
  }

  /** The first cart reaches the crossing and turns left, to the north. */
  lemma WreckMoveFirst()
    ensures Move(WreckTrack, WreckCarts[0]) == Some(WreckMoved[0])
  {
    WreckCrossing();
    MoveOntoCrossing(WreckTrack, WreckCarts[0], 1, 0);
  }

  /** The second cart reaches the crossing and turns left, to the south. */
  lemma WreckMoveSecond()
    ensures Move(WreckTrack, WreckFirst[1]) == Some(WreckMoved[1])
  {
    WreckCrossing();
    MoveOntoCrossing(WreckTrack, WreckCarts[1], 1, 0);
  }

  /** The third cart reaches the crossing and turns left, to the west. */
  lemma WreckMoveThird()
    ensures Move(WreckTrack, WreckSecond[2]) == Some(WreckMoved[2])
  {
    WreckCrossing();
    MoveOntoCrossing(WreckTrack, WreckCarts[2], 1, 0);
  }

  /** The third move completes the tick. */
  lemma WreckAllMoved()
    ensures WreckSecond[2 := WreckMoved[2]] == WreckMoved
  {
    var t := WreckSecond[2 := WreckMoved[2]];
    assert |t| == 3 && t[0] == WreckMoved[0] && t[1] == WreckMoved[1] && t[2] == WreckMoved[2];
  }

  /** The first cart reaches the crossing alone. */
  lemma WreckFirstAlone()
    ensures OthersUpTo(WreckFirst, 0, 3) == {}
  {
  }

  /** The second cart meets the first on the crossing. */
  lemma WreckSecondMeets()
    ensures OthersUpTo(WreckSecond, 1, 3) == {0}
  {
    var cs := WreckSecond;
    assert 0 in OthersUpTo(cs, 1, 3) by {
      assert !SameCart(cs[0], cs[1]) && SamePlace(cs[0], cs[1]);
    }
    forall k | k in OthersUpTo(cs, 1, 3)
      ensures k == 0
    {
      var j :| 0 <= j < 3 && !SameCart(cs[j], cs[1]) && SamePlace(cs[j], cs[1]) && cs[j].id == k;
    }
  }

  /** The third cart then meets both wrecked carts on the crossing. */
  lemma WreckThirdMeets()
    ensures OthersUpTo(WreckMoved, 2, 3) == {0, 1}
  {
    var cs := WreckMoved;
    assert 0 in OthersUpTo(cs, 2, 3) by {
      assert !SameCart(cs[0], cs[2]) && SamePlace(cs[0], cs[2]);
    }
    assert 1 in OthersUpTo(cs, 2, 3) by {
      assert !SameCart(cs[1], cs[2]) && SamePlace(cs[1], cs[2]);
    }
    forall k | k in OthersUpTo(cs, 2, 3)
      ensures k == 0 || k == 1
    {
      var j :| 0 <= j < 3 && !SameCart(cs[j], cs[2]) && SamePlace(cs[j], cs[2]) && cs[j].id == k;
    }
  }

  /** The first move, as written and corrected alike: nothing is marked. */
  lemma LastCartWrecksFirst()
    ensures ScanLast(WreckTrack, WreckCarts, {}, 0) == ScanLast(WreckTrack, WreckFirst, {}, 1)
  {
    WreckMoveFirst();
    WreckFirstAlone();
    ScanLastStep(WreckTrack, WreckCarts, {}, 0, WreckMoved[0], {});
  }

  /** The second move as written: the second cart crashes into the first. */
  lemma LastCartWrecksSecond()
    ensures ScanLast(WreckTrack, WreckFirst, {}, 1) == ScanLast(WreckTrack, WreckSecond, {0, 1}, 2)
  {
    WreckMoveSecond();
    WreckSecondMeets();
    ScanLastStep(WreckTrack, WreckFirst, {}, 1, WreckMoved[1], {0, 1});
  }

  /** The third move as written: the third cart is marked on meeting the two wrecked ones. */
  lemma LastCartWrecksThird()
    ensures ScanLast(WreckTrack, WreckSecond, {0, 1}, 2) == Swept(WreckMoved, {0, 1, 2})
  {
    WreckMoveThird();
    WreckThirdMeets();
    WreckAllMoved();
    ScanLastStep(WreckTrack, WreckSecond, {0, 1}, 2, WreckMoved[2], {0, 1, 2});
  }

  /** As written, the first tick marks all three carts. */
  lemma LastCartWrecks()
    ensures ScanLast(WreckTrack, WreckCarts, {}, 0) == Swept(WreckMoved, {0, 1, 2})
  {
    LastCartWrecksFirst();
    LastCartWrecksSecond();
    LastCartWrecksThird();
  }

  /** Taking all three carts off leaves none. */
  lemma WreckNoneRemain()
    ensures Remaining(WreckMoved, {0, 1, 2}) == []
  {
    assert WreckMoved[..2][..1][..0] == [];
  }

  /** Taking the two crashed carts off leaves the third. */
  lemma WreckThirdRemains()
    ensures Remaining(WreckMoved, {0, 1}) == [WreckMoved[2]]
  {
    assert WreckMoved[..2][..1][..0] == [];
  }

  /** As written, no cart is left after the first tick. */
  lemma LastCartNoneLeft()
    ensures AfterTick(WreckTrack, WreckCarts) == Some([])
  {
    LastCartWrecks();
    WreckCartsOrdered();
    WreckNoneRemain();
  }

  /** As written, `lastCart` never returns on the wreck drawing, however many ticks it is given. */
  lemma LastCartNeverFinishes(fuel: nat)
    ensures RunLast(WreckTrack, WreckCarts, fuel) == Unfinished
  {
    LastCartNoneLeft();
    RunLastNever(WreckTrack, WreckCarts, fuel);
  }

  /** The first move with the corrected check: nothing is marked. */
  lemma LastCartFixedFirst()
    ensures ScanLastFixed(WreckTrack, WreckCarts, {}, 0) == ScanLastFixed(WreckTrack, WreckFirst, {}, 1)
  {
    WreckMoveFirst();
    WreckFirstAlone();
    assert Partners(WreckFirst, 0, {}) == OthersUpTo(WreckFirst, 0, 3);
    ScanLastFixedStep(WreckTrack, WreckCarts, {}, 0, WreckMoved[0], {});
  }

  /** The second move with the corrected check: the first two carts crash. */
  lemma LastCartFixedSecond()
    ensures ScanLastFixed(WreckTrack, WreckFirst, {}, 1) == ScanLastFixed(WreckTrack, WreckSecond, {0, 1}, 2)
  {
    WreckMoveSecond();
    WreckSecondMeets();
    assert Partners(WreckSecond, 1, {}) == OthersUpTo(WreckSecond, 1, 3);
    ScanLastFixedStep(WreckTrack, WreckFirst, {}, 1, WreckMoved[1], {0, 1});
  }

  /** The third cart meets only carts already marked. */
  lemma WreckThirdAlone()
    ensures MarksRunning(WreckMoved, 2, {0, 1}) == {}
  {
    NoPartners(WreckMoved, 2, {0, 1});
  }

  /** The third move with the corrected check: the third cart is not marked. */
  lemma LastCartFixedThird()
    ensures ScanLastFixed(WreckTrack, WreckSecond, {0, 1}, 2) == Swept(WreckMoved, {0, 1})
  {
    WreckMoveThird();
    WreckAllMoved();
    WreckThirdAlone();
    assert {0, 1} + MarksRunning(WreckMoved, 2, {0, 1}) == {0, 1};
    ScanLastFixedStep(WreckTrack, WreckSecond, {0, 1}, 2, WreckMoved[2], {0, 1});
  }

  /** With the corrected check the third cart survives the first tick. */
  lemma LastCartFixedSpares()
    ensures AfterTickFixed(WreckTrack, WreckCarts) == Some([WreckMoved[2]])
  {
    LastCartFixedFirst();
    LastCartFixedSecond();
    LastCartFixedThird();
    WreckCartsOrdered();
    WreckThirdRemains();
  }

  /** With the corrected check `lastCart` ends after one tick with the third cart, on the
      crossing. */
  lemma LastCartFixedFinds()
    ensures RunLastFixed(WreckTrack, WreckCarts, 1) == Found(1, 0)
  {
    LastCartFixedSpares();
    RunLastFixedOne(WreckTrack, WreckCarts, 1, WreckMoved[2]);
  }
}
