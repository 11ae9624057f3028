/** Sample boards from the engine's tests, with the moves the rules give the
    piece on the origin. Pieces left uncoloured in a test take Black, the
    zero colour. */
module HiveSamples {
  import opened HexGrid
  import opened Traversal
  import opened Hive
  import opened HiveMoves

  const Origin: Hex := Hex(0, 0, 0)

  /** Game 1 without its central queen bee: four beetles around the origin. */
  const Rest1: Board := map[
    Hex(-1, 1, 0) := Piece(Beetle, Black),
    Hex(-1, 0, 1) := Piece(Beetle, Black),
    Hex(0, -1, 1) := Piece(Beetle, Black),
    Hex(1, -1, 0) := Piece(Beetle, Black)]

  const Game1: Board := Rest1[Origin := Piece(QueenBee, Black)]

  /** Game 4 without the white grasshopper on the origin. */
  const Rest4: Board := map[
    Hex(0, -1, 1) := Piece(QueenBee, Black),
    Hex(1, -2, 1) := Piece(SoldierAnt, Black),
    Hex(2, -2, 0) := Piece(SoldierAnt, White),
    Hex(2, -1, -1) := Piece(Spider, White),
    Hex(1, 0, -1) := Piece(Grasshopper, Black),
    Hex(0, 1, -1) := Piece(Beetle, White),
    Hex(2, 0, -2) := Piece(QueenBee, White),
    Hex(3, -1, -2) := Piece(Beetle, Black),
    Hex(4, -1, -3) := Piece(Spider, Black),
    Hex(4, 0, -4) := Piece(Spider, White),
    Hex(3, 1, -4) := Piece(Spider, Black)]

  const Game4: Board := Rest4[Origin := Piece(Grasshopper, White)]

  /** Game 9 without its spider: five beetles around the origin, leaving the
      Down neighbour free. */
  const Rest9: Board := map[
    Hex(-1, 1, 0) := Piece(Beetle, Black),
    Hex(-1, 0, 1) := Piece(Beetle, Black),
    Hex(0, -1, 1) := Piece(Beetle, Black),
    Hex(1, -1, 0) := Piece(Beetle, Black),
    Hex(1, 0, -1) := Piece(Beetle, Black)]

  const Game9: Board := Rest9[Origin := Piece(Spider, Black)]

  /** Lifting the piece just placed on a free cell gives back the board. */
  lemma LiftPlaced(R: Board, h: Hex, p: Piece)
    requires h !in R
    ensures R[h := p] - {h} == R
  {
    assert (R[h := p] - {h}).Keys == R.Keys;
  }

  /** One step of nbr is a reach. */
  lemma ReachesByStep(nbr: Neighbours, a: Hex, b: Hex)
    requires b in nbr(a)
    ensures Reaches(nbr, a, b)
  {
    assert Within(nbr, a, a, 0);
    WithinSucc(nbr, a, 0, a, b);
  }

  /** Along a chain whose consecutive cells step to each other both ways,
      every cell reaches every other. */
  lemma {:induction false} ChainReaches(nbr: Neighbours, chain: seq<Hex>, i: nat, j: nat)
    requires i < |chain| && j < |chain|
    requires forall k :: 0 <= k < |chain| - 1 ==> chain[k + 1] in nbr(chain[k]) && chain[k] in nbr(chain[k + 1])
    ensures Reaches(nbr, chain[i], chain[j])
    decreases if i <= j then j - i else i - j
  {
    if i == j {
      assert Within(nbr, chain[i], chain[j], 0);
    } else if i < j {
      ChainReaches(nbr, chain, i, j - 1);
      ReachesByStep(nbr, chain[j - 1], chain[j]);
      ReachesTransitive(nbr, chain[i], chain[j - 1], chain[j]);
    } else {
      ChainReaches(nbr, chain, i, j + 1);
      ReachesByStep(nbr, chain[j + 1], chain[j]);
      ReachesTransitive(nbr, chain[i], chain[j + 1], chain[j]);
    }
  }

  /** Adjacent occupied cells step to each other in the one-hive search. */
  lemma OccupiedLink(P: Board, a: Hex, d: Direction)
    requires a in P && Move(a, d) in P
    ensures Move(a, d) in OccupiedNeighbours(P)(a) && a in OccupiedNeighbours(P)(Move(a, d))
  {
    var b := Move(a, d);
    assert Adjacent(a)[d] == b;
    AdjacentSymmetric(a, b);
    OccupiedNeighbour(P, a, b);
    OccupiedNeighbour(P, b, a);
  }

  /** A set whose cells all lie on such a chain is connected. */
  lemma ChainConnected(nbr: Neighbours, chain: seq<Hex>, S: set<Hex>)
    requires forall k :: 0 <= k < |chain| - 1 ==> chain[k + 1] in nbr(chain[k]) && chain[k] in nbr(chain[k + 1])
    requires forall a :: a in S ==> a in chain
    ensures Connected(nbr, S)
  {
    forall a, b | a in S && b in S ensures Reaches(nbr, a, b) {
      var i :| 0 <= i < |chain| && chain[i] == a;
      var j :| 0 <= j < |chain| && chain[j] == b;
      ChainReaches(nbr, chain, i, j);
    }
  }

  /** Occupied cells each one step from the last, covering the whole board,
      make one hive. */
  lemma StepChainConnected(P: Board, chain: seq<Hex>, dirs: seq<Direction>)
    requires |dirs| == |chain| - 1
    requires forall k :: 0 <= k < |dirs| ==> chain[k + 1] == Move(chain[k], dirs[k])
    requires forall k :: 0 <= k < |chain| ==> chain[k] in P
    requires forall a :: a in P ==> a in chain
    ensures HiveConnected(P)
  {
    var nbr := OccupiedNeighbours(P);
    forall k | 0 <= k < |chain| - 1 ensures chain[k + 1] in nbr(chain[k]) && chain[k] in nbr(chain[k + 1]) {
      assert chain[k] in P && chain[k + 1] in P;
      OccupiedLink(P, chain[k], dirs[k]);
    }
    ChainConnected(nbr, chain, P.Keys);
  }

  /** Without the queen, the four beetles of Game 1 form one hive. */
  lemma Rest1Connected()
    ensures HiveConnected(Rest1)
  {
    StepChainConnected(Rest1, [Hex(-1, 1, 0), Hex(-1, 0, 1), Hex(0, -1, 1), Hex(1, -1, 0)], [Up, UpRight, DownRight]);
  }

  /** A free neighbour with exactly one occupied flank passes the slide tests. */
  lemma SlideByFlanks(P: Board, h: Hex, i: Direction)
    requires Move(h, i) !in P
    requires (Move(h, Prev(i)) in P) != (Move(h, Next(i)) in P)
    ensures SlideAllowed(P, h, i, false)
  {
  }

  // Most lemmas below about a single board take it as a parameter equal to
  // the constant, so that the verifier reasons about the rules rather than
  // evaluating them on the constant.

  /** The queen of Game 1 may slide Down-right (its Up-right flank is occupied
      and its Down flank free) and Down (its Down-left flank is occupied and
      its Down-right flank free). */
  lemma Rest1Slides(P: Board)
    requires P == Rest1
    ensures SlideAllowed(P, Origin, DownRight, false) && Move(Origin, DownRight) == Hex(1, 0, -1)
    ensures SlideAllowed(P, Origin, Down, false) && Move(Origin, Down) == Hex(0, 1, -1)
  {
    assert Prev(DownRight) == UpRight && Next(DownRight) == Down;
    assert Prev(Down) == DownRight && Next(Down) == DownLeft;
    assert Move(Origin, UpRight) == Hex(1, -1, 0) && Hex(1, -1, 0) in P;
    assert Move(Origin, DownRight) == Hex(1, 0, -1) && Hex(1, 0, -1) !in P;
    assert Move(Origin, Down) == Hex(0, 1, -1) && Hex(0, 1, -1) !in P;
    assert Move(Origin, DownLeft) == Hex(-1, 1, 0) && Hex(-1, 1, 0) in P;
    SlideByFlanks(P, Origin, DownRight);
    SlideByFlanks(P, Origin, Down);
  }

  /** Every other neighbour of the queen of Game 1 is occupied. */
  lemma Rest1Blocked(P: Board, i: Direction)
    requires P == Rest1 && i != DownRight && i != Down
    ensures Move(Origin, i) in P && !SlideAllowed(P, Origin, i, false)
  {
    DirectionCases(i);
  }

  /** The queen of Game 1 slides Down-right or Down and nowhere else. */
  lemma Game1QueenSlides(P: Board, x: Hex)
    requires P == Rest1
    ensures x in SlideMoves(P, Origin, false) <==> x == Hex(1, 0, -1) || x == Hex(0, 1, -1)
  {
    SlideMovesMembers(P, Origin, false, x);
    Rest1Slides(P);
    if x in SlideMoves(P, Origin, false) {
      var i: Direction :| x == Move(Origin, i) && SlideAllowed(P, Origin, i, false);
      if i != DownRight && i != Down {
        Rest1Blocked(P, i);
      }
    }
  }

  /** Lifting Game 1's queen leaves the four beetles, which are one hive. */
  lemma Game1Lifted()
    ensures Origin in Game1 && Game1[Origin].creature == QueenBee
    ensures Game1 - {Origin} == Rest1 && |Rest1| > 0 && HiveConnected(Rest1)
  {
    LiftPlaced(Rest1, Origin, Piece(QueenBee, Black));
    Rest1Connected();
    assert Hex(-1, 1, 0) in Rest1;
  }

  /** The legal destinations of Game 1's queen are exactly the two cells the
      test lists. */
  lemma Game1QueenMoves(G: Board, x: Hex)
    requires G == Game1
    ensures Origin in G && (LegalDestination(G, Origin, x) <==> x == Hex(1, 0, -1) || x == Hex(0, 1, -1))
  {
    Game1Lifted();
    Game1QueenSlides(Rest1, x);
    SlideMovesCharacterized(Rest1, Origin, false, x);
  }

  /** The six cells around the origin. */
  lemma AroundOrigin(o: Hex)
    requires o == Hex(0, 0, 0)
    ensures Move(o, Up) == Hex(0, -1, 1) && Move(o, UpRight) == Hex(1, -1, 0)
    ensures Move(o, DownRight) == Hex(1, 0, -1) && Move(o, Down) == Hex(0, 1, -1)
    ensures Move(o, DownLeft) == Hex(-1, 1, 0) && Move(o, UpLeft) == Hex(-1, 0, 1)
  {
    MoveSteps(o);
  }

  lemma RayOneStep(x: Hex, d: Direction)
    ensures Ray(x, d, 1) == Move(x, d)
  {
    assert Ray(x, d, 1) == Ray(Move(x, d), d, 0);
  }

  lemma RayTwoSteps(x: Hex, d: Direction)
    ensures Ray(x, d, 2) == Move(Move(x, d), d)
  {
    assert Ray(x, d, 2) == Ray(Move(x, d), d, 1) == Ray(Move(Move(x, d), d), d, 0);
  }

  /** The cells Game 4's grasshopper jumps over and lands on, Up, Down-right
      and Down from a cell. */
  lemma JumpUpGeometry(o: Hex)
    ensures Move(o, Up) == Hex(o.q, o.r - 1, o.s + 1)
    ensures Ray(Move(o, Up), Up, 1) == Hex(o.q, o.r - 2, o.s + 2)
  {
    var u := Move(o, Up);
    MoveSteps(o);
    MoveSteps(u);
    RayOneStep(u, Up);
  }

  lemma JumpDownRightGeometry(o: Hex)
    ensures Move(o, DownRight) == Hex(o.q + 1, o.r, o.s - 1)
    ensures Move(Move(o, DownRight), DownRight) == Hex(o.q + 2, o.r, o.s - 2)
    ensures Ray(Move(o, DownRight), DownRight, 2) == Hex(o.q + 3, o.r, o.s - 3)
  {
    var u := Move(o, DownRight);
    var v := Move(u, DownRight);
    MoveSteps(o);
    MoveSteps(u);
    MoveSteps(v);
    RayTwoSteps(u, DownRight);
  }

  lemma JumpDownGeometry(o: Hex)
    ensures Move(o, Down) == Hex(o.q, o.r + 1, o.s - 1)
    ensures Ray(Move(o, Down), Down, 1) == Hex(o.q, o.r + 2, o.s - 2)
  {
    var u := Move(o, Down);
    MoveSteps(o);
    MoveSteps(u);
    RayOneStep(u, Down);
  }

  /** A jump over one or two occupied cells lands on the next cell of the ray. */
  lemma LandingAfter(P: Board, x: Hex, d: Direction, k: nat, landing: Hex)
    requires 1 <= k <= 2 && Ray(x, d, k) == landing && landing !in P
    requires x in P && (k == 2 ==> Move(x, d) in P)
    ensures JumpLanding(P, x, d) == landing
  {
    forall j | 0 <= j < k ensures Ray(x, d, j) in P {
      if j == 1 {
        assert Ray(x, d, 1) == Move(x, d);
      }
    }
    JumpLandingIsFirstFree(P, x, d, k);
  }

  /** When exactly the Up, Down-right and Down neighbours are occupied, the
      jumps are the landings beyond those three. */
  lemma JumpsOverThree(P: Board, h: Hex, x: Hex)
    requires forall d: Direction :: Move(h, d) in P <==> d == Up || d == DownRight || d == Down
    ensures x in JumpMoves(P, h) <==>
            x == JumpLanding(P, Move(h, Up), Up) || x == JumpLanding(P, Move(h, DownRight), DownRight) ||
            x == JumpLanding(P, Move(h, Down), Down)
  {
    JumpMovesUpToMembers(P, h, MaxDirections, x);
  }

  /** Game 4's grasshopper has occupied neighbours Up, Down-right and Down only. */
  lemma Rest4Neighbours(P: Board, d: Direction)
    requires P == Rest4
    ensures Move(Origin, d) in P <==> d == Up || d == DownRight || d == Down
  {
    DirectionCases(d);
  }

  /** The cells of Game 4 the grasshopper's jumps pass over or land on. */
  lemma Rest4Cells(P: Board)
    requires P == Rest4
    ensures Hex(0, -1, 1) in P && Hex(0, -2, 2) !in P
    ensures Hex(1, 0, -1) in P && Hex(2, 0, -2) in P && Hex(3, 0, -3) !in P
    ensures Hex(0, 1, -1) in P && Hex(0, 2, -2) !in P
  {
  }

  /** Over an occupied Up neighbour with a free cell behind it, the
      grasshopper lands on that cell. */
  lemma LandingUp(P: Board)
    requires Hex(0, -1, 1) in P && Hex(0, -2, 2) !in P
    ensures Move(Origin, Up) == Hex(0, -1, 1) && JumpLanding(P, Hex(0, -1, 1), Up) == Hex(0, -2, 2)
  {
    JumpUpGeometry(Origin);
    LandingAfter(P, Hex(0, -1, 1), Up, 1, Hex(0, -2, 2));
  }

  /** Over two occupied cells Down-right, the grasshopper lands on the third. */
  lemma LandingDownRight(P: Board)
    requires Hex(1, 0, -1) in P && Hex(2, 0, -2) in P && Hex(3, 0, -3) !in P
    ensures Move(Origin, DownRight) == Hex(1, 0, -1) && JumpLanding(P, Hex(1, 0, -1), DownRight) == Hex(3, 0, -3)
  {
    JumpDownRightGeometry(Origin);
    LandingAfter(P, Hex(1, 0, -1), DownRight, 2, Hex(3, 0, -3));
  }

  /** Over an occupied Down neighbour with a free cell behind it, the
      grasshopper lands on that cell. */
  lemma LandingDown(P: Board)
    requires Hex(0, 1, -1) in P && Hex(0, 2, -2) !in P
    ensures Move(Origin, Down) == Hex(0, 1, -1) && JumpLanding(P, Hex(0, 1, -1), Down) == Hex(0, 2, -2)
  {
    JumpDownGeometry(Origin);
    LandingAfter(P, Hex(0, 1, -1), Down, 1, Hex(0, 2, -2));
  }

  /** The grasshopper of Game 4 lands exactly on the three cells the test
      lists, and these are exactly the cells the jump rule allows. */
  lemma Game4GrasshopperJumps(P: Board, x: Hex)
    requires P == Rest4
    ensures x in JumpMoves(P, Origin) <==> x == Hex(0, -2, 2) || x == Hex(0, 2, -2) || x == Hex(3, 0, -3)
    ensures JumpLegal(P, Origin, x) <==> x == Hex(0, -2, 2) || x == Hex(0, 2, -2) || x == Hex(3, 0, -3)
  {
    forall d: Direction ensures Move(Origin, d) in P <==> d == Up || d == DownRight || d == Down {
      Rest4Neighbours(P, d);
    }
    JumpsOverThree(P, Origin, x);
    Rest4Cells(P);
    LandingUp(P);
    LandingDownRight(P);
    LandingDown(P);
    JumpMovesCharacterized(P, Origin, x);
  }

  /** Without the grasshopper, the eleven pieces of Game 4 form one hive: a
      walk through neighbours, going back once past (1, 0, -1), visits them all. */
  lemma Rest4Connected(P: Board)
    requires P == Rest4
    ensures HiveConnected(P)
  {
    var walk := [Hex(0, -1, 1), Hex(1, -2, 1), Hex(2, -2, 0), Hex(2, -1, -1), Hex(1, 0, -1), Hex(0, 1, -1),
                 Hex(1, 0, -1), Hex(2, 0, -2), Hex(3, -1, -2), Hex(4, -1, -3), Hex(4, 0, -4), Hex(3, 1, -4)];
    var dirs := [UpRight, DownRight, Down, DownLeft, DownLeft, UpRight, DownRight, UpRight, DownRight, Down, DownLeft];
    forall k | 0 <= k < |dirs| ensures walk[k + 1] == Move(walk[k], dirs[k]) {
      var d := dirs[k];
      assert d == UpRight || d == DownRight || d == Down || d == DownLeft;
    }
    forall a | a in P ensures a in walk {
    }
    StepChainConnected(P, walk, dirs);
  }

  /** Lifting Game 4's grasshopper leaves eleven pieces, which are one hive. */
  lemma Game4Lifted()
    ensures Origin in Game4 && Game4[Origin].creature == Grasshopper
    ensures Game4 - {Origin} == Rest4 && |Rest4| > 0 && HiveConnected(Rest4)
  {
    LiftPlaced(Rest4, Origin, Piece(Grasshopper, White));
    Rest4Connected(Rest4);
    assert Hex(0, -1, 1) in Rest4;
  }

  /** The legal destinations of Game 4's grasshopper are exactly the three
      cells the test lists. */
  lemma Game4GrasshopperMoves(G: Board, x: Hex)
    requires G == Game4
    ensures Origin in G && (LegalDestination(G, Origin, x) <==> x == Hex(0, -2, 2) || x == Hex(0, 2, -2) || x == Hex(3, 0, -3))
  {
    Game4Lifted();
    Game4GrasshopperJumps(Rest4, x);
  }

  /** A cell from which no direction passes the slide tests offers no slide. */
  lemma NoSlides(P: Board, h: Hex)
    requires forall i: Direction :: !SlideAllowed(P, h, i, false)
    ensures SlideStep(P)(h) == []
  {
    var moves := SlideMoves(P, h, false);
    assert SlideStep(P)(h) == moves;
    if moves != [] {
      SlideMovesMembers(P, h, false, moves[0]);
    }
  }

  /** The free Down neighbour of Game 9's spider lies between two occupied cells. */
  lemma Rest9Squeezed(P: Board)
    requires P == Rest9
    ensures !SlideAllowed(P, Origin, Down, false)
  {
    AroundOrigin(Origin);
    assert Prev(Down) == DownRight && Next(Down) == DownLeft;
    assert Move(Origin, Down) == Hex(0, 1, -1) && Hex(0, 1, -1) !in P;
    assert Move(Origin, DownRight) == Hex(1, 0, -1) && Hex(1, 0, -1) in P;
    assert Move(Origin, DownLeft) == Hex(-1, 1, 0) && Hex(-1, 1, 0) in P;
  }

  /** The other five neighbours of Game 9's spider are occupied. */
  lemma Rest9Occupied(P: Board, i: Direction)
    requires P == Rest9 && i != Down
    ensures Move(Origin, i) in P && !SlideAllowed(P, Origin, i, false)
  {
    AroundOrigin(Origin);
    DirectionCases(i);
  }

  /** The spider of Game 9 cannot slide at all. */
  lemma Game9SpiderStuck(P: Board)
    requires P == Rest9
    ensures SlideStep(P)(Origin) == []
  {
    forall i: Direction ensures !SlideAllowed(P, Origin, i, false) {
      if i == Down {
        Rest9Squeezed(P);
      } else {
        Rest9Occupied(P, i);
      }
    }
    NoSlides(P, Origin);
  }

  /** The trapped spider of Game 9 has no legal destination. */
  lemma Game9SpiderTrapped(G: Board, x: Hex)
    requires G == Game9
    ensures Origin in G && !LegalDestination(G, Origin, x)
  {
    LiftPlaced(Rest9, Origin, Piece(Spider, Black));
    var nbr := SlideStep(Rest9);
    if Within(nbr, Origin, x, 3) {
      Game9SpiderStuck(Rest9);
      StuckWithin(nbr, Origin, x, 3);
      assert Within(nbr, Origin, x, 0);
      WithinMonotone(nbr, Origin, 0, 2, x);
    }
  }
}
