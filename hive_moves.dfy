/** Move generation: the slide rule, the grasshopper's jump, the spider's and
    the soldier ant's searches through slides, the per-piece dispatch with its
    one-hive check, and the placement rule. */
module HiveMoves {
  import opened HexGrid
  import opened Traversal
  import opened Hive

  // ---------------------------------------------------------------------------
  // Sliding one cell

  /** The slide from h towards its neighbour in direction i passes the three
      tests: the piece keeps contact with the hive (the destination or one of
      the two flanking cells is occupied), the gap between two occupied flanks
      is not squeezed through, and an occupied destination is entered only
      when climbing. */
  predicate SlideAllowed(P: Board, h: Hex, i: Direction, allowClimbing: bool)
  {
    var destOccupied := Move(h, i) in P;
    var prevOccupied := Move(h, Prev(i)) in P;
    var nextOccupied := Move(h, Next(i)) in P;
    && !(!destOccupied && !prevOccupied && !nextOccupied)
    && !(!destOccupied && prevOccupied && nextOccupied)
    && !(!allowClimbing && destOccupied)
  }

  /** The outcome of the slide tests, indexed by direction. */
  function AllowedMask(P: Board, h: Hex, allowClimbing: bool): (allowed: seq<bool>)
    ensures |allowed| == MaxDirections
    ensures forall i: Direction :: allowed[i] == SlideAllowed(P, h, i, allowClimbing)
  {
    seq(MaxDirections, i requires 0 <= i < MaxDirections => SlideAllowed(P, h, i, allowClimbing))
  }

  /** The cells among the first k whose flag is set, in order. */
  function Survivors(cells: seq<Hex>, allowed: seq<bool>, k: nat): seq<Hex>
    requires k <= |cells| && k <= |allowed|
  {
    if k == 0 then []
    else Survivors(cells, allowed, k - 1) + (if allowed[k - 1] then [cells[k - 1]] else [])
  }

  /** The survivors are exactly the flagged cells. */
  lemma {:induction false} SurvivorsMembers(cells: seq<Hex>, allowed: seq<bool>, k: nat, x: Hex)
    requires k <= |cells| && k <= |allowed|
    ensures x in Survivors(cells, allowed, k) <==> exists i :: 0 <= i < k && allowed[i] && cells[i] == x
    decreases k
  {
    if k > 0 {
      SurvivorsMembers(cells, allowed, k - 1, x);
    }
  }

  /** Flagging keeps a list free of repeats. */
  lemma {:induction false} SurvivorsDistinct(cells: seq<Hex>, allowed: seq<bool>, k: nat)
    requires k <= |cells| && k <= |allowed|
    requires Distinct(cells)
    ensures Distinct(Survivors(cells, allowed, k))
    decreases k
  {
    if k > 0 {
      var kept := Survivors(cells, allowed, k - 1);
      SurvivorsDistinct(cells, allowed, k - 1);
      forall x | x in kept ensures x != cells[k - 1] {
        SurvivorsMembers(cells, allowed, k - 1, x);
      }
      DistinctConcat(kept, if allowed[k - 1] then [cells[k - 1]] else []);
    }
  }

  /** The cells one slide away from h, in direction order. */
  function SlideMoves(P: Board, h: Hex, allowClimbing: bool): seq<Hex>
  {
    Survivors(Adjacent(h), AllowedMask(P, h, allowClimbing), MaxDirections)
  }

  /** A slide destination is the neighbour in a direction that passes the tests. */
  lemma SlideMovesMembers(P: Board, h: Hex, c: bool, x: Hex)
    ensures x in SlideMoves(P, h, c) <==> exists i: Direction :: x == Move(h, i) && SlideAllowed(P, h, i, c)
  {
    var mask := AllowedMask(P, h, c);
    SurvivorsMembers(Adjacent(h), mask, MaxDirections, x);
    if exists i: Direction :: x == Move(h, i) && SlideAllowed(P, h, i, c) {
      var i: Direction :| x == Move(h, i) && SlideAllowed(P, h, i, c);
      assert mask[i] && Adjacent(h)[i] == x;
    }
  }

  /** No slide destination is listed twice. */
  lemma SlideMovesDistinct(P: Board, h: Hex, c: bool)
    ensures Distinct(SlideMoves(P, h, c))
  {
    AdjacentDistinct(h);
    SurvivorsDistinct(Adjacent(h), AllowedMask(P, h, c), MaxDirections);
  }

  /** The slide tests, read off the occupancy of the destination and its two flanks. */
  lemma SlideTests(P: Board, h: Hex, i: Direction, allowClimbing: bool, dest: bool, prev: bool, next: bool)
    requires dest == (Move(h, i) in P) && prev == (Move(h, Prev(i)) in P) && next == (Move(h, Next(i)) in P)
    ensures SlideAllowed(P, h, i, allowClimbing) <==>
            !(!dest && !prev && !next) && !(!dest && prev && next) && !(!allowClimbing && dest)
  {
  }

  /** Six flags that each agree with the slide tests make up the mask. */
  lemma MaskFilled(flags: seq<bool>, P: Board, h: Hex, allowClimbing: bool)
    requires |flags| == MaxDirections
    requires forall j :: 0 <= j < MaxDirections ==> flags[j] == SlideAllowed(P, h, j, allowClimbing)
    ensures flags == AllowedMask(P, h, allowClimbing)
  {
  }

  /** Takes the six neighbours from a fresh buffer, starts with every direction
      allowed, strikes out each one failing a test, then collects the survivors
      in direction order. */
  method AvailableAdjacentMoves(h: Hex, g: Game, allowClimbing: bool) returns (moves: seq<Hex>)
    ensures moves == SlideMoves(g.positions, h, allowClimbing)
  {
    ghost var P := g.positions;
    var adjacent := GetAdjacent(h);
    var l := adjacent.Length;
    assert forall d: Direction :: adjacent[d] == Move(h, d);
    var allowed := new bool[l](_ => true);
    for i := 0 to l
      modifies allowed
      invariant forall j :: 0 <= j < i ==> allowed[j] == SlideAllowed(P, h, j, allowClimbing)
      invariant forall j :: i <= j < l ==> allowed[j]
    {
      var destHex := adjacent[i];
      var prev := i - 1;
      if prev < 0 {
        prev := l - 1;
      }
      var prevHex := adjacent[prev];
      var next := i + 1;
      if next >= l {
        next := 0;
      }
      var nextHex := adjacent[next];
      assert prev == Prev(i) && next == Next(i);
      assert destHex == Move(h, i) && prevHex == Move(h, Prev(i)) && nextHex == Move(h, Next(i));
      var destHexOccupied := g.CheckSpaceOccupied(destHex);
      var prevHexOccupied := g.CheckSpaceOccupied(prevHex);
      var nextHexOccupied := g.CheckSpaceOccupied(nextHex);
      SlideTests(P, h, i, allowClimbing, destHexOccupied, prevHexOccupied, nextHexOccupied);
      if !destHexOccupied && !prevHexOccupied && !nextHexOccupied {
        allowed[i] := false;
      }
      if !destHexOccupied && prevHexOccupied && nextHexOccupied {
        allowed[i] := false;
      }
      if !allowClimbing && destHexOccupied {
        allowed[i] := false;
      }
      assert allowed[i] == SlideAllowed(P, h, i, allowClimbing);
    }
    MaskFilled(allowed[..], P, h, allowClimbing);
    assert adjacent[..] == Adjacent(h);
    moves := CollectAllowed(adjacent, allowed);
  }

  /** The cells whose flag is set, in index order. */
  method CollectAllowed(adjacent: array<Hex>, allowed: array<bool>) returns (moves: seq<Hex>)
    requires adjacent.Length == allowed.Length
    ensures moves == Survivors(adjacent[..], allowed[..], adjacent.Length)
  {
    moves := [];
    for i := 0 to allowed.Length
      invariant moves == Survivors(adjacent[..], allowed[..], i)
    {
      if allowed[i] {
        moves := moves + [adjacent[i]];
      }
    }
  }

  /** The cells adjacent both to h and to its neighbour x: the cells x is
      entered between. */
  predicate Flanks(h: Hex, x: Hex, n: Hex)
  {
    IsNeighbour(h, n) && IsNeighbour(x, n)
  }

  /** The slide rule stated on the geometry alone: x is a neighbour of h; an
      occupied x needs climbing; a free x has an occupied flank (contact with
      the hive) and a free flank (room to slide). */
  ghost predicate SlideLegal(P: Board, h: Hex, x: Hex, allowClimbing: bool)
  {
    && IsNeighbour(h, x)
    && (x in P ==> allowClimbing)
    && (x !in P ==> (exists n :: Flanks(h, x, n) && n in P) && (exists n :: Flanks(h, x, n) && n !in P))
  }

  /** The slide rule on direction indices agrees with its geometric statement. */
  lemma SlideAllowedIsLegal(P: Board, h: Hex, i: Direction, c: bool)
    ensures SlideAllowed(P, h, i, c) <==> SlideLegal(P, h, Move(h, i), c)
  {
    var x := Move(h, i);
    var prevHex, nextHex := Move(h, Prev(i)), Move(h, Next(i));
    AdjacentAreNeighbours(h, x);
    CommonNeighbours(h, i, prevHex);
    CommonNeighbours(h, i, nextHex);
    if x !in P {
      if exists n :: Flanks(h, x, n) && n in P {
        var n :| Flanks(h, x, n) && n in P;
        CommonNeighbours(h, i, n);
      }
      if exists n :: Flanks(h, x, n) && n !in P {
        var n :| Flanks(h, x, n) && n !in P;
        CommonNeighbours(h, i, n);
      }
    }
  }

  /** The slide destinations are exactly the cells the geometric rule allows:
      neighbours of h, never occupied without climbing, every occupied
      neighbour when climbing, and each free one touching the hive through a
      flank while the other flank is free. */
  lemma SlideMovesCharacterized(P: Board, h: Hex, c: bool, x: Hex)
    ensures x in SlideMoves(P, h, c) <==> SlideLegal(P, h, x, c)
  {
    SlideMovesMembers(P, h, c, x);
    if x in SlideMoves(P, h, c) {
      var i: Direction :| x == Move(h, i) && SlideAllowed(P, h, i, c);
      SlideAllowedIsLegal(P, h, i, c);
    }
    if SlideLegal(P, h, x, c) {
      AdjacentAreNeighbours(h, x);
      var i :| 0 <= i < MaxDirections && Adjacent(h)[i] == x;
      SlideAllowedIsLegal(P, h, i, c);
    }
  }

  /** The slide destinations are neighbours of h; without climbing none is
      occupied; with climbing every occupied neighbour is one. */
  lemma SlideMovesBounds(P: Board, h: Hex, c: bool, x: Hex)
    ensures x in SlideMoves(P, h, c) ==> x in Adjacent(h)
    ensures !c && x in SlideMoves(P, h, c) ==> x !in P
    ensures c && x in Adjacent(h) && x in P ==> x in SlideMoves(P, h, c)
  {
    SlideMovesCharacterized(P, h, c, x);
    AdjacentAreNeighbours(h, x);
  }

  // ---------------------------------------------------------------------------
  // The grasshopper's jump

  /** The occupied cells no further back than x along direction d. */
  ghost function Ahead(P: Board, d: Direction, x: Hex): set<Hex>
  {
    set y | y in P && Progress(d, y) >= Progress(d, x)
  }

  /** Stepping off an occupied cell leaves strictly fewer occupied cells ahead. */
  lemma AheadShrinks(P: Board, d: Direction, x: Hex)
    requires x in P
    ensures |Ahead(P, d, Move(x, d))| < |Ahead(P, d, x)|
  {
    MoveProgresses(x, d);
    var before, after := Ahead(P, d, x), Ahead(P, d, Move(x, d));
    assert after <= before - {x};
    SubsetCard(after, before - {x});
  }

  /** The first free cell met walking from x in direction d. */
  function JumpLanding(P: Board, x: Hex, d: Direction): (landing: Hex)
    ensures landing !in P
    decreases |Ahead(P, d, x)|
  {
    if x !in P then x
    else
      AheadShrinks(P, d, x);
      JumpLanding(P, Move(x, d), d)
  }

  /** The landing cell is the first free cell on the ray from x: whatever ray
      cell is free and has only occupied cells before it is the landing. */
  lemma {:induction false} JumpLandingIsFirstFree(P: Board, x: Hex, d: Direction, k: nat)
    requires Ray(x, d, k) !in P
    requires forall j :: 0 <= j < k ==> Ray(x, d, j) in P
    ensures JumpLanding(P, x, d) == Ray(x, d, k)
    decreases k
  {
    if k > 0 {
      assert Ray(x, d, 0) in P;
      forall j | 0 <= j < k - 1 ensures Ray(Move(x, d), d, j) in P {
        assert Ray(x, d, j + 1) in P;
      }
      JumpLandingIsFirstFree(P, Move(x, d), d, k - 1);
    }
  }

  /** The landing lies on the ray from x, after occupied cells only. */
  lemma {:induction false} JumpLandingOnRay(P: Board, x: Hex, d: Direction) returns (k: nat)
    ensures JumpLanding(P, x, d) == Ray(x, d, k)
    ensures forall j :: 0 <= j < k ==> Ray(x, d, j) in P
    decreases |Ahead(P, d, x)|
  {
    if x !in P {
      k := 0;
    } else {
      AheadShrinks(P, d, x);
      var rest := JumpLandingOnRay(P, Move(x, d), d);
      k := rest + 1;
      forall j | 0 <= j < k ensures Ray(x, d, j) in P {
        if j > 0 {
          assert Ray(x, d, j) == Ray(Move(x, d), d, j - 1);
        }
      }
    }
  }

  /** The landings over the first k directions whose neighbour is occupied. */
  function JumpMovesUpTo(P: Board, h: Hex, k: nat): (moves: seq<Hex>)
    requires k <= MaxDirections
    ensures |moves| <= k
  {
    if k == 0 then []
    else
      JumpMovesUpTo(P, h, k - 1)
      + (if Move(h, k - 1) in P then [JumpLanding(P, Move(h, k - 1), k - 1)] else [])
  }

  /** The grasshopper's destinations, in direction order. */
  function JumpMoves(P: Board, h: Hex): seq<Hex>
  {
    JumpMovesUpTo(P, h, MaxDirections)
  }

  /** For each direction whose neighbour is occupied, walks along the occupied
      cells and records the first free one. */
  method AvailableJumpMoves(h: Hex, g: Game) returns (moves: seq<Hex>)
    ensures moves == JumpMoves(g.positions, h)
  {
    ghost var P := g.positions;
    var adjacent := GetAdjacent(h);
    moves := [];
    for direction := 0 to MaxDirections
      modifies {}
      invariant adjacent[..] == Adjacent(h)
      invariant moves == JumpMovesUpTo(P, h, direction)
    {
      var adjHex := adjacent[direction];
      assert adjHex == Move(h, direction);
      if g.CheckSpaceOccupied(adjHex) {
        var targetHex := adjHex;
        while g.CheckSpaceOccupied(targetHex)
          modifies {}
          invariant JumpLanding(P, targetHex, direction) == JumpLanding(P, adjHex, direction)
          decreases |Ahead(P, direction, targetHex)|
        {
          AheadShrinks(P, direction, targetHex);
          targetHex := Move(targetHex, direction);
        }
        assert targetHex == JumpLanding(P, Move(h, direction), direction);
        moves := moves + [targetHex];
      }
    }
  }

  /** The jump rule along one direction: x lies at least two steps from h
      along d, is free, and every cell strictly between is occupied. */
  ghost predicate JumpAlong(P: Board, h: Hex, d: Direction, x: Hex)
  {
    exists k: nat ::
      && k >= 2
      && x == Ray(h, d, k)
      && x !in P
      && forall j :: 1 <= j < k ==> Ray(h, d, j) in P
  }

  /** The jump rule stated on rays, in some direction. */
  ghost predicate JumpLegal(P: Board, h: Hex, x: Hex)
  {
    exists d: Direction :: JumpAlong(P, h, d, x)
  }

  lemma {:induction false} JumpMovesUpToMembers(P: Board, h: Hex, k: nat, x: Hex)
    requires k <= MaxDirections
    ensures x in JumpMovesUpTo(P, h, k) <==>
            exists d: Direction :: d < k && Move(h, d) in P && x == JumpLanding(P, Move(h, d), d)
    decreases k
  {
    if k > 0 {
      var earlier := JumpMovesUpTo(P, h, k - 1);
      var last: seq<Hex> := if Move(h, k - 1) in P then [JumpLanding(P, Move(h, k - 1), k - 1)] else [];
      assert JumpMovesUpTo(P, h, k) == earlier + last;
      JumpMovesUpToMembers(P, h, k - 1, x);
      if x in earlier {
        var d: Direction :| d < k - 1 && Move(h, d) in P && x == JumpLanding(P, Move(h, d), d);
        assert d < k;
      } else if x in last {
        var d: Direction := k - 1;
        assert Move(h, d) in P && x == JumpLanding(P, Move(h, d), d);
      }
      if exists d: Direction :: d < k && Move(h, d) in P && x == JumpLanding(P, Move(h, d), d) {
        var d: Direction :| d < k && Move(h, d) in P && x == JumpLanding(P, Move(h, d), d);
        if d == k - 1 {
          assert x in last;
        }
      }
    }
  }

  /** Jumps in different directions land on different cells. */
  lemma LandingsApart(P: Board, h: Hex, d: Direction, e: Direction)
    requires d != e && Move(h, d) in P && Move(h, e) in P
    ensures JumpLanding(P, Move(h, d), d) != JumpLanding(P, Move(h, e), e)
  {
    LandingIsJump(P, h, d);
    LandingIsJump(P, h, e);
    var i: nat :| i >= 2 && JumpLanding(P, Move(h, d), d) == Ray(h, d, i);
    var j: nat :| j >= 2 && JumpLanding(P, Move(h, e), e) == Ray(h, e, j);
    RaysApart(h, d, e, i, j);
  }

  /** No jump destination is listed twice: there is at most one per direction. */
  lemma {:induction false} JumpMovesUpToDistinct(P: Board, h: Hex, k: nat)
    requires k <= MaxDirections
    ensures Distinct(JumpMovesUpTo(P, h, k))
    decreases k
  {
    if k > 0 {
      var earlier := JumpMovesUpTo(P, h, k - 1);
      var last: seq<Hex> := if Move(h, k - 1) in P then [JumpLanding(P, Move(h, k - 1), k - 1)] else [];
      assert JumpMovesUpTo(P, h, k) == earlier + last;
      JumpMovesUpToDistinct(P, h, k - 1);
      forall x | x in earlier ensures x !in last {
        if Move(h, k - 1) in P {
          EarlierLandingApart(P, h, k, x);
        }
      }
      DistinctConcat(earlier, last);
    }
  }

  /** A destination found before direction k differs from the landing in direction k. */
  lemma EarlierLandingApart(P: Board, h: Hex, k: nat, x: Hex)
    requires 0 < k <= MaxDirections && x in JumpMovesUpTo(P, h, k - 1) && Move(h, k - 1) in P
    ensures x != JumpLanding(P, Move(h, k - 1), k - 1)
  {
    JumpMovesUpToMembers(P, h, k - 1, x);
    var d: Direction :| d < k - 1 && Move(h, d) in P && x == JumpLanding(P, Move(h, d), d);
    LandingsApart(P, h, d, k - 1);
  }

  /** Jumping over an occupied neighbour obeys the jump rule in that direction. */
  lemma LandingIsJump(P: Board, h: Hex, d: Direction)
    requires Move(h, d) in P
    ensures JumpAlong(P, h, d, JumpLanding(P, Move(h, d), d))
  {
    var x := JumpLanding(P, Move(h, d), d);
    var k := JumpLandingOnRay(P, Move(h, d), d);
    assert k != 0;
    assert x == Ray(h, d, k + 1);
    forall j | 1 <= j < k + 1 ensures Ray(h, d, j) in P {
      assert Ray(h, d, j) == Ray(Move(h, d), d, j - 1);
    }
  }

  /** A cell the jump rule allows in direction d is the landing over that neighbour. */
  lemma JumpIsLanding(P: Board, h: Hex, d: Direction, x: Hex)
    requires JumpAlong(P, h, d, x)
    ensures Move(h, d) in P && x == JumpLanding(P, Move(h, d), d)
  {
    var k: nat :| k >= 2 && x == Ray(h, d, k) && x !in P
      && forall j :: 1 <= j < k ==> Ray(h, d, j) in P;
    assert Ray(h, d, 1) == Move(h, d);
    forall j | 0 <= j < k - 1 ensures Ray(Move(h, d), d, j) in P {
      assert Ray(h, d, j + 1) in P;
    }
    JumpLandingIsFirstFree(P, Move(h, d), d, k - 1);
  }

  /** The grasshopper's destinations are exactly the cells the jump rule allows. */
  lemma JumpMovesCharacterized(P: Board, h: Hex, x: Hex)
    ensures x in JumpMoves(P, h) <==> JumpLegal(P, h, x)
  {
    JumpMovesUpToMembers(P, h, MaxDirections, x);
    if x in JumpMoves(P, h) {
      var d: Direction :| Move(h, d) in P && x == JumpLanding(P, Move(h, d), d);
      LandingIsJump(P, h, d);
    }
    if JumpLegal(P, h, x) {
      var d: Direction :| JumpAlong(P, h, d, x);
      JumpIsLanding(P, h, d, x);
    }
  }

  // ---------------------------------------------------------------------------
  // Searches through slides: the spider and the soldier ant

  /** The traversal neighbour function: the cells one slide away without climbing. */
  function SlideStep(P: Board): Neighbours
  {
    hh => SlideMoves(P, hh, false)
  }

  /** The cells next to some piece. */
  ghost function Vicinity(P: Board): set<Hex>
  {
    set y, d | y in P && 0 <= d < MaxDirections :: Move(y, d)
  }

  /** A slide without climbing always ends next to some piece, so a search
      through slides stays among finitely many cells. */
  lemma SlideStepClosed(P: Board)
    ensures ClosedIn(SlideStep(P), Vicinity(P))
  {
    forall h, x | x in SlideStep(P)(h) ensures x in Vicinity(P) {
      SlideStepInVicinity(P, h, x);
    }
  }

  lemma SlideStepInVicinity(P: Board, h: Hex, x: Hex)
    requires x in SlideMoves(P, h, false)
    ensures x in Vicinity(P)
  {
    SlideMovesMembers(P, h, false, x);
    var i: Direction :| x == Move(h, i) && SlideAllowed(P, h, i, false);
    FlankStep(h, i);
    var prevHex, nextHex := Move(h, Prev(i)), Move(h, Next(i));
    if prevHex in P {
      assert x == Move(prevHex, Next(i));
    } else {
      assert x == Move(nextHex, Prev(i));
    }
  }

  /** Searches from h through slides to the given depth and returns the cells
      whose fewest slides from h is exactly that depth. */
  method AvailableBFSMovesAtDepth(h: Hex, g: Game, steps: int) returns (moves: seq<Hex>)
    requires steps >= 0
    ensures Distinct(moves)
    ensures forall x :: x in moves <==> AtDistance(SlideStep(g.positions), h, x, steps)
  {
    ghost var P := g.positions;
    var neighbourFunc := SlideStep(g.positions);
    SlideStepClosed(P);
    var nodesByDepth := BFS(h, neighbourFunc, steps, Vicinity(P));
    moves := nodesByDepth[steps];
    forall x ensures x in moves <==> AtDistance(neighbourFunc, h, x, steps) {
      LayerIsDistance(neighbourFunc, h, nodesByDepth, steps, x);
    }
  }

  /** Searches from h through slides until nothing new is found and returns
      every cell found beyond the start. */
  method AllAvailableBFSMoves(h: Hex, g: Game) returns (moves: seq<Hex>)
    ensures Distinct(moves)
    ensures forall x :: x in moves <==> x != h && Reaches(SlideStep(g.positions), h, x)
  {
    ghost var P := g.positions;
    var neighbourFunc := SlideStep(g.positions);
    SlideStepClosed(P);
    var nodesByDepth := BFS(h, neighbourFunc, 0, Vicinity(P));
    moves := [];
    for i := 1 to |nodesByDepth|
      invariant Distinct(moves)
      invariant forall x :: x in moves <==> exists e :: 1 <= e < i && x in nodesByDepth[e]
    {
      forall x | x in moves ensures x !in nodesByDepth[i] {
        var e :| 1 <= e < i && x in nodesByDepth[e];
        assert Apart(nodesByDepth, e, i);
      }
      DistinctConcat(moves, nodesByDepth[i]);
      moves := moves + nodesByDepth[i];
    }
    forall x ensures x in moves <==> x != h && Reaches(neighbourFunc, h, x) {
      ExhaustedLayersAreReach(neighbourFunc, h, nodesByDepth, x);
      LaterLayers(nodesByDepth, h, x);
    }
  }

  // ---------------------------------------------------------------------------
  // One piece's moves and all of a player's moves

  /** Where the piece on h may go under the rules the move generator applies:
      the rest of the hive, without the piece, must be one hive; then the
      creature's own rule decides on the board without the piece. */
  ghost predicate LegalDestination(P: Board, h: Hex, x: Hex)
    requires h in P
  {
    var rest := P - {h};
    && |rest| > 0
    && HiveConnected(rest)
    && match P[h].creature
       case QueenBee => SlideLegal(rest, h, x, false)
       case Beetle => SlideLegal(rest, h, x, true)
       case Grasshopper => JumpLegal(rest, h, x)
       case Spider => AtDistance(SlideStep(rest), h, x, 3)
       case SoldierAnt => x != h && Reaches(SlideStep(rest), h, x)
  }

  /** On an empty board no slide is possible from any cell. */
  lemma NoSlideOnEmptyBoard(y: Hex)
    ensures SlideStep(map[])(y) == []
  {
    var moves := SlideMoves(map[], y, false);
    assert SlideStep(map[])(y) == moves;
    if moves != [] {
      SlideMovesMembers(map[], y, false, moves[0]);
    }
  }

  /** A neighbour function that offers no step from h keeps a search from h at h. */
  lemma {:induction false} StuckWithin(nbr: Neighbours, h: Hex, x: Hex, k: nat)
    requires nbr(h) == []
    requires Within(nbr, h, x, k)
    ensures x == h
    decreases k
  {
    if k > 0 {
      if Within(nbr, h, x, k - 1) {
        StuckWithin(nbr, h, x, k - 1);
      } else {
        var y := WithinPred(nbr, h, k - 1, x);
        StuckWithin(nbr, h, y, k - 1);
      }
    }
  }

  /** On an empty board a search through slides never leaves its start. */
  lemma StuckOnEmptyBoard(h: Hex, x: Hex, k: nat)
    requires Within(SlideStep(map[]), h, x, k)
    ensures x == h
  {
    NoSlideOnEmptyBoard(h);
    StuckWithin(SlideStep(map[]), h, x, k);
  }

  /** With nothing else on the board no creature's rule yields a destination,
      so a lone piece has no moves whatever the one-hive check answers for
      the empty rest. */
  lemma LonePieceRulesAllowNothing(h: Hex, x: Hex)
    ensures !SlideLegal(map[], h, x, false) && !SlideLegal(map[], h, x, true)
    ensures !JumpLegal(map[], h, x)
    ensures !AtDistance(SlideStep(map[]), h, x, 3)
    ensures !(x != h && Reaches(SlideStep(map[]), h, x))
  {
    if JumpLegal(map[], h, x) {
      var d: Direction :| JumpAlong(map[], h, d, x);
      JumpIsLanding(map[], h, d, x);
    }
    if Within(SlideStep(map[]), h, x, 3) {
      StuckOnEmptyBoard(h, x, 3);
      assert Within(SlideStep(map[]), h, x, 0);
      WithinMonotone(SlideStep(map[]), h, 0, 2, x);
    }
    if Reaches(SlideStep(map[]), h, x) {
      var k: nat :| Within(SlideStep(map[]), h, x, k);
      StuckOnEmptyBoard(h, x, k);
    }
  }

  /** Putting a lifted piece back restores the board. */
  lemma RestoreRemoved(P: Board, h: Hex)
    requires h in P
    ensures (P - {h})[h := P[h]] == P
  {
    var Q := (P - {h})[h := P[h]];
    assert Q.Keys == P.Keys;
    forall y | y in P ensures Q[y] == P[y] {
    }
  }

  /** Lifts the piece off h, checks that the rest is still one hive, asks the
      creature's rule for destinations, and puts the piece back. */
  method GetAvailableMoves(h: Hex, g: Game) returns (moves: seq<Hex>)
    requires h in g.positions
    modifies g
    ensures g.positions == old(g.positions)
    ensures forall x :: x in moves <==> LegalDestination(old(g.positions), h, x)
    ensures Distinct(moves)
  {
    ghost var P := g.positions;
    var piece := g.positions[h];
    var p := g.positions[h];
    g.positions := g.positions - {h};
    ghost var rest := g.positions;
    var connected := g.EnsureConnected();
    if !connected {
      moves := [];
    } else {
      match piece.creature {
        case QueenBee =>
          moves := AvailableAdjacentMoves(h, g, false);
          SlideMovesDistinct(rest, h, false);
          forall x ensures x in moves <==> SlideLegal(rest, h, x, false) {
            SlideMovesCharacterized(rest, h, false, x);
          }
        case Beetle =>
          moves := AvailableAdjacentMoves(h, g, true);
          SlideMovesDistinct(rest, h, true);
          forall x ensures x in moves <==> SlideLegal(rest, h, x, true) {
            SlideMovesCharacterized(rest, h, true, x);
          }
        case Grasshopper =>
          moves := AvailableJumpMoves(h, g);
          JumpMovesUpToDistinct(rest, h, MaxDirections);
          forall x ensures x in moves <==> JumpLegal(rest, h, x) {
            JumpMovesCharacterized(rest, h, x);
          }
        case Spider =>
          moves := AvailableBFSMovesAtDepth(h, g, 3);
        case SoldierAnt =>
          moves := AllAvailableBFSMoves(h, g);
      }
    }
    RestoreRemoved(P, h);
    g.positions := g.positions[h := p];
  }

  /** m lists exactly the legal destinations of the piece on h. */
  ghost predicate ListsDestinations(P: Board, h: Hex, m: seq<Hex>)
    requires h in P
  {
    forall x :: x in m <==> LegalDestination(P, h, x)
  }

  /** The piece on h has somewhere to go. */
  ghost predicate CanMove(P: Board, h: Hex)
    requires h in P
  {
    exists x :: LegalDestination(P, h, x)
  }

  /** The moves of every piece of one colour that has any, each piece searched
      on its own copy of the game. */
  method GetAllAvailableMoves(g: Game, colour: Colour) returns (moves: map<Hex, seq<Hex>>)
    ensures forall h :: h in moves <==> h in g.positions && g.positions[h].colour == colour && CanMove(g.positions, h)
    ensures forall h :: h in moves ==> ListsDestinations(g.positions, h, moves[h])
    ensures forall h :: h in moves ==> Distinct(moves[h])
  {
    ghost var P := g.positions;
    moves := map[];
    var todo := g.positions.Keys;
    while todo != {}
      invariant todo <= P.Keys && g.positions == P
      invariant forall h :: h in moves <==> h in P.Keys - todo && P[h].colour == colour && CanMove(P, h)
      invariant forall h :: h in moves ==> ListsDestinations(P, h, moves[h])
      invariant forall h :: h in moves ==> Distinct(moves[h])
      decreases |todo|
    {
      var hh :| hh in todo;
      if g.positions[hh].colour == colour {
        var copy := g.Copy();
        var m := GetAvailableMoves(hh, copy);
        assert ListsDestinations(P, hh, m);
        if |m| > 0 {
          assert LegalDestination(P, hh, m[0]);
          moves := moves[hh := m];
        } else {
          assert !CanMove(P, hh);
        }
      }
      todo := todo - {hh};
    }
  }

  // ---------------------------------------------------------------------------
  // Placing a new piece

  /** The colours of the pieces on cells of S next to x. */
  ghost function TouchingColours(P: Board, S: set<Hex>, x: Hex): set<Colour>
    requires S <= P.Keys
  {
    set y | y in S && IsNeighbour(y, x) :: P[y].colour
  }

  /** A piece of colour c may be placed on x when x is free, touches the hive
      and touches no piece of the other colour. */
  ghost predicate PlacementLegal(P: Board, x: Hex, c: Colour)
  {
    && x !in P
    && (exists y :: y in P && IsNeighbour(y, x))
    && (forall y :: y in P && IsNeighbour(y, x) ==> P[y].colour == c)
  }

  /** Placement legality is the touching colours being exactly {c}. */
  lemma PlacementByColours(P: Board, x: Hex, c: Colour)
    ensures PlacementLegal(P, x, c) <==> x !in P && TouchingColours(P, P.Keys, x) == {c}
  {
    var T := TouchingColours(P, P.Keys, x);
    if PlacementLegal(P, x, c) {
      var y :| y in P && IsNeighbour(y, x);
      assert P[y].colour in T;
      assert T == {c};
    }
    if x !in P && T == {c} {
      assert c in T;
      var y :| y in P && IsNeighbour(y, x) && P[y].colour == c;
      forall z | z in P && IsNeighbour(z, x) ensures P[z].colour == c {
        assert P[z].colour in T;
      }
    }
  }

  /** A one-element set holding c is {c}. */
  lemma SingletonSet(v: set<Colour>, c: Colour)
    requires |v| == 1 && c in v
    ensures v == {c}
  {
    assert |v - {c}| == 0;
  }

  /** Adding the cell h to the scanned cells adds its colour to the cells
      around it. */
  lemma TouchingAdd(P: Board, S: set<Hex>, h: Hex, x: Hex)
    requires S <= P.Keys && h in P
    ensures TouchingColours(P, S + {h}, x) ==
            TouchingColours(P, S, x) + (if IsNeighbour(h, x) then {P[h].colour} else {})
  {
    var before, after := TouchingColours(P, S, x), TouchingColours(P, S + {h}, x);
    forall col | col in after
      ensures col in before || (IsNeighbour(h, x) && col == P[h].colour)
    {
      var y :| y in S + {h} && IsNeighbour(y, x) && P[y].colour == col;
    }
    forall col | col in before ensures col in after {
      var y :| y in S && IsNeighbour(y, x) && P[y].colour == col;
    }
    if IsNeighbour(h, x) {
      assert P[h].colour in after;
    }
  }

  /** m records, for every free cell touching a piece of S or lying in extra,
      the colours of the pieces of S it touches, plus c for the cells of extra. */
  ghost predicate Tallies(P: Board, S: set<Hex>, extra: set<Hex>, c: Colour, m: map<Hex, set<Colour>>)
    requires S <= P.Keys
  {
    forall x ::
      && (x in m <==> x !in P && (TouchingColours(P, S, x) != {} || x in extra))
      && (x in m ==> m[x] == TouchingColours(P, S, x) + (if x in extra then {c} else {}))
  }

  lemma TallyStart(P: Board)
    ensures Tallies(P, {}, {}, Black, map[])
  {
    forall x ensures TouchingColours(P, {}, x) == {} {
    }
  }

  /** Skipping an occupied neighbour keeps the tally. */
  lemma TallyOccupied(P: Board, S: set<Hex>, extra: set<Hex>, c: Colour, m: map<Hex, set<Colour>>, n: Hex)
    requires S <= P.Keys && Tallies(P, S, extra, c, m) && n in P
    ensures Tallies(P, S, extra + {n}, c, m)
  {
  }

  /** Marking a free neighbour with c, after giving it an empty colour set if
      it had none, extends the tally by it. */
  lemma TallyFree(P: Board, S: set<Hex>, extra: set<Hex>, c: Colour, m: map<Hex, set<Colour>>,
                  initialised: map<Hex, set<Colour>>, n: Hex)
    requires S <= P.Keys && Tallies(P, S, extra, c, m) && n !in P
    requires initialised == if n in m then m else m[n := {}]
    ensures n in initialised
    ensures Tallies(P, S, extra + {n}, c, initialised[n := initialised[n] + {c}])
  {
  }

  /** Once every neighbour of h is marked, h counts as scanned. */
  lemma TallyScanned(P: Board, S: set<Hex>, h: Hex, extra: set<Hex>, m: map<Hex, set<Colour>>)
    requires S <= P.Keys && h in P
    requires Tallies(P, S, extra, P[h].colour, m)
    requires forall x :: x in extra <==> x in Adjacent(h)
    ensures Tallies(P, S + {h}, {}, Black, m)
  {
    forall x ensures TouchingColours(P, S + {h}, x) ==
      TouchingColours(P, S, x) + (if x in extra then {P[h].colour} else {})
    {
      TouchingAdd(P, S, h, x);
      AdjacentAreNeighbours(h, x);
    }
  }

  /** Records, for every free cell next to a piece, the colours it touches,
      then keeps the cells touching only the given colour. */
  method GetPlacements(g: Game, colour: Colour) returns (placements: seq<Hex>)
    ensures Distinct(placements)
    ensures forall x :: x in placements <==> PlacementLegal(g.positions, x, colour)
  {
    ghost var P := g.positions;
    var allPlacements: map<Hex, set<Colour>> := map[];
    var todo := g.positions.Keys;
    TallyStart(P);
    while todo != {}
      invariant todo <= P.Keys && g.positions == P
      invariant Tallies(P, P.Keys - todo, {}, Black, allPlacements)
      decreases |todo|
    {
      var h :| h in todo;
      ghost var done := P.Keys - todo;
      ghost var extra: set<Hex> := {};
      var piece := g.positions[h];
      var neighbours := GetAdjacent(h);
      assert Tallies(P, done, extra, piece.colour, allPlacements);
      for i := 0 to neighbours.Length
        modifies {}
        invariant neighbours[..] == Adjacent(h)
        invariant forall x :: x in extra <==> x in neighbours[..i]
        invariant Tallies(P, done, extra, piece.colour, allPlacements)
      {
        var neighbour := neighbours[i];
        assert neighbours[..i + 1] == neighbours[..i] + [neighbour];
        if neighbour in g.positions {
          TallyOccupied(P, done, extra, piece.colour, allPlacements, neighbour);
          extra := extra + {neighbour};
          continue;
        }
        ghost var m := allPlacements;
        if neighbour !in allPlacements {
          allPlacements := allPlacements[neighbour := {}];
        }
        TallyFree(P, done, extra, piece.colour, m, allPlacements, neighbour);
        allPlacements := allPlacements[neighbour := allPlacements[neighbour] + {piece.colour}];
        extra := extra + {neighbour};
      }
      assert neighbours[..neighbours.Length] == Adjacent(h);
      TallyScanned(P, done, h, extra, allPlacements);
      assert P.Keys - (todo - {h}) == done + {h};
      todo := todo - {h};
    }
    assert P.Keys - todo == P.Keys;
    placements := SingleColourCells(allPlacements, colour);
    forall x ensures x in placements <==> PlacementLegal(P, x, colour) {
      TallyDecides(P, allPlacements, colour, x);
    }
  }

  /** A full tally decides placement: the cell is recorded with the single colour c. */
  lemma TallyDecides(P: Board, m: map<Hex, set<Colour>>, c: Colour, x: Hex)
    requires Tallies(P, P.Keys, {}, Black, m)
    ensures x in m && |m[x]| == 1 && c in m[x] <==> PlacementLegal(P, x, c)
  {
    PlacementByColours(P, x, c);
    if x in m && |m[x]| == 1 && c in m[x] {
      SingletonSet(m[x], c);
    }
  }

  /** The recorded cells whose colour set is exactly {colour}. */
  method SingleColourCells(allPlacements: map<Hex, set<Colour>>, colour: Colour) returns (placements: seq<Hex>)
    ensures Distinct(placements)
    ensures forall x :: x in placements <==>
      x in allPlacements && |allPlacements[x]| == 1 && colour in allPlacements[x]
  {
    placements := [];
    var keys := allPlacements.Keys;
    while keys != {}
      invariant keys <= allPlacements.Keys
      invariant Distinct(placements)
      invariant forall x :: x in placements <==>
        x in allPlacements.Keys - keys && |allPlacements[x]| == 1 && colour in allPlacements[x]
      decreases |keys|
    {
      var k :| k in keys;
      var v := allPlacements[k];
      if |v| == 1 && colour in v {
        placements := placements + [k];
      }
      keys := keys - {k};
    }
  }
}
