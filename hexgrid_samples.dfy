/** The grid's own sample cases: the six steps from the origin, its neighbour
    list, and the fringes of a breadth-first search around a set of blocked
    cells. */
module HexGridSamples {
  import opened HexGrid
  import opened Traversal
  import opened HexGridSearch

  const Origin: Hex := Hex(0, 0, 0)

  /** Each direction's step from the origin lands on its unit vector. */
  lemma MovesFromOrigin()
    ensures Move(Origin, Up) == Hex(0, -1, 1)
    ensures Move(Origin, UpRight) == Hex(1, -1, 0)
    ensures Move(Origin, DownRight) == Hex(1, 0, -1)
    ensures Move(Origin, Down) == Hex(0, 1, -1)
    ensures Move(Origin, DownLeft) == Hex(-1, 1, 0)
    ensures Move(Origin, UpLeft) == Hex(-1, 0, 1)
  {
    MoveSteps(Origin);
  }

  /** The origin's neighbour list holds the six unit cells, in any order. */
  lemma AdjacentOfOrigin(x: Hex)
    ensures x in Adjacent(Origin) <==>
            x in [Hex(1, -1, 0), Hex(1, 0, -1), Hex(0, 1, -1), Hex(0, -1, 1), Hex(-1, 1, 0), Hex(-1, 0, 1)]
  {
    MovesFromOrigin();
    assert Adjacent(Origin) ==
      [Hex(0, -1, 1), Hex(1, -1, 0), Hex(1, 0, -1), Hex(0, 1, -1), Hex(-1, 1, 0), Hex(-1, 0, 1)];
  }

  /** The cells the sample search may not enter. */
  const Blocked: set<Hex> := {
    Hex(1, -1, 0), Hex(2, -1, -1), Hex(2, 0, -2), Hex(2, 1, -3), Hex(1, 2, -3),
    Hex(0, 2, -2), Hex(-1, 2, -1), Hex(-1, 1, 0), Hex(-2, 1, 1), Hex(-3, 2, 1),
    Hex(-1, -1, 2), Hex(0, -2, 2), Hex(1, -3, 2)}

  /** f admits exactly the cells that are not blocked. */
  ghost predicate AdmitsUnblocked(f: Hex -> bool)
  {
    forall h :: f(h) <==> h !in Blocked
  }

  /** One step of a search reached the cells of L within k steps and no others;
      then a cell is within k + 1 steps exactly when it is in L or one step
      beyond a cell of L. */
  lemma WithinNext(nbr: Neighbours, a: Hex, k: nat, L: seq<Hex>, x: Hex)
    requires forall y :: Within(nbr, a, y, k) <==> y in L
    ensures Within(nbr, a, x, k + 1) <==> x in L || exists i :: 0 <= i < |L| && x in nbr(L[i])
  {
    if exists y :: Within(nbr, a, y, k) && x in nbr(y) {
      var y :| Within(nbr, a, y, k) && x in nbr(y);
      var i :| 0 <= i < |L| && L[i] == y;
    }
  }

  /** x is one of the six cells around c. */
  predicate Touching(c: Hex, x: Hex)
  {
    || x == Hex(c.q, c.r - 1, c.s + 1) || x == Hex(c.q + 1, c.r - 1, c.s) || x == Hex(c.q + 1, c.r, c.s - 1)
    || x == Hex(c.q, c.r + 1, c.s - 1) || x == Hex(c.q - 1, c.r + 1, c.s) || x == Hex(c.q - 1, c.r, c.s + 1)
  }

  /** The neighbour list of c holds exactly the six cells around it. */
  lemma AdjacentCells(c: Hex, x: Hex)
    ensures x in Adjacent(c) <==> Touching(c, x)
  {
    MoveSteps(c);
  }

  /** One step of a search through f leads to the admitted neighbours. */
  lemma StepAround(f: Hex -> bool, c: Hex, x: Hex)
    ensures x in Passable(f)(c) <==> f(x) && Touching(c, x)
  {
    PassableStep(f, c, x);
    AdjacentCells(c, x);
  }

  /** What f says about the cells around the origin that the first three
      steps of the search look at. */
  ghost predicate AdmitsNearOrigin(f: Hex -> bool)
  {
    // around the origin
    && f(Hex(0, -1, 1)) && f(Hex(-1, 0, 1)) && f(Hex(1, 0, -1)) && f(Hex(0, 1, -1))
    && !f(Hex(1, -1, 0)) && !f(Hex(-1, 1, 0))
    // around the first fringe
    && f(Hex(1, -2, 1)) && f(Hex(-2, 0, 2)) && f(Hex(1, 1, -2))
    && !f(Hex(0, -2, 2)) && !f(Hex(-1, -1, 2)) && !f(Hex(-2, 1, 1)) && !f(Hex(2, -1, -1))
    && !f(Hex(2, 0, -2)) && !f(Hex(0, 2, -2)) && !f(Hex(-1, 2, -1))
    // around the second fringe
    && f(Hex(2, -3, 1)) && f(Hex(2, -2, 0)) && f(Hex(-2, -1, 3)) && f(Hex(-3, 1, 2)) && f(Hex(-3, 0, 3))
    && !f(Hex(1, -3, 2)) && !f(Hex(2, 1, -3)) && !f(Hex(1, 2, -3))
  }

  /** The test's predicate gives those answers. */
  lemma AdmissionNearOrigin(f: Hex -> bool)
    requires AdmitsUnblocked(f)
    ensures AdmitsNearOrigin(f)
  {
  }

  const Fringe1: seq<Hex> := [Hex(0, -1, 1), Hex(-1, 0, 1), Hex(1, 0, -1), Hex(0, 1, -1)]
  const Fringe2: seq<Hex> := [Hex(1, -2, 1), Hex(-2, 0, 2), Hex(1, 1, -2)]
  const Fringe3: seq<Hex> := [Hex(2, -3, 1), Hex(2, -2, 0), Hex(-3, 1, 2), Hex(-3, 0, 3), Hex(-2, -1, 3)]

  /** The admitted cells around the origin are the first fringe. */
  lemma AroundOrigin(f: Hex -> bool, x: Hex)
    requires AdmitsNearOrigin(f)
    ensures f(x) && Touching(Origin, x) <==> x in Fringe1
  {
  }

  /** An admitted cell next to the first two depths lies within two steps. */
  lemma AroundFirstFringe(f: Hex -> bool, y: Hex, x: Hex)
    requires AdmitsNearOrigin(f)
    requires y == Origin || y in Fringe1
    requires f(x) && Touching(y, x)
    ensures x == Origin || x in Fringe1 || x in Fringe2
  {
  }

  /** Each cell of the second fringe is an admitted neighbour of the first. */
  lemma IntoSecondFringe(f: Hex -> bool, x: Hex) returns (y: Hex)
    requires AdmitsNearOrigin(f) && x in Fringe2
    ensures y in Fringe1 && f(x) && Touching(y, x)
  {
    y := if x == Hex(1, -2, 1) then Hex(0, -1, 1) else if x == Hex(-2, 0, 2) then Hex(-1, 0, 1) else Hex(1, 0, -1);
  }

  /** An admitted cell next to the first three depths lies within three steps. */
  lemma AroundSecondFringe(f: Hex -> bool, y: Hex, x: Hex)
    requires AdmitsNearOrigin(f)
    requires y == Origin || y in Fringe1 || y in Fringe2
    requires f(x) && Touching(y, x)
    ensures x == Origin || x in Fringe1 || x in Fringe2 || x in Fringe3
  {
  }

  /** Each cell of the third fringe is an admitted neighbour of the second. */
  lemma IntoThirdFringe(f: Hex -> bool, x: Hex) returns (y: Hex)
    requires AdmitsNearOrigin(f) && x in Fringe3
    ensures y in Fringe2 && f(x) && Touching(y, x)
  {
    y := if x == Hex(2, -3, 1) || x == Hex(2, -2, 0) then Hex(1, -2, 1) else Hex(-2, 0, 2);
  }

  /** Within one step of a are a and its neighbours. */
  lemma WithinFirst(nbr: Neighbours, a: Hex, x: Hex)
    ensures Within(nbr, a, x, 1) <==> x == a || x in nbr(a)
  {
    WithinNext(nbr, a, 0, [a], x);
  }

  /** The cells within one step of the origin. */
  lemma WithinOne(f: Hex -> bool, o: Hex, x: Hex)
    requires o == Origin && AdmitsNearOrigin(f)
    ensures Within(Passable(f), o, x, 1) <==> x == o || x in Fringe1
  {
    WithinFirst(Passable(f), o, x);
    StepAround(f, Origin, x);
    AroundOrigin(f, x);
  }

  /** The cells within two steps of the origin. */
  lemma WithinTwo(f: Hex -> bool, o: Hex, x: Hex)
    requires o == Origin && AdmitsNearOrigin(f)
    ensures Within(Passable(f), o, x, 2) <==> x == o || x in Fringe1 || x in Fringe2
  {
    var nbr := Passable(f);
    WithinOne(f, o, x);
    if Within(nbr, o, x, 2) && !Within(nbr, o, x, 1) {
      var y := WithinPred(nbr, o, 1, x);
      WithinOne(f, o, y);
      StepAround(f, y, x);
      AroundFirstFringe(f, y, x);
    }
    if x in Fringe2 {
      var y := IntoSecondFringe(f, x);
      WithinOne(f, o, y);
      StepAround(f, y, x);
      WithinSucc(nbr, o, 1, y, x);
    }
  }

  /** The cells within three steps of the origin. */
  lemma WithinThree(f: Hex -> bool, o: Hex, x: Hex)
    requires o == Origin && AdmitsNearOrigin(f)
    ensures Within(Passable(f), o, x, 3) <==> x == o || x in Fringe1 || x in Fringe2 || x in Fringe3
  {
    var nbr := Passable(f);
    WithinTwo(f, o, x);
    if Within(nbr, o, x, 3) && !Within(nbr, o, x, 2) {
      ThirdStepSound(f, o, x);
    }
    if x in Fringe3 {
      ThirdStepComplete(f, o, x);
    }
  }

  lemma ThirdStepSound(f: Hex -> bool, o: Hex, x: Hex)
    requires o == Origin && AdmitsNearOrigin(f)
    requires Within(Passable(f), o, x, 3) && !Within(Passable(f), o, x, 2)
    ensures x in Fringe3
  {
    var y := WithinPred(Passable(f), o, 2, x);
    StepBeyondSecond(f, o, y, x);
    WithinTwo(f, o, x);
  }

  lemma StepBeyondSecond(f: Hex -> bool, o: Hex, y: Hex, x: Hex)
    requires o == Origin && AdmitsNearOrigin(f)
    requires Within(Passable(f), o, y, 2) && x in Passable(f)(y)
    ensures x == o || x in Fringe1 || x in Fringe2 || x in Fringe3
  {
    WithinTwo(f, o, y);
    StepAround(f, y, x);
    AroundSecondFringe(f, y, x);
  }

  lemma ThirdStepComplete(f: Hex -> bool, o: Hex, x: Hex)
    requires o == Origin && AdmitsNearOrigin(f) && x in Fringe3
    ensures Within(Passable(f), o, x, 3)
  {
    var nbr := Passable(f);
    var y := IntoThirdFringe(f, x);
    WithinTwo(f, o, y);
    StepAround(f, y, x);
    WithinSucc(nbr, o, 2, y, x);
  }

  /** The expected fringes share no cell with each other or with the origin. */
  lemma FringesApart(x: Hex)
    ensures x in Fringe2 ==> x != Origin && x !in Fringe1
    ensures x in Fringe3 ==> x != Origin && x !in Fringe1 && x !in Fringe2
  {
  }

  /** The cells at exact distance one, two and three from the origin. */
  lemma FirstFringe(f: Hex -> bool, o: Hex, x: Hex)
    requires o == Origin && AdmitsNearOrigin(f)
    ensures AtDistance(Passable(f), o, x, 1) <==> x in Fringe1
  {
    WithinOne(f, o, x);
  }

  lemma SecondFringe(f: Hex -> bool, o: Hex, x: Hex)
    requires o == Origin && AdmitsNearOrigin(f)
    ensures AtDistance(Passable(f), o, x, 2) <==> x in Fringe2
  {
    WithinOne(f, o, x);
    WithinTwo(f, o, x);
    FringesApart(x);
  }

  lemma ThirdFringe(f: Hex -> bool, o: Hex, x: Hex)
    requires o == Origin && AdmitsNearOrigin(f)
    ensures AtDistance(Passable(f), o, x, 3) <==> x in Fringe3
  {
    WithinTwo(f, o, x);
    WithinThree(f, o, x);
    FringesApart(x);
  }

  /** Searches from the origin around the blocked cells for one, two and three
      steps: each fringe holds exactly the expected cells, once each. */
  method SearchAroundBlocked(f: Hex -> bool) returns (first: seq<Hex>, second: seq<Hex>, third: seq<Hex>)
    requires AdmitsUnblocked(f)
    ensures Distinct(first) && Distinct(second) && Distinct(third)
    ensures forall x :: x in first <==> x in Fringe1
    ensures forall x :: x in second <==> x in Fringe2
    ensures forall x :: x in third <==> x in Fringe3
  {
    AdmissionNearOrigin(f);
    first := BFS(Origin, 1, f);
    second := BFS(Origin, 2, f);
    third := BFS(Origin, 3, f);
    forall x ensures x in first <==> x in Fringe1 {
      FirstFringe(f, Origin, x);
    }
    forall x ensures x in second <==> x in Fringe2 {
      SecondFringe(f, Origin, x);
    }
    forall x ensures x in third <==> x in Fringe3 {
      ThirdFringe(f, Origin, x);
    }
  }
}
