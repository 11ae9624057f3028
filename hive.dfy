/** The board: pieces, the position map held by a game, its deep copy, the
    generic breadth-first search and the one-hive connectivity check. */
module Hive {
  import opened HexGrid
  import opened Traversal

  datatype Creature = QueenBee | Beetle | Spider | Grasshopper | SoldierAnt

  datatype Colour = Black | White

  /** A tile: which creature it is and which player owns it. */
  datatype Piece = Piece(creature: Creature, colour: Colour)

  /** A position: the piece standing on each occupied cell. */
  type Board = map<Hex, Piece>

  class Game {
    var positions: Board

    constructor (positions: Board)
      ensures this.positions == positions
    {
      this.positions := positions;
    }

    /** A new game whose position map holds the same cells and pieces. */
    method Copy() returns (gg: Game)
      ensures fresh(gg)
      ensures gg.positions == positions
    {
      var copied: Board := map[];
      var todo := positions.Keys;
      while todo != {}
        invariant todo <= positions.Keys
        invariant copied.Keys == positions.Keys - todo
        invariant forall h :: h in copied ==> copied[h] == positions[h]
        decreases |todo|
      {
        var h :| h in todo;
        var piece := positions[h];
        copied := copied[h := Piece(piece.creature, piece.colour)];
        todo := todo - {h};
      }
      gg := new Game(copied);
    }

    /** Whether a piece stands on h. */
    function CheckSpaceOccupied(h: Hex): (occupied: bool)
      reads this
      ensures occupied <==> h in positions
    {
      h in positions
    }

    /** The one-hive check: counts the cells a search through occupied
        neighbours reaches from some occupied cell (the origin when the board
        is empty) and compares the count with the number of pieces. */
    method EnsureConnected() returns (connected: bool)
      ensures connected <==> |positions| > 0 && HiveConnected(positions)
    {
      var start := Hex(0, 0, 0);
      if |positions| > 0 {
        start :| start in positions;
      }
      var neighbourFunc := OccupiedNeighbours(positions);
      OccupiedNeighboursClosed(positions);
      var nodesByDepth := BFS(start, neighbourFunc, 0, positions.Keys);
      var visitedCount := 0;
      for i := 0 to |nodesByDepth|
        invariant visitedCount == TotalSize(nodesByDepth[..i])
      {
        assert nodesByDepth[..i + 1][..i] == nodesByDepth[..i];
        visitedCount := visitedCount + |nodesByDepth[i]|;
      }
      assert nodesByDepth[..|nodesByDepth|] == nodesByDepth;
      connected := visitedCount == |positions|;
      CountDecidesConnected(neighbourFunc, positions.Keys, start, nodesByDepth);
    }
  }

  /** The cells of a list that hold a piece, in list order. */
  function OccupiedAmong(P: Board, cells: seq<Hex>): (valid: seq<Hex>)
    ensures forall x :: x in valid <==> x in cells && x in P
  {
    if cells == [] then []
    else (if cells[0] in P then [cells[0]] else []) + OccupiedAmong(P, cells[1..])
  }

  /** The occupied cells around h, in direction order. */
  function OccupiedAdjacent(P: Board, h: Hex): (valid: seq<Hex>)
    ensures forall x :: x in valid <==> x in Adjacent(h) && x in P
  {
    OccupiedAmong(P, Adjacent(h))
  }

  /** The connectivity search's neighbour function: occupied adjacent cells. */
  function OccupiedNeighbours(P: Board): Neighbours
  {
    hh => OccupiedAdjacent(P, hh)
  }

  /** Applying the connectivity neighbour function filters the adjacent cells. */
  lemma OccupiedNeighbour(P: Board, y: Hex, x: Hex)
    ensures x in OccupiedNeighbours(P)(y) <==> x in Adjacent(y) && x in P
  {
    assert OccupiedNeighbours(P)(y) == OccupiedAdjacent(P, y);
  }

  /** The connectivity search never leaves the occupied cells and can retrace its steps. */
  lemma OccupiedNeighboursClosed(P: Board)
    ensures ClosedIn(OccupiedNeighbours(P), P.Keys)
    ensures SymmetricIn(OccupiedNeighbours(P), P.Keys)
  {
    var nbr := OccupiedNeighbours(P);
    forall h, n | n in nbr(h) ensures n in P.Keys {
      OccupiedNeighbour(P, h, n);
    }
    forall y, x | y in P.Keys && x in nbr(y) ensures y in nbr(x) {
      OccupiedNeighbour(P, y, x);
      OccupiedNeighbour(P, x, y);
      AdjacentSymmetric(y, x);
    }
  }

  /** One hive: every occupied cell reaches every other through occupied cells. */
  ghost predicate HiveConnected(P: Board)
  {
    Connected(OccupiedNeighbours(P), P.Keys)
  }

  /** A board holding a single piece is one hive. */
  lemma OnePieceIsOneHive(h: Hex, piece: Piece)
    ensures HiveConnected(map[h := piece])
  {
    var P := map[h := piece];
    forall a, b | a in P.Keys && b in P.Keys ensures Reaches(OccupiedNeighbours(P), a, b) {
      assert Within(OccupiedNeighbours(P), a, b, 0);
    }
  }

  /** Breadth-first search from start, grouping cells by depth; maxDepth == 0
      searches until a depth adds nothing, a positive maxDepth pads the result
      with empty buckets up to that depth. */
  method BFS(start: Hex, neighbourFunc: Neighbours, maxDepth: int, ghost bound: set<Hex>)
    returns (nodesByDepth: seq<seq<Hex>>)
    requires maxDepth == 0 ==> ClosedIn(neighbourFunc, bound)
    ensures Layered(neighbourFunc, start, nodesByDepth)
    ensures maxDepth < 0 ==> nodesByDepth == [[start]]
    ensures maxDepth > 0 ==> |nodesByDepth| == maxDepth + 1
    ensures maxDepth == 0 ==> Exhausted(nodesByDepth)
  {
    var visited: set<Hex> := {start};
    nodesByDepth := [[start]];
    assert UpTo(nodesByDepth, 0) == {start} by {
      forall x | x in UpTo(nodesByDepth, 0) ensures x == start {
        var e :| 0 <= e <= 0 && x in nodesByDepth[e];
      }
      assert start in nodesByDepth[0];
    }
    var depth := 1;
    while maxDepth == 0 || depth <= maxDepth
      invariant 1 <= depth == |nodesByDepth|
      invariant Layered(neighbourFunc, start, nodesByDepth)
      invariant visited == UpTo(nodesByDepth, depth - 1)
      invariant NoEmptyBucket(nodesByDepth)
      invariant maxDepth > 0 ==> depth <= maxDepth + 1
      invariant maxDepth < 0 ==> nodesByDepth == [[start]]
      invariant maxDepth == 0 ==> visited <= bound + {start}
      decreases if maxDepth == 0 then |bound + {start} - visited| else maxDepth - depth + 1
    {
      ghost var before := nodesByDepth;
      var layer, seen := ExpandLayer(neighbourFunc, nodesByDepth[depth - 1], visited);
      LayeredAppend(neighbourFunc, start, nodesByDepth, layer);
      nodesByDepth := nodesByDepth + [layer];
      if |layer| == 0 {
        ExhaustedAppend(before);
        break;
      }
      NoEmptyBucketAppend(before, layer);
      if maxDepth == 0 {
        NewCellsInBound(neighbourFunc, bound, before[depth - 1], layer);
        ShrinkingRemainder(visited, seen, bound + {start}, layer[0]);
      }
      visited := seen;
      depth := depth + 1;
    }
    while |nodesByDepth| <= maxDepth
      invariant Layered(neighbourFunc, start, nodesByDepth)
      invariant nodesByDepth[|nodesByDepth| - 1] == [] || |nodesByDepth| > maxDepth
      invariant maxDepth > 0 ==> |nodesByDepth| <= maxDepth + 1
      invariant maxDepth < 0 ==> nodesByDepth == [[start]]
      invariant maxDepth == 0 ==> Exhausted(nodesByDepth)
      decreases maxDepth - |nodesByDepth|
    {
      LayeredAppend(neighbourFunc, start, nodesByDepth, []);
      nodesByDepth := nodesByDepth + [[]];
    }
  }

  /** Cells found as neighbours stay inside a closed bound. */
  lemma NewCellsInBound(nbr: Neighbours, bound: set<Hex>, previous: seq<Hex>, layer: seq<Hex>)
    requires ClosedIn(nbr, bound)
    requires forall x :: x in layer ==> exists h :: h in previous && x in nbr(h)
    ensures forall x :: x in layer ==> x in bound
  {
  }

  /** Growing the visited set by a cell of the universe shrinks what remains. */
  lemma ShrinkingRemainder(visited: set<Hex>, seen: set<Hex>, universe: set<Hex>, x: Hex)
    requires visited <= seen <= universe && x in seen && x !in visited
    ensures |universe - seen| < |universe - visited|
  {
    var smaller, larger := universe - seen, universe - visited;
    assert smaller <= larger;
    assert larger == smaller + (larger - smaller);
    assert x in larger - smaller;
  }

  /** One depth of the search: the not yet visited neighbours of the previous
      bucket, each once, and the visited set grown by them. */
  method ExpandLayer(neighbourFunc: Neighbours, previous: seq<Hex>, visited: set<Hex>)
    returns (layer: seq<Hex>, seen: set<Hex>)
    ensures Distinct(layer)
    ensures forall x :: x in seen <==> x in visited || x in layer
    ensures forall x :: x in layer ==> x !in visited
    ensures forall x :: x in layer ==> exists h :: h in previous && x in neighbourFunc(h)
    ensures forall h, n :: h in previous && n in neighbourFunc(h) ==> n in seen
  {
    layer := [];
    seen := visited;
    for i := 0 to |previous|
      invariant Distinct(layer)
      invariant forall x :: x in seen <==> x in visited || x in layer
      invariant forall x :: x in layer ==> x !in visited
      invariant forall x :: x in layer ==> exists h :: h in previous && x in neighbourFunc(h)
      invariant forall k, n :: 0 <= k < i && n in neighbourFunc(previous[k]) ==> n in seen
    {
      var h := previous[i];
      var neighbours := neighbourFunc(h);
      for j := 0 to |neighbours|
        invariant Distinct(layer)
        invariant forall x :: x in seen <==> x in visited || x in layer
        invariant forall x :: x in layer ==> x !in visited
        invariant forall x :: x in layer ==> exists h :: h in previous && x in neighbourFunc(h)
        invariant forall k, n :: 0 <= k < i && n in neighbourFunc(previous[k]) ==> n in seen
        invariant forall m :: 0 <= m < j ==> neighbours[m] in seen
      {
        var neighbour := neighbours[j];
        if neighbour !in seen {
          seen := seen + {neighbour};
          layer := layer + [neighbour];
        }
      }
    }
  }
}
