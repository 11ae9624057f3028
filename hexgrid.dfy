/** Cube-coordinate hex grid: cells, the six unit directions in clockwise order,
    stepping in a direction and the ordered list of a cell's neighbours. */
module HexGrid {

  datatype Option<T> = None | Some(value: T)

  /** A cell in cube coordinates; a well-formed cell has q + r + s == 0. */
  datatype Hex = Hex(q: int, r: int, s: int) {
    predicate Valid() { q + r + s == 0 }
  }

  /** Number of directions around a cell. */
  const MaxDirections: int := 6

  type Direction = d: int | 0 <= d < MaxDirections

  const Up: Direction := 0
  const UpRight: Direction := 1
  const DownRight: Direction := 2
  const Down: Direction := 3
  const DownLeft: Direction := 4
  const UpLeft: Direction := 5

  /** Unit vectors, indexed by direction, clockwise from Up. */
  const HexDirectionVectors: seq<Hex> :=
    [Hex(0, -1, 1), Hex(1, -1, 0), Hex(1, 0, -1), Hex(0, 1, -1), Hex(-1, 1, 0), Hex(-1, 0, 1)]

  /** Builds a cell, failing when the coordinates break the cube invariant. */
  function NewHex(q: int, r: int, s: int): (h: Option<Hex>)
    ensures h.Some? <==> q + r + s == 0
    ensures h.Some? ==> h.value.Valid() && h.value.q == q && h.value.r == r && h.value.s == s
  {
    if q + r + s != 0 then None else Some(Hex(q, r, s))
  }

  lemma DirectionCases(d: Direction)
    ensures d == 0 || d == 1 || d == 2 || d == 3 || d == 4 || d == 5
  {
  }

  /** The cell one step from h in direction d. */
  function Move(h: Hex, d: Direction): (m: Hex)
    ensures m.q + m.r + m.s == h.q + h.r + h.s
    ensures h.Valid() ==> m.Valid()
    ensures m != h
  {
    DirectionCases(d);
    var vector := HexDirectionVectors[d];
    Hex(h.q + vector.q, h.r + vector.r, h.s + vector.s)
  }

  /** The step in each direction, written out coordinate by coordinate. */
  lemma MoveSteps(h: Hex)
    ensures Move(h, Up) == Hex(h.q, h.r - 1, h.s + 1)
    ensures Move(h, UpRight) == Hex(h.q + 1, h.r - 1, h.s)
    ensures Move(h, DownRight) == Hex(h.q + 1, h.r, h.s - 1)
    ensures Move(h, Down) == Hex(h.q, h.r + 1, h.s - 1)
    ensures Move(h, DownLeft) == Hex(h.q - 1, h.r + 1, h.s)
    ensures Move(h, UpLeft) == Hex(h.q - 1, h.r, h.s + 1)
  {
    var v := HexDirectionVectors;
    assert v[Up] == Hex(0, -1, 1) && v[UpRight] == Hex(1, -1, 0) && v[DownRight] == Hex(1, 0, -1);
    assert v[Down] == Hex(0, 1, -1) && v[DownLeft] == Hex(-1, 1, 0) && v[UpLeft] == Hex(-1, 0, 1);
  }

  /** The direction opposite to d. */
  function Opposite(d: Direction): Direction { (d + 3) % MaxDirections }

  /** The direction before d in the cyclic clockwise order. */
  function Prev(d: Direction): Direction { if d == 0 then MaxDirections - 1 else d - 1 }

  /** The direction after d in the cyclic clockwise order. */
  function Next(d: Direction): Direction { if d == MaxDirections - 1 then 0 else d + 1 }

  /** Each direction vector sums to zero and is the negation of the opposite one. */
  lemma DirectionVectorsBalanced(d: Direction)
    ensures HexDirectionVectors[d].q + HexDirectionVectors[d].r + HexDirectionVectors[d].s == 0
    ensures HexDirectionVectors[Opposite(d)] ==
            Hex(-HexDirectionVectors[d].q, -HexDirectionVectors[d].r, -HexDirectionVectors[d].s)
  {
    DirectionCases(d);
  }

  /** Stepping in d and then in the opposite direction returns to the start. */
  lemma MoveOppositeCancels(h: Hex, d: Direction)
    ensures Move(Move(h, d), Opposite(d)) == h
  {
    DirectionVectorsBalanced(d);
  }

  /** Distinct directions lead to distinct cells. */
  lemma MoveInjective(h: Hex, d: Direction, e: Direction)
    requires Move(h, d) == Move(h, e)
    ensures d == e
  {
    DirectionCases(d);
    DirectionCases(e);
  }

  /** The six neighbours of h, clockwise from Up. */
  function Adjacent(h: Hex): (adjacent: seq<Hex>)
    ensures |adjacent| == MaxDirections
    ensures forall d: Direction :: adjacent[d] == Move(h, d)
  {
    [Move(h, 0), Move(h, 1), Move(h, 2), Move(h, 3), Move(h, 4), Move(h, 5)]
  }

  /** Fills a fresh six-element buffer with the neighbours of h, one direction at a time. */
  method GetAdjacent(h: Hex) returns (adjacent: array<Hex>)
    ensures fresh(adjacent)
    ensures adjacent[..] == Adjacent(h)
  {
    adjacent := new Hex[MaxDirections];
    for direction := 0 to MaxDirections
      invariant forall d :: 0 <= d < direction ==> adjacent[d] == Move(h, d)
    {
      adjacent[direction] := Move(h, direction);
    }
  }

  /** The six neighbours are pairwise distinct and differ from h. */
  lemma AdjacentDistinct(h: Hex)
    ensures forall i, j :: 0 <= i < j < MaxDirections ==> Adjacent(h)[i] != Adjacent(h)[j]
    ensures h !in Adjacent(h)
  {
    forall i, j | 0 <= i < j < MaxDirections
      ensures Adjacent(h)[i] != Adjacent(h)[j]
    {
      if Move(h, i) == Move(h, j) {
        MoveInjective(h, i, j);
      }
    }
  }

  function Abs(x: int): nat { if x < 0 then -x else x }

  /** Geometric adjacency: the coordinate differences sum to zero and their
      absolute values to two, i.e. the cube distance is one. */
  predicate IsNeighbour(a: Hex, b: Hex) {
    var dq, dr, ds := b.q - a.q, b.r - a.r, b.s - a.s;
    dq + dr + ds == 0 && Abs(dq) + Abs(dr) + Abs(ds) == 2
  }

  /** The positional neighbour list holds exactly the cells at cube distance one. */
  lemma AdjacentAreNeighbours(a: Hex, b: Hex)
    ensures b in Adjacent(a) <==> IsNeighbour(a, b)
  {
    if b in Adjacent(a) {
      var d :| 0 <= d < MaxDirections && Adjacent(a)[d] == b;
      DirectionCases(d);
    }
  }

  /** Adjacency is symmetric. */
  lemma AdjacentSymmetric(a: Hex, b: Hex)
    requires b in Adjacent(a)
    ensures a in Adjacent(b)
  {
    var d :| 0 <= d < MaxDirections && Adjacent(a)[d] == b;
    MoveOppositeCancels(a, d);
    assert Adjacent(b)[Opposite(d)] == a;
  }

  /** The two cells flanking the step from h in direction d (adjacent to both ends)
      are exactly the neighbours of h in the previous and next directions. */
  lemma CommonNeighbours(h: Hex, d: Direction, n: Hex)
    ensures IsNeighbour(h, n) && IsNeighbour(Move(h, d), n) <==>
            n == Move(h, Prev(d)) || n == Move(h, Next(d))
  {
    AdjacentAreNeighbours(h, n);
    AdjacentAreNeighbours(Move(h, d), n);
    if IsNeighbour(h, n) && IsNeighbour(Move(h, d), n) {
      var e :| 0 <= e < MaxDirections && Adjacent(h)[e] == n;
      FlankCases(h, d, e);
    }
    if n == Move(h, Prev(d)) || n == Move(h, Next(d)) {
      FlankStep(h, d);
      assert Adjacent(h)[Prev(d)] == Move(h, Prev(d));
      assert Adjacent(h)[Next(d)] == Move(h, Next(d));
      assert Move(h, d) in Adjacent(n) by {
        assert Adjacent(Move(h, Prev(d)))[Next(d)] == Move(h, d);
        assert Adjacent(Move(h, Next(d)))[Prev(d)] == Move(h, d);
      }
      AdjacentSymmetric(n, Move(h, d));
    }
  }

  lemma FlankCases(h: Hex, d: Direction, e: Direction)
    requires IsNeighbour(Move(h, d), Move(h, e))
    ensures e == Prev(d) || e == Next(d)
  {
    DirectionCases(d);
    DirectionCases(e);
  }

  /** The step in direction d also leads from either flanking cell to the destination. */
  lemma FlankStep(h: Hex, d: Direction)
    ensures Move(h, d) == Move(Move(h, Prev(d)), Next(d))
    ensures Move(h, d) == Move(Move(h, Next(d)), Prev(d))
  {
    DirectionCases(d);
  }

  /** The cell k steps from h in direction d. */
  function Ray(h: Hex, d: Direction, k: nat): Hex
    decreases k
  {
    if k == 0 then h else Ray(Move(h, d), d, k - 1)
  }

  /** A linear measure that grows by two with every step in direction d. */
  function Progress(d: Direction, x: Hex): int
  {
    if d == 0 then x.s - x.r
    else if d == 1 then x.q - x.r
    else if d == 2 then x.q - x.s
    else if d == 3 then x.r - x.s
    else if d == 4 then x.r - x.q
    else x.s - x.q
  }

  lemma MoveProgresses(x: Hex, d: Direction)
    ensures Progress(d, Move(x, d)) == Progress(d, x) + 2
  {
    DirectionCases(d);
  }

  /** Walking k steps along a ray advances the measure by 2k. */
  lemma {:induction false} RayProgress(h: Hex, d: Direction, k: nat)
    ensures Progress(d, Ray(h, d, k)) == Progress(d, h) + 2 * k
    decreases k
  {
    if k > 0 {
      RayProgress(Move(h, d), d, k - 1);
      MoveProgresses(h, d);
    }
  }

  /** A walk along a ray never revisits a cell. */
  lemma RayDistinct(h: Hex, d: Direction, i: nat, j: nat)
    requires i != j
    ensures Ray(h, d, i) != Ray(h, d, j)
  {
    RayProgress(h, d, i);
    RayProgress(h, d, j);
  }

  /** The cell k steps along a ray is the start shifted by k direction vectors. */
  lemma {:induction false} RayOffset(h: Hex, d: Direction, k: nat)
    ensures Ray(h, d, k) == Hex(h.q + k * HexDirectionVectors[d].q,
                                h.r + k * HexDirectionVectors[d].r,
                                h.s + k * HexDirectionVectors[d].s)
    decreases k
  {
    if k > 0 {
      RayOffset(Move(h, d), d, k - 1);
      DirectionCases(d);
    }
  }

  /** Rays in different directions share no cell beyond their common start. */
  lemma RaysApart(h: Hex, d: Direction, e: Direction, i: nat, j: nat)
    requires d != e && i >= 1 && j >= 1
    ensures Ray(h, d, i) != Ray(h, e, j)
  {
    RayOffset(h, d, i);
    RayOffset(h, e, j);
    DirectionCases(d);
    DirectionCases(e);
  }
}
