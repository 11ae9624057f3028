/** The hex grid's own breadth-first search: the cells exactly a given number
    of steps from a start, stepping only onto neighbours a predicate admits. */
module HexGridSearch {
  import opened HexGrid
  import opened Traversal

  /** The cells of a list that f admits, in list order. */
  function Admitted(f: Hex -> bool, cells: seq<Hex>): (kept: seq<Hex>)
    ensures forall x :: x in kept <==> x in cells && f(x)
  {
    if cells == [] then []
    else (if f(cells[0]) then [cells[0]] else []) + Admitted(f, cells[1..])
  }

  /** The adjacent cells of h that f admits, in direction order. */
  function PassableAdjacent(f: Hex -> bool, h: Hex): (cells: seq<Hex>)
    ensures forall x :: x in cells <==> x in Adjacent(h) && f(x)
  {
    Admitted(f, Adjacent(h))
  }

  /** The search's neighbour function. */
  function Passable(f: Hex -> bool): Neighbours
  {
    hh => PassableAdjacent(f, hh)
  }

  /** Applying the search's neighbour function filters the adjacent cells by f. */
  lemma PassableStep(f: Hex -> bool, y: Hex, x: Hex)
    ensures x in Passable(f)(y) <==> x in Adjacent(y) && f(x)
  {
    assert Passable(f)(y) == PassableAdjacent(f, y);
  }

  /** Fills one fringe per step, each with the not yet visited admitted
      neighbours of the previous fringe, and returns the last one. */
  method BFS(start: Hex, steps: int, f: Hex -> bool) returns (fringe: seq<Hex>)
    requires steps >= 0
    ensures steps == 0 ==> fringe == [start]
    ensures Distinct(fringe)
    ensures forall x :: x in fringe <==> AtDistance(Passable(f), start, x, steps)
    ensures steps >= 1 ==> forall x :: x in fringe ==> f(x) && x != start
  {
    var visited: set<Hex> := {start};
    var fringes := new seq<Hex>[steps + 1](_ => []);
    fringes[0] := [start];
    assert UpTo(fringes[..1], 0) == {start} by {
      forall x | x in UpTo(fringes[..1], 0) ensures x == start {
        var e :| 0 <= e <= 0 && x in fringes[..1][e];
      }
      assert start in fringes[..1][0];
    }
    for step := 1 to steps + 1
      modifies fringes
      invariant Layered(Passable(f), start, fringes[..step])
      invariant visited == UpTo(fringes[..step], step - 1)
      invariant forall e :: step <= e <= steps ==> fringes[e] == []
    {
      ghost var done := fringes[..step];
      var next;
      next, visited := FillFringe(f, fringes[step - 1], visited);
      FringeLayered(f, start, done, visited, next);
      fringes[step] := next;
      assert fringes[..step + 1] == done + [next];
    }
    fringe := fringes[steps];
    LastFringe(f, start, fringes[..steps + 1], steps);
  }

  /** The last bucket of a layering holds the cells at that exact distance. */
  lemma LastFringe(f: Hex -> bool, start: Hex, r: seq<seq<Hex>>, steps: nat)
    requires Layered(Passable(f), start, r) && |r| == steps + 1
    ensures steps == 0 ==> r[steps] == [start]
    ensures Distinct(r[steps])
    ensures forall x :: x in r[steps] <==> AtDistance(Passable(f), start, x, steps)
    ensures steps >= 1 ==> forall x :: x in r[steps] ==> f(x) && x != start
  {
    forall x ensures x in r[steps] <==> AtDistance(Passable(f), start, x, steps) {
      LayerIsDistance(Passable(f), start, r, steps, x);
    }
    if steps >= 1 {
      forall x | x in r[steps] ensures f(x) && x != start {
        FarCellAdmitted(f, start, steps, x);
      }
    }
  }

  /** One step of the search: scans the neighbours of each cell of previous
      in direction order and appends each admitted, not yet visited one. */
  method FillFringe(f: Hex -> bool, previous: seq<Hex>, visited: set<Hex>)
    returns (fringe: seq<Hex>, seen: set<Hex>)
    ensures Grown(f, previous, |previous|, visited, seen, fringe)
  {
    fringe := [];
    seen := visited;
    for k := 0 to |previous|
      modifies {}
      invariant Grown(f, previous, k, visited, seen, fringe)
    {
      var h := previous[k];
      var neighbours := GetAdjacent(h);
      for j := 0 to MaxDirections
        modifies {}
        invariant neighbours[..] == Adjacent(h)
        invariant Grown(f, previous, k, visited, seen, fringe)
        invariant Scanned(f, Adjacent(h), j, seen)
      {
        var neighbour := neighbours[j];
        if neighbour in seen {
          ScanStep(f, Adjacent(h), j, seen, seen);
          continue;
        }
        if !f(neighbour) {
          ScanStep(f, Adjacent(h), j, seen, seen);
          continue;
        }
        GrowFringe(f, previous, k, visited, seen, fringe, neighbour);
        ScanStep(f, Adjacent(h), j, seen, seen + {neighbour});
        seen := seen + {neighbour};
        fringe := fringe + [neighbour];
      }
      CoverCell(f, previous, k, visited, seen, fringe);
    }
  }

  /** The state while a fringe fills from previous, starting from the visited
      set before: the fringe holds distinct new admitted neighbours of
      previous, visited is before grown by exactly the fringe, and the
      admitted neighbours of the first k cells of previous are all visited. */
  ghost predicate Grown(f: Hex -> bool, previous: seq<Hex>, k: int, before: set<Hex>,
                        visited: set<Hex>, fringe: seq<Hex>)
    requires 0 <= k <= |previous|
  {
    && Distinct(fringe)
    && (forall x :: x in visited <==> x in before || x in fringe)
    && (forall x :: x in fringe ==> x !in before)
    && (forall x :: x in fringe ==> exists h :: h in previous && x in PassableAdjacent(f, h))
    && (forall m, n :: 0 <= m < k && n in PassableAdjacent(f, previous[m]) ==> n in visited)
  }

  /** Of the first j cells, those f admits are visited. */
  ghost predicate Scanned(f: Hex -> bool, cells: seq<Hex>, j: int, visited: set<Hex>)
    requires 0 <= j <= |cells|
  {
    forall m :: 0 <= m < j && f(cells[m]) ==> cells[m] in visited
  }

  lemma ScanStep(f: Hex -> bool, cells: seq<Hex>, j: int, visited: set<Hex>, grown: set<Hex>)
    requires 0 <= j < |cells| && Scanned(f, cells, j, visited) && visited <= grown
    requires f(cells[j]) ==> cells[j] in grown
    ensures Scanned(f, cells, j + 1, grown)
  {
  }

  /** Adding an unvisited admitted neighbour of previous[k] keeps the fringe in shape. */
  lemma GrowFringe(f: Hex -> bool, previous: seq<Hex>, k: int, before: set<Hex>,
                   visited: set<Hex>, fringe: seq<Hex>, n: Hex)
    requires 0 <= k < |previous| && Grown(f, previous, k, before, visited, fringe)
    requires n in Adjacent(previous[k]) && f(n) && n !in visited
    ensures Grown(f, previous, k, before, visited + {n}, fringe + [n])
  {
    assert n in PassableAdjacent(f, previous[k]);
    forall i, j | 0 <= i < j < |fringe + [n]| ensures (fringe + [n])[i] != (fringe + [n])[j] {
      if j < |fringe| {
        assert (fringe + [n])[i] == fringe[i] && (fringe + [n])[j] == fringe[j];
      } else {
        assert (fringe + [n])[i] in fringe;
      }
    }
  }

  /** Once every adjacent cell f admits is visited, previous[k] is covered. */
  lemma CoverCell(f: Hex -> bool, previous: seq<Hex>, k: int, before: set<Hex>,
                  visited: set<Hex>, fringe: seq<Hex>)
    requires 0 <= k < |previous| && Grown(f, previous, k, before, visited, fringe)
    requires Scanned(f, Adjacent(previous[k]), MaxDirections, visited)
    ensures Grown(f, previous, k + 1, before, visited, fringe)
  {
    forall m, n | 0 <= m < k + 1 && n in PassableAdjacent(f, previous[m]) ensures n in visited {
      if m == k {
        var i :| 0 <= i < MaxDirections && Adjacent(previous[k])[i] == n;
      }
    }
  }

  /** A filled fringe extends a layering under the search's neighbour function. */
  lemma FringeLayered(f: Hex -> bool, start: Hex, done: seq<seq<Hex>>, visited: set<Hex>, fringe: seq<Hex>)
    requires Layered(Passable(f), start, done)
    requires Grown(f, done[|done| - 1], |done[|done| - 1]|, UpTo(done, |done| - 1), visited, fringe)
    ensures Layered(Passable(f), start, done + [fringe])
    ensures visited == UpTo(done + [fringe], |done|)
  {
    var nbr := Passable(f);
    var previous := done[|done| - 1];
    forall x | x in fringe ensures exists h :: h in previous && x in nbr(h) {
      var h :| h in previous && x in PassableAdjacent(f, h);
      PassableStep(f, h, x);
    }
    forall h, n | h in previous && n in nbr(h) ensures n in UpTo(done, |done| - 1) || n in fringe {
      PassableStep(f, h, n);
      var m :| 0 <= m < |previous| && previous[m] == h;
    }
    LayeredAppend(nbr, start, done, fringe);
  }

  /** A cell at distance k >= 1 is admitted by f and is not the start. */
  lemma FarCellAdmitted(f: Hex -> bool, start: Hex, k: nat, x: Hex)
    requires k >= 1 && AtDistance(Passable(f), start, x, k)
    ensures f(x) && x != start
  {
    var y := WithinPred(Passable(f), start, k - 1, x);
    PassableStep(f, y, x);
    NotAtStart(Passable(f), start, k, x);
  }

  /** Only the start is at distance 0. */
  lemma NotAtStart(nbr: Neighbours, start: Hex, k: nat, x: Hex)
    requires k >= 1 && AtDistance(nbr, start, x, k)
    ensures x != start
  {
    if x == start {
      WithinMonotone(nbr, start, 0, k - 1, x);
    }
  }

  /** A cell at distance k >= 1 is adjacent to a cell at distance k - 1. */
  lemma FringeStep(f: Hex -> bool, start: Hex, k: nat, x: Hex) returns (y: Hex)
    requires k >= 1 && AtDistance(Passable(f), start, x, k)
    ensures AtDistance(Passable(f), start, y, k - 1) && x in Adjacent(y)
  {
    var nbr := Passable(f);
    y := WithinPred(nbr, start, k - 1, x);
    PassableStep(f, y, x);
  }

  /** A cell lies in at most one fringe. */
  lemma DistanceUnique(nbr: Neighbours, start: Hex, x: Hex, j: nat, k: nat)
    requires AtDistance(nbr, start, x, j) && AtDistance(nbr, start, x, k)
    ensures j == k
  {
    if j < k {
      WithinMonotone(nbr, start, j, k - 1, x);
    } else if k < j {
      WithinMonotone(nbr, start, k, j - 1, x);
    }
  }
}
