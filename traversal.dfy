/** Breadth-first layering over hex cells, independent of any board: the cells
    reachable within k steps of a neighbour function, exact distances, and the
    properties a correct result grouped by depth must have. */
module Traversal {
  import opened HexGrid

  /** A neighbour function: the cells one traversal step away from a cell. */
  type Neighbours = Hex -> seq<Hex>

  /** x can be reached from start in at most k steps. */
  ghost predicate Within(nbr: Neighbours, start: Hex, x: Hex, k: nat)
    decreases k
  {
    if k == 0 then x == start
    else Within(nbr, start, x, k - 1) || exists y :: Within(nbr, start, y, k - 1) && x in nbr(y)
  }

  /** b can be reached from a in some number of steps. */
  ghost predicate Reaches(nbr: Neighbours, a: Hex, b: Hex)
  {
    exists k: nat :: Within(nbr, a, b, k)
  }

  /** The fewest steps from a to b is exactly k. */
  ghost predicate AtDistance(nbr: Neighbours, a: Hex, b: Hex, k: nat)
  {
    Within(nbr, a, b, k) && (k == 0 || !Within(nbr, a, b, k - 1))
  }

  /** Every cell any call of nbr returns lies in bound. */
  ghost predicate ClosedIn(nbr: Neighbours, bound: set<Hex>)
  {
    forall h, n :: n in nbr(h) ==> n in bound
  }

  /** Within bound, every step can be taken backwards. */
  ghost predicate SymmetricIn(nbr: Neighbours, bound: set<Hex>)
  {
    forall y, x {:trigger y in nbr(x), x in nbr(y)} :: y in bound && x in nbr(y) ==> y in nbr(x)
  }

  /** Every cell of S reaches every cell of S. */
  ghost predicate Connected(nbr: Neighbours, S: set<Hex>)
  {
    forall a, b :: a in S && b in S ==> Reaches(nbr, a, b)
  }

  ghost predicate Distinct(s: seq<Hex>)
  {
    forall i, j :: 0 <= i < j < |s| ==> s[i] != s[j]
  }

  ghost function Elems(s: seq<Hex>): set<Hex>
  {
    set x | x in s
  }

  /** The cells of the buckets 0..d. */
  ghost function UpTo(r: seq<seq<Hex>>, d: int): set<Hex>
    requires d < |r|
  {
    set e, x | 0 <= e <= d && x in r[e] :: x
  }

  /** Buckets d and e share no cell. */
  ghost predicate Apart(r: seq<seq<Hex>>, d: int, e: int)
    requires 0 <= d < |r| && 0 <= e < |r|
  {
    forall x :: x in r[d] ==> x !in r[e]
  }

  /** No cell occurs twice, within one bucket or across buckets. */
  ghost predicate NoRepeats(r: seq<seq<Hex>>)
  {
    && (forall d :: 0 <= d < |r| ==> Distinct(r[d]))
    && (forall d, e :: 0 <= d < e < |r| ==> Apart(r, d, e))
  }

  /** Without repeats, a cell of bucket d is in no other bucket. */
  lemma ApartCell(r: seq<seq<Hex>>, d: int, e: int, x: Hex)
    requires NoRepeats(r) && 0 <= d < |r| && 0 <= e < |r| && d != e
    requires x in r[d]
    ensures x !in r[e]
  {
    if d < e {
      assert Apart(r, d, e);
    } else {
      assert Apart(r, e, d);
    }
  }

  /** Every cell of bucket d is a neighbour of a cell of bucket d - 1. */
  ghost predicate Sound(nbr: Neighbours, r: seq<seq<Hex>>, d: int)
    requires 1 <= d < |r|
  {
    forall x :: x in r[d] ==> exists h :: h in r[d - 1] && x in nbr(h)
  }

  /** Every neighbour of a cell of bucket d sits in one of the buckets 0..d+1. */
  ghost predicate Complete(nbr: Neighbours, r: seq<seq<Hex>>, d: int)
    requires 0 <= d < |r| - 1
  {
    forall h, n :: h in r[d] && n in nbr(h) ==> exists e :: 0 <= e <= d + 1 && n in r[e]
  }

  /** r groups cells by breadth-first depth from start under nbr. */
  ghost predicate Layered(nbr: Neighbours, start: Hex, r: seq<seq<Hex>>)
  {
    && |r| >= 1
    && r[0] == [start]
    && NoRepeats(r)
    && (forall d :: 1 <= d < |r| ==> Sound(nbr, r, d))
    && (forall d :: 0 <= d < |r| - 1 ==> Complete(nbr, r, d))
  }

  /** No bucket is empty. */
  ghost predicate NoEmptyBucket(r: seq<seq<Hex>>)
  {
    forall d :: 0 <= d < |r| ==> r[d] != []
  }

  /** An unbounded search ends with one empty bucket after non-empty ones. */
  ghost predicate Exhausted(r: seq<seq<Hex>>)
  {
    && |r| >= 2
    && r[|r| - 1] == []
    && NoEmptyBucket(r[..|r| - 1])
  }

  lemma NoEmptyBucketAppend(r: seq<seq<Hex>>, layer: seq<Hex>)
    requires NoEmptyBucket(r) && layer != []
    ensures NoEmptyBucket(r + [layer])
  {
    assert forall d :: 0 <= d < |r| ==> (r + [layer])[d] == r[d];
  }

  lemma ExhaustedAppend(r: seq<seq<Hex>>)
    requires |r| >= 1 && NoEmptyBucket(r)
    ensures Exhausted(r + [[]])
  {
    assert (r + [[]])[..|r|] == r;
  }

  /** Appending a bucket of fresh neighbours of the last bucket, holding all of
      them not seen before, keeps the layering. */
  lemma LayeredAppend(nbr: Neighbours, start: Hex, r: seq<seq<Hex>>, layer: seq<Hex>)
    requires Layered(nbr, start, r)
    requires Distinct(layer)
    requires forall x :: x in layer ==> x !in UpTo(r, |r| - 1)
    requires forall x :: x in layer ==> exists h :: h in r[|r| - 1] && x in nbr(h)
    requires forall h, n :: h in r[|r| - 1] && n in nbr(h) ==> n in UpTo(r, |r| - 1) || n in layer
    ensures Layered(nbr, start, r + [layer])
    ensures UpTo(r + [layer], |r|) == UpTo(r, |r| - 1) + Elems(layer)
  {
    var r' := r + [layer];
    var L := |r|;
    assert forall d :: 0 <= d < L ==> r'[d] == r[d];
    assert r'[L] == layer;
    forall d, e | 0 <= d < e < |r'|
      ensures Apart(r', d, e)
    {
      if e == L {
        forall x | x in r'[d] ensures x !in r'[e] {
          UpToMember(r, L - 1, d, x);
        }
      } else {
        assert Apart(r, d, e);
      }
    }
    forall d | 1 <= d < |r'|
      ensures Sound(nbr, r', d)
    {
      if d < L {
        assert Sound(nbr, r, d);
      }
    }
    forall d | 0 <= d < |r'| - 1
      ensures Complete(nbr, r', d)
    {
      if d < L - 1 {
        assert Complete(nbr, r, d);
        forall h, n | h in r'[d] && n in nbr(h)
          ensures exists e :: 0 <= e <= d + 1 && n in r'[e]
        {
          var e :| 0 <= e <= d + 1 && n in r[e];
          assert n in r'[e];
        }
      } else {
        forall h, n | h in r'[d] && n in nbr(h)
          ensures exists e :: 0 <= e <= d + 1 && n in r'[e]
        {
          if n in UpTo(r, L - 1) {
            var e :| 0 <= e <= L - 1 && n in r[e];
            assert n in r'[e];
          } else {
            assert n in r'[L];
          }
        }
      }
    }
    forall x | x in UpTo(r', L)
      ensures x in UpTo(r, L - 1) + Elems(layer)
    {
      var e :| 0 <= e <= L && x in r'[e];
      if e < L {
        assert x in r[e];
      }
    }
    forall x | x in UpTo(r, L - 1) + Elems(layer)
      ensures x in UpTo(r', L)
    {
      if x in UpTo(r, L - 1) {
        var e :| 0 <= e <= L - 1 && x in r[e];
        assert x in r'[e];
      } else {
        assert x in r'[L];
      }
    }
  }

  /** A cell of bucket e is among the cells of buckets 0..d for every d >= e. */
  lemma UpToMember(r: seq<seq<Hex>>, d: int, e: nat, x: Hex)
    requires e <= d < |r| && x in r[e]
    ensures x in UpTo(r, d)
  {
  }

  /** A cell of buckets 0..d sits in one of them. */
  lemma UpToWitness(r: seq<seq<Hex>>, d: int, x: Hex) returns (e: nat)
    requires d < |r| && x in UpTo(r, d)
    ensures e <= d && x in r[e]
  {
    e :| 0 <= e <= d && x in r[e];
  }

  /** A cell is in one of the buckets 0..d exactly when it is within d steps of start. */
  lemma {:induction false} LayersAreWithin(nbr: Neighbours, start: Hex, r: seq<seq<Hex>>, d: nat, x: Hex)
    requires Layered(nbr, start, r) && d < |r|
    ensures x in UpTo(r, d) <==> Within(nbr, start, x, d)
    decreases d, 1
  {
    if d == 0 {
      if x in UpTo(r, 0) {
        var e := UpToWitness(r, 0, x);
      }
      UpToMember(r, 0, 0, start);
    } else {
      if x in UpTo(r, d) {
        LayerSoundCell(nbr, start, r, d, x);
      }
      if Within(nbr, start, x, d) {
        LayerCompleteCell(nbr, start, r, d, x);
      }
    }
  }

  /** A cell of the buckets 0..d is within d steps of start. */
  lemma {:induction false} LayerSoundCell(nbr: Neighbours, start: Hex, r: seq<seq<Hex>>, d: nat, x: Hex)
    requires Layered(nbr, start, r) && 1 <= d < |r| && x in UpTo(r, d)
    ensures Within(nbr, start, x, d)
    decreases d, 0
  {
    var e := UpToWitness(r, d, x);
    if e < d {
      UpToMember(r, d - 1, e, x);
      LayersAreWithin(nbr, start, r, d - 1, x);
      WithinGrows(nbr, start, d - 1, x);
    } else {
      assert Sound(nbr, r, d);
      var h :| h in r[d - 1] && x in nbr(h);
      UpToMember(r, d - 1, d - 1, h);
      LayersAreWithin(nbr, start, r, d - 1, h);
      WithinSucc(nbr, start, d - 1, h, x);
    }
  }

  /** A cell within d steps of start is in one of the buckets 0..d. */
  lemma {:induction false} LayerCompleteCell(nbr: Neighbours, start: Hex, r: seq<seq<Hex>>, d: nat, x: Hex)
    requires Layered(nbr, start, r) && 1 <= d < |r| && Within(nbr, start, x, d)
    ensures x in UpTo(r, d)
    decreases d, 0
  {
    if Within(nbr, start, x, d - 1) {
      LayersAreWithin(nbr, start, r, d - 1, x);
      var e := UpToWitness(r, d - 1, x);
      UpToMember(r, d, e, x);
    } else {
      var h := WithinPred(nbr, start, d - 1, x);
      LayersAreWithin(nbr, start, r, d - 1, h);
      var e := UpToWitness(r, d - 1, h);
      assert Complete(nbr, r, e);
      CompleteCell(nbr, r, d, e, h, x);
    }
  }

  /** A neighbour of a cell of a complete bucket e < d is among the buckets 0..d. */
  lemma CompleteCell(nbr: Neighbours, r: seq<seq<Hex>>, d: nat, e: nat, h: Hex, x: Hex)
    requires e < d < |r| && Complete(nbr, r, e) && h in r[e] && x in nbr(h)
    ensures x in UpTo(r, d)
  {
    var e' :| 0 <= e' <= e + 1 && x in r[e'];
    UpToMember(r, d, e', x);
  }

  /** A cell is in bucket d exactly when its distance from start is d. */
  lemma LayerIsDistance(nbr: Neighbours, start: Hex, r: seq<seq<Hex>>, d: nat, x: Hex)
    requires Layered(nbr, start, r) && d < |r|
    ensures x in r[d] <==> AtDistance(nbr, start, x, d)
  {
    LayersAreWithin(nbr, start, r, d, x);
    if d == 0 {
      if x in UpTo(r, 0) {
        var e := UpToWitness(r, 0, x);
      }
      if x in r[0] {
        UpToMember(r, 0, 0, x);
      }
    } else {
      LayersAreWithin(nbr, start, r, d - 1, x);
      InLastLayer(r, d, x);
    }
  }

  /** Without repeats, bucket d holds what buckets 0..d hold and 0..d-1 do not. */
  lemma InLastLayer(r: seq<seq<Hex>>, d: nat, x: Hex)
    requires NoRepeats(r) && 1 <= d < |r|
    ensures x in r[d] <==> x in UpTo(r, d) && x !in UpTo(r, d - 1)
  {
    var p := d - 1;
    if x in UpTo(r, p) {
      var e := UpToWitness(r, p, x);
      ApartCell(r, e, d, x);
    }
    if x in UpTo(r, d) {
      var e := UpToWitness(r, d, x);
      if e < d {
        UpToMember(r, p, e, x);
      }
    }
    if x in r[d] {
      UpToMember(r, d, d, x);
    }
  }

  /** One more step from a cell within k steps lands within k + 1 steps. */
  lemma WithinSucc(nbr: Neighbours, a: Hex, k: nat, y: Hex, x: Hex)
    requires Within(nbr, a, y, k) && x in nbr(y)
    ensures Within(nbr, a, x, k + 1)
  {
  }

  /** A cell within k + 1 steps is within k steps or one step beyond such a cell. */
  lemma WithinPred(nbr: Neighbours, a: Hex, k: nat, x: Hex) returns (y: Hex)
    requires Within(nbr, a, x, k + 1) && !Within(nbr, a, x, k)
    ensures Within(nbr, a, y, k) && x in nbr(y)
  {
    y :| Within(nbr, a, y, k) && x in nbr(y);
  }

  /** A cell within k steps is within k + 1 steps. */
  lemma WithinGrows(nbr: Neighbours, a: Hex, k: nat, x: Hex)
    requires Within(nbr, a, x, k)
    ensures Within(nbr, a, x, k + 1)
  {
  }

  /** Within grows with the number of steps. */
  lemma {:induction false} WithinMonotone(nbr: Neighbours, a: Hex, i: nat, j: nat, x: Hex)
    requires i <= j && Within(nbr, a, x, i)
    ensures Within(nbr, a, x, j)
    decreases j
  {
    if i < j {
      WithinMonotone(nbr, a, i, j - 1, x);
      WithinGrows(nbr, a, j - 1, x);
    }
  }

  /** Once a step adds nothing, no later step adds anything. */
  lemma {:induction false} WithinStable(nbr: Neighbours, a: Hex, k: nat, m: nat, x: Hex)
    requires forall z :: Within(nbr, a, z, k + 1) ==> Within(nbr, a, z, k)
    requires k <= m && Within(nbr, a, x, m)
    ensures Within(nbr, a, x, k)
    decreases m
  {
    if m > k {
      if Within(nbr, a, x, m - 1) {
        WithinStable(nbr, a, k, m - 1, x);
      } else {
        var y := WithinPred(nbr, a, m - 1, x);
        WithinStable(nbr, a, k, m - 1, y);
        WithinSucc(nbr, a, k, y, x);
      }
    }
  }


  /** Everything reached from a lies in a closed bound or is a itself. */
  lemma {:induction false} WithinClosed(nbr: Neighbours, a: Hex, k: nat, bound: set<Hex>, x: Hex)
    requires ClosedIn(nbr, bound) && Within(nbr, a, x, k)
    ensures x in bound || x == a
    decreases k
  {
    if k > 0 {
      if Within(nbr, a, x, k - 1) {
        WithinClosed(nbr, a, k - 1, bound, x);
      } else {
        var y := WithinPred(nbr, a, k - 1, x);
      }
    }
  }

  /** Reachability composes: i steps then j steps is at most i + j steps. */
  lemma {:induction false} WithinTransitive(nbr: Neighbours, a: Hex, b: Hex, c: Hex, i: nat, j: nat)
    requires Within(nbr, a, b, i) && Within(nbr, b, c, j)
    ensures Within(nbr, a, c, i + j)
    decreases j
  {
    if j == 0 {
      assert c == b;
    } else if Within(nbr, b, c, j - 1) {
      WithinTransitive(nbr, a, b, c, i, j - 1);
      WithinGrows(nbr, a, i + j - 1, c);
    } else {
      var y := WithinPred(nbr, b, j - 1, c);
      WithinTransitive(nbr, a, b, y, i, j - 1);
      WithinSucc(nbr, a, i + j - 1, y, c);
    }
  }

  lemma ReachesTransitive(nbr: Neighbours, a: Hex, b: Hex, c: Hex)
    requires Reaches(nbr, a, b) && Reaches(nbr, b, c)
    ensures Reaches(nbr, a, c)
  {
    var i: nat :| Within(nbr, a, b, i);
    var j: nat :| Within(nbr, b, c, j);
    WithinTransitive(nbr, a, b, c, i, j);
  }

  /** The last, empty bucket of an exhausted search marks the step after
      which nothing new is reached. */
  lemma ExhaustedStops(nbr: Neighbours, start: Hex, r: seq<seq<Hex>>, x: Hex)
    requires Layered(nbr, start, r) && Exhausted(r)
    requires Within(nbr, start, x, |r| - 1)
    ensures Within(nbr, start, x, |r| - 2)
  {
    var L := |r| - 1;
    LayersAreWithin(nbr, start, r, L, x);
    var e := UpToWitness(r, L, x);
    UpToMember(r, L - 1, e, x);
    LayersAreWithin(nbr, start, r, L - 1, x);
  }

  /** When a search ends in an empty bucket, its buckets hold exactly the cells
      reachable from start. */
  lemma ExhaustedLayersAreReach(nbr: Neighbours, start: Hex, r: seq<seq<Hex>>, x: Hex)
    requires Layered(nbr, start, r) && Exhausted(r)
    ensures x in UpTo(r, |r| - 1) <==> Reaches(nbr, start, x)
  {
    var L := |r| - 1;
    LayersAreWithin(nbr, start, r, L, x);
    if x in UpTo(r, L) {
      assert Within(nbr, start, x, L);
    }
    if Reaches(nbr, start, x) {
      var k: nat :| Within(nbr, start, x, k);
      if k <= L {
        WithinMonotone(nbr, start, k, L, x);
      } else {
        forall z | Within(nbr, start, z, L) ensures Within(nbr, start, z, L - 1) {
          ExhaustedStops(nbr, start, r, z);
        }
        WithinStable(nbr, start, L - 1, k, x);
        WithinGrows(nbr, start, L - 1, x);
      }
    }
  }

  lemma DistinctConcat(a: seq<Hex>, b: seq<Hex>)
    requires Distinct(a) && Distinct(b)
    requires forall x :: x in a ==> x !in b
    ensures Distinct(a + b)
  {
    forall i, j | 0 <= i < j < |a + b| ensures (a + b)[i] != (a + b)[j] {
      if i < |a| && j >= |a| {
        assert (a + b)[i] in a && (a + b)[j] in b;
      }
    }
  }

  /** Sum of the bucket sizes. */
  function TotalSize(r: seq<seq<Hex>>): nat
  {
    if r == [] then 0 else TotalSize(r[..|r| - 1]) + |r[|r| - 1]|
  }

  lemma {:induction false} DistinctCard(s: seq<Hex>)
    requires Distinct(s)
    ensures |Elems(s)| == |s|
  {
    if s != [] {
      assert Distinct(s[1..]);
      assert Elems(s) == Elems(s[1..]) + {s[0]};
      DistinctCard(s[1..]);
    } else {
      assert Elems(s) == {};
    }
  }

  /** Without repeats, the bucket sizes add up to the number of cells found. */
  lemma {:induction false} TotalSizeCounts(r: seq<seq<Hex>>, k: nat)
    requires NoRepeats(r) && k <= |r|
    ensures TotalSize(r[..k]) == |UpTo(r, k - 1)|
    decreases k
  {
    if k == 0 {
      assert UpTo(r, -1) == {};
    } else {
      var last := k - 1;
      TotalSizeCounts(r, last);
      assert r[..k][..last] == r[..last];
      DistinctCard(r[last]);
      UpToSplit(r, last);
    }
  }

  /** Without repeats, bucket d adds |r[d]| new cells to the buckets before it. */
  lemma UpToSplit(r: seq<seq<Hex>>, d: nat)
    requires NoRepeats(r) && d < |r|
    ensures UpTo(r, d) == UpTo(r, d - 1) + Elems(r[d])
    ensures UpTo(r, d - 1) !! Elems(r[d])
  {
    forall y | y in UpTo(r, d) ensures y in UpTo(r, d - 1) + Elems(r[d]) {
      var e := UpToWitness(r, d, y);
      if e < d { UpToMember(r, d - 1, e, y); }
    }
    forall y | y in UpTo(r, d - 1) + Elems(r[d]) ensures y in UpTo(r, d) {
      if y in UpTo(r, d - 1) {
        var e := UpToWitness(r, d - 1, y);
        UpToMember(r, d, e, y);
      } else {
        UpToMember(r, d, d, y);
      }
    }
    forall y | y in UpTo(r, d - 1) ensures y !in Elems(r[d]) {
      var e := UpToWitness(r, d - 1, y);
      assert Apart(r, e, d);
    }
  }

  /** Under a closed, symmetric neighbour function, paths can be retraced. */
  lemma {:induction false} WithinSymmetric(nbr: Neighbours, bound: set<Hex>, a: Hex, x: Hex, k: nat)
    requires ClosedIn(nbr, bound) && SymmetricIn(nbr, bound)
    requires a in bound && Within(nbr, a, x, k)
    ensures Within(nbr, x, a, k)
    decreases k
  {
    if k > 0 {
      if Within(nbr, a, x, k - 1) {
        WithinSymmetric(nbr, bound, a, x, k - 1);
        WithinGrows(nbr, x, k - 1, a);
      } else {
        var y := WithinPred(nbr, a, k - 1, x);
        WithinClosed(nbr, a, k - 1, bound, y);
        WithinSymmetric(nbr, bound, a, y, k - 1);
        assert y in nbr(x);
        StepThenWithin(nbr, x, y, a, k - 1);
      }
    }
  }

  /** A step to y followed by j steps from y is at most j + 1 steps. */
  lemma StepThenWithin(nbr: Neighbours, x: Hex, y: Hex, a: Hex, j: nat)
    requires y in nbr(x) && Within(nbr, y, a, j)
    ensures Within(nbr, x, a, j + 1)
  {
    WithinSucc(nbr, x, 0, x, y);
    WithinTransitive(nbr, x, y, a, 1, j);
  }

  lemma SubsetCard(A: set<Hex>, B: set<Hex>)
    requires A <= B
    ensures |A| <= |B|
  {
    assert B == A + (B - A);
  }

  lemma SubsetOfSameSize(A: set<Hex>, B: set<Hex>)
    requires A <= B && |A| == |B|
    ensures A == B
  {
    assert |B - A| == |B| - |A|;
  }

  /** An exhausted search from a cell of S, under a neighbour function closed
      and symmetric on S, counts |S| cells exactly when S is non-empty and
      connected; when S is empty the search still counts its start. */
  lemma CountDecidesConnected(nbr: Neighbours, S: set<Hex>, start: Hex, r: seq<seq<Hex>>)
    requires Layered(nbr, start, r) && Exhausted(r)
    requires ClosedIn(nbr, S) && SymmetricIn(nbr, S)
    requires |S| > 0 ==> start in S
    ensures TotalSize(r) == |S| <==> |S| > 0 && Connected(nbr, S)
  {
    var L := |r| - 1;
    TotalSizeCounts(r, |r|);
    assert r[..|r|] == r;
    var R := UpTo(r, L);
    assert start in R by { assert start in r[0]; }
    if |S| == 0 {
      assert |R| >= 1;
    } else {
      assert R <= S by {
        forall x | x in R ensures x in S {
          ExhaustedLayersAreReach(nbr, start, r, x);
          var k: nat :| Within(nbr, start, x, k);
          WithinClosed(nbr, start, k, S, x);
        }
      }
      if TotalSize(r) == |S| {
        SubsetOfSameSize(R, S);
        forall a, b | a in S && b in S ensures Reaches(nbr, a, b) {
          ExhaustedLayersAreReach(nbr, start, r, a);
          ExhaustedLayersAreReach(nbr, start, r, b);
          var k: nat :| Within(nbr, start, a, k);
          WithinSymmetric(nbr, S, start, a, k);
          ReachesTransitive(nbr, a, start, b);
        }
      }
      if Connected(nbr, S) {
        forall b | b in S ensures b in R {
          ExhaustedLayersAreReach(nbr, start, r, b);
        }
        assert R == S;
      }
    }
  }

  /** Beyond bucket 0, which holds only the start, the buckets hold every
      found cell except the start. */
  lemma LaterLayers(r: seq<seq<Hex>>, start: Hex, x: Hex)
    requires |r| >= 1 && r[0] == [start] && NoRepeats(r)
    ensures (exists e :: 1 <= e < |r| && x in r[e]) <==> x in UpTo(r, |r| - 1) && x != start
  {
    if exists e :: 1 <= e < |r| && x in r[e] {
      var e :| 1 <= e < |r| && x in r[e];
      assert Apart(r, 0, e);
      UpToMember(r, |r| - 1, e, x);
    }
    if x in UpTo(r, |r| - 1) && x != start {
      var e := UpToWitness(r, |r| - 1, x);
    }
  }
}
