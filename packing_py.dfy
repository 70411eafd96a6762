/**
 * The Python version of the greedy disk packing (TP1/public_py/main.py).
 *
 * It differs from the C++ one in three ways the model keeps: the grid cell
 * of a coordinate is the quotient truncated toward zero (`int(p/gridsize)`),
 * so cell 0 is twice as wide as the others; points are visited in increasing
 * order of projection; the solution and the forbidden points are sets of
 * point values, so equal points count once.
 */
module DiskPackingPy {
  import opened Collections
  import opened Sorting
  import opened DiskPacking

  /** `int(x / g)` for g > 0: the quotient truncated toward zero. */
  function Trunc(x: int, g: int): (t: int)
    requires g > 0
    ensures x >= 0 ==> t >= 0 && t * g <= x < t * g + g
    ensures x < 0 ==> t <= 0 && t * g - g < x <= t * g
  {
    if x >= 0 then x / g else -((-x) / g)
  }

  /** `getCell` of buildGrid. */
  function GetCell(p: Point, g: int): Point
    requires g > 0
  {
    Point(Trunc(p.x, g), Trunc(p.y, g))
  }

  /** Coordinates at most g apart have truncated cells at most one apart. */
  lemma TruncAdjacent(u: int, v: int, g: int)
    requires g > 0 && -g <= v - u <= g
    ensures -1 <= Trunc(v, g) - Trunc(u, g) <= 1
  {
    if u >= 0 && v >= 0 {
      FloorKeysAdjacent(u, v, g);
    } else if u < 0 && v < 0 {
      FloorKeysAdjacent(-u, -v, g);
    } else if u < 0 {
      TruncMixedSigns(u, v, g);
    } else {
      TruncMixedSigns(v, u, g);
    }
  }

  lemma TruncMixedSigns(u: int, v: int, g: int)
    requires g > 0 && u < 0 <= v && v - u <= g
    ensures -1 <= Trunc(v, g) - Trunc(u, g) <= 1
  {
    DivBounds(-u, g);
    DivBounds(v, g);
    if (-u) / g >= 1 {
      MulMonotone(1, (-u) / g, g);
    }
    if v / g >= 1 {
      MulMonotone(1, v / g, g);
    }
  }

  /**
   * The completeness of getNeighbors: with cells of side 2·radius, a point
   * within squared distance 4·radius² of p lies in one of the nine cells
   * around the cell of p, truncation notwithstanding.
   */
  lemma CloseImpliesAdjacentTruncCells(p: Point, q: Point, radius: int)
    requires radius > 0
    requires Distance2(p, q) <= 4 * radius * radius
    ensures -1 <= GetCell(q, 2 * radius).x - GetCell(p, 2 * radius).x <= 1
    ensures -1 <= GetCell(q, 2 * radius).y - GetCell(p, 2 * radius).y <= 1
  {
    var size := 2 * radius;
    assert size * size == 4 * radius * radius;
    SquareNonNegative(q.x - p.x);
    SquareNonNegative(q.y - p.y);
    assert (p.x - q.x) * (p.x - q.x) == (q.x - p.x) * (q.x - p.x);
    assert (p.y - q.y) * (p.y - q.y) == (q.y - p.y) * (q.y - p.y);
    SquareBound(q.x - p.x, size);
    SquareBound(q.y - p.y, size);
    TruncAdjacent(p.x, q.x, size);
    TruncAdjacent(p.y, q.y, size);
  }

  /**
   * The grid of buildGrid: the bucket of a cell holds exactly the points of
   * that cell, and every point's cell has a bucket.
   */
  ghost predicate IsGridPy(points: seq<Point>, g: int, grid: map<Point, seq<Point>>)
    requires g > 0
  {
    && (forall q :: q in points ==> GetCell(q, g) in grid)
    && (forall c, q :: c in grid && q in grid[c] ==> q in points && GetCell(q, g) == c)
    && (forall q :: q in points ==> q in grid[GetCell(q, g)])
  }

  /** `buildGrid`: appends each point to the bucket of its cell. */
  method BuildGrid(points: seq<Point>, g: int) returns (grid: map<Point, seq<Point>>)
    requires g > 0
    ensures IsGridPy(points, g, grid)
  {
    grid := map[];
    for i := 0 to |points|
      invariant IsGridPy(points[..i], g, grid)
    {
      var p := points[i];
      var cell := GetCell(p, g);
      var bucket := if cell in grid then grid[cell] else [];
      assert points[..i + 1] == points[..i] + [p];
      grid := grid[cell := bucket + [p]];
    }
    assert points[..|points|] == points;
  }

  /** The points other than p within squared distance 4·radius² of p. */
  ghost function Neighbours(points: seq<Point>, radius: int, p: Point): set<Point>
  {
    set q | q in points && q != p && Distance2(p, q) <= 4 * radius * radius
  }

  /**
   * `getNeighbors`: the points of the 3×3 cells around the cell of p that
   * differ from p and lie within squared distance 4·radius² of it, in the
   * order the generator yields them. The yielded values are exactly the
   * neighbours of p among all points.
   */
  method GetNeighbors(points: seq<Point>, grid: map<Point, seq<Point>>, radius: int, p: Point)
    returns (result: seq<Point>)
    requires radius > 0 && IsGridPy(points, 2 * radius, grid)
    ensures forall q :: q in result <==> q in Neighbours(points, radius, p)
  {
    var g := 2 * radius;
    var pcell := GetCell(p, g);
    var diamsq := 4 * radius * radius;
    result := [];
    for dx := -1 to 2
      invariant forall q :: q in result <==>
        q in points && q != p && Distance2(p, q) <= diamsq && Swept(GetCell(q, g), pcell, dx, -1)
    {
      for dy := -1 to 2
        invariant forall q :: q in result <==>
          q in points && q != p && Distance2(p, q) <= diamsq && Swept(GetCell(q, g), pcell, dx, dy)
      {
        var cell := Point(pcell.x + dx, pcell.y + dy);
        var bucket := if cell in grid then grid[cell] else [];
        for t := 0 to |bucket|
          invariant forall q :: q in result <==>
            q in points && q != p && Distance2(p, q) <= diamsq &&
            (Swept(GetCell(q, g), pcell, dx, dy) || (GetCell(q, g) == cell && q in bucket[..t]))
        {
          var q := bucket[t];
          assert q in grid[cell];
          if p != q && Distance2(p, q) <= diamsq {
            result := result + [q];
          }
          assert bucket[..t + 1] == bucket[..t] + [q];
        }
        assert bucket[..|bucket|] == bucket;
      }
    }
    forall q | q in points && q != p && Distance2(p, q) <= diamsq
      ensures Swept(GetCell(q, g), pcell, 2, -1)
    {
      CloseImpliesAdjacentTruncCells(p, q, radius);
    }
  }

  /**
   * Reference definition of greedy without the grid: the solution and the
   * forbidden points once `order` has been visited from first to last.
   */
  ghost function GreedyState(points: seq<Point>, radius: int, order: seq<Point>): (state: (set<Point>, set<Point>))
  {
    if order == [] then ({}, {})
    else
      var before := GreedyState(points, radius, order[..|order| - 1]);
      var p := order[|order| - 1];
      if p in before.1 then before
      else (before.0 + {p}, before.1 + Neighbours(points, radius, p))
  }

  /** `points` sorted by increasing projection onto `dir`, as the stable `sorted` does. */
  function SortByProjection(points: seq<Point>, dir: Point): (order: seq<Point>)
    ensures multiset(order) == multiset(points)
    ensures SortedBy(order, p => Projection(p, dir))
  {
    InsertionSort(points, p => Projection(p, dir))
  }

  /** The result of one `greedy(points, radius, direction)` call. */
  ghost function GreedySol(points: seq<Point>, radius: int, dir: Point): set<Point>
  {
    GreedyState(points, radius, SortByProjection(points, dir)).0
  }

  /**
   * `greedy`: visits the points in increasing projection order, adding to
   * the solution each one not yet forbidden and forbidding its neighbours.
   */
  method Greedy(points: seq<Point>, radius: int, dir: Point, grid: map<Point, seq<Point>>)
    returns (sol: set<Point>)
    requires radius > 0 && IsGridPy(points, 2 * radius, grid)
    ensures sol == GreedySol(points, radius, dir)
  {
    var order := SortByProjection(points, dir);
    sol := {};
    var forbidden: set<Point> := {};
    for i := 0 to |order|
      invariant (sol, forbidden) == GreedyState(points, radius, order[..i])
    {
      var p := order[i];
      GreedyStateStep(points, radius, order, i);
      if p !in forbidden {
        sol := sol + {p};
        var neighbours := GetNeighbors(points, grid, radius, p);
        forbidden := ForbidAll(forbidden, neighbours, Neighbours(points, radius, p));
      }
    }
    assert order[..|order|] == order;
  }

  /** Visiting one more point extends the reference state as greedy's loop body does. */
  lemma GreedyStateStep(points: seq<Point>, radius: int, order: seq<Point>, i: int)
    requires 0 <= i < |order|
    ensures var before := GreedyState(points, radius, order[..i]);
      GreedyState(points, radius, order[..i + 1]) ==
        if order[i] in before.1 then before
        else (before.0 + {order[i]}, before.1 + Neighbours(points, radius, order[i]))
  {
    assert order[..i + 1][..i] == order[..i];
  }

  /** The inner loop of greedy: adds every yielded neighbour to the forbidden set. */
  method ForbidAll(forbidden: set<Point>, neighbours: seq<Point>, ghost expected: set<Point>)
    returns (result: set<Point>)
    requires forall q :: q in neighbours <==> q in expected
    ensures result == forbidden + expected
  {
    result := forbidden;
    for j := 0 to |neighbours|
      invariant forall q :: q in result <==> q in forbidden || q in neighbours[..j]
    {
      assert neighbours[..j + 1] == neighbours[..j] + [neighbours[j]];
      result := result + {neighbours[j]};
    }
    assert neighbours[..|neighbours|] == neighbours;
  }

  /** The distinct points of `sol` are pairwise farther apart than 2·radius. */
  ghost predicate SetFarApart(radius: int, sol: set<Point>)
  {
    forall a, b :: a in sol && b in sol && a != b ==> Distance2(a, b) > 4 * radius * radius
  }

  /** Every point is within squared distance 4·radius² of a point of `sol`. */
  ghost predicate SetBlocks(points: seq<Point>, radius: int, sol: set<Point>)
  {
    forall q :: q in points ==> exists s :: s in sol && Distance2(s, q) <= 4 * radius * radius
  }

  /** What greedy keeps true while it visits points drawn from `points`. */
  ghost predicate GreedyInvariant(points: seq<Point>, radius: int, order: seq<Point>, sol: set<Point>, forbidden: set<Point>)
  {
    && SetFarApart(radius, sol)
    && (forall s :: s in sol ==> s in order)
    && (forall q :: q in forbidden ==> q in points)
    && (forall s, q :: s in sol && q in points && q != s && Distance2(s, q) <= 4 * radius * radius ==> q in forbidden)
    && (forall q :: q in forbidden ==> exists s :: s in sol && Distance2(s, q) <= 4 * radius * radius)
    && (forall x :: x in order ==> x in sol || x in forbidden)
  }

  lemma {:induction false} GreedyStateInvariant(points: seq<Point>, radius: int, order: seq<Point>)
    requires forall x :: x in order ==> x in points
    ensures GreedyInvariant(points, radius, order, GreedyState(points, radius, order).0, GreedyState(points, radius, order).1)
  {
    if order != [] {
      var init := order[..|order| - 1];
      var p := order[|order| - 1];
      assert order == init + [p];
      GreedyStateInvariant(points, radius, init);
      var (sol, forbidden) := GreedyState(points, radius, init);
      if p !in forbidden {
        GreedyStep(points, radius, init, sol, forbidden, p);
      }
    }
  }

  lemma GreedyStep(points: seq<Point>, radius: int, init: seq<Point>, sol: set<Point>, forbidden: set<Point>, p: Point)
    requires GreedyInvariant(points, radius, init, sol, forbidden)
    requires p in points && p !in forbidden
    ensures GreedyInvariant(points, radius, init + [p], sol + {p}, forbidden + Neighbours(points, radius, p))
  {
    var order := init + [p];
    var sol' := sol + {p};
    var forbidden' := forbidden + Neighbours(points, radius, p);
    forall a, b | a in sol' && b in sol' && a != b
      ensures Distance2(a, b) > 4 * radius * radius
    {
      Distance2Symmetric(a, b);
      if a == p {
        assert Distance2(b, p) > 4 * radius * radius;
      }
    }
    forall q | q in forbidden'
      ensures exists s :: s in sol' && Distance2(s, q) <= 4 * radius * radius
    {
      if q !in forbidden {
        assert p in sol' && Distance2(p, q) <= 4 * radius * radius;
      } else {
        var s :| s in sol && Distance2(s, q) <= 4 * radius * radius;
        assert s in sol';
      }
    }
    forall x | x in order
      ensures x in sol' || x in forbidden'
    {
      if x != p {
        assert x in init;
      }
    }
  }

  /**
   * Every result of greedy is a maximal packing of the input points: its
   * points are input points, pairwise farther apart than 2·radius, and every
   * input point is within 2·radius of one of them.
   */
  lemma GreedySolIsMaximalPacking(points: seq<Point>, radius: int, dir: Point)
    ensures SetFarApart(radius, GreedySol(points, radius, dir))
    ensures SetBlocks(points, radius, GreedySol(points, radius, dir))
    ensures forall s :: s in GreedySol(points, radius, dir) ==> s in points
  {
    var order := SortByProjection(points, dir);
    SameElements(order, points);
    GreedyStateInvariant(points, radius, order);
    var state := GreedyState(points, radius, order);
    InvariantBlocks(points, radius, order, state.0, state.1);
  }

  /** Once every point has been visited, the solution blocks every point. */
  lemma InvariantBlocks(points: seq<Point>, radius: int, order: seq<Point>, sol: set<Point>, forbidden: set<Point>)
    requires GreedyInvariant(points, radius, order, sol, forbidden)
    requires forall x :: x in points ==> x in order
    ensures SetBlocks(points, radius, sol)
  {
    forall q | q in points
      ensures exists s :: s in sol && Distance2(s, q) <= 4 * radius * radius
    {
      if q in sol {
        SelfWithinReach(q, radius);
      } else {
        assert q in forbidden;
      }
    }
  }

  /** A point is within any reach of itself. */
  lemma SelfWithinReach(q: Point, radius: int)
    ensures Distance2(q, q) <= 4 * radius * radius
  {
    SquareNonNegative(radius);
    assert 4 * radius * radius == 4 * (radius * radius);
  }

  lemma SameElements(a: seq<Point>, b: seq<Point>)
    requires multiset(a) == multiset(b)
    ensures forall x :: x in a <==> x in b
  {
    forall x
      ensures x in a <==> x in b
    {
      assert x in a <==> x in multiset(a);
      assert x in b <==> x in multiset(b);
    }
  }

  /** The results of greedy for each direction, in order. */
  ghost function RunsPy(points: seq<Point>, radius: int, dirs: seq<Point>): (runs: seq<set<Point>>)
    ensures |runs| == |dirs|
  {
    seq(|dirs|, k requires 0 <= k < |dirs| => GreedySol(points, radius, dirs[k]))
  }

  /** One more direction adds its run at the end. */
  lemma RunsPyStep(points: seq<Point>, radius: int, dirs: seq<Point>, i: int)
    requires 0 <= i < |dirs|
    ensures RunsPy(points, radius, dirs[..i + 1]) ==
      RunsPy(points, radius, dirs[..i]) + [GreedySol(points, radius, dirs[i])]
  {
    assert dirs[..i + 1] == dirs[..i] + [dirs[i]];
  }

  /**
   * `best` is what the loop of manyRuns keeps from `runs`: no run is larger,
   * and unless it is empty it is the first run of its size.
   */
  ghost predicate KeepsFirstLargestSet(runs: seq<set<Point>>, best: set<Point>)
  {
    && (forall k :: 0 <= k < |runs| ==> |runs[k]| <= |best|)
    && (best == {} ||
        exists k :: 0 <= k < |runs| && best == runs[k] && (forall e :: 0 <= e < k ==> |runs[e]| < |best|))
  }

  lemma KeepStepSet(runs: seq<set<Point>>, best: set<Point>, sol: set<Point>)
    requires KeepsFirstLargestSet(runs, best)
    ensures KeepsFirstLargestSet(runs + [sol], if |sol| > |best| then sol else best)
  {
    var next := runs + [sol];
    if |sol| > |best| {
      assert next[|runs|] == sol;
    } else if best != {} {
      var w :| 0 <= w < |runs| && best == runs[w] && forall e :: 0 <= e < w ==> |runs[e]| < |best|;
      assert next[w] == runs[w];
    }
  }

  /**
   * `manyRuns`: builds the grid once, runs greedy for each direction and
   * keeps a run when it is strictly larger than the best so far, starting
   * from the empty solution. The directions are given (the source uses
   * `cos`/`sin` of evenly spaced angles).
   */
  method ManyRuns(points: seq<Point>, radius: int, dirs: seq<Point>) returns (best: set<Point>)
    requires radius > 0
    ensures KeepsFirstLargestSet(RunsPy(points, radius, dirs), best)
    ensures dirs == [] ==> best == {}
    ensures dirs != [] ==> SetFarApart(radius, best) && SetBlocks(points, radius, best)
  {
    best := {};
    var grid := BuildGrid(points, 2 * radius);
    assert RunsPy(points, radius, dirs[..0]) == [];
    for i := 0 to |dirs|
      invariant KeepsFirstLargestSet(RunsPy(points, radius, dirs[..i]), best)
    {
      var sol := Greedy(points, radius, dirs[i], grid);
      KeepStepSet(RunsPy(points, radius, dirs[..i]), best, sol);
      RunsPyStep(points, radius, dirs, i);
      if |sol| > |best| {
        best := sol;
      }
    }
    assert dirs[..|dirs|] == dirs;
    if dirs != [] {
      BestIsARunPy(points, radius, dirs, best);
    }
  }

  /** Over at least one direction, the kept result is one of the runs, hence a maximal packing. */
  lemma BestIsARunPy(points: seq<Point>, radius: int, dirs: seq<Point>, best: set<Point>)
    requires dirs != [] && KeepsFirstLargestSet(RunsPy(points, radius, dirs), best)
    ensures SetFarApart(radius, best) && SetBlocks(points, radius, best)
  {
    var runs := RunsPy(points, radius, dirs);
    var k: int;
    if best == {} {
      assert |runs[0]| <= 0;
      k := 0;
    } else {
      k :| 0 <= k < |runs| && best == runs[k];
    }
    assert best == GreedySol(points, radius, dirs[k]);
    GreedySolIsMaximalPacking(points, radius, dirs[k]);
  }
}
