/**
 * The greedy disk packing of TP1/public_cpp/main.cpp.
 *
 * Candidate points are visited from the largest projection onto a direction
 * down to the smallest; a point whose flag is still set is selected and
 * clears the flag of every point within squared distance 4·radius², found
 * through a uniform grid of cells of side 2·radius. `ManyRuns` keeps the
 * largest packing over several directions.
 *
 * The sweep is proved equal to `GreedyIndices`, a reference definition that
 * scans all selected points instead of the 3×3 grid neighbourhood; the
 * packing properties are proved about the reference.
 */
module DiskPacking {
  import opened Collections
  import opened Sorting

  /** `Point<long long>`; also the key of a grid cell (`Cell`). */
  datatype Point = Point(x: int, y: int)

  lemma SquareNonNegative(a: int)
    ensures a * a >= 0
    ensures a * a == 0 <==> a == 0
  {
    if a < 0 {
      assert a * a == (-a) * (-a);
    }
  }

  /** Squared Euclidean distance (`Point::distance2`). */
  function Distance2(p: Point, q: Point): (d: int)
    ensures d >= 0
    ensures d == 0 <==> p == q
  {
    SquareNonNegative(p.x - q.x);
    SquareNonNegative(p.y - q.y);
    (p.x - q.x) * (p.x - q.x) + (p.y - q.y) * (p.y - q.y)
  }

  lemma Distance2Symmetric(p: Point, q: Point)
    ensures Distance2(p, q) == Distance2(q, p)
  {
    assert (p.x - q.x) * (p.x - q.x) == (q.x - p.x) * (q.x - p.x);
    assert (p.y - q.y) * (p.y - q.y) == (q.y - p.y) * (q.y - p.y);
  }

  /**
   * The cell of `p` (`Solver::key_of`): the floor of each coordinate divided
   * by the cell size, so negative coordinates are handled like positive ones.
   */
  function KeyOf(p: Point, cellSize: int): (c: Point)
    requires cellSize > 0
    ensures c.x * cellSize <= p.x < c.x * cellSize + cellSize
    ensures c.y * cellSize <= p.y < c.y * cellSize + cellSize
  {
    Point(p.x / cellSize, p.y / cellSize)
  }

  lemma MulPositive(x: int, y: int)
    requires x > 0 && y > 0
    ensures x * y > 0
  {
  }

  lemma MulMonotone(x: int, y: int, s: int)
    requires x <= y && s > 0
    ensures x * s <= y * s
  {
    if x < y {
      MulPositive(y - x, s);
      assert y * s - x * s == (y - x) * s;
    }
  }

  /** If a·a ≤ b·b with b > 0, then -b ≤ a ≤ b. */
  lemma SquareBound(a: int, b: int)
    requires b > 0 && a * a <= b * b
    ensures -b <= a <= b
  {
    if a > b {
      assert a * a - b * b == (a - b) * (a + b);
      MulPositive(a - b, a + b);
    } else if a < -b {
      assert a * a - b * b == (-a - b) * (-a + b);
      MulPositive(-a - b, -a + b);
    }
  }

  /** The floor quotient brackets its dividend. */
  lemma DivBounds(u: int, size: int)
    requires size > 0
    ensures (u / size) * size <= u < (u / size) * size + size
  {
  }

  /** Two coordinates at most one cell apart have floor keys at most one apart. */
  lemma FloorKeysAdjacent(u: int, v: int, size: int)
    requires size > 0 && -size <= v - u <= size
    ensures -1 <= v / size - u / size <= 1
  {
    var a, b := u / size, v / size;
    DivBounds(u, size);
    DivBounds(v, size);
    if b >= a + 2 {
      MulMonotone(a + 2, b, size);
    }
    if a >= b + 2 {
      MulMonotone(b + 2, a, size);
    }
  }

  /**
   * The completeness of the 3×3 lookup: with cells of side 2·radius, a point
   * within squared distance 4·radius² of p lies in one of the nine cells
   * around the cell of p.
   */
  lemma {:induction false} CloseImpliesAdjacentCells(p: Point, q: Point, radius: int)
    requires radius > 0
    requires Distance2(p, q) <= 4 * radius * radius
    ensures -1 <= KeyOf(q, 2 * radius).x - KeyOf(p, 2 * radius).x <= 1
    ensures -1 <= KeyOf(q, 2 * radius).y - KeyOf(p, 2 * radius).y <= 1
  {
    var size := 2 * radius;
    assert size * size == 4 * radius * radius;
    SquareNonNegative(q.x - p.x);
    SquareNonNegative(q.y - p.y);
    assert (p.x - q.x) * (p.x - q.x) == (q.x - p.x) * (q.x - p.x);
    assert (p.y - q.y) * (p.y - q.y) == (q.y - p.y) * (q.y - p.y);
    SquareBound(q.x - p.x, size);
    SquareBound(q.y - p.y, size);
    FloorKeysAdjacent(p.x, q.x, size);
    FloorKeysAdjacent(p.y, q.y, size);
  }

  /** The `proj` lambda of greedy: the dot product with the direction. */
  function Projection(p: Point, dir: Point): int
  {
    p.x * dir.x + p.y * dir.y
  }

  /** Every element of `s` is an index of a sequence of length n. */
  predicate InRange(s: seq<int>, n: nat)
  {
    forall k :: 0 <= k < |s| ==> 0 <= s[k] < n
  }

  /** `order` is a permutation of 0 .. n-1. */
  predicate IsPermutation(order: seq<int>, n: nat)
  {
    InRange(order, n) && multiset(order) == multiset(Range(n))
  }

  predicate SortedByProjection(pts: seq<Point>, dir: Point, order: seq<int>)
    requires InRange(order, |pts|)
  {
    forall a, b :: 0 <= a < b < |order| ==>
      Projection(pts[order[a]], dir) <= Projection(pts[order[b]], dir)
  }

  /**
   * `indexes` after the `std::sort` of greedy (lines 101-110): 0 .. n-1
   * ordered non-decreasingly by projection. `std::sort` leaves the order of
   * equal projections open; this is the order a stable sort gives.
   */
  function SortIndices(pts: seq<Point>, dir: Point): (order: seq<int>)
    ensures IsPermutation(order, |pts|)
    ensures SortedByProjection(pts, dir, order)
  {
    var n := |pts|;
    var key := (i: int) => if 0 <= i < n then Projection(pts[i], dir) else 0;
    var order := InsertionSort(Range(n), key);
    assert InRange(order, n) by {
      forall k | 0 <= k < |order|
        ensures 0 <= order[k] < n
      {
        assert order[k] in multiset(order);
        assert order[k] in Range(n);
      }
    }
    order
  }

  /** Point j is within the forbidden distance of point i. */
  predicate Close(pts: seq<Point>, radius: int, i: int, j: int)
    requires 0 <= i < |pts| && 0 <= j < |pts|
  {
    Distance2(pts[i], pts[j]) <= 4 * radius * radius
  }

  /** Some index of `chosen` has killed point j: the flag of j is 0. */
  predicate Covered(pts: seq<Point>, radius: int, chosen: seq<int>, j: int)
    requires InRange(chosen, |pts|) && 0 <= j < |pts|
  {
    exists k :: 0 <= k < |chosen| && Close(pts, radius, chosen[k], j)
  }

  /**
   * Reference definition of the sweep, without the grid: the indices
   * selected once `order` has been visited from its last element down to its
   * first. An index is selected when no earlier selection is within squared
   * distance 4·radius² of it.
   */
  function GreedyIndices(pts: seq<Point>, radius: int, order: seq<int>): (chosen: seq<int>)
    requires InRange(order, |pts|)
    ensures InRange(chosen, |pts|)
  {
    if order == [] then []
    else
      var before := GreedyIndices(pts, radius, order[1..]);
      if Covered(pts, radius, before, order[0]) then before else before + [order[0]]
  }

  /** The points of the selected indices, in selection order. */
  function PointsOf(pts: seq<Point>, chosen: seq<int>): (sol: seq<Point>)
    requires InRange(chosen, |pts|)
    ensures |sol| == |chosen|
    ensures forall a :: 0 <= a < |sol| ==> sol[a] == pts[chosen[a]]
  {
    seq(|chosen|, a requires 0 <= a < |chosen| => pts[chosen[a]])
  }

  /** No two indices of `chosen` are close, the later one counted as the killed one. */
  predicate Separated(pts: seq<Point>, radius: int, chosen: seq<int>)
    requires InRange(chosen, |pts|)
  {
    forall a, b :: 0 <= a < b < |chosen| ==> !Close(pts, radius, chosen[a], chosen[b])
  }

  lemma SeparatedExtend(pts: seq<Point>, radius: int, before: seq<int>, i: int)
    requires InRange(before, |pts|) && 0 <= i < |pts|
    requires Separated(pts, radius, before) && !Covered(pts, radius, before, i)
    ensures InRange(before + [i], |pts|) && Separated(pts, radius, before + [i])
  {
    var chosen := before + [i];
    forall a, b | 0 <= a < b < |chosen|
      ensures !Close(pts, radius, chosen[a], chosen[b])
    {
      assert chosen[a] == before[a];
      if b < |before| {
        assert chosen[b] == before[b];
      }
    }
  }

  lemma {:induction false} GreedySelectionsFarApart(pts: seq<Point>, radius: int, order: seq<int>)
    requires InRange(order, |pts|)
    ensures Separated(pts, radius, GreedyIndices(pts, radius, order))
  {
    if order != [] {
      GreedySelectionsFarApart(pts, radius, order[1..]);
      var before := GreedyIndices(pts, radius, order[1..]);
      if !Covered(pts, radius, before, order[0]) {
        SeparatedExtend(pts, radius, before, order[0]);
      }
    }
  }

  /** Selecting i additionally kills exactly the points close to i. */
  lemma CoveredExtend(pts: seq<Point>, radius: int, before: seq<int>, i: int, j: int)
    requires InRange(before, |pts|) && 0 <= i < |pts| && 0 <= j < |pts|
    ensures InRange(before + [i], |pts|)
    ensures Covered(pts, radius, before + [i], j) <==> Covered(pts, radius, before, j) || Close(pts, radius, i, j)
  {
    var chosen := before + [i];
    if Covered(pts, radius, before, j) {
      var w :| 0 <= w < |before| && Close(pts, radius, before[w], j);
      assert chosen[w] == before[w];
    }
    if Close(pts, radius, i, j) {
      assert chosen[|before|] == i;
    }
    if Covered(pts, radius, chosen, j) {
      var w :| 0 <= w < |chosen| && Close(pts, radius, chosen[w], j);
      if w < |before| {
        assert chosen[w] == before[w];
      }
    }
  }

  lemma {:induction false} GreedyCoversVisited(pts: seq<Point>, radius: int, order: seq<int>)
    requires InRange(order, |pts|)
    ensures forall m :: 0 <= m < |order| ==> Covered(pts, radius, GreedyIndices(pts, radius, order), order[m])
    ensures |GreedyIndices(pts, radius, order)| <= |order|
  {
    if order != [] {
      var rest := order[1..];
      GreedyCoversVisited(pts, radius, rest);
      var before := GreedyIndices(pts, radius, rest);
      var chosen := GreedyIndices(pts, radius, order);
      forall m | 0 <= m < |order|
        ensures Covered(pts, radius, chosen, order[m])
      {
        if m > 0 {
          assert order[m] == rest[m - 1];
        }
        if chosen != before {
          CoveredExtend(pts, radius, before, order[0], order[m]);
        }
      }
    }
  }

  /** No two selected points are within squared distance 4·radius². */
  ghost predicate FarApart(radius: int, sol: seq<Point>)
  {
    forall a, b :: 0 <= a < b < |sol| ==> Distance2(sol[a], sol[b]) > 4 * radius * radius
  }

  /** Every candidate is within squared distance 4·radius² of a selected point. */
  ghost predicate Blocks(pts: seq<Point>, radius: int, sol: seq<Point>)
  {
    forall j :: 0 <= j < |pts| ==> Near(radius, sol, pts[j])
  }

  /** p is within squared distance 4·radius² of a selected point. */
  ghost predicate Near(radius: int, sol: seq<Point>, p: Point)
  {
    exists a :: 0 <= a < |sol| && Distance2(sol[a], p) <= 4 * radius * radius
  }

  /** A permutation of 0 .. n-1 has length n and holds every index. */
  lemma PermutationHoldsAll(order: seq<int>, n: nat)
    requires IsPermutation(order, n)
    ensures |order| == n
    ensures forall j :: 0 <= j < n ==> j in order
  {
    assert |multiset(order)| == |multiset(Range(n))|;
    forall j | 0 <= j < n
      ensures j in order
    {
      assert Range(n)[j] == j;
      assert j in multiset(Range(n));
    }
  }

  /** The squared distance of a point to itself is within any 4·radius². */
  lemma SelfClose(pts: seq<Point>, radius: int, i: int)
    requires 0 <= i < |pts|
    ensures Close(pts, radius, i, i)
  {
    SquareNonNegative(radius);
    assert 4 * radius * radius == 4 * (radius * radius);
  }

  /**
   * For any visiting order that is a permutation of the candidates, the
   * sweep yields a maximal packing: selected points pairwise farther apart
   * than 2·radius, every candidate killed by a selected one, at most n
   * selections, no index selected twice.
   */
  lemma GreedyIsMaximalPacking(pts: seq<Point>, radius: int, order: seq<int>)
    requires IsPermutation(order, |pts|)
    ensures FarApart(radius, PointsOf(pts, GreedyIndices(pts, radius, order)))
    ensures Blocks(pts, radius, PointsOf(pts, GreedyIndices(pts, radius, order)))
    ensures |GreedyIndices(pts, radius, order)| <= |pts|
    ensures Distinct(GreedyIndices(pts, radius, order))
  {
    var chosen := GreedyIndices(pts, radius, order);
    GreedySelectionsFarApart(pts, radius, order);
    GreedyCoversVisited(pts, radius, order);
    PermutationHoldsAll(order, |pts|);
    SeparatedPointsFarApart(pts, radius, chosen);
    SeparatedDistinct(pts, radius, chosen);
    CoveredAll(pts, radius, order, chosen);
    CoveredBlocks(pts, radius, chosen);
  }

  /** Killing every visited index kills every index, when all are visited. */
  lemma CoveredAll(pts: seq<Point>, radius: int, order: seq<int>, chosen: seq<int>)
    requires InRange(order, |pts|) && InRange(chosen, |pts|)
    requires forall j :: 0 <= j < |pts| ==> j in order
    requires forall m :: 0 <= m < |order| ==> Covered(pts, radius, chosen, order[m])
    ensures forall j :: 0 <= j < |pts| ==> Covered(pts, radius, chosen, j)
  {
    forall j | 0 <= j < |pts|
      ensures Covered(pts, radius, chosen, j)
    {
      var m := IndexOf(order, j);
      assert Covered(pts, radius, chosen, order[m]);
    }
  }

  lemma SeparatedPointsFarApart(pts: seq<Point>, radius: int, chosen: seq<int>)
    requires InRange(chosen, |pts|) && Separated(pts, radius, chosen)
    ensures FarApart(radius, PointsOf(pts, chosen))
  {
    var sol := PointsOf(pts, chosen);
    forall a, b | 0 <= a < b < |sol|
      ensures Distance2(sol[a], sol[b]) > 4 * radius * radius
    {
      assert !Close(pts, radius, chosen[a], chosen[b]);
    }
  }

  lemma SeparatedDistinct(pts: seq<Point>, radius: int, chosen: seq<int>)
    requires InRange(chosen, |pts|) && Separated(pts, radius, chosen)
    ensures Distinct(chosen)
  {
    forall a, b | 0 <= a < b < |chosen|
      ensures chosen[a] != chosen[b]
    {
      assert !Close(pts, radius, chosen[a], chosen[b]);
      SelfClose(pts, radius, chosen[a]);
    }
  }

  lemma CoveredBlocks(pts: seq<Point>, radius: int, chosen: seq<int>)
    requires InRange(chosen, |pts|)
    requires forall j :: 0 <= j < |pts| ==> Covered(pts, radius, chosen, j)
    ensures Blocks(pts, radius, PointsOf(pts, chosen))
  {
    var sol := PointsOf(pts, chosen);
    forall j | 0 <= j < |pts|
      ensures Near(radius, sol, pts[j])
    {
      assert Covered(pts, radius, chosen, j);
      var a :| 0 <= a < |chosen| && Close(pts, radius, chosen[a], j);
      assert sol[a] == pts[chosen[a]];
      assert 0 <= a < |sol| && Distance2(sol[a], pts[j]) <= 4 * radius * radius;
    }
  }

  /** The result of one `greedy(dir)` call. */
  function GreedyRun(pts: seq<Point>, radius: int, dir: Point): (sol: seq<Point>)
  {
    PointsOf(pts, GreedyIndices(pts, radius, SortIndices(pts, dir)))
  }

  /** Every result of greedy is a maximal packing of at most n points drawn from the candidates. */
  lemma GreedyRunIsMaximalPacking(pts: seq<Point>, radius: int, dir: Point)
    ensures FarApart(radius, GreedyRun(pts, radius, dir))
    ensures Blocks(pts, radius, GreedyRun(pts, radius, dir))
    ensures |GreedyRun(pts, radius, dir)| <= |pts|
    ensures forall a :: 0 <= a < |GreedyRun(pts, radius, dir)| ==> GreedyRun(pts, radius, dir)[a] in pts
  {
    GreedyIsMaximalPacking(pts, radius, SortIndices(pts, dir));
  }

  /** The cells of the 3×3 block around `center` that the scan of (dx, dy) has already passed. */
  predicate Swept(c: Point, center: Point, dx: int, dy: int)
  {
    && center.x - 1 <= c.x <= center.x + 1
    && center.y - 1 <= c.y <= center.y + 1
    && (c.x - center.x < dx || (c.x - center.x == dx && c.y - center.y < dy))
  }

  /**
   * The grid built from the indices below m: each index sits in the bucket of
   * its own cell and in no other, and every bucket is increasing, so no index
   * occurs twice.
   */
  ghost predicate IsGrid(pts: seq<Point>, cellSize: int, grid: map<Point, seq<int>>, m: nat)
    requires cellSize > 0 && m <= |pts|
  {
    && (forall j :: 0 <= j < m ==> KeyOf(pts[j], cellSize) in grid)
    && (forall c :: c in grid ==> Increasing(grid[c]))
    && (forall c, t :: c in grid && 0 <= t < |grid[c]| ==>
          0 <= grid[c][t] < m && KeyOf(pts[grid[c][t]], cellSize) == c)
    && (forall j :: 0 <= j < m ==> j in grid[KeyOf(pts[j], cellSize)])
  }

  /** An entry of a bucket is a candidate index whose cell is that bucket's. */
  lemma GridEntry(pts: seq<Point>, cellSize: int, grid: map<Point, seq<int>>, c: Point, t: int)
    requires cellSize > 0 && IsGrid(pts, cellSize, grid, |pts|)
    requires c in grid && 0 <= t < |grid[c]|
    ensures 0 <= grid[c][t] < |pts| && KeyOf(pts[grid[c][t]], cellSize) == c
  {
  }

  /** Appending index i to the bucket of its cell extends the grid of the indices below i. */
  lemma GridInsert(pts: seq<Point>, cellSize: int, grid: map<Point, seq<int>>, i: int, key: Point, bucket: seq<int>)
    requires cellSize > 0 && 0 <= i < |pts| && IsGrid(pts, cellSize, grid, i)
    requires key == KeyOf(pts[i], cellSize) && bucket == if key in grid then grid[key] else []
    ensures IsGrid(pts, cellSize, grid[key := bucket + [i]], i + 1)
  {
    var grid' := grid[key := bucket + [i]];
    forall t | 0 <= t < |bucket|
      ensures bucket[t] < i
    {
      assert key in grid && bucket == grid[key];
    }
    forall c | c in grid'
      ensures Increasing(grid'[c])
    {
      if c == key {
        assert key in grid ==> Increasing(grid[key]);
      }
    }
    forall c, t | c in grid' && 0 <= t < |grid'[c]|
      ensures 0 <= grid'[c][t] < i + 1 && KeyOf(pts[grid'[c][t]], cellSize) == c
    {
      if c == key && t == |bucket| {
        assert grid'[c][t] == i;
      } else if c == key {
        assert grid'[c][t] == bucket[t] == grid[key][t];
      }
    }
    forall j | 0 <= j < i + 1
      ensures j in grid'[KeyOf(pts[j], cellSize)]
    {
      if j == i {
        assert grid'[key][|bucket|] == i;
      } else if KeyOf(pts[j], cellSize) == key {
        assert j in grid[key];
        var t :| 0 <= t < |grid[key]| && grid[key][t] == j;
        assert grid'[key][t] == j;
      }
    }
  }

  /** The grid-filling loop of greedy (lines 116-120). */
  method BuildGrid(pts: seq<Point>, cellSize: int) returns (grid: map<Point, seq<int>>)
    requires cellSize > 0
    ensures IsGrid(pts, cellSize, grid, |pts|)
  {
    grid := map[];
    for i := 0 to |pts|
      invariant IsGrid(pts, cellSize, grid, i)
    {
      var key := KeyOf(pts[i], cellSize);
      var bucket := if key in grid then grid[key] else [];
      GridInsert(pts, cellSize, grid, i, key, bucket);
      grid := grid[key := bucket + [i]];
    }
  }

  /** The innermost loop of `kill_neighbours`: clears the flag of every close point in one cell. */
  method KillInCell(pts: seq<Point>, cellSize: int, grid: map<Point, seq<int>>, alive: array<bool>,
                    p: Point, distMax2: int, cell: Point)
    requires cellSize > 0 && IsGrid(pts, cellSize, grid, |pts|) && alive.Length == |pts|
    modifies alive
    ensures forall j :: 0 <= j < |pts| ==>
      alive[j] == (old(alive[j]) && !(Distance2(p, pts[j]) <= distMax2 && KeyOf(pts[j], cellSize) == cell))
  {
    if cell !in grid {
      return;
    }
    var bucket := grid[cell];
    for t := 0 to |bucket|
      invariant forall j :: 0 <= j < |pts| ==>
        alive[j] == (old(alive[j]) && !(Distance2(p, pts[j]) <= distMax2 && j in bucket[..t]))
    {
      var j := bucket[t];
      GridEntry(pts, cellSize, grid, cell, t);
      if alive[j] && Distance2(p, pts[j]) <= distMax2 {
        alive[j] := false;
      }
      assert bucket[..t + 1] == bucket[..t] + [j];
    }
    assert bucket[..|bucket|] == bucket;
    forall j | 0 <= j < |pts|
      ensures j in bucket <==> KeyOf(pts[j], cellSize) == cell
    {
      if j in bucket {
        var t :| 0 <= t < |bucket| && bucket[t] == j;
        GridEntry(pts, cellSize, grid, cell, t);
      }
    }
  }

  /**
   * `kill_neighbours` (lines 125-153): clears the flag of every point within
   * squared distance 4·radius² of point ip, looking only at the 3×3 cells
   * around its cell. The flag of ip itself is cleared too.
   */
  method KillNeighbours(pts: seq<Point>, radius: int, grid: map<Point, seq<int>>, alive: array<bool>, ip: int)
    requires radius > 0 && IsGrid(pts, 2 * radius, grid, |pts|)
    requires alive.Length == |pts| && 0 <= ip < |pts|
    modifies alive
    ensures forall j :: 0 <= j < |pts| ==>
      alive[j] == (old(alive[j]) && Distance2(pts[ip], pts[j]) > 4 * radius * radius)
  {
    var cellSize := 2 * radius;
    var distMax2 := 4 * radius * radius;
    var p := pts[ip];
    var center := KeyOf(p, cellSize);
    ghost var before := alive[..];
    for dx := -1 to 2
      invariant forall j :: 0 <= j < |pts| ==>
        alive[j] == (before[j] && !(Distance2(p, pts[j]) <= distMax2 && Swept(KeyOf(pts[j], cellSize), center, dx, -1)))
    {
      for dy := -1 to 2
        invariant forall j :: 0 <= j < |pts| ==>
          alive[j] == (before[j] && !(Distance2(p, pts[j]) <= distMax2 && Swept(KeyOf(pts[j], cellSize), center, dx, dy)))
      {
        var cell := Point(center.x + dx, center.y + dy);
        KillInCell(pts, cellSize, grid, alive, p, distMax2, cell);
      }
    }
    forall j | 0 <= j < |pts| && Distance2(p, pts[j]) <= distMax2
      ensures Swept(KeyOf(pts[j], cellSize), center, 2, -1)
    {
      CloseImpliesAdjacentCells(p, pts[j], radius);
    }
  }

  /** One more step of the sweep, from the end of `order` towards its start. */
  lemma SweepStep(pts: seq<Point>, radius: int, order: seq<int>, k: int)
    requires InRange(order, |pts|) && 0 <= k < |order|
    ensures GreedyIndices(pts, radius, order[k..]) ==
      var before := GreedyIndices(pts, radius, order[k + 1..]);
      if Covered(pts, radius, before, order[k]) then before else before + [order[k]]
  {
    assert order[k..][1..] == order[k + 1..];
  }

  lemma PointsOfSnoc(pts: seq<Point>, chosen: seq<int>, i: int)
    requires InRange(chosen, |pts|) && 0 <= i < |pts|
    ensures InRange(chosen + [i], |pts|)
    ensures PointsOf(pts, chosen + [i]) == PointsOf(pts, chosen) + [pts[i]]
  {
  }

  /** Selecting point i: after `kill_neighbours` the flags are those of the points i covers too. */
  method Select(pts: seq<Point>, radius: int, grid: map<Point, seq<int>>, alive: array<bool>, ghost chosen: seq<int>, i: int)
    requires radius > 0 && IsGrid(pts, 2 * radius, grid, |pts|)
    requires alive.Length == |pts| && 0 <= i < |pts| && InRange(chosen, |pts|)
    requires forall j :: 0 <= j < |pts| ==> alive[j] == !Covered(pts, radius, chosen, j)
    modifies alive
    ensures forall j :: 0 <= j < |pts| ==> alive[j] == !Covered(pts, radius, chosen + [i], j)
  {
    KillNeighbours(pts, radius, grid, alive, i);
    forall j | 0 <= j < |pts|
      ensures alive[j] == !Covered(pts, radius, chosen + [i], j)
    {
      CoveredExtend(pts, radius, chosen, i, j);
    }
  }

  /**
   * `Solver::greedy(dir)`: sort, build the grid, set every flag, then sweep
   * from the largest projection down, selecting each point whose flag is
   * still set and killing its neighbours.
   */
  method Greedy(pts: seq<Point>, radius: int, dir: Point) returns (solution: seq<Point>)
    requires radius > 0
    ensures solution == GreedyRun(pts, radius, dir)
  {
    var indexes := SortIndices(pts, dir);
    var grid := BuildGrid(pts, 2 * radius);
    solution := Sweep(pts, radius, indexes, grid);
  }

  /** The selection loop of greedy: from the last index of `order` to the first, select each point still alive. */
  method Sweep(pts: seq<Point>, radius: int, order: seq<int>, grid: map<Point, seq<int>>) returns (solution: seq<Point>)
    requires radius > 0 && InRange(order, |pts|) && IsGrid(pts, 2 * radius, grid, |pts|)
    ensures solution == PointsOf(pts, GreedyIndices(pts, radius, order))
  {
    var alive := new bool[|pts|](_ => true);
    solution := [];
    ghost var chosen: seq<int> := [];
    var k := |order| - 1;
    while k >= 0
      invariant -1 <= k < |order|
      invariant chosen == GreedyIndices(pts, radius, order[k + 1..])
      invariant solution == PointsOf(pts, chosen)
      invariant forall j :: 0 <= j < |pts| ==> alive[j] == !Covered(pts, radius, chosen, j)
    {
      var i := order[k];
      SweepStep(pts, radius, order, k);
      if alive[i] {
        solution := solution + [pts[i]];
        Select(pts, radius, grid, alive, chosen, i);
        PointsOfSnoc(pts, chosen, i);
        chosen := chosen + [i];
      }
      k := k - 1;
    }
    assert order[0..] == order;
  }

  /** The results of greedy for each direction, in order. */
  ghost function Runs(pts: seq<Point>, radius: int, dirs: seq<Point>): (runs: seq<seq<Point>>)
    ensures |runs| == |dirs|
  {
    seq(|dirs|, k requires 0 <= k < |dirs| => GreedyRun(pts, radius, dirs[k]))
  }

  /** The runs of one more direction. */
  lemma RunsSnoc(pts: seq<Point>, radius: int, dirs: seq<Point>, i: int)
    requires 0 <= i < |dirs|
    ensures Runs(pts, radius, dirs[..i + 1]) == Runs(pts, radius, dirs[..i]) + [GreedyRun(pts, radius, dirs[i])]
  {
    assert dirs[..i + 1] == dirs[..i] + [dirs[i]];
  }

  /** Every run of manyRuns is a maximal packing. */
  lemma RunsAreMaximalPackings(pts: seq<Point>, radius: int, dirs: seq<Point>)
    ensures forall k :: 0 <= k < |dirs| ==>
      FarApart(radius, Runs(pts, radius, dirs)[k]) && Blocks(pts, radius, Runs(pts, radius, dirs)[k])
  {
    forall k | 0 <= k < |dirs|
      ensures FarApart(radius, Runs(pts, radius, dirs)[k]) && Blocks(pts, radius, Runs(pts, radius, dirs)[k])
    {
      GreedyRunIsMaximalPacking(pts, radius, dirs[k]);
    }
  }

  /**
   * `best` is what the loop of manyRuns keeps from `runs`: no run is larger,
   * and unless it is empty it is the first run of its size.
   */
  ghost predicate KeepsFirstLargest(runs: seq<seq<Point>>, best: seq<Point>)
  {
    && (forall k :: 0 <= k < |runs| ==> |runs[k]| <= |best|)
    && (best == [] ||
        exists k :: 0 <= k < |runs| && best == runs[k] && (forall e :: 0 <= e < k ==> |runs[e]| < |best|))
  }

  /**
   * `Solver::manyRuns`: one greedy run per direction, keeping a run only when
   * it is strictly larger than the best so far. The directions are given
   * (the source derives them from `cos`/`sin` of evenly spaced angles); no
   * direction, as for `angles <= 0`, gives the empty packing.
   */
  method ManyRuns(pts: seq<Point>, radius: int, dirs: seq<Point>) returns (best: seq<Point>)
    requires radius > 0
    ensures KeepsFirstLargest(Runs(pts, radius, dirs), best)
    ensures dirs == [] ==> best == []
    ensures dirs != [] ==> FarApart(radius, best) && Blocks(pts, radius, best)
  {
    best := [];
    ghost var runs: seq<seq<Point>> := [];
    for i := 0 to |dirs|
      invariant runs == Runs(pts, radius, dirs[..i])
      invariant KeepsFirstLargest(runs, best)
    {
      var solution := Greedy(pts, radius, dirs[i]);
      KeepStep(runs, best, solution);
      RunsSnoc(pts, radius, dirs, i);
      runs := runs + [solution];
      if |best| < |solution| {
        best := solution;
      }
    }
    assert dirs[..|dirs|] == dirs;
    if dirs != [] {
      BestIsARun(runs, best);
      ghost var k :| 0 <= k < |runs| && best == runs[k];
      GreedyRunIsMaximalPacking(pts, radius, dirs[k]);
    }
  }

  /** One iteration of the loop of manyRuns keeps `KeepsFirstLargest`. */
  lemma KeepStep(runs: seq<seq<Point>>, best: seq<Point>, solution: seq<Point>)
    requires KeepsFirstLargest(runs, best)
    ensures KeepsFirstLargest(runs + [solution], if |best| < |solution| then solution else best)
  {
    var next := runs + [solution];
    if |best| < |solution| {
      assert next[|runs|] == solution;
    } else if best != [] {
      var w :| 0 <= w < |runs| && best == runs[w] && forall e :: 0 <= e < w ==> |runs[e]| < |best|;
      assert next[w] == runs[w];
    }
  }

  /** Over a non-empty list of runs, the kept result is one of them. */
  lemma BestIsARun(runs: seq<seq<Point>>, best: seq<Point>)
    requires runs != [] && KeepsFirstLargest(runs, best)
    ensures exists k :: 0 <= k < |runs| && best == runs[k]
  {
    if best == [] {
      assert |runs[0]| <= 0;
      assert best == runs[0];
    }
  }
}
