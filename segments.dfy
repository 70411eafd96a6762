/**
 * The geometry of TP1/files.hpp: integer points, segments stored with their
 * endpoints in lexicographic order, the orientation test, the crossing test
 * `cross`, and the part of `readGraph` that turns a drawing of a graph into
 * its conflict graph (one vertex per segment, an edge between two segments
 * that cross). The `i64` coordinates are unbounded integers here.
 */
module Segments {
  import opened Graphs

  datatype Point = Point(x: int, y: int)

  /** `operator<`: lexicographic order on (x, y). */
  predicate Less(p: Point, q: Point)
  {
    p.x < q.x || (p.x == q.x && p.y < q.y)
  }

  /** `operator<` is a strict total order. */
  lemma LessIsStrictTotalOrder(p: Point, q: Point, r: Point)
    ensures !Less(p, p)
    ensures Less(p, q) && Less(q, r) ==> Less(p, r)
    ensures p != q ==> Less(p, q) || Less(q, p)
    ensures Less(p, q) ==> !Less(q, p)
  {
  }

  /** `operator+`. */
  function Add(p: Point, q: Point): (r: Point)
  {
    Point(p.x + q.x, p.y + q.y)
  }

  /** `operator-`: undoes `operator+`. */
  function Sub(p: Point, q: Point): (r: Point)
    ensures Add(r, q) == p
  {
    Point(p.x - q.x, p.y - q.y)
  }

  /** The dot product `operator*`. */
  function Dot(p: Point, q: Point): int
  {
    p.x * q.x + p.y * q.y
  }

  /** Adding and then subtracting q gives p back; addition and the dot product are symmetric. */
  lemma PointArithmetic(p: Point, q: Point)
    ensures Sub(Add(p, q), q) == p
    ensures Add(p, q) == Add(q, p)
    ensures Dot(p, q) == Dot(q, p)
  {
  }

  function Min(a: int, b: int): int { if a < b then a else b }
  function Max(a: int, b: int): int { if a < b then b else a }

  /** `r.inside(p, q)`. */
  predicate Inside(r: Point, p: Point, q: Point)
  {
    Min(p.x, q.x) <= r.x <= Max(p.x, q.x) && Min(p.y, q.y) <= r.y <= Max(p.y, q.y)
  }

  /** b lies between a and c, in either order. */
  predicate Between(a: int, b: int, c: int)
  {
    (a <= b <= c) || (c <= b <= a)
  }

  /**
   * `inside` tests membership of the closed axis-aligned box spanned by p
   * and q: symmetric in p and q, and the box holds both corners.
   */
  lemma InsideIsBox(r: Point, p: Point, q: Point)
    ensures Inside(r, p, q) <==> Between(p.x, r.x, q.x) && Between(p.y, r.y, q.y)
    ensures Inside(r, p, q) == Inside(r, q, p)
    ensures Inside(p, p, q) && Inside(q, p, q)
  {
  }

  /** A segment as `Segment` stores it. */
  datatype Segment = Segment(p: Point, q: Point)

  /** What the constructor guarantees: the endpoints are in `operator<` order. */
  predicate Normal(s: Segment)
  {
    !Less(s.q, s.p)
  }

  /** The `Segment(p, q)` constructor: stores the smaller endpoint first. */
  function MakeSegment(a: Point, b: Point): (s: Segment)
    ensures Normal(s)
    ensures (s.p == a && s.q == b) || (s.p == b && s.q == a)
  {
    if Less(a, b) then Segment(a, b) else Segment(b, a)
  }

  /** The order of the endpoints given to the constructor does not matter. */
  lemma MakeSegmentSymmetric(a: Point, b: Point)
    ensures MakeSegment(a, b) == MakeSegment(b, a)
  {
  }

  /**
   * Twice the signed area of the triangle a, b, c: positive when a, b, c
   * turn counter-clockwise, negative when they turn clockwise, zero when
   * they are collinear.
   */
  function Turn(a: Point, b: Point, c: Point): int
  {
    (b.x - a.x) * (c.y - a.y) - (b.y - a.y) * (c.x - a.x)
  }

  lemma OrientationValue(p: Point, q: Point, r: Point)
    ensures (q.y - p.y) * (r.x - q.x) - (q.x - p.x) * (r.y - q.y) == -Turn(p, q, r)
  {
    var ax, ay := q.x - p.x, q.y - p.y;
    var ex, ey := r.x - q.x, r.y - q.y;
    assert r.x - p.x == ex + ax && r.y - p.y == ey + ay;
    assert Turn(p, q, r) == ax * (ey + ay) - ay * (ex + ax);
    assert ax * (ey + ay) == ax * ey + ax * ay;
    assert ay * (ex + ax) == ay * ex + ay * ax;
  }

  /**
   * `orientation(r)`: 1 when the segment's endpoints and r turn clockwise,
   * -1 when they turn counter-clockwise, 0 when r is on the segment's line.
   */
  function Orientation(s: Segment, r: Point): (o: int)
    ensures o == 1 <==> Turn(s.p, s.q, r) < 0
    ensures o == -1 <==> Turn(s.p, s.q, r) > 0
    ensures o == 0 <==> Turn(s.p, s.q, r) == 0
  {
    var d1 := s.q.y - s.p.y;
    var d2 := r.x - s.q.x;
    var d3 := s.q.x - s.p.x;
    var d4 := r.y - s.q.y;
    var v := d1 * d2 - d3 * d4;
    OrientationValue(s.p, s.q, r);
    (if v > 0 then 1 else 0) - (if v < 0 then 1 else 0)
  }

  /**
   * `cross` as written. For four distinct endpoints with some orientation
   * zero it asks only whether an endpoint lies in the other segment's box,
   * even an endpoint that is not on the other segment's line.
   */
  function CrossAsWritten(s: Segment, t: Segment): bool
  {
    var o1 := Orientation(s, t.p);
    var o2 := Orientation(s, t.q);
    var o3 := Orientation(t, s.p);
    var o4 := Orientation(t, s.q);
    if o1 != 0 && o2 != 0 && o3 != 0 && o4 != 0 then
      o1 != o2 && o3 != o4
    else if t.p != s.p && t.q != s.q && t.p != s.q && t.q != s.p then
      Inside(t.p, s.p, s.q) || Inside(t.q, s.p, s.q) || Inside(s.p, t.p, t.q) || Inside(s.q, t.p, t.q)
    else
      SharedEndpointCross(s, t)
  }

  /**
   * `cross` with the box tests of the four-distinct-points case restricted
   * to the endpoints that lie on the other segment's line.
   */
  function Cross(s: Segment, t: Segment): bool
  {
    var o1 := Orientation(s, t.p);
    var o2 := Orientation(s, t.q);
    var o3 := Orientation(t, s.p);
    var o4 := Orientation(t, s.q);
    if o1 != 0 && o2 != 0 && o3 != 0 && o4 != 0 then
      o1 != o2 && o3 != o4
    else if t.p != s.p && t.q != s.q && t.p != s.q && t.q != s.p then
      (o1 == 0 && Inside(t.p, s.p, s.q)) || (o2 == 0 && Inside(t.q, s.p, s.q)) ||
      (o3 == 0 && Inside(s.p, t.p, t.q)) || (o4 == 0 && Inside(s.q, t.p, t.q))
    else
      SharedEndpointCross(s, t)
  }

  /**
   * The last cases of `cross`, where the segments share an endpoint: the
   * same segment twice does not cross; otherwise they cross only when all
   * their endpoints are collinear and one segment runs over the other.
   */
  function SharedEndpointCross(s: Segment, t: Segment): bool
  {
    if s == t then false
    else if Orientation(s, t.p) != 0 || Orientation(s, t.q) != 0 || Orientation(t, s.p) != 0 || Orientation(t, s.q) != 0 then false
    else if t.p == s.p then Inside(s.q, t.p, t.q) || Inside(t.q, s.p, s.q)
    else if t.q == s.q then Inside(s.p, t.p, t.q) || Inside(t.p, s.p, s.q)
    else if t.p == s.q then Inside(s.p, t.p, t.q) || Inside(t.q, s.p, s.q)
    else Inside(s.q, t.p, t.q) || Inside(t.p, s.p, s.q)
  }

  /** a and b lie strictly on opposite sides of the line through s. */
  predicate Straddles(s: Segment, a: Point, b: Point)
  {
    (Turn(s.p, s.q, a) < 0 && Turn(s.p, s.q, b) > 0) || (Turn(s.p, s.q, a) > 0 && Turn(s.p, s.q, b) < 0)
  }

  /** a and b lie strictly on the same side of the line through s. */
  predicate SameSide(s: Segment, a: Point, b: Point)
  {
    (Turn(s.p, s.q, a) < 0 && Turn(s.p, s.q, b) < 0) || (Turn(s.p, s.q, a) > 0 && Turn(s.p, s.q, b) > 0)
  }

  /** A segment never crosses itself. */
  lemma CrossIrreflexive(s: Segment)
    ensures !Cross(s, s) && !CrossAsWritten(s, s)
  {
    assert Turn(s.p, s.q, s.p) == 0;
  }

  /**
   * When no three of the four endpoints are collinear, both versions of
   * `cross` say the segments cross exactly when each one's endpoints lie
   * on opposite sides of the other's line.
   */
  lemma CrossInGeneralPosition(s: Segment, t: Segment)
    requires Turn(s.p, s.q, t.p) != 0 && Turn(s.p, s.q, t.q) != 0
    requires Turn(t.p, t.q, s.p) != 0 && Turn(t.p, t.q, s.q) != 0
    ensures Cross(s, t) <==> Straddles(s, t.p, t.q) && Straddles(t, s.p, s.q)
    ensures CrossAsWritten(s, t) == Cross(s, t)
  {
  }

  /**
   * Crossing is symmetric between two segments built by the constructor,
   * for `cross` as written and for the corrected test.
   */
  lemma CrossSymmetric(s: Segment, t: Segment)
    requires Normal(s) && Normal(t)
    ensures CrossAsWritten(s, t) == CrossAsWritten(t, s)
    ensures Cross(s, t) == Cross(t, s)
  {
  }

  /**
   * The corrected test only drops crossings: every pair it accepts, `cross`
   * as written accepts too.
   */
  lemma CrossImpliesCrossAsWritten(s: Segment, t: Segment)
    ensures Cross(s, t) ==> CrossAsWritten(s, t)
  {
  }

  /** The crossing test a conflict graph is built with: `cross` as written, or the corrected one. */
  function Crossing(corrected: bool, s: Segment, t: Segment): bool
  {
    if corrected then Cross(s, t) else CrossAsWritten(s, t)
  }

  /**
   * dR is the value at a point r of the segment from a to b of an affine
   * function whose values at a and b are dA and dB: d·dR = (d - m)·dA + m·dB
   * with m between 0 and d. Then dR has the sign dA and dB share.
   */
  lemma AffineSign(d: int, m: int, dA: int, dB: int, dR: int)
    requires d != 0 && Between(0, m, d)
    requires d * dR == (d - m) * dA + m * dB
    ensures dA > 0 && dB > 0 ==> dR > 0
    ensures dA < 0 && dB < 0 ==> dR < 0
  {
    var d', m' := if d < 0 then -d else d, if d < 0 then -m else m;
    assert d' * dR == (d' - m') * dA + m' * dB;
    if dA > 0 && dB > 0 {
      PositiveCombination(d', m', dA, dB, dR);
    } else if dA < 0 && dB < 0 {
      PositiveCombination(d', m', -dA, -dB, -dR);
    }
  }

  lemma PositiveCombination(d: int, m: int, a: int, b: int, r: int)
    requires 0 <= m <= d && d > 0 && a > 0 && b > 0
    requires d * r == (d - m) * a + m * b
    ensures r > 0
  {
    assert (d - m) * a >= 0 && m * b >= 0;
    if m == 0 {
      assert (d - m) * a > 0;
    } else {
      assert m * b > 0;
    }
    assert d * r > 0;
  }

  /**
   * Turn(l1, l2, ·) is affine: at a point r = a + (m/d)(b - a) of the line
   * through a and b (read along the x axis, d = b.x - a.x) it is the
   * matching combination of its values at a and b.
   */
  lemma TurnIsAffineX(l1: Point, l2: Point, a: Point, b: Point, r: Point)
    requires Turn(a, b, r) == 0
    ensures var d, m := b.x - a.x, r.x - a.x;
      d * Turn(l1, l2, r) == (d - m) * Turn(l1, l2, a) + m * Turn(l1, l2, b)
  {
    var ux, uy := l2.x - l1.x, l2.y - l1.y;
    var dx, dy := b.x - a.x, b.y - a.y;
    var m, n := r.x - a.x, r.y - a.y;
    var dA := Turn(l1, l2, a);
    assert dx * n == dy * m;
    TurnShift(l1, l2, a, r);
    TurnShift(l1, l2, a, b);
    AffineAlgebra(dA, ux, uy, dx, dy, m, n);
  }

  /** Moving the third point of Turn by (m, n) adds ux·n - uy·m, where (ux, uy) is the direction of the line. */
  lemma TurnShift(l1: Point, l2: Point, a: Point, p: Point)
    ensures Turn(l1, l2, p) ==
      Turn(l1, l2, a) + (l2.x - l1.x) * (p.y - a.y) - (l2.y - l1.y) * (p.x - a.x)
  {
    var ux, uy := l2.x - l1.x, l2.y - l1.y;
    var m, n := p.x - a.x, p.y - a.y;
    assert p.y - l1.y == (a.y - l1.y) + n && p.x - l1.x == (a.x - l1.x) + m;
    assert ux * ((a.y - l1.y) + n) == ux * (a.y - l1.y) + ux * n;
    assert uy * ((a.x - l1.x) + m) == uy * (a.x - l1.x) + uy * m;
  }

  /** The algebra behind TurnIsAffineX, with (m, n) parallel to (dx, dy). */
  lemma AffineAlgebra(dA: int, ux: int, uy: int, dx: int, dy: int, m: int, n: int)
    requires dx * n == dy * m
    ensures dx * (dA + ux * n - uy * m) == (dx - m) * dA + m * (dA + ux * dy - uy * dx)
  {
    assert dx * (dA + ux * n - uy * m) == dx * dA + ux * (dx * n) - uy * (dx * m);
    assert ux * (dx * n) == ux * (dy * m);
    assert ux * (dy * m) == m * (ux * dy);
    assert uy * (dx * m) == m * (uy * dx);
    assert (dx - m) * dA + m * (dA + ux * dy - uy * dx) == dx * dA + m * (ux * dy) - m * (uy * dx);
  }

  /** The same, read along the y axis. */
  lemma TurnIsAffineY(l1: Point, l2: Point, a: Point, b: Point, r: Point)
    requires Turn(a, b, r) == 0
    ensures var d, m := b.y - a.y, r.y - a.y;
      d * Turn(l1, l2, r) == (d - m) * Turn(l1, l2, a) + m * Turn(l1, l2, b)
  {
    var f := (p: Point) => Point(p.y, p.x);
    assert Turn(f(a), f(b), f(r)) == -Turn(a, b, r);
    TurnIsAffineX(f(l2), f(l1), f(a), f(b), f(r));
    assert forall p :: Turn(f(l2), f(l1), f(p)) == Turn(l1, l2, p);
  }

  /**
   * A point of the segment from a to b (on its line and in its box) is on
   * the same strict side of a line as a and b are.
   */
  lemma OnSegmentKeepsSide(l: Segment, a: Point, b: Point, r: Point)
    requires Turn(a, b, r) == 0 && Inside(r, a, b)
    requires SameSide(l, a, b)
    ensures Turn(l.p, l.q, r) != 0
  {
    if b.x != a.x {
      TurnIsAffineX(l.p, l.q, a, b, r);
      AffineSign(b.x - a.x, r.x - a.x, Turn(l.p, l.q, a), Turn(l.p, l.q, b), Turn(l.p, l.q, r));
    } else if b.y != a.y {
      TurnIsAffineY(l.p, l.q, a, b, r);
      AffineSign(b.y - a.y, r.y - a.y, Turn(l.p, l.q, a), Turn(l.p, l.q, b), Turn(l.p, l.q, r));
    } else {
      assert r == a;
    }
  }

  /**
   * Two segments cannot cross when one of them lies strictly on one side
   * of the other's line.
   */
  lemma {:induction false} CrossNeedsStraddle(s: Segment, t: Segment)
    requires SameSide(t, s.p, s.q) || SameSide(s, t.p, t.q)
    ensures !Cross(s, t)
  {
    if SameSide(t, s.p, s.q) {
      if Orientation(s, t.p) == 0 && Inside(t.p, s.p, s.q) {
        assert Turn(t.p, t.q, t.p) == 0;
        OnSegmentKeepsSide(t, s.p, s.q, t.p);
      }
      if Orientation(s, t.q) == 0 && Inside(t.q, s.p, s.q) {
        assert Turn(t.p, t.q, t.q) == 0;
        OnSegmentKeepsSide(t, s.p, s.q, t.q);
      }
    } else {
      if Orientation(t, s.p) == 0 && Inside(s.p, t.p, t.q) {
        assert Turn(s.p, s.q, s.p) == 0;
        OnSegmentKeepsSide(s, t.p, t.q, s.p);
      }
      if Orientation(t, s.q) == 0 && Inside(s.q, t.p, t.q) {
        assert Turn(s.p, s.q, s.q) == 0;
        OnSegmentKeepsSide(s, t.p, t.q, s.q);
      }
    }
  }

  /**
   * With four distinct endpoints one of which lies on the other segment's
   * line, `cross` as written is satisfied by an endpoint in the other
   * segment's box, wherever that endpoint lies.
   */
  lemma CrossAsWrittenBoxOnly(s: Segment, t: Segment)
    requires Orientation(s, t.q) == 0
    requires t.p != s.p && t.q != s.q && t.p != s.q && t.q != s.p
    requires Inside(t.p, s.p, s.q)
    ensures CrossAsWritten(s, t)
  {
  }

  /**
   * The segments (0,0)–(2,2) and (0,1)–(3,3) do not meet: both ends of the
   * first lie strictly on one side of the second's line, so by
   * CrossNeedsStraddle `Cross` says they do not cross. `cross` as written
   * says they cross, because (3,3) is on the first one's line and (0,1) is
   * in its box.
   */
  lemma CrossAsWrittenIgnoresSides()
    ensures MakeSegment(Point(0, 0), Point(2, 2)) == Segment(Point(0, 0), Point(2, 2))
    ensures MakeSegment(Point(3, 3), Point(0, 1)) == Segment(Point(0, 1), Point(3, 3))
    ensures SameSide(Segment(Point(0, 1), Point(3, 3)), Point(0, 0), Point(2, 2))
    ensures CrossAsWritten(Segment(Point(0, 0), Point(2, 2)), Segment(Point(0, 1), Point(3, 3)))
  {
    var o := Orientation(Segment(Point(0, 0), Point(2, 2)), Point(3, 3));
    assert o == 0;
    assert Inside(Point(0, 1), Point(0, 0), Point(2, 2));
    CrossAsWrittenBoxOnly(Segment(Point(0, 0), Point(2, 2)), Segment(Point(0, 1), Point(3, 3)));
    var a := Turn(Point(0, 1), Point(3, 3), Point(0, 0));
    var b := Turn(Point(0, 1), Point(3, 3), Point(2, 2));
    assert a == -3 && b == -1;
  }

  /**
   * The drawing `readGraph` reads: vertex coordinates `xs`, `ys` and the
   * edge list `ei`, `ej`, whose vertex numbers index the coordinates.
   */
  predicate ValidDrawing(xs: seq<int>, ys: seq<int>, ei: seq<int>, ej: seq<int>)
  {
    && |ei| <= |ej|
    && (forall k :: 0 <= k < |ei| ==> 0 <= ei[k] < |xs| && ei[k] < |ys|)
    && (forall k :: 0 <= k < |ei| ==> 0 <= ej[k] < |xs| && ej[k] < |ys|)
  }

  /** The segment that draws edge k. */
  function EdgeSegment(xs: seq<int>, ys: seq<int>, ei: seq<int>, ej: seq<int>, k: int): Segment
    requires ValidDrawing(xs, ys, ei, ej) && 0 <= k < |ei|
  {
    MakeSegment(Point(xs[ei[k]], ys[ei[k]]), Point(xs[ej[k]], ys[ej[k]]))
  }

  /**
   * The pairs the nested loop of `readGraph` has tested when it is about to
   * test (i, j), among those that cross.
   */
  ghost predicate Found(corrected: bool, segs: seq<Segment>, i: int, j: int, a: int, b: int)
  {
    0 <= a < |segs| && 0 <= b < |segs| && a != b && (a < i || (a == i && b < j)) && Crossing(corrected, segs[a], segs[b])
  }

  /** The first loop of `readGraph`: the segment that draws each edge, in edge order. */
  method DrawSegments(xs: seq<int>, ys: seq<int>, ei: seq<int>, ej: seq<int>) returns (segments: seq<Segment>)
    requires ValidDrawing(xs, ys, ei, ej)
    ensures |segments| == |ei|
    ensures forall m :: 0 <= m < |ei| ==> Normal(segments[m]) && segments[m] == EdgeSegment(xs, ys, ei, ej, m)
  {
    segments := [];
    for k := 0 to |ei|
      invariant |segments| == k
      invariant forall m :: 0 <= m < k ==> Normal(segments[m]) && segments[m] == EdgeSegment(xs, ys, ei, ej, m)
    {
      var p := Point(xs[ei[k]], ys[ei[k]]);
      var q := Point(xs[ej[k]], ys[ej[k]]);
      segments := segments + [MakeSegment(p, q)];
    }
  }

  /**
   * `readGraph` as written: one vertex per edge of the drawing, numbered 0
   * to n-1, and an edge between two of them exactly when `cross` as written
   * accepts their segments.
   */
  method ReadGraph(xs: seq<int>, ys: seq<int>, ei: seq<int>, ej: seq<int>) returns (g: Graph)
    requires ValidDrawing(xs, ys, ei, ej)
    ensures fresh(g) && g.Valid()
    ensures forall v :: v in g.adj <==> 0 <= v < |ei|
    ensures forall a, b :: Adjacent(g.adj, a, b) <==>
      0 <= a < |ei| && 0 <= b < |ei| && a != b && CrossAsWritten(EdgeSegment(xs, ys, ei, ej, a), EdgeSegment(xs, ys, ei, ej, b))
  {
    var segments := DrawSegments(xs, ys, ei, ej);
    g := ConflictGraph(segments, false);
  }

  /**
   * `readGraph` with the corrected crossing test: an edge exactly between
   * two distinct segments that meet, so never between segments one of which
   * lies strictly on one side of the other's line.
   */
  method ReadGraphCorrected(xs: seq<int>, ys: seq<int>, ei: seq<int>, ej: seq<int>) returns (g: Graph)
    requires ValidDrawing(xs, ys, ei, ej)
    ensures fresh(g) && g.Valid()
    ensures forall v :: v in g.adj <==> 0 <= v < |ei|
    ensures forall a, b :: Adjacent(g.adj, a, b) <==>
      0 <= a < |ei| && 0 <= b < |ei| && a != b && Cross(EdgeSegment(xs, ys, ei, ej, a), EdgeSegment(xs, ys, ei, ej, b))
  {
    var segments := DrawSegments(xs, ys, ei, ej);
    g := ConflictGraph(segments, true);
  }

  /**
   * The graph-building loops of `readGraph`, with either crossing test:
   * the vertices 0 to n-1, and an edge between two distinct segments the
   * test accepts.
   */
  method ConflictGraph(segments: seq<Segment>, corrected: bool) returns (g: Graph)
    requires forall k :: 0 <= k < |segments| ==> Normal(segments[k])
    ensures fresh(g) && g.Valid()
    ensures forall v :: v in g.adj <==> 0 <= v < |segments|
    ensures forall a, b :: Adjacent(g.adj, a, b) <==>
      0 <= a < |segments| && 0 <= b < |segments| && a != b && Crossing(corrected, segments[a], segments[b])
  {
    var n := |segments|;
    g := new Graph();
    for i := 0 to n
      invariant fresh(g) && g.Valid()
      invariant forall v :: v in g.adj <==> 0 <= v < i
      invariant forall a :: a in g.adj ==> g.adj[a] == {}
    {
      g.AddVertex(i);
    }
    for i := 0 to n
      invariant fresh(g) && g.Valid()
      invariant forall v :: v in g.adj <==> 0 <= v < n
      invariant forall a, b :: Adjacent(g.adj, a, b) <==> Found(corrected, segments, i, 0, a, b) || Found(corrected, segments, i, 0, b, a)
    {
      ConnectRow(g, segments, corrected, i);
    }
    forall a, b | 0 <= a < n && 0 <= b < n
      ensures Found(corrected, segments, n, 0, b, a) ==> Found(corrected, segments, n, 0, a, b)
    {
      CrossSymmetric(segments[a], segments[b]);
    }
  }

  /** One pass of the inner loop of `readGraph`: links segment i to every segment the test accepts with it. */
  method ConnectRow(g: Graph, segments: seq<Segment>, corrected: bool, i: int)
    requires g.Valid() && 0 <= i < |segments|
    requires forall v :: v in g.adj <==> 0 <= v < |segments|
    requires forall a, b :: Adjacent(g.adj, a, b) <==> Found(corrected, segments, i, 0, a, b) || Found(corrected, segments, i, 0, b, a)
    modifies g
    ensures g.Valid()
    ensures forall v :: v in g.adj <==> 0 <= v < |segments|
    ensures forall a, b :: Adjacent(g.adj, a, b) <==> Found(corrected, segments, i + 1, 0, a, b) || Found(corrected, segments, i + 1, 0, b, a)
  {
    var n := |segments|;
    for j := 0 to n
      invariant g.Valid()
      invariant forall v :: v in g.adj <==> 0 <= v < n
      invariant forall a, b :: Adjacent(g.adj, a, b) <==> Found(corrected, segments, i, j, a, b) || Found(corrected, segments, i, j, b, a)
    {
      if Crossing(corrected, segments[i], segments[j]) {
        g.AddEdge(i, j);
      }
      FoundStep(segments, corrected, i, j);
    }
    FoundNextRow(segments, corrected, i, n);
  }

  lemma FoundStep(segs: seq<Segment>, corrected: bool, i: int, j: int)
    requires 0 <= i < |segs| && 0 <= j < |segs|
    ensures forall a, b :: Found(corrected, segs, i, j + 1, a, b) <==>
      Found(corrected, segs, i, j, a, b) || (a == i && b == j && i != j && Crossing(corrected, segs[i], segs[j]))
  {
    forall a, b
      ensures Found(corrected, segs, i, j + 1, a, b) <==>
        Found(corrected, segs, i, j, a, b) || (a == i && b == j && i != j && Crossing(corrected, segs[i], segs[j]))
    {
    }
  }

  lemma FoundNextRow(segs: seq<Segment>, corrected: bool, i: int, n: int)
    requires n == |segs| && 0 <= i < n
    ensures forall a, b :: Found(corrected, segs, i, n, a, b) <==> Found(corrected, segs, i + 1, 0, a, b)
  {
  }
}
