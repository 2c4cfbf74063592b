// Signed point-to-polygon distance of `src/pl.js`: the clamped segment
// distance (getSegDistSq), the even-odd ray-crossing test and the walk over
// every edge of every ring (pointToPolygonDist). Coordinates are reals;
// Math.sqrt is a parameter `sqrt` and its properties are stated by SqrtLike.
module Geometry {

  datatype Point = Point(x: real, y: real)

  /** A ring is a closed loop: its last point is joined back to its first. */
  type Ring = seq<Point>

  /** Ring 0 is the outer boundary, the others are holes. */
  type Polygon = seq<Ring>

  /** The pair (a, b) = (ring[i], ring[j]) visited by the edge loops. */
  datatype Edge = Edge(a: Point, b: Point)

  function Min(u: real, v: real): (r: real)
    ensures r <= u && r <= v
    ensures r == u || r == v
  {
    if u <= v then u else v
  }

  /** What the model assumes of Math.sqrt: nonnegative and monotone. */
  ghost predicate SqrtLike(sqrt: real -> real) {
    && (forall v :: 0.0 <= v ==> 0.0 <= sqrt(v))
    && (forall v, w :: 0.0 <= v <= w ==> sqrt(v) <= sqrt(w))
  }

  // ---------------------------------------------------------------------------
  // Distance from a point to a segment
  // ---------------------------------------------------------------------------

  /** Squared length of the vector (dx, dy). */
  function SqLen(dx: real, dy: real): (r: real)
    ensures r >= 0.0
  {
    dx * dx + dy * dy
  }

  /** Squared Euclidean distance from (px, py) to q. */
  function DistSq(px: real, py: real, q: Point): (r: real)
    ensures r >= 0.0
  {
    SqLen(px - q.x, py - q.y)
  }

  /** The point a + t·(b − a). */
  function Lerp(a: Point, b: Point, t: real): Point {
    Point(a.x + (b.x - a.x) * t, a.y + (b.y - a.y) * t)
  }

  function Clamp01(t: real): (r: real)
    ensures 0.0 <= r <= 1.0
    ensures 0.0 <= t <= 1.0 ==> r == t
    ensures t < 0.0 ==> r == 0.0
    ensures t > 1.0 ==> r == 1.0
  {
    if t < 0.0 then 0.0 else if t > 1.0 then 1.0 else t
  }

  /** The squared length of (dx, dy) is positive exactly when the vector is
      not zero, so testing it is the same as the source's test
      dx !== 0 || dy !== 0. */
  lemma NonDegenerateIff(dx: real, dy: real)
    ensures (dx * dx + dy * dy > 0.0) == (dx != 0.0 || dy != 0.0)
  {
  }

  /** The clamped segment parameter of the nearest point: the projection
      parameter k / len2 clamped to [0, 1], and 0 for a degenerate segment. */
  function SegParam(k: real, len2: real): (t: real)
    ensures 0.0 <= t <= 1.0
    ensures len2 <= 0.0 ==> t == 0.0
    ensures len2 > 0.0 && k <= 0.0 ==> t == 0.0
    ensures len2 > 0.0 && k >= len2 ==> t == 1.0
  {
    if len2 > 0.0 then QuotientBounds(k, len2); Clamp01(k / len2) else 0.0
  }

  lemma QuotientBounds(k: real, d: real)
    requires d > 0.0
    ensures k <= 0.0 ==> k / d <= 0.0
    ensures k >= d ==> k / d >= 1.0
  {
  }

  /** The point of the segment [a, b] nearest to (px, py). */
  function Nearest(px: real, py: real, a: Point, b: Point): Point {
    NearestAlong(a, b, px - a.x, py - a.y, b.x - a.x, b.y - a.y)
  }

  /** The nearest point, given the offset (ux, uy) of the query point from a
      and the direction (dx, dy) = b - a of the segment. */
  function NearestAlong(a: Point, b: Point, ux: real, uy: real, dx: real, dy: real): Point {
    Lerp(a, b, SegParam(ux * dx + uy * dy, SqLen(dx, dy)))
  }

  /** Squared distance from (px, py) to the segment [a, b]. */
  function SegDistSq(px: real, py: real, a: Point, b: Point): (r: real)
    ensures r >= 0.0
  {
    DistSq(px, py, Nearest(px, py, a, b))
  }

  /** The distance is measured to a point of the segment, and a degenerate
      segment is its single point. */
  lemma SegDistSqProperties(px: real, py: real, a: Point, b: Point)
    ensures exists t :: 0.0 <= t <= 1.0 && Nearest(px, py, a, b) == Lerp(a, b, t)
    ensures a == b ==> SegDistSq(px, py, a, b) == DistSq(px, py, a)
  {
    var q := Nearest(px, py, a, b);
    assert a == b ==> q == a;
  }

  /** The squared distance from p to a + t·(b − a), written with u = p − a,
      k = u·(b − a) and len2 = |b − a|²: the quadratic u2 − 2·t·k + t²·len2. */
  function Quad(u2: real, k: real, len2: real, t: real): real {
    u2 - 2.0 * t * k + t * t * len2
  }

  /** The clamped point is no farther than either endpoint: the squared
      distance to the segment is at most the squared distance to a and to b.
      The segment is either a single point or has a positive squared length
      (the two cases the source's dx !== 0 || dy !== 0 test separates). */
  lemma SegDistSqAtMostEndpoints(px: real, py: real, a: Point, b: Point)
    requires a == b || SqLen(b.x - a.x, b.y - a.y) > 0.0
    ensures SegDistSq(px, py, a, b) <= DistSq(px, py, a)
    ensures SegDistSq(px, py, a, b) <= DistSq(px, py, b)
  {
    AlongAtMostEnds(px, py, a, b, px - a.x, py - a.y, b.x - a.x, b.y - a.y);
  }

  /** The clamped point is the nearest point of the whole segment: no point
      a + t·(b − a) with t in [0, 1] is closer to p. */
  lemma SegDistSqIsLeast(px: real, py: real, a: Point, b: Point)
    requires a == b || SqLen(b.x - a.x, b.y - a.y) > 0.0
    ensures forall t :: 0.0 <= t <= 1.0 ==> SegDistSq(px, py, a, b) <= DistSq(px, py, Lerp(a, b, t))
  {
    forall t | 0.0 <= t <= 1.0
      ensures SegDistSq(px, py, a, b) <= DistSq(px, py, Lerp(a, b, t))
    {
      AlongIsLeast(px, py, a, b, px - a.x, py - a.y, b.x - a.x, b.y - a.y, t);
    }
  }

  lemma AlongIsLeast(px: real, py: real, a: Point, b: Point, ux: real, uy: real, dx: real, dy: real, t: real)
    requires ux == px - a.x && uy == py - a.y && dx == b.x - a.x && dy == b.y - a.y
    requires SqLen(dx, dy) > 0.0 || (dx == 0.0 && dy == 0.0)
    requires 0.0 <= t <= 1.0
    ensures DistSq(px, py, NearestAlong(a, b, ux, uy, dx, dy)) <= DistSq(px, py, Lerp(a, b, t))
  {
    var s := SegParam(ux * dx + uy * dy, SqLen(dx, dy));
    assert NearestAlong(a, b, ux, uy, dx, dy) == Lerp(a, b, s);
    LerpAlong(px, py, a, b, ux, uy, dx, dy, s);
    LerpAlong(px, py, a, b, ux, uy, dx, dy, t);
    assert OffsetDistSq(ux, uy, dx, dy) == SqLen(ux - dx * s, uy - dy * s);
    OffsetIsQuad(ux, uy, dx, dy);
    Expand(ux, uy, dx, dy, t, ux - dx * t, uy - dy * t);
    if dx == 0.0 && dy == 0.0 {
      assert ux * dx == 0.0 && uy * dy == 0.0;
    }
    ClampedIsLeastAt(SqLen(ux, uy), ux * dx + uy * dy, SqLen(dx, dy), t);
  }

  /** The quadratic on [0, 1] takes its least value at the clamped parameter. */
  lemma ClampedIsLeastAt(u2: real, k: real, len2: real, t: real)
    requires len2 >= 0.0
    requires len2 > 0.0 || k == 0.0
    requires 0.0 <= t <= 1.0
    ensures Quad(u2, k, len2, SegParam(k, len2)) <= Quad(u2, k, len2, t)
  {
    var s := SegParam(k, len2);
    if len2 > 0.0 && 0.0 < k < len2 {
      assert s == k / len2;
      assert k == s * len2;
      QuadAboveVertex(u2, k, len2, s, t);
    } else if len2 > 0.0 && k >= len2 {
      assert s == 1.0;
      QuadAboveRight(u2, k, len2, t);
    } else if len2 > 0.0 {
      assert s == 0.0;
      QuadAboveLeft(u2, k, len2, t);
    } else {
      assert s == 0.0 && k == 0.0 && len2 == 0.0;
      assert Quad(u2, k, len2, t) == u2 - 2.0 * t * 0.0 + t * t * 0.0;
    }
  }

  /** With k = s·len2 the quadratic exceeds its value at s by len2·(t − s)². */
  lemma QuadAboveVertex(u2: real, k: real, len2: real, s: real, t: real)
    requires len2 >= 0.0 && k == s * len2
    ensures Quad(u2, k, len2, s) <= Quad(u2, k, len2, t)
  {
    assert Quad(u2, k, len2, t) - Quad(u2, k, len2, s) == len2 * (t - s) * (t - s);
    NonNegativeSquareTimes(len2, t - s);
  }

  /** With k ≤ 0 the quadratic is increasing on [0, 1]. */
  lemma QuadAboveLeft(u2: real, k: real, len2: real, t: real)
    requires len2 >= 0.0 && k <= 0.0 && t >= 0.0
    ensures Quad(u2, k, len2, 0.0) <= Quad(u2, k, len2, t)
  {
    NonNegativeProduct(t, len2);
    NonNegativeProduct(t, t * len2 - 2.0 * k);
    assert Quad(u2, k, len2, t) - Quad(u2, k, len2, 0.0) == t * (t * len2 - 2.0 * k);
  }

  /** With k ≥ len2 the quadratic is decreasing on [0, 1]. */
  lemma QuadAboveRight(u2: real, k: real, len2: real, t: real)
    requires len2 >= 0.0 && k >= len2 && 0.0 <= t <= 1.0
    ensures Quad(u2, k, len2, 1.0) <= Quad(u2, k, len2, t)
  {
    NonNegativeProduct(len2, 1.0 - t);
    assert len2 * (1.0 + t) == 2.0 * len2 - len2 * (1.0 - t);
    NonNegativeProduct(1.0 - t, 2.0 * k - len2 * (1.0 + t));
    assert Quad(u2, k, len2, t) - Quad(u2, k, len2, 1.0) == (1.0 - t) * (2.0 * k - len2 * (1.0 + t));
  }

  lemma NonNegativeProduct(u: real, v: real)
    requires u >= 0.0 && v >= 0.0
    ensures u * v >= 0.0
  {
  }

  /** The endpoint bound for the nearest point computed from the offset
      u = p − a and the direction d = b − a. */
  lemma AlongAtMostEnds(px: real, py: real, a: Point, b: Point, ux: real, uy: real, dx: real, dy: real)
    requires ux == px - a.x && uy == py - a.y && dx == b.x - a.x && dy == b.y - a.y
    requires SqLen(dx, dy) > 0.0 || (dx == 0.0 && dy == 0.0)
    ensures DistSq(px, py, NearestAlong(a, b, ux, uy, dx, dy)) <= DistSq(px, py, a)
    ensures DistSq(px, py, NearestAlong(a, b, ux, uy, dx, dy)) <= DistSq(px, py, b)
  {
    var t := SegParam(ux * dx + uy * dy, SqLen(dx, dy));
    assert NearestAlong(a, b, ux, uy, dx, dy) == Lerp(a, b, t);
    LerpAlong(px, py, a, b, ux, uy, dx, dy, t);
    assert OffsetDistSq(ux, uy, dx, dy) == SqLen(ux - dx * t, uy - dy * t);
    OffsetAtMostEnds(ux, uy, dx, dy);
    SqLenCongruent(px - a.x, py - a.y, ux, uy);
    SqLenCongruent(px - b.x, py - b.y, ux - dx, uy - dy);
  }

  /** SegDistSq written over the offset u = p − a of the query point and the
      direction d = b − a of the segment. */
  function OffsetDistSq(ux: real, uy: real, dx: real, dy: real): real {
    var t := SegParam(ux * dx + uy * dy, SqLen(dx, dy));
    SqLen(ux - dx * t, uy - dy * t)
  }

  lemma LerpAlong(px: real, py: real, a: Point, b: Point, ux: real, uy: real, dx: real, dy: real, t: real)
    requires ux == px - a.x && uy == py - a.y && dx == b.x - a.x && dy == b.y - a.y
    ensures DistSq(px, py, Lerp(a, b, t)) == SqLen(ux - dx * t, uy - dy * t)
  {
    var n := Lerp(a, b, t);
    assert n.x == a.x + dx * t && n.y == a.y + dy * t;
    SqLenCongruent(px - n.x, py - n.y, ux - dx * t, uy - dy * t);
  }

  lemma SqLenCongruent(u: real, v: real, u': real, v': real)
    requires u == u' && v == v'
    ensures SqLen(u, v) == SqLen(u', v')
  {
  }

  /** The endpoint bound over offsets: t = 0 gives a, t = 1 gives b. */
  lemma OffsetAtMostEnds(ux: real, uy: real, dx: real, dy: real)
    requires SqLen(dx, dy) > 0.0 || (dx == 0.0 && dy == 0.0)
    ensures OffsetDistSq(ux, uy, dx, dy) <= SqLen(ux, uy)
    ensures OffsetDistSq(ux, uy, dx, dy) <= SqLen(ux - dx, uy - dy)
  {
    OffsetIsQuad(ux, uy, dx, dy);
    EndsAreQuad(ux, uy, dx, dy);
    if dx == 0.0 && dy == 0.0 {
      assert ux * dx == 0.0 && uy * dy == 0.0;
    }
    ClampedIsLeast(SqLen(ux, uy), ux * dx + uy * dy, SqLen(dx, dy));
  }

  lemma OffsetIsQuad(ux: real, uy: real, dx: real, dy: real)
    ensures OffsetDistSq(ux, uy, dx, dy)
         == Quad(SqLen(ux, uy), ux * dx + uy * dy, SqLen(dx, dy), SegParam(ux * dx + uy * dy, SqLen(dx, dy)))
  {
    var t := SegParam(ux * dx + uy * dy, SqLen(dx, dy));
    Expand(ux, uy, dx, dy, t, ux - dx * t, uy - dy * t);
  }

  lemma EndsAreQuad(ux: real, uy: real, dx: real, dy: real)
    ensures SqLen(ux, uy) == Quad(SqLen(ux, uy), ux * dx + uy * dy, SqLen(dx, dy), 0.0)
    ensures SqLen(ux - dx, uy - dy) == Quad(SqLen(ux, uy), ux * dx + uy * dy, SqLen(dx, dy), 1.0)
  {
    Expand(ux, uy, dx, dy, 0.0, ux, uy);
    Expand(ux, uy, dx, dy, 1.0, ux - dx, uy - dy);
  }

  /** The squared distance from (ux, uy) to t·(dx, dy) as a quadratic in t. */
  lemma Expand(ux: real, uy: real, dx: real, dy: real, t: real, ex: real, ey: real)
    requires ex == ux - dx * t && ey == uy - dy * t
    ensures SqLen(ex, ey) == Quad(SqLen(ux, uy), ux * dx + uy * dy, SqLen(dx, dy), t)
  {
  }

  /** The quadratic is no larger at the clamped parameter than at t = 0 or
      at t = 1. */
  lemma ClampedIsLeast(u2: real, k: real, len2: real)
    requires len2 >= 0.0
    requires len2 > 0.0 || k == 0.0
    ensures Quad(u2, k, len2, SegParam(k, len2)) <= Quad(u2, k, len2, 0.0)
    ensures Quad(u2, k, len2, SegParam(k, len2)) <= Quad(u2, k, len2, 1.0)
  {
    var t := SegParam(k, len2);
    if len2 > 0.0 && 0.0 < k < len2 {
      assert t == k / len2;
      assert t * len2 == k;
      assert t * t * len2 == t * k;
      assert 0.0 < t * k by {
        PositiveProduct(t, k);
      }
      assert len2 - 2.0 * k + t * k == len2 * (1.0 - t) * (1.0 - t) by {
        assert len2 * (1.0 - t) * (1.0 - t) == len2 - 2.0 * (t * len2) + t * (t * len2);
      }
      NonNegativeSquareTimes(len2, 1.0 - t);
    } else if len2 > 0.0 && k >= len2 {
      assert t == 1.0;
    } else {
      assert t == 0.0;
    }
  }

  lemma PositiveProduct(u: real, v: real)
    requires u > 0.0 && v > 0.0
    ensures u * v > 0.0
  {
  }

  lemma NonNegativeSquareTimes(c: real, w: real)
    requires c >= 0.0
    ensures c * w * w >= 0.0
  {
    assert w * w >= 0.0;
  }

  /** getSegDistSq, step by step as the source computes it. The branch tests
      the squared length len2 > 0 where the source tests dx !== 0 || dy !== 0;
      NonDegenerateIff shows the two tests agree. */
  method GetSegDistSq(px: real, py: real, a: Point, b: Point) returns (r: real)
    ensures r == SegDistSq(px, py, a, b)
    ensures exists t :: 0.0 <= t <= 1.0 && r == DistSq(px, py, Lerp(a, b, t))
    ensures a == b || SqLen(b.x - a.x, b.y - a.y) > 0.0 ==>
              forall t :: 0.0 <= t <= 1.0 ==> r <= DistSq(px, py, Lerp(a, b, t))
  {
    SegDistSqProperties(px, py, a, b);
    if a == b || SqLen(b.x - a.x, b.y - a.y) > 0.0 {
      SegDistSqIsLeast(px, py, a, b);
    }
    var x, y := NearestPoint(px, py, a, b);
    var dx := px - x;
    var dy := py - y;
    r := dx * dx + dy * dy;
    assert r == SqLen(dx, dy);
  }

  method NearestPoint(px: real, py: real, a: Point, b: Point) returns (x: real, y: real)
    ensures Point(x, y) == Nearest(px, py, a, b)
  {
    x := a.x;
    y := a.y;
    var dx := b.x - x;
    var dy := b.y - y;
    var len2 := dx * dx + dy * dy;
    ghost var c := SegParam((px - x) * dx + (py - y) * dy, len2);
    assert NearestAlong(a, b, px - x, py - y, dx, dy) == Lerp(a, b, c);
    if len2 > 0.0 {
      var t := ((px - x) * dx + (py - y) * dy) / len2;
      assert c == Clamp01(t);
      if t > 1.0 {
        x := b.x;
        y := b.y;
        assert c == 1.0;
      } else if t > 0.0 {
        x := x + dx * t;
        y := y + dy * t;
        assert c == t;
      } else {
        assert c == 0.0;
      }
    } else {
      assert c == 0.0;
    }
    assert Point(x, y) == Lerp(a, b, c);
  }

  // ---------------------------------------------------------------------------
  // Edges of a ring and of a polygon
  // ---------------------------------------------------------------------------

  /** The first n edges visited by `for (i = 0, j = len - 1; i < len; j = i++)`:
      edge i joins ring[i] to ring[i - 1], and edge 0 joins ring[0] to the last
      vertex. */
  function RingEdges(ring: Ring, n: nat): (es: seq<Edge>)
    requires n <= |ring|
    ensures |es| == n
    ensures n > 0 ==> es[0] == Edge(ring[0], ring[|ring| - 1])
    ensures forall i :: 0 < i < n ==> es[i] == Edge(ring[i], ring[i - 1])
  {
    if n == 0 then []
    else RingEdges(ring, n - 1) + [Edge(ring[n - 1], ring[if n == 1 then |ring| - 1 else n - 2])]
  }

  /** All edges of all rings, ring by ring, in the order the source walks them. */
  function PolygonEdges(P: Polygon): seq<Edge> {
    if |P| == 0 then []
    else PolygonEdges(P[..|P| - 1]) + RingEdges(P[|P| - 1], |P[|P| - 1]|)
  }

  ghost predicate HasVertex(P: Polygon) {
    exists k :: 0 <= k < |P| && |P[k]| > 0
  }

  lemma {:induction false} HasVertexHasEdge(P: Polygon)
    requires HasVertex(P)
    ensures PolygonEdges(P) != []
  {
    var k :| 0 <= k < |P| && |P[k]| > 0;
    if k == |P| - 1 {
    } else {
      assert P[..|P| - 1][k] == P[k];
      HasVertexHasEdge(P[..|P| - 1]);
    }
  }

  // ---------------------------------------------------------------------------
  // Even-odd crossing test and the minimum segment distance
  // ---------------------------------------------------------------------------

  /** The toggle condition: edge (a, b) straddles the horizontal line through
      the point and meets it to the right of the point. */
  function Crosses(x: real, y: real, e: Edge): bool {
    (e.a.y > y) != (e.b.y > y)
    && x < (e.b.x - e.a.x) * (y - e.a.y) / (e.b.y - e.a.y) + e.a.x
  }

  /** A horizontal edge never toggles the flag (so the division in Crosses is
      never by zero), and an edge that does straddles the ray: one endpoint
      strictly above it and the other on or below it. */
  lemma CrossesProperties(x: real, y: real, e: Edge)
    ensures e.a.y == e.b.y ==> !Crosses(x, y, e)
    ensures Crosses(x, y, e) ==> (e.a.y <= y < e.b.y) || (e.b.y <= y < e.a.y)
  {
  }

  /** The inside flag after walking the edges: toggled by every edge that
      crosses the ray to the right of the point, starting from false. */
  function Parity(x: real, y: real, es: seq<Edge>): bool {
    if es == [] then false
    else Parity(x, y, es[..|es| - 1]) != Crosses(x, y, es[|es| - 1])
  }

  /** How many of the edges cross the ray. */
  function CrossCount(x: real, y: real, es: seq<Edge>): nat {
    if es == [] then 0
    else CrossCount(x, y, es[..|es| - 1]) + (if Crosses(x, y, es[|es| - 1]) then 1 else 0)
  }

  predicate Odd(n: nat) {
    n % 2 == 1
  }

  /** The flag is set exactly when an odd number of edges cross the ray. */
  lemma {:induction false} ParityIsOddCount(x: real, y: real, es: seq<Edge>)
    ensures Parity(x, y, es) == Odd(CrossCount(x, y, es))
    decreases |es|
  {
    if es != [] {
      ParityIsOddCount(x, y, es[..|es| - 1]);
    }
  }

  lemma {:induction false} CrossCountAppend(x: real, y: real, es: seq<Edge>, fs: seq<Edge>)
    ensures CrossCount(x, y, es + fs) == CrossCount(x, y, es) + CrossCount(x, y, fs)
    decreases |fs|
  {
    if fs == [] {
      assert es + fs == es;
    } else {
      var fs' := fs[..|fs| - 1];
      assert (es + fs)[..|es + fs| - 1] == es + fs';
      CrossCountAppend(x, y, es, fs');
    }
  }

  /** The least segment distance over a non-empty list of edges. */
  function MinSegDistSq(x: real, y: real, es: seq<Edge>): real
    requires es != []
  {
    var e := es[|es| - 1];
    if |es| == 1 then SegDistSq(x, y, e.a, e.b)
    else Min(MinSegDistSq(x, y, es[..|es| - 1]), SegDistSq(x, y, e.a, e.b))
  }

  /** MinSegDistSq is at most the distance to every edge and equal to the
      distance to one of them. */
  lemma {:induction false} MinSegDistSqIsMinimum(x: real, y: real, es: seq<Edge>)
    requires es != []
    ensures forall i :: 0 <= i < |es| ==> MinSegDistSq(x, y, es) <= SegDistSq(x, y, es[i].a, es[i].b)
    ensures exists i :: 0 <= i < |es| && MinSegDistSq(x, y, es) == SegDistSq(x, y, es[i].a, es[i].b)
    decreases |es|
  {
    var e := es[|es| - 1];
    if |es| > 1 {
      var es' := es[..|es| - 1];
      MinSegDistSqIsMinimum(x, y, es');
      assert forall i :: 0 <= i < |es'| ==> es'[i] == es[i];
      var i' :| 0 <= i' < |es'| && MinSegDistSq(x, y, es') == SegDistSq(x, y, es'[i'].a, es'[i'].b);
      if MinSegDistSq(x, y, es) == SegDistSq(x, y, e.a, e.b) {
        assert es[|es| - 1] == e;
      } else {
        assert es[i'] == es'[i'];
      }
    } else {
      assert es[0] == e;
    }
  }

  /** One more edge: the flag toggles when it crosses, and the minimum takes
      its distance into account. */
  lemma VisitEdge(x: real, y: real, es: seq<Edge>, e: Edge)
    ensures Parity(x, y, es + [e]) == (Parity(x, y, es) != Crosses(x, y, e))
    ensures es == [] ==> MinSegDistSq(x, y, es + [e]) == SegDistSq(x, y, e.a, e.b)
    ensures es != [] ==> MinSegDistSq(x, y, es + [e]) == Min(MinSegDistSq(x, y, es), SegDistSq(x, y, e.a, e.b))
  {
    assert (es + [e])[..|es|] == es;
  }

  /** True when the even-odd rule, applied to all rings together, puts the
      point inside the polygon. */
  predicate Inside(x: real, y: real, P: Polygon) {
    Parity(x, y, PolygonEdges(P))
  }

  /** The value pointToPolygonDist returns: plus or minus the root of the
      least squared distance to any edge of any ring. */
  function SignedDist(x: real, y: real, P: Polygon, sqrt: real -> real): real
    requires PolygonEdges(P) != []
  {
    (if Inside(x, y, P) then 1.0 else -1.0) * sqrt(MinSegDistSq(x, y, PolygonEdges(P)))
  }

  lemma NextRingEdge(done: seq<Edge>, ring: Ring, i: nat)
    requires i < |ring|
    ensures done + RingEdges(ring, i + 1)
         == (done + RingEdges(ring, i)) + [Edge(ring[i], ring[if i == 0 then |ring| - 1 else i - 1])]
  {
    var e := Edge(ring[i], ring[if i == 0 then |ring| - 1 else i - 1]);
    assert RingEdges(ring, i + 1) == RingEdges(ring, i) + [e];
    assert done + (RingEdges(ring, i) + [e]) == (done + RingEdges(ring, i)) + [e];
  }

  lemma NextRing(P: Polygon, k: nat)
    requires k < |P|
    ensures PolygonEdges(P[..k + 1]) == PolygonEdges(P[..k]) + RingEdges(P[k], |P[k]|)
  {
    assert P[..k + 1][..k] == P[..k];
  }

  /** pointToPolygonDist. The source seeds minDistSq with Infinity; here the
      flag `seen` says whether an edge has been visited yet, which is the same
      thing since Math.min(Infinity, s) is s. */
  method PointToPolygonDist(x: real, y: real, P: Polygon, sqrt: real -> real) returns (d: real)
    requires HasVertex(P)
    ensures PolygonEdges(P) != []
    ensures d == SignedDist(x, y, P, sqrt)
  {
    var inside := false;
    var minDistSq := 0.0;
    var seen := false;
    var k := 0;
    while k < |P|
      invariant 0 <= k <= |P|
      invariant inside == Parity(x, y, PolygonEdges(P[..k]))
      invariant seen == (PolygonEdges(P[..k]) != [])
      invariant seen ==> minDistSq == MinSegDistSq(x, y, PolygonEdges(P[..k]))
    {
      NextRing(P, k);
      inside, minDistSq, seen := WalkRing(x, y, P[k], PolygonEdges(P[..k]), inside, minDistSq, seen);
      k := k + 1;
    }
    assert P[..|P|] == P;
    HasVertexHasEdge(P);
    d := (if inside then 1.0 else -1.0) * sqrt(minDistSq);
  }

  /** The inner loop of pointToPolygonDist over the edges (ring[i], ring[j])
      of one ring, continuing from the state reached after the edges `done`. */
  method WalkRing(x: real, y: real, ring: Ring, ghost done: seq<Edge>,
                  inside0: bool, minDistSq0: real, seen0: bool)
    returns (inside: bool, minDistSq: real, seen: bool)
    requires inside0 == Parity(x, y, done)
    requires seen0 == (done != [])
    requires seen0 ==> minDistSq0 == MinSegDistSq(x, y, done)
    ensures inside == Parity(x, y, done + RingEdges(ring, |ring|))
    ensures seen == (done + RingEdges(ring, |ring|) != [])
    ensures seen ==> minDistSq == MinSegDistSq(x, y, done + RingEdges(ring, |ring|))
  {
    inside, minDistSq, seen := inside0, minDistSq0, seen0;
    ghost var visited := done;
    var len := |ring|;
    var i := 0;
    var j := len - 1;
    while i < len
      invariant 0 <= i <= len
      invariant j == if i == 0 then len - 1 else i - 1
      invariant visited == done + RingEdges(ring, i)
      invariant inside == Parity(x, y, visited)
      invariant seen == (visited != [])
      invariant seen ==> minDistSq == MinSegDistSq(x, y, visited)
    {
      var a := ring[i];
      var b := ring[j];
      VisitEdge(x, y, visited, Edge(a, b));
      NextRingEdge(done, ring, i);
      if Crosses(x, y, Edge(a, b)) {
        inside := !inside;
      }
      var s := GetSegDistSq(x, y, a, b);
      minDistSq := if seen then Min(minDistSq, s) else s;
      seen := true;
      visited := visited + [Edge(a, b)];
      j := i;
      i := i + 1;
    }
  }

  /** The sign and magnitude of the signed distance: nonnegative on the
      inside, nonpositive on the outside, and its magnitude is the root of the
      distance to the nearest edge, so at most the root of the distance to any
      edge. */
  lemma SignedDistProperties(x: real, y: real, P: Polygon, sqrt: real -> real)
    requires SqrtLike(sqrt)
    requires PolygonEdges(P) != []
    ensures Inside(x, y, P) ==> SignedDist(x, y, P, sqrt) >= 0.0
    ensures !Inside(x, y, P) ==> SignedDist(x, y, P, sqrt) <= 0.0
    ensures forall e :: e in PolygonEdges(P) ==>
              -sqrt(SegDistSq(x, y, e.a, e.b)) <= SignedDist(x, y, P, sqrt) <= sqrt(SegDistSq(x, y, e.a, e.b))
  {
    var es := PolygonEdges(P);
    var m := MinSegDistSq(x, y, es);
    MinSegDistSqIsMinimum(x, y, es);
    assert 0.0 <= sqrt(m);
    forall e | e in es
      ensures -sqrt(SegDistSq(x, y, e.a, e.b)) <= SignedDist(x, y, P, sqrt) <= sqrt(SegDistSq(x, y, e.a, e.b))
    {
      var i :| 0 <= i < |es| && es[i] == e;
      assert m <= SegDistSq(x, y, e.a, e.b);
      assert sqrt(m) <= sqrt(SegDistSq(x, y, e.a, e.b));
    }
  }
}
