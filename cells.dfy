// The cells of the polylabel search (`src/pl.js`): a square of half-size h
// centred at (x, y), the signed distance d from its centre to the polygon
// and its potential max = d + h·√2, the comparator that orders cells by
// potential, and the centroid cell used as the first guess.
module Cells {
  import opened Geometry

  /** Math.SQRT2, the double nearest to √2. */
  const SQRT2: real := 1.4142135623730951

  lemma Sqrt2Bounds()
    ensures 1.41 < SQRT2 < 1.42
    ensures 1.9999 < SQRT2 * SQRT2 < 2.0001
  {
  }

  /** A Cell object: centre, half-size, distance of the centre to the
      polygon, and the greatest distance any point of the cell can have. */
  datatype Cell = Cell(x: real, y: real, h: real, d: real, max: real)

  /** The `max` field: the centre's distance plus half the cell's diagonal. */
  function Potential(d: real, h: real): (r: real)
    ensures h >= 0.0 ==> r >= d
    ensures h == 0.0 ==> r == d
    ensures h > 0.0 ==> r > d
    ensures h >= 0.0 ==> r <= d + 1.42 * h
  {
    d + h * SQRT2
  }

  /** What every Cell built by the constructor satisfies for polygon P. */
  ghost predicate WellFormed(c: Cell, P: Polygon, sqrt: real -> real) {
    && PolygonEdges(P) != []
    && c.d == SignedDist(c.x, c.y, P, sqrt)
    && c.max == Potential(c.d, c.h)
  }

  /** new Cell(x, y, h, P). */
  method NewCell(x: real, y: real, h: real, P: Polygon, sqrt: real -> real) returns (c: Cell)
    requires HasVertex(P)
    ensures WellFormed(c, P, sqrt)
    ensures c.x == x && c.y == y && c.h == h
  {
    var d := PointToPolygonDist(x, y, P, sqrt);
    c := Cell(x, y, h, d, Potential(d, h));
  }

  /** compareMax: negative when a comes first, that is when a has the
      greater potential, so a min-heap under it pops the greatest max. */
  function CompareMax(a: Cell, b: Cell): (r: real)
    ensures (r < 0.0) == (a.max > b.max)
    ensures (r == 0.0) == (a.max == b.max)
    ensures (r > 0.0) == (a.max < b.max)
  {
    b.max - a.max
  }

  // ---------------------------------------------------------------------------
  // The centroid cell
  // ---------------------------------------------------------------------------

  /** The accumulators A, x and y of getCentroidCell. */
  datatype Moments = Moments(area: real, x: real, y: real)

  /** The cross product f = a.x·b.y − b.x·a.y of one edge. */
  function Cross(a: Point, b: Point): real {
    a.x * b.y - b.x * a.y
  }

  /** The accumulators after one more edge (a, b) with cross product f. */
  function AddEdge(m: Moments, a: Point, b: Point, f: real): Moments {
    Moments(m.area + f * 3.0, m.x + (a.x + b.x) * f, m.y + (a.y + b.y) * f)
  }

  /** The accumulators after the edges es, starting from zero. */
  function RingMoments(es: seq<Edge>): Moments {
    if es == [] then Moments(0.0, 0.0, 0.0)
    else
      var e := es[|es| - 1];
      AddEdge(RingMoments(es[..|es| - 1]), e.a, e.b, Cross(e.a, e.b))
  }

  /** Componentwise sum of two sets of accumulators. */
  function Plus(m: Moments, n: Moments): Moments {
    Moments(m.area + n.area, m.x + n.x, m.y + n.y)
  }

  /** Each edge contributes its own terms: the accumulators over es + fs are
      the sum of those over es and those over fs. */
  lemma {:induction false} MomentsAppend(es: seq<Edge>, fs: seq<Edge>)
    ensures RingMoments(es + fs) == Plus(RingMoments(es), RingMoments(fs))
    decreases |fs|
  {
    if fs == [] {
      assert es + fs == es;
    } else {
      var gs := fs[..|fs| - 1];
      assert (es + fs)[..|es + fs| - 1] == es + gs;
      assert (es + fs)[|es + fs| - 1] == fs[|fs| - 1];
      MomentsAppend(es, gs);
    }
  }

  /** The same ring listed from its second vertex on. */
  function Rotate(ring: Ring): (r: Ring)
    requires |ring| > 0
    ensures |r| == |ring|
  {
    ring[1..] + [ring[0]]
  }

  /** Listing the ring from its second vertex turns the edge walk
      by one edge. */
  lemma RotatedEdges(ring: Ring)
    requires |ring| > 0
    ensures var es := RingEdges(ring, |ring|);
            RingEdges(Rotate(ring), |ring|) == es[1..] + [es[0]]
  {
    var es := RingEdges(ring, |ring|);
    var rs := RingEdges(Rotate(ring), |ring|);
    var ts := es[1..] + [es[0]];
    forall i | 0 <= i < |ring|
      ensures rs[i] == ts[i]
    {
      RotatedEdge(ring, i);
    }
    assert |rs| == |ts|;
  }

  lemma RotatedEdge(ring: Ring, i: nat)
    requires i < |ring|
    ensures var es := RingEdges(ring, |ring|);
            RingEdges(Rotate(ring), |ring|)[i] == (es[1..] + [es[0]])[i]
  {
    var n := |ring|;
    var rot := Rotate(ring);
    var es := RingEdges(ring, n);
    var rs := RingEdges(rot, n);
    if n == 1 {
      assert rot == ring;
    } else if i == 0 {
      assert rot[0] == ring[1] && rot[n - 1] == ring[0];
      assert rs[0] == Edge(ring[1], ring[0]) == es[1];
    } else if i < n - 1 {
      assert rot[i] == ring[i + 1] && rot[i - 1] == ring[i];
      assert rs[i] == es[i + 1];
    } else {
      assert rot[i] == ring[0] && rot[i - 1] == ring[n - 1];
      assert rs[i] == es[0];
    }
  }

  /** The centroid does not depend on the vertex the ring is listed from:
      listing it from its second vertex leaves all three accumulators as
      they were. */
  lemma RotationKeepsMoments(ring: Ring)
    requires |ring| > 0
    ensures RingMoments(RingEdges(Rotate(ring), |ring|)) == RingMoments(RingEdges(ring, |ring|))
  {
    var es := RingEdges(ring, |ring|);
    RotatedEdges(ring);
    MomentsAppend(es[1..], [es[0]]);
    MomentsAppend([es[0]], es[1..]);
    assert [es[0]] + es[1..] == es;
  }

  /** The moments of the outer ring, walked as pointToPolygonDist walks it. */
  function OuterMoments(P: Polygon): Moments
    requires |P| > 0
  {
    RingMoments(RingEdges(P[0], |P[0]|))
  }

  /** The area accumulator is three times the sum of the edges' cross
      products; with edges walked from vertex i to vertex i-1 that is six
      times the signed area, counted positive for a clockwise ring. */
  function CrossSum(es: seq<Edge>): real {
    if es == [] then 0.0 else CrossSum(es[..|es| - 1]) + Cross(es[|es| - 1].a, es[|es| - 1].b)
  }

  lemma {:induction false} AreaIsCrossSum(es: seq<Edge>)
    ensures RingMoments(es).area == 3.0 * CrossSum(es)
    decreases |es|
  {
    if es != [] {
      AreaIsCrossSum(es[..|es| - 1]);
    }
  }

  /** A ring whose vertices all lie on one horizontal line, or all on one
      vertical line, encloses no area: the accumulator A sums to zero. So a
      non-zero A implies a bounding box of positive width and height. */
  lemma {:induction false} FlatRingHasNoArea(ring: Ring)
    requires |ring| > 0
    requires (forall i :: 0 <= i < |ring| ==> ring[i].y == ring[0].y)
          || (forall i :: 0 <= i < |ring| ==> ring[i].x == ring[0].x)
    ensures RingMoments(RingEdges(ring, |ring|)).area == 0.0
  {
    AreaIsCrossSum(RingEdges(ring, |ring|));
    if forall i :: 0 <= i < |ring| ==> ring[i].y == ring[0].y {
      HorizontalCrossSum(ring, |ring|);
    } else {
      VerticalCrossSum(ring, |ring|);
    }
  }

  lemma CrossOfFlat(a: Point, b: Point)
    ensures a.y == b.y ==> Cross(a, b) == a.y * (a.x - b.x)
    ensures a.x == b.x ==> Cross(a, b) == a.x * (b.y - a.y)
  {
  }

  lemma Telescope(k: real, u: real, v: real, w: real)
    ensures k * (u - w) + k * (v - u) == k * (v - w)
  {
  }

  /** Over the first n edges of a horizontal ring the cross products
      telescope to y·(x of vertex n-1 − x of the last vertex). */
  lemma {:induction false} HorizontalCrossSum(ring: Ring, n: nat)
    requires 0 < n <= |ring|
    requires forall i :: 0 <= i < |ring| ==> ring[i].y == ring[0].y
    ensures CrossSum(RingEdges(ring, n)) == ring[0].y * (ring[n - 1].x - ring[|ring| - 1].x)
    decreases n
  {
    var es := RingEdges(ring, n);
    var last := |ring| - 1;
    var prev := if n == 1 then last else n - 2;
    CrossOfFlat(ring[n - 1], ring[prev]);
    assert es[..n - 1] == RingEdges(ring, n - 1);
    if n > 1 {
      HorizontalCrossSum(ring, n - 1);
      Telescope(ring[0].y, ring[n - 2].x, ring[n - 1].x, ring[last].x);
    }
  }

  /** The same for a vertical ring: x·(y of the last vertex − y of vertex n-1). */
  lemma {:induction false} VerticalCrossSum(ring: Ring, n: nat)
    requires 0 < n <= |ring|
    requires forall i :: 0 <= i < |ring| ==> ring[i].x == ring[0].x
    ensures CrossSum(RingEdges(ring, n)) == ring[0].x * (ring[|ring| - 1].y - ring[n - 1].y)
    decreases n
  {
    var es := RingEdges(ring, n);
    var last := |ring| - 1;
    var prev := if n == 1 then last else n - 2;
    CrossOfFlat(ring[n - 1], ring[prev]);
    assert es[..n - 1] == RingEdges(ring, n - 1);
    if n > 1 {
      VerticalCrossSum(ring, n - 1);
      Telescope(ring[0].x, ring[n - 2].y, ring[n - 1].y, ring[last].y);
      assert ring[0].x * (ring[last].y - ring[n - 2].y) + ring[0].x * (ring[n - 2].y - ring[n - 1].y)
          == ring[0].x * (ring[last].y - ring[n - 1].y);
    }
  }

  /** The body of getCentroidCell's loop for the edge (a, b). */
  method AccumulateEdge(area0: real, x0: real, y0: real, a: Point, b: Point)
    returns (area: real, x: real, y: real)
    ensures Moments(area, x, y) == AddEdge(Moments(area0, x0, y0), a, b, Cross(a, b))
  {
    var f := a.x * b.y - b.x * a.y;
    x := x0 + (a.x + b.x) * f;
    y := y0 + (a.y + b.y) * f;
    area := area0 + f * 3.0;
  }

  /** One more edge of the ring adds its terms to the moments. */
  lemma NextMoments(ring: Ring, i: nat)
    requires i < |ring|
    ensures var e := Edge(ring[i], ring[if i == 0 then |ring| - 1 else i - 1]);
            RingMoments(RingEdges(ring, i + 1)) == AddEdge(RingMoments(RingEdges(ring, i)), e.a, e.b, Cross(e.a, e.b))
  {
    assert RingEdges(ring, i + 1)[..i] == RingEdges(ring, i);
  }

  /** getCentroidCell: the cell of half-size 0 at the centroid of the outer
      ring. The source divides by A without a guard, so A must not be 0. */
  method GetCentroidCell(P: Polygon, sqrt: real -> real) returns (c: Cell)
    requires |P| > 0
    requires OuterMoments(P).area != 0.0
    ensures WellFormed(c, P, sqrt)
    ensures c.x == OuterMoments(P).x / OuterMoments(P).area
    ensures c.y == OuterMoments(P).y / OuterMoments(P).area
    ensures c.h == 0.0 && c.max == c.d
  {
    var points := P[0];
    assert HasVertex(P) by {
      assert |points| > 0;
    }
    var area, x, y := 0.0, 0.0, 0.0;
    var l := |points|;
    var i := 0;
    var j := l - 1;
    while i < l
      invariant 0 <= i <= l
      invariant j == if i == 0 then l - 1 else i - 1
      invariant Moments(area, x, y) == RingMoments(RingEdges(points, i))
    {
      var a := points[i];
      var b := points[j];
      area, x, y := AccumulateEdge(area, x, y, a, b);
      NextMoments(points, i);
      j := i;
      i := i + 1;
    }
    c := NewCell(x / area, y / area, 0.0, P, sqrt);
  }
}
