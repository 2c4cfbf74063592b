// The branch-and-bound driver of `src/pl.js` (polylabel): the bounding box of
// the outer ring, the initial grid of cells, the centroid as the first best
// guess, and the loop that pops the cell of greatest potential, keeps the
// best centre seen so far, drops cells that cannot beat it by more than the
// precision and splits the others into four.
module Polylabel {
  import opened Geometry
  import opened Cells
  import opened Queue

  // ---------------------------------------------------------------------------
  // Precision and bounding box
  // ---------------------------------------------------------------------------

  /** `precision || 1.0`: a missing or zero precision means 1.0. */
  function EffectivePrecision(precision: Option<real>): (r: real)
    ensures precision.None? ==> r == 1.0
    ensures precision == Some(0.0) ==> r == 1.0
    ensures precision.Some? && precision.value != 0.0 ==> r == precision.value
    ensures (precision.None? || precision.value >= 0.0) ==> r > 0.0
  {
    if precision.None? || precision.value == 0.0 then 1.0 else precision.value
  }

  /** The bounding box of the outer ring. */
  datatype Box = Box(minX: real, minY: real, maxX: real, maxY: real)

  /** b is the bounding box of ring: every vertex lies in it and each of its
      four sides passes through a vertex. */
  ghost predicate IsBoundingBox(ring: Ring, b: Box) {
    && (forall k :: 0 <= k < |ring| ==> b.minX <= ring[k].x <= b.maxX && b.minY <= ring[k].y <= b.maxY)
    && (exists k :: 0 <= k < |ring| && ring[k].x == b.minX)
    && (exists k :: 0 <= k < |ring| && ring[k].y == b.minY)
    && (exists k :: 0 <= k < |ring| && ring[k].x == b.maxX)
    && (exists k :: 0 <= k < |ring| && ring[k].y == b.maxY)
  }

  /** The bounding-box loop over the outer ring: each bound is the extreme
      coordinate of some vertex. The first vertex initialises all four. */
  method BoundingBox(ring: Ring) returns (minX: real, minY: real, maxX: real, maxY: real)
    requires |ring| > 0
    ensures IsBoundingBox(ring, Box(minX, minY, maxX, maxY))
  {
    minX, minY, maxX, maxY := 0.0, 0.0, 0.0, 0.0;
    ghost var kMinX, kMinY, kMaxX, kMaxY := 0, 0, 0, 0;
    var i := 0;
    while i < |ring|
      invariant 0 <= i <= |ring|
      invariant forall k :: 0 <= k < i ==> minX <= ring[k].x <= maxX && minY <= ring[k].y <= maxY
      invariant i > 0 ==> 0 <= kMinX < i && ring[kMinX].x == minX
      invariant i > 0 ==> 0 <= kMinY < i && ring[kMinY].y == minY
      invariant i > 0 ==> 0 <= kMaxX < i && ring[kMaxX].x == maxX
      invariant i > 0 ==> 0 <= kMaxY < i && ring[kMaxY].y == maxY
    {
      var p := ring[i];
      if i == 0 || p.x < minX {
        minX, kMinX := p.x, i;
      }
      if i == 0 || p.y < minY {
        minY, kMinY := p.y, i;
      }
      if i == 0 || p.x > maxX {
        maxX, kMaxX := p.x, i;
      }
      if i == 0 || p.y > maxY {
        maxY, kMaxY := p.y, i;
      }
      i := i + 1;
    }
  }

  /** A bounding box of zero height or width has a flat outer ring, whose
      centroid accumulator A is zero. */
  lemma FlatBoxHasNoArea(ring: Ring, minX: real, minY: real, maxX: real, maxY: real)
    requires |ring| > 0
    requires forall k :: 0 <= k < |ring| ==> minX <= ring[k].x <= maxX && minY <= ring[k].y <= maxY
    requires maxX <= minX || maxY <= minY
    ensures RingMoments(RingEdges(ring, |ring|)).area == 0.0
  {
    if maxY <= minY {
      assert forall k :: 0 <= k < |ring| ==> ring[k].y == ring[0].y;
    } else {
      assert forall k :: 0 <= k < |ring| ==> ring[k].x == ring[0].x;
    }
    FlatRingHasNoArea(ring);
  }

  // ---------------------------------------------------------------------------
  // The initial grid
  // ---------------------------------------------------------------------------

  /** One step of a seeding loop, from v to v + c below top, lowers the
      number of steps left, (top - v) / c rounded down, by one. */
  lemma SeedStep(top: real, v: real, c: real)
    requires c > 0.0 && v < top
    ensures 0 <= ((top - v) / c).Floor
    ensures ((top - (v + c)) / c).Floor == ((top - v) / c).Floor - 1
  {
    var u := top - v;
    var a, b := (u - c) / c, u / c;
    assert c * a == u - c;
    assert c * b == u;
    ZeroProduct(c, a - b + 1.0);
    PositiveQuotient(u, c);
    assert top - (v + c) == u - c;
  }

  lemma ZeroProduct(c: real, z: real)
    requires c != 0.0 && c * z == 0.0
    ensures z == 0.0
  {
  }

  lemma PositiveQuotient(u: real, c: real)
    requires c > 0.0 && u > 0.0
    ensures u / c > 0.0
  {
  }

  /** The j-th corner coordinate of a seeding loop, base + j·c, as the loop
      reaches it: by adding c to base j times. */
  function Corner(base: real, j: nat, c: real): (v: real)
    ensures c > 0.0 ==> v >= base
  {
    if j == 0 then base else Corner(base, j - 1, c) + c
  }

  /** The corners are evenly spaced: the j-th is base + j·c. */
  lemma {:induction false} CornerIsLinear(base: real, j: nat, c: real)
    ensures Corner(base, j, c) == base + (j as real) * c
  {
    if j > 0 {
      CornerIsLinear(base, j - 1, c);
      assert ((j - 1) as real) * c + c == (j as real) * c;
    }
  }

  /** A well-formed cell of half-size h centred at (cx, cy). */
  ghost predicate CellAt(c: Cell, P: Polygon, sqrt: real -> real, cx: real, cy: real, h: real) {
    WellFormed(c, P, sqrt) && c.x == cx && c.y == cy && c.h == h
  }

  /** The cells the inner loop has pushed so far for the corner abscissa x:
      cell j sits h above and to the right of the corner (x, minY + j·cellSize),
      and that corner lies below maxY. */
  ghost predicate ColumnSoFar(col: seq<Cell>, P: Polygon, sqrt: real -> real, x: real,
                              minY: real, maxY: real, cellSize: real, h: real)
  {
    col == []
    || (var j := |col| - 1;
        && ColumnSoFar(col[..j], P, sqrt, x, minY, maxY, cellSize, h)
        && Corner(minY, j, cellSize) < maxY
        && CellAt(col[j], P, sqrt, x + h, Corner(minY, j, cellSize) + h, h))
  }

  /** The cells the inner loop pushes for the corner abscissa x: one for
      every corner minY + j·cellSize below maxY, and no other. */
  ghost predicate Column(col: seq<Cell>, P: Polygon, sqrt: real -> real, x: real,
                         minY: real, maxY: real, cellSize: real, h: real)
  {
    && ColumnSoFar(col, P, sqrt, x, minY, maxY, cellSize, h)
    && maxY <= Corner(minY, |col|, cellSize)
  }

  /** The columns the outer loop has pushed so far: column i belongs to the
      corner abscissa minX + i·cellSize, which lies left of maxX. */
  ghost predicate GridSoFar(cols: seq<seq<Cell>>, P: Polygon, sqrt: real -> real,
                            minX: real, minY: real, maxX: real, maxY: real, cellSize: real, h: real)
  {
    cols == []
    || (var i := |cols| - 1;
        && GridSoFar(cols[..i], P, sqrt, minX, minY, maxX, maxY, cellSize, h)
        && Corner(minX, i, cellSize) < maxX
        && Column(cols[i], P, sqrt, Corner(minX, i, cellSize), minY, maxY, cellSize, h))
  }

  /** The cells both loops push: a column for every corner abscissa
      minX + i·cellSize left of maxX, and no other. */
  ghost predicate Grid(cols: seq<seq<Cell>>, P: Polygon, sqrt: real -> real,
                       minX: real, minY: real, maxX: real, maxY: real, cellSize: real, h: real)
  {
    && GridSoFar(cols, P, sqrt, minX, minY, maxX, maxY, cellSize, h)
    && maxX <= Corner(minX, |cols|, cellSize)
  }

  /** The columns one after the other. */
  ghost function Flatten(cols: seq<seq<Cell>>): seq<Cell> {
    if cols == [] then [] else Flatten(cols[..|cols| - 1]) + cols[|cols| - 1]
  }

  lemma FlattenAppend(cols: seq<seq<Cell>>, col: seq<Cell>)
    ensures (cols + [col])[..|cols|] == cols
    ensures multiset(Flatten(cols + [col])) == multiset(Flatten(cols)) + multiset(col)
  {
    assert (cols + [col])[..|cols|] == cols;
  }

  /** Once every seed has been popped, so has every cell of the grid. */
  lemma GridProbed(grid: seq<seq<Cell>>, seeds: seq<Cell>, probed: seq<Cell>)
    requires multiset(seeds) == multiset(Flatten(grid))
    requires forall c :: c in seeds ==> c in probed
    ensures forall i, j :: 0 <= i < |grid| && 0 <= j < |grid[i]| ==> grid[i][j] in probed
  {
    forall i, j | 0 <= i < |grid| && 0 <= j < |grid[i]|
      ensures grid[i][j] in probed
    {
      InFlatten(grid, i, j);
      assert grid[i][j] in multiset(seeds);
    }
  }

  lemma {:induction false} InFlatten(cols: seq<seq<Cell>>, i: int, j: int)
    requires 0 <= i < |cols| && 0 <= j < |cols[i]|
    ensures cols[i][j] in Flatten(cols)
    decreases |cols|
  {
    if i < |cols| - 1 {
      InFlatten(cols[..|cols| - 1], i, j);
    }
  }


  /** The inner seeding loop: one column of cells at corner abscissa x. */
  method SeedColumn(q: TinyQueue, P: Polygon, sqrt: real -> real, x: real,
                    minY: real, maxY: real, cellSize: real, h: real)
    returns (ghost col: seq<Cell>)
    modifies q
    requires q.Valid() && HasVertex(P) && cellSize > 0.0
    requires forall c :: c in q.data ==> WellFormed(c, P, sqrt)
    ensures q.Valid()
    ensures forall c :: c in q.data ==> WellFormed(c, P, sqrt)
    ensures Column(col, P, sqrt, x, minY, maxY, cellSize, h)
    ensures multiset(q.data) == multiset(old(q.data)) + multiset(col)
  {
    var y := minY;
    col := [];
    while y < maxY
      invariant q.Valid()
      invariant y == Corner(minY, |col|, cellSize)
      invariant forall c :: c in q.data ==> WellFormed(c, P, sqrt)
      invariant ColumnSoFar(col, P, sqrt, x, minY, maxY, cellSize, h)
      invariant multiset(q.data) == multiset(old(q.data)) + multiset(col)
      decreases ((maxY - y) / cellSize).Floor
    {
      var cell := SeedCell(q, P, sqrt, x, y, h);
      SeedStep(maxY, y, cellSize);
      assert (col + [cell])[..|col|] == col;
      col := col + [cell];
      y := y + cellSize;
    }
  }

  /** The body of the inner seeding loop: push the cell of half-size h whose
      lower-left corner is (x, y). */
  method SeedCell(q: TinyQueue, P: Polygon, sqrt: real -> real, x: real, y: real, h: real)
    returns (cell: Cell)
    modifies q
    requires q.Valid() && HasVertex(P)
    requires forall c :: c in q.data ==> WellFormed(c, P, sqrt)
    ensures q.Valid()
    ensures CellAt(cell, P, sqrt, x + h, y + h, h)
    ensures forall c :: c in q.data ==> WellFormed(c, P, sqrt)
    ensures multiset(q.data) == multiset(old(q.data)) + multiset{cell}
  {
    cell := NewCell(x + h, y + h, h, P, sqrt);
    q.Push(cell);
  }

  /** The outer seeding loop: one column per corner abscissa minX,
      minX + cellSize, … below maxX. */
  method SeedGrid(q: TinyQueue, P: Polygon, sqrt: real -> real,
                  minX: real, minY: real, maxX: real, maxY: real, cellSize: real, h: real)
    returns (ghost cols: seq<seq<Cell>>)
    modifies q
    requires q.Valid() && HasVertex(P) && cellSize > 0.0
    requires forall c :: c in q.data ==> WellFormed(c, P, sqrt)
    ensures q.Valid()
    ensures forall c :: c in q.data ==> WellFormed(c, P, sqrt)
    ensures Grid(cols, P, sqrt, minX, minY, maxX, maxY, cellSize, h)
    ensures multiset(q.data) == multiset(old(q.data)) + multiset(Flatten(cols))
  {
    var x := minX;
    cols := [];
    while x < maxX
      invariant q.Valid()
      invariant x == Corner(minX, |cols|, cellSize)
      invariant forall c :: c in q.data ==> WellFormed(c, P, sqrt)
      invariant GridSoFar(cols, P, sqrt, minX, minY, maxX, maxY, cellSize, h)
      invariant multiset(q.data) == multiset(old(q.data)) + multiset(Flatten(cols))
      decreases ((maxX - x) / cellSize).Floor
    {
      var col := SeedColumn(q, P, sqrt, x, minY, maxY, cellSize, h);
      SeedStep(maxX, x, cellSize);
      FlattenAppend(cols, col);
      assert GridSoFar(cols + [col], P, sqrt, minX, minY, maxX, maxY, cellSize, h);
      assert x + cellSize == Corner(minX, |cols + [col]|, cellSize);
      cols := cols + [col];
      x := x + cellSize;
    }
  }

  // ---------------------------------------------------------------------------
  // Splitting a cell
  // ---------------------------------------------------------------------------

  /** The centres of the four children, in the order they are pushed: the
      cell's centre moved by half its half-size in each diagonal direction. */
  function Quadrants(c: Cell): (qs: seq<Point>)
    ensures |qs| == 4
  {
    var h := c.h / 2.0;
    [Point(c.x - h, c.y - h), Point(c.x + h, c.y - h), Point(c.x - h, c.y + h), Point(c.x + h, c.y + h)]
  }

  /** The closed square of half-size h centred at (cx, cy). */
  predicate InSquare(p: Point, cx: real, cy: real, h: real) {
    cx - h <= p.x <= cx + h && cy - h <= p.y <= cy + h
  }

  /** The four children tile their parent: every point of the parent lies
      in some child, and every point of a child lies in the parent. */
  lemma QuadrantsTile(c: Cell, p: Point)
    requires c.h >= 0.0
    ensures InSquare(p, c.x, c.y, c.h) ==>
              exists k :: 0 <= k < 4 && InSquare(p, Quadrants(c)[k].x, Quadrants(c)[k].y, c.h / 2.0)
    ensures forall k :: 0 <= k < 4 && InSquare(p, Quadrants(c)[k].x, Quadrants(c)[k].y, c.h / 2.0) ==>
              InSquare(p, c.x, c.y, c.h)
  {
    var qs := Quadrants(c);
    if InSquare(p, c.x, c.y, c.h) {
      var k := (if p.x <= c.x then 0 else 1) + (if p.y <= c.y then 0 else 2);
      assert InSquare(p, qs[k].x, qs[k].y, c.h / 2.0);
    }
  }

  /** The weight of a cell for the termination argument: 5 to the power of
      the number of halvings until its half-diagonal h·√2 fits within the
      precision. */
  function Pow5(n: nat): (r: nat)
    ensures r >= 1
  {
    if n == 0 then 1 else 5 * Pow5(n - 1)
  }

  lemma HalvingShrinks(h: real, p: real)
    requires p > 0.0 && h * SQRT2 > p
    ensures 0 < (2.0 * h / p).Floor
    ensures (2.0 * (h / 2.0) / p).Floor < (2.0 * h / p).Floor
  {
    var q := h / p;
    assert q * p == h;
    assert 2.0 * h / p == 2.0 * q by {
      assert p * (2.0 * h / p) == 2.0 * h;
    }
    assert 2.0 * (h / 2.0) / p == q;
    assert q * SQRT2 > 1.0 by {
      assert (q * SQRT2 - 1.0) * p == h * SQRT2 - p;
      PositiveFactor(q * SQRT2 - 1.0, p);
    }
  }

  lemma PositiveFactor(u: real, p: real)
    requires p > 0.0 && u * p > 0.0
    ensures u > 0.0
  {
  }

  /** How many times h can be halved before h·√2 fits within the precision. */
  ghost function Levels(h: real, precision: real): nat
    requires precision > 0.0
    decreases if h * SQRT2 <= precision then 0 else (2.0 * h / precision).Floor
  {
    if h * SQRT2 <= precision then 0
    else
      HalvingShrinks(h, precision);
      1 + Levels(h / 2.0, precision)
  }

  ghost function CellWeight(c: Cell, precision: real): nat
    requires precision > 0.0
  {
    Pow5(Levels(c.h, precision))
  }

  /** The total weight of the queued cells. */
  ghost function Weight(m: multiset<Cell>, precision: real): nat
    requires precision > 0.0
    decreases |m|
  {
    if m == multiset{} then 0
    else
      var c :| c in m;
      CellWeight(c, precision) + Weight(m - multiset{c}, precision)
  }

  /** Any cell of the multiset can be taken out first. */
  lemma {:induction false} WeightRemove(m: multiset<Cell>, c: Cell, precision: real)
    requires precision > 0.0 && c in m
    ensures Weight(m, precision) == CellWeight(c, precision) + Weight(m - multiset{c}, precision)
    decreases |m|
  {
    var d :| d in m && Weight(m, precision) == CellWeight(d, precision) + Weight(m - multiset{d}, precision);
    if d != c {
      WeightRemove(m - multiset{d}, c, precision);
      WeightRemove(m - multiset{c}, d, precision);
      assert m - multiset{d} - multiset{c} == m - multiset{c} - multiset{d};
    }
  }

  lemma WeightAdd(m: multiset<Cell>, c: Cell, precision: real)
    requires precision > 0.0
    ensures Weight(m + multiset{c}, precision) == Weight(m, precision) + CellWeight(c, precision)
  {
    WeightRemove(m + multiset{c}, c, precision);
    assert m + multiset{c} - multiset{c} == m;
  }

  /** Four children weigh less than their parent whenever the parent's
      half-diagonal h·√2 exceeds the precision. */
  lemma SplitLighter(c: Cell, precision: real)
    requires precision > 0.0 && c.h * SQRT2 > precision
    ensures 4 * Pow5(Levels(c.h / 2.0, precision)) < CellWeight(c, precision)
  {
  }

  /** The four pushes of the split: children of half-size cell.h / 2 at the
      quadrant centres. */
  method SplitCell(q: TinyQueue, cell: Cell, P: Polygon, sqrt: real -> real, ghost precision: real)
    returns (kids: seq<Cell>)
    modifies q
    requires q.Valid() && HasVertex(P) && precision > 0.0
    ensures q.Valid()
    ensures |kids| == 4
    ensures multiset(q.data)
         == multiset(old(q.data)) + multiset{kids[0]} + multiset{kids[1]} + multiset{kids[2]} + multiset{kids[3]}
    ensures Child(kids[0], cell, 0, P, sqrt) && Child(kids[1], cell, 1, P, sqrt)
    ensures Child(kids[2], cell, 2, P, sqrt) && Child(kids[3], cell, 3, P, sqrt)
  {
    ghost var m0 := multiset(q.data);
    var c0 := PushChild(q, cell, 0, P, sqrt);
    ghost var m1 := multiset(q.data);
    assert m1 == m0 + multiset{c0};
    var c1 := PushChild(q, cell, 1, P, sqrt);
    ghost var m2 := multiset(q.data);
    assert m2 == m1 + multiset{c1};
    var c2 := PushChild(q, cell, 2, P, sqrt);
    ghost var m3 := multiset(q.data);
    assert m3 == m2 + multiset{c2};
    var c3 := PushChild(q, cell, 3, P, sqrt);
    assert multiset(q.data) == m3 + multiset{c3};
    kids := [c0, c1, c2, c3];
  }

  /** Child number k of cell, as split pushes it. */
  ghost predicate Child(c: Cell, cell: Cell, k: int, P: Polygon, sqrt: real -> real)
    requires 0 <= k < 4
  {
    WellFormed(c, P, sqrt) && c.h == cell.h / 2.0 && Point(c.x, c.y) == Quadrants(cell)[k]
  }

  /** cellQueue.push(new Cell(x, y, h / 2, P)) for child number k of cell. */
  method PushChild(q: TinyQueue, cell: Cell, k: int, P: Polygon, sqrt: real -> real)
    returns (c: Cell)
    modifies q
    requires q.Valid() && HasVertex(P) && 0 <= k < 4
    ensures q.Valid()
    ensures Child(c, cell, k, P, sqrt)
    ensures multiset(q.data) == multiset(old(q.data)) + multiset{c}
  {
    var h := cell.h / 2.0;
    var centre := Quadrants(cell)[k];
    c := NewCell(centre.x, centre.y, h, P, sqrt);
    q.Push(c);
  }

  /** Four children of equal half-size add four times one child's weight. */
  lemma WeightOfKids(m: multiset<Cell>, k0: Cell, k1: Cell, k2: Cell, k3: Cell, h: real, precision: real)
    requires precision > 0.0
    requires k0.h == h && k1.h == h && k2.h == h && k3.h == h
    ensures Weight(m + multiset{k0} + multiset{k1} + multiset{k2} + multiset{k3}, precision)
         == Weight(m, precision) + 4 * Pow5(Levels(h, precision))
  {
    ghost var m1 := m + multiset{k0};
    ghost var m2 := m1 + multiset{k1};
    ghost var m3 := m2 + multiset{k2};
    WeightAdd(m, k0, precision);
    WeightAdd(m1, k1, precision);
    WeightAdd(m2, k2, precision);
    WeightAdd(m3, k3, precision);
  }

  // ---------------------------------------------------------------------------
  // The refinement loop
  // ---------------------------------------------------------------------------

  /** A popped cell is split only when its potential beats the best distance
      by more than the precision; since the best is updated first, that
      needs h·√2 > precision, so a cell whose half-diagonal h·√2 fits is
      never split. */
  lemma SplitNeedsCoarseCell(cell: Cell, best: real, P: Polygon, sqrt: real -> real, precision: real)
    requires WellFormed(cell, P, sqrt) && best >= cell.d
    ensures cell.max - best > precision ==> cell.h * SQRT2 > precision
    ensures cell.h * SQRT2 <= precision ==> cell.max - best <= precision
  {
  }

  /** One pass of the loop: the popped cell, the best distance once it has
      been compared, the four children pushed for it (none when it was
      dropped), and the cells queued when the pass began. */
  datatype Probe = Probe(cell: Cell, best: real, kids: seq<Cell>, queued: multiset<Cell>)

  /** The best distance before pass i: the first guess's, or the one pass
      i - 1 ended with. */
  function BestBefore(log: seq<Probe>, i: int, best0: real): real
    requires 0 <= i <= |log|
  {
    if i == 0 then best0 else log[i - 1].best
  }

  /** The best distance after the last pass. */
  function FinalBest(log: seq<Probe>, best0: real): real {
    BestBefore(log, |log|, best0)
  }

  /** Pass i did what the loop body does: the best distance moves up only to
      a strictly greater one, the cell is dropped exactly when its potential
      is within the precision of that best, and otherwise its four children
      are the quadrants of half its size. */
  ghost predicate PassOk(log: seq<Probe>, i: int, best0: real, precision: real, P: Polygon, sqrt: real -> real)
    requires 0 <= i < |log|
  {
    var e := log[i];
    var before := BestBefore(log, i, best0);
    && WellFormed(e.cell, P, sqrt)
    && e.best == (if e.cell.d > before then e.cell.d else before)
    && (e.kids == [] <==> e.cell.max - e.best <= precision)
    && (e.kids != [] ==>
          && |e.kids| == 4
          && Child(e.kids[0], e.cell, 0, P, sqrt) && Child(e.kids[1], e.cell, 1, P, sqrt)
          && Child(e.kids[2], e.cell, 2, P, sqrt) && Child(e.kids[3], e.cell, 3, P, sqrt))
  }

  ghost predicate LogOk(log: seq<Probe>, best0: real, precision: real, P: Polygon, sqrt: real -> real) {
    forall i :: 0 <= i < |log| ==> PassOk(log, i, best0, precision, P, sqrt)
  }

  lemma LogAppend(log: seq<Probe>, e: Probe, best0: real, precision: real, P: Polygon, sqrt: real -> real)
    requires LogOk(log, best0, precision, P, sqrt)
    requires PassOk(log + [e], |log|, best0, precision, P, sqrt)
    ensures LogOk(log + [e], best0, precision, P, sqrt)
  {
    var log' := log + [e];
    forall i | 0 <= i < |log'|
      ensures PassOk(log', i, best0, precision, P, sqrt)
    {
      if i < |log| {
        assert log'[i] == log[i];
        assert BestBefore(log', i, best0) == BestBefore(log, i, best0);
        assert PassOk(log, i, best0, precision, P, sqrt);
      }
    }
  }

  /** The best distance never goes down from one pass to a later one. */
  lemma {:induction false} BestGrows(log: seq<Probe>, i: int, j: int, best0: real, precision: real,
                                     P: Polygon, sqrt: real -> real)
    requires LogOk(log, best0, precision, P, sqrt)
    requires 0 <= i <= j <= |log|
    ensures BestBefore(log, i, best0) <= BestBefore(log, j, best0)
    decreases j - i
  {
    if i < j {
      BestGrows(log, i, j - 1, best0, precision, P, sqrt);
      assert PassOk(log, j - 1, best0, precision, P, sqrt);
    }
  }

  /** What the log promises about the outcome: the final best distance is at
      least the first guess's and every popped cell's distance, every dropped
      cell's potential is within the precision of it, and a cell was split
      only when its potential beat the best distance of its own pass by more
      than the precision, which needs a half-diagonal h·√2 above the
      precision. */
  lemma LogOutcome(log: seq<Probe>, best0: real, precision: real, P: Polygon, sqrt: real -> real)
    requires LogOk(log, best0, precision, P, sqrt)
    ensures best0 <= FinalBest(log, best0)
    ensures forall i :: 0 <= i < |log| ==> log[i].cell.d <= FinalBest(log, best0)
    ensures forall i :: 0 <= i < |log| && log[i].kids == [] ==>
              log[i].cell.max <= FinalBest(log, best0) + precision
    ensures forall i :: 0 <= i < |log| && log[i].kids != [] ==>
              log[i].cell.max - log[i].best > precision && log[i].cell.h * SQRT2 > precision
  {
    BestGrows(log, 0, |log|, best0, precision, P, sqrt);
    forall i | 0 <= i < |log|
      ensures log[i].cell.d <= FinalBest(log, best0)
      ensures log[i].kids == [] ==> log[i].cell.max <= FinalBest(log, best0) + precision
      ensures log[i].kids != [] ==> log[i].cell.max - log[i].best > precision && log[i].cell.h * SQRT2 > precision
    {
      assert PassOk(log, i, best0, precision, P, sqrt);
      BestGrows(log, i + 1, |log|, best0, precision, P, sqrt);
      SplitNeedsCoarseCell(log[i].cell, log[i].best, P, sqrt, precision);
    }
  }

  /** The outcome for the best cell: no popped cell has a greater distance,
      and every dropped cell's potential is within the precision of it. */
  lemma BestBeatsProbed(best: Cell, at: int, log: seq<Probe>, probed: seq<Cell>, best0: Cell,
                        precision: real, P: Polygon, sqrt: real -> real)
    requires LogOk(log, best0.d, precision, P, sqrt)
    requires BestIs(best, at, log, best0)
    requires |probed| == |log| && forall i :: 0 <= i < |log| ==> probed[i] == log[i].cell
    ensures best0.d <= best.d
    ensures forall c :: c in probed ==> c.d <= best.d
    ensures forall i :: 0 <= i < |log| && log[i].kids == [] ==> log[i].cell.max <= best.d + precision
  {
    LogOutcome(log, best0.d, precision, P, sqrt);
    forall c | c in probed
      ensures c.d <= best.d
    {
      var i :| 0 <= i < |probed| && probed[i] == c;
    }
  }

  /** The children of a split cell cover it: every point of the cell lies in
      one of the four squares pushed for it. */
  lemma SplitCovers(log: seq<Probe>, best0: real, precision: real, P: Polygon, sqrt: real -> real,
                    i: int, p: Point)
    requires LogOk(log, best0, precision, P, sqrt) && precision > 0.0
    requires 0 <= i < |log| && log[i].kids != []
    requires InSquare(p, log[i].cell.x, log[i].cell.y, log[i].cell.h)
    ensures exists k :: 0 <= k < |log[i].kids| && InSquare(p, log[i].kids[k].x, log[i].kids[k].y, log[i].kids[k].h)
  {
    var e := log[i];
    assert PassOk(log, i, best0, precision, P, sqrt);
    SplitNeedsCoarseCell(e.cell, e.best, P, sqrt, precision);
    assert e.cell.h > 0.0;
    QuadrantsTile(e.cell, p);
    var k :| 0 <= k < 4 && InSquare(p, Quadrants(e.cell)[k].x, Quadrants(e.cell)[k].y, e.cell.h / 2.0);
    assert Child(e.kids[k], e.cell, k, P, sqrt);
  }

  /** `best` is the cell the best distance came from: the first guess when no
      pass improved on it, and otherwise the cell of the last pass that raised
      the best distance strictly, no later cell having a greater distance.
      Among cells of equal distance the earliest therefore stays. */
  ghost predicate BestIs(best: Cell, at: int, log: seq<Probe>, best0: Cell) {
    && -1 <= at < |log|
    && best.d == FinalBest(log, best0.d)
    && (at == -1 ==> best == best0 && forall i :: 0 <= i < |log| ==> log[i].cell.d <= best0.d)
    && (at >= 0 ==>
          && best == log[at].cell
          && best.d > BestBefore(log, at, best0.d)
          && forall i :: at < i < |log| ==> log[i].cell.d <= best.d)
  }

  /** Ties keep the earlier cell: a popped cell that ends up as the best is
      strictly better than the first guess and than every cell popped before
      it. */
  lemma BestIsFirst(best: Cell, at: int, log: seq<Probe>, best0: Cell, precision: real,
                    P: Polygon, sqrt: real -> real)
    requires LogOk(log, best0.d, precision, P, sqrt)
    requires BestIs(best, at, log, best0)
    ensures at >= 0 ==> best0.d < best.d && forall i :: 0 <= i < at ==> log[i].cell.d < best.d
  {
    if at >= 0 {
      BestGrows(log, 0, at, best0.d, precision, P, sqrt);
      forall i | 0 <= i < at
        ensures log[i].cell.d < best.d
      {
        assert PassOk(log, i, best0.d, precision, P, sqrt);
        BestGrows(log, i + 1, at, best0.d, precision, P, sqrt);
      }
    }
  }

  /** The cells queued once pass e is over: the queue it began with, without
      the popped cell, with the children it pushed. */
  function QueuedAfter(e: Probe): multiset<Cell> {
    e.queued - multiset{e.cell} + multiset(e.kids)
  }

  /** The queue before pass i: the seeds, or what pass i - 1 left. */
  function QueuedBefore(log: seq<Probe>, i: int, seeds: multiset<Cell>): multiset<Cell>
    requires 0 <= i <= |log|
  {
    if i == 0 then seeds else QueuedAfter(log[i - 1])
  }

  /** Pass i popped a cell of greatest potential from the queue it began
      with, and that queue is what the earlier passes left. */
  ghost predicate PoppedFirst(log: seq<Probe>, i: int, seeds: multiset<Cell>)
    requires 0 <= i < |log|
  {
    var e := log[i];
    && e.queued == QueuedBefore(log, i, seeds)
    && e.cell in e.queued
    && forall c :: c in e.queued ==> c.max <= e.cell.max
  }

  /** Every pass of log, starting from the queue seeds, popped best first. */
  ghost predicate BestFirst(log: seq<Probe>, seeds: multiset<Cell>) {
    forall i :: 0 <= i < |log| ==> PoppedFirst(log, i, seeds)
  }

  lemma BestFirstAppend(log: seq<Probe>, e: Probe, seeds: multiset<Cell>)
    requires BestFirst(log, seeds)
    requires e.queued == QueuedBefore(log, |log|, seeds)
    requires e.cell in e.queued && forall c :: c in e.queued ==> c.max <= e.cell.max
    ensures BestFirst(log + [e], seeds)
    ensures QueuedBefore(log + [e], |log + [e]|, seeds) == QueuedAfter(e)
  {
    var log' := log + [e];
    forall i | 0 <= i < |log'|
      ensures PoppedFirst(log', i, seeds)
    {
      if i < |log| {
        assert log'[i] == log[i];
        assert PoppedFirst(log, i, seeds);
        assert QueuedBefore(log', i, seeds) == QueuedBefore(log, i, seeds);
      }
    }
  }

  /** The children pushed by passes i to j - 1. */
  function KidsBetween(log: seq<Probe>, i: int, j: int): multiset<Cell>
    requires 0 <= i <= j <= |log|
    decreases j - i
  {
    if i == j then multiset{} else KidsBetween(log, i, j - 1) + multiset(log[j - 1].kids)
  }

  /** Whatever is queued at pass j was already queued at pass i or was pushed
      by a pass in between. */
  lemma {:induction false} QueuedSince(log: seq<Probe>, i: int, j: int, seeds: multiset<Cell>, c: Cell)
    requires BestFirst(log, seeds)
    requires 0 <= i <= j < |log|
    requires c in log[j].queued
    ensures c in log[i].queued || c in KidsBetween(log, i, j)
    decreases j - i
  {
    if i < j {
      StepBack(log, j, seeds, c);
      KidsBetweenGrows(log, i, j, c);
      if c !in log[j - 1].kids {
        QueuedSince(log, i, j - 1, seeds, c);
      }
    }
  }

  /** A cell queued at pass j > 0 was queued at pass j - 1 or pushed by it. */
  lemma StepBack(log: seq<Probe>, j: int, seeds: multiset<Cell>, c: Cell)
    requires BestFirst(log, seeds)
    requires 0 < j < |log| && c in log[j].queued
    ensures c in log[j - 1].queued || c in log[j - 1].kids
  {
    assert PoppedFirst(log, j, seeds);
    InQueuedAfter(log[j - 1], c);
  }

  lemma InQueuedAfter(e: Probe, c: Cell)
    requires c in QueuedAfter(e)
    ensures c in e.queued || c in e.kids
  {
  }

  lemma KidsBetweenGrows(log: seq<Probe>, i: int, j: int, c: Cell)
    requires 0 <= i < j <= |log|
    ensures c in KidsBetween(log, i, j) <==> c in KidsBetween(log, i, j - 1) || c in log[j - 1].kids
  {
  }

  /** Best-first order: a cell popped at a later pass j has no greater
      potential than the cell popped at pass i, unless it was pushed by one
      of the passes in between. */
  lemma LaterPopBound(log: seq<Probe>, i: int, j: int, seeds: multiset<Cell>)
    requires BestFirst(log, seeds)
    requires 0 <= i < j < |log|
    ensures log[j].cell.max <= log[i].cell.max || log[j].cell in KidsBetween(log, i, j)
  {
    assert PoppedFirst(log, j, seeds);
    assert PoppedFirst(log, i, seeds);
    QueuedSince(log, i, j, seeds, log[j].cell);
  }

  /** The loop invariant: the state after the passes in log, with the cells
      still queued in data. Everything that was ever queued, the seeds in
      start and the children of every split, is still queued or was popped. */
  ghost predicate Searched(data: seq<Cell>, start: seq<Cell>, best0: Cell, best: Cell, at: int,
                           log: seq<Probe>, probed: seq<Cell>, precision: real,
                           P: Polygon, sqrt: real -> real)
  {
    && (forall c :: c in data ==> WellFormed(c, P, sqrt))
    && BestFirst(log, multiset(start))
    && multiset(data) == QueuedBefore(log, |log|, multiset(start))
    && WellFormed(best0, P, sqrt)
    && LogOk(log, best0.d, precision, P, sqrt)
    && |probed| == |log|
    && (forall i :: 0 <= i < |log| ==> probed[i] == log[i].cell)
    && BestIs(best, at, log, best0)
    && (forall c :: c in start ==> c in data || c in probed)
    && (forall i, k :: 0 <= i < |log| && 0 <= k < |log[i].kids| ==>
          log[i].kids[k] in data || log[i].kids[k] in probed)
  }

  /** The while loop of polylabel. Besides the best cell it reports, as ghost
      values, the passes it made, the cells it popped, and the pass whose cell
      became the best (-1 for the first guess). */
  method Refine(q: TinyQueue, P: Polygon, sqrt: real -> real, precision: real, best0: Cell)
    returns (best: Cell, ghost at: int, ghost log: seq<Probe>, ghost probed: seq<Cell>)
    modifies q
    requires q.Valid() && HasVertex(P) && precision > 0.0
    requires forall c :: c in q.data ==> WellFormed(c, P, sqrt)
    requires WellFormed(best0, P, sqrt)
    ensures q.Valid() && q.length == 0
    ensures WellFormed(best, P, sqrt)
    ensures LogOk(log, best0.d, precision, P, sqrt)
    ensures |probed| == |log| && forall i :: 0 <= i < |log| ==> probed[i] == log[i].cell
    ensures BestIs(best, at, log, best0)
    ensures BestFirst(log, multiset(old(q.data)))
    ensures QueuedBefore(log, |log|, multiset(old(q.data))) == multiset{}
    ensures forall c :: c in old(q.data) ==> c in probed
    ensures forall i, k :: 0 <= i < |log| && 0 <= k < |log[i].kids| ==> log[i].kids[k] in probed
  {
    ghost var start := q.data;
    best, at, log, probed := best0, -1, [], [];
    while q.length > 0
      invariant q.Valid()
      invariant Searched(q.data, start, best0, best, at, log, probed, precision, P, sqrt)
      decreases Weight(multiset(q.data), precision)
    {
      best, at, log, probed := Pass(q, P, sqrt, precision, start, best0, best, at, log, probed);
    }
    assert q.data == [];
    BestIsWellFormed(best, at, log, best0, precision, P, sqrt);
  }

  lemma BestIsWellFormed(best: Cell, at: int, log: seq<Probe>, best0: Cell, precision: real,
                         P: Polygon, sqrt: real -> real)
    requires WellFormed(best0, P, sqrt) && LogOk(log, best0.d, precision, P, sqrt)
    requires BestIs(best, at, log, best0)
    ensures WellFormed(best, P, sqrt)
  {
    if at >= 0 {
      assert PassOk(log, at, best0.d, precision, P, sqrt);
    }
  }

  /** One pass of the loop body: pop the cell of greatest potential, keep it
      if its centre is strictly better, then drop it or split it. */
  method Pass(q: TinyQueue, P: Polygon, sqrt: real -> real, precision: real, ghost start: seq<Cell>,
              best0: Cell, best: Cell, ghost at: int, ghost log: seq<Probe>, ghost probed: seq<Cell>)
    returns (best': Cell, ghost at': int, ghost log': seq<Probe>, ghost probed': seq<Cell>)
    modifies q
    requires q.Valid() && q.length > 0 && HasVertex(P) && precision > 0.0
    requires Searched(q.data, start, best0, best, at, log, probed, precision, P, sqrt)
    ensures q.Valid()
    ensures Searched(q.data, start, best0, best', at', log', probed', precision, P, sqrt)
    ensures Weight(multiset(q.data), precision) < Weight(multiset(old(q.data)), precision)
  {
    ghost var data0 := q.data;
    var cell := PopCell(q, P, sqrt, precision);
    ghost var data1 := q.data;
    best', at' := best, at;
    if cell.d > best.d {
      best', at' := cell, |log|;
    }
    var kids: seq<Cell> := [];
    if cell.max - best'.d > precision {
      SplitNeedsCoarseCell(cell, best'.d, P, sqrt, precision);
      kids := SplitStep(q, cell, P, sqrt, precision);
    } else {
      assert multiset(q.data) == multiset(data1) + multiset(kids);
    }
    ghost var e := Probe(cell, best'.d, kids, multiset(data0));
    log' := log + [e];
    probed' := probed + [cell];
    assert PassOk(log', |log|, best0.d, precision, P, sqrt);
    QueueAfterPass(multiset(data0), multiset(data1), multiset(q.data), e);
    SearchedStep(data0, data1, q.data, start, best0, best, at, log, probed, e, best', at', precision, P, sqrt);
  }

  /** The queue after a pass is the one it began with, less the popped cell,
      plus the pushed children. */
  lemma QueueAfterPass(m0: multiset<Cell>, m1: multiset<Cell>, m2: multiset<Cell>, e: Probe)
    requires m0 == e.queued && m1 + multiset{e.cell} == m0
    requires m2 == m1 + multiset(e.kids)
    ensures m2 == QueuedAfter(e)
  {
    assert m1 == m0 - multiset{e.cell};
  }

  /** The invariant survives one pass. */
  lemma SearchedStep(data0: seq<Cell>, data1: seq<Cell>, data2: seq<Cell>, start: seq<Cell>,
                     best0: Cell, best: Cell, at: int, log: seq<Probe>, probed: seq<Cell>,
                     e: Probe, best': Cell, at': int, precision: real, P: Polygon, sqrt: real -> real)
    requires Searched(data0, start, best0, best, at, log, probed, precision, P, sqrt)
    requires forall c :: c in data0 <==> c in data1 || c == e.cell
    requires forall c :: c in data1 ==> c in data2
    requires forall c :: c in e.kids ==> c in data2
    requires forall c :: c in data2 ==> WellFormed(c, P, sqrt)
    requires PassOk(log + [e], |log|, best0.d, precision, P, sqrt)
    requires e.queued == multiset(data0) && e.cell in data0
    requires forall c :: c in data0 ==> c.max <= e.cell.max
    requires multiset(data2) == QueuedAfter(e)
    requires e.best == best'.d
    requires e.cell.d > best.d ==> best' == e.cell && at' == |log|
    requires e.cell.d <= best.d ==> best' == best && at' == at
    ensures Searched(data2, start, best0, best', at', log + [e], probed + [e.cell], precision, P, sqrt)
  {
    BestFirstAppend(log, e, multiset(start));
    ProbedStep(log, probed, e);
    LogAppend(log, e, best0.d, precision, P, sqrt);
    PassKeepsBest(e.cell, best, at, log, best0, best', at', e);
    PassKeepsQueued(data0, data1, data2, e, start, log, probed);
  }

  lemma ProbedStep(log: seq<Probe>, probed: seq<Cell>, e: Probe)
    requires |probed| == |log| && forall i :: 0 <= i < |log| ==> probed[i] == log[i].cell
    ensures |probed + [e.cell]| == |log + [e]|
    ensures forall i :: 0 <= i < |log + [e]| ==> (probed + [e.cell])[i] == (log + [e])[i].cell
  {
  }

  /** The bookkeeping of the best cell across one pass. */
  lemma PassKeepsBest(cell: Cell, best: Cell, at: int, log: seq<Probe>, best0: Cell,
                      best': Cell, at': int, e: Probe)
    requires BestIs(best, at, log, best0)
    requires e.cell == cell && e.best == best'.d
    requires cell.d > best.d ==> best' == cell && at' == |log|
    requires cell.d <= best.d ==> best' == best && at' == at
    ensures BestIs(best', at', log + [e], best0)
  {
    var log' := log + [e];
    assert FinalBest(log', best0.d) == e.best;
    if at' >= 0 && cell.d <= best.d {
      assert log'[at'] == log[at'];
      assert BestBefore(log', at', best0.d) == BestBefore(log, at', best0.d);
    }
  }

  /** Every cell queued before the pass is still queued or was just popped,
      and the children of the pass are queued. */
  lemma PassKeepsQueued(data0: seq<Cell>, data1: seq<Cell>, data2: seq<Cell>, e: Probe,
                        start: seq<Cell>, log: seq<Probe>, probed: seq<Cell>)
    requires forall c :: c in data0 <==> c in data1 || c == e.cell
    requires forall c :: c in data1 ==> c in data2
    requires forall c :: c in e.kids ==> c in data2
    requires |probed| == |log|
    requires forall c :: c in start ==> c in data0 || c in probed
    requires forall i, k :: 0 <= i < |log| && 0 <= k < |log[i].kids| ==>
               log[i].kids[k] in data0 || log[i].kids[k] in probed
    ensures forall c :: c in start ==> c in data2 || c in probed + [e.cell]
    ensures forall i, k :: 0 <= i < |log + [e]| && 0 <= k < |(log + [e])[i].kids| ==>
              (log + [e])[i].kids[k] in data2 || (log + [e])[i].kids[k] in probed + [e.cell]
  {
    var log' := log + [e];
    forall i, k | 0 <= i < |log'| && 0 <= k < |log'[i].kids|
      ensures log'[i].kids[k] in data2 || log'[i].kids[k] in probed + [e.cell]
    {
      if i == |log| {
        assert log'[i].kids[k] in e.kids;
      } else {
        assert log'[i] == log[i];
      }
    }
  }

  /** cellQueue.pop() inside the loop: the cell of greatest potential leaves
      the queue, and the queue's weight drops by that cell's weight. */
  method PopCell(q: TinyQueue, P: Polygon, sqrt: real -> real, ghost precision: real)
    returns (cell: Cell)
    modifies q
    requires q.Valid() && q.length > 0 && precision > 0.0
    requires forall c :: c in q.data ==> WellFormed(c, P, sqrt)
    ensures q.Valid()
    ensures WellFormed(cell, P, sqrt)
    ensures forall c :: c in old(q.data) ==> c.max <= cell.max
    ensures multiset(q.data) + multiset{cell} == multiset(old(q.data))
    ensures forall c :: c in q.data ==> WellFormed(c, P, sqrt)
    ensures forall c :: c in old(q.data) <==> c in q.data || c == cell
    ensures Weight(multiset(q.data), precision) + CellWeight(cell, precision)
         == Weight(multiset(old(q.data)), precision)
  {
    ghost var before := multiset(q.data);
    var top := q.Pop();
    cell := top.value;
    WeightRemove(before, cell, precision);
    assert before - multiset{cell} == multiset(q.data);
  }

  /** The split branch: four children, the quadrants of half its size,
      replace a cell too coarse to prune; together they weigh less than the
      cell did. */
  method SplitStep(q: TinyQueue, cell: Cell, P: Polygon, sqrt: real -> real, ghost precision: real)
    returns (kids: seq<Cell>)
    modifies q
    requires q.Valid() && HasVertex(P) && precision > 0.0
    requires cell.h * SQRT2 > precision
    requires forall c :: c in q.data ==> WellFormed(c, P, sqrt)
    ensures q.Valid()
    ensures |kids| == 4
    ensures Child(kids[0], cell, 0, P, sqrt) && Child(kids[1], cell, 1, P, sqrt)
    ensures Child(kids[2], cell, 2, P, sqrt) && Child(kids[3], cell, 3, P, sqrt)
    ensures multiset(q.data) == multiset(old(q.data)) + multiset(kids)
    ensures forall c :: c in q.data ==> WellFormed(c, P, sqrt)
    ensures forall c :: c in old(q.data) ==> c in q.data
    ensures forall c :: c in kids ==> c in q.data
    ensures Weight(multiset(q.data), precision)
          < Weight(multiset(old(q.data)), precision) + CellWeight(cell, precision)
  {
    ghost var rest := multiset(q.data);
    kids := SplitCell(q, cell, P, sqrt, precision);
    assert multiset(kids) == multiset{kids[0]} + multiset{kids[1]} + multiset{kids[2]} + multiset{kids[3]} by {
      assert kids == [kids[0]] + [kids[1]] + [kids[2]] + [kids[3]];
    }
    SplitLighter(cell, precision);
    WeightOfKids(rest, kids[0], kids[1], kids[2], kids[3], cell.h / 2.0, precision);
    KidsWellFormed(kids, cell, P, sqrt);
    AddedKeeps(old(q.data), q.data, kids, P, sqrt);
  }

  lemma KidsWellFormed(kids: seq<Cell>, cell: Cell, P: Polygon, sqrt: real -> real)
    requires |kids| == 4
    requires Child(kids[0], cell, 0, P, sqrt) && Child(kids[1], cell, 1, P, sqrt)
    requires Child(kids[2], cell, 2, P, sqrt) && Child(kids[3], cell, 3, P, sqrt)
    ensures forall c :: c in kids ==> WellFormed(c, P, sqrt)
  {
  }

  /** Adding cells to a queue keeps the cells it held, and a queue of
      well-formed cells stays so when the added ones are well-formed. */
  lemma AddedKeeps(data0: seq<Cell>, data: seq<Cell>, kids: seq<Cell>, P: Polygon, sqrt: real -> real)
    requires multiset(data) == multiset(data0) + multiset(kids)
    requires forall c :: c in data0 ==> WellFormed(c, P, sqrt)
    requires forall c :: c in kids ==> WellFormed(c, P, sqrt)
    ensures forall c :: c in data0 ==> c in data
    ensures forall c :: c in kids ==> c in data
    ensures forall c :: c in data ==> WellFormed(c, P, sqrt)
  {
    forall c | c in data
      ensures c in data0 || c in kids
    {
      assert c in multiset(data);
    }
    forall c | c in data0 || c in kids
      ensures c in data
    {
      assert c in multiset(data0) || c in multiset(kids);
      assert c in multiset(data);
    }
  }

  // ---------------------------------------------------------------------------
  // polylabel
  // ---------------------------------------------------------------------------

  /** The side of the initial cells: the box's shorter side. */
  function CellSize(b: Box): real {
    Min(b.maxX - b.minX, b.maxY - b.minY)
  }

  /** The centre of the outer ring as getCentroidCell computes it. */
  ghost predicate IsCentroidCell(c: Cell, P: Polygon, sqrt: real -> real)
    requires |P| > 0 && OuterMoments(P).area != 0.0
  {
    && WellFormed(c, P, sqrt)
    && c.x == OuterMoments(P).x / OuterMoments(P).area
    && c.y == OuterMoments(P).y / OuterMoments(P).area
    && c.h == 0.0
  }

  /** box is the bounding box of the outer ring, and grid the cells of side
      min(width, height) the two seeding loops push to cover it. */
  ghost predicate Seeded(P: Polygon, sqrt: real -> real, box: Box, grid: seq<seq<Cell>>)
    requires |P| > 0
  {
    && IsBoundingBox(P[0], box)
    && Grid(grid, P, sqrt, box.minX, box.minY, box.maxX, box.maxY, CellSize(box), CellSize(box) / 2.0)
  }

  /** The first part of polylabel: the bounding box of the outer ring, and a
      new queue holding the grid of cells of side min(width, height) that
      covers it. A ≠ 0 rules out an empty or flat outer ring, so the box has
      positive width and height and the seeding loops advance. */
  method InitialGrid(P: Polygon, sqrt: real -> real)
    returns (cellQueue: TinyQueue, ghost box: Box, ghost grid: seq<seq<Cell>>)
    requires |P| > 0 && OuterMoments(P).area != 0.0
    ensures fresh(cellQueue) && cellQueue.Valid()
    ensures Seeded(P, sqrt, box, grid)
    ensures box.minX < box.maxX && box.minY < box.maxY
    ensures multiset(cellQueue.data) == multiset(Flatten(grid))
    ensures forall c :: c in cellQueue.data ==> WellFormed(c, P, sqrt)
  {
    var outer := P[0];
    assert |outer| > 0;
    var minX, minY, maxX, maxY := BoundingBox(outer);
    box := Box(minX, minY, maxX, maxY);
    assert minX < maxX && minY < maxY by {
      if maxX <= minX || maxY <= minY {
        FlatBoxHasNoArea(outer, minX, minY, maxX, maxY);
      }
    }
    var width := maxX - minX;
    var height := maxY - minY;
    var cellSize := Min(width, height);
    var h := cellSize / 2.0;
    assert HasVertex(P) by {
      assert |P[0]| > 0;
    }
    assert cellSize == CellSize(box);
    cellQueue := new TinyQueue([]);
    grid := SeedGrid(cellQueue, P, sqrt, minX, minY, maxX, maxY, cellSize, h);
  }

  /** What one call of polylabel did, as ghost values: the first guess, the
      box, the columns of the initial grid, the passes of the loop, the cells
      they popped, the best cell and the pass it came from. */
  datatype Run = Run(centroid: Cell, box: Box, grid: seq<seq<Cell>>, log: seq<Probe>,
                     probed: seq<Cell>, best: Cell, at: int)

  /** polylabel(P, precision): the centre of the best cell found. The source
      divides by the centroid accumulator A without a guard, so A must not be
      zero; that also gives the bounding box a positive width and height, so
      the seeding loops advance. With a negative precision a cell whose
      potential reaches the best distance is always split, so the loop would
      not end. */
  method Polylabel(P: Polygon, precision: Option<real>, sqrt: real -> real)
    returns (result: Point, ghost run: Run)
    requires |P| > 0 && OuterMoments(P).area != 0.0
    requires precision.None? || precision.value >= 0.0
    ensures result == Point(run.best.x, run.best.y) && WellFormed(run.best, P, sqrt)
    ensures SignedDist(result.x, result.y, P, sqrt)
         >= SignedDist(OuterMoments(P).x / OuterMoments(P).area,
                       OuterMoments(P).y / OuterMoments(P).area, P, sqrt)
    ensures IsCentroidCell(run.centroid, P, sqrt)
    ensures Seeded(P, sqrt, run.box, run.grid)
    ensures forall i, j :: 0 <= i < |run.grid| && 0 <= j < |run.grid[i]| ==> run.grid[i][j] in run.probed
    ensures LogOk(run.log, run.centroid.d, EffectivePrecision(precision), P, sqrt)
    ensures |run.probed| == |run.log| && forall i :: 0 <= i < |run.log| ==> run.probed[i] == run.log[i].cell
    ensures forall i, k :: 0 <= i < |run.log| && 0 <= k < |run.log[i].kids| ==>
              run.log[i].kids[k] in run.probed
    ensures BestIs(run.best, run.at, run.log, run.centroid)
    ensures BestFirst(run.log, multiset(Flatten(run.grid)))
    ensures QueuedBefore(run.log, |run.log|, multiset(Flatten(run.grid))) == multiset{}
    ensures forall c :: c in run.probed ==> c.d <= run.best.d
    ensures forall i :: 0 <= i < |run.log| && run.log[i].kids == [] ==>
              run.log[i].cell.max <= run.best.d + EffectivePrecision(precision)
  {
    var eps := EffectivePrecision(precision);
    var cellQueue, box, grid := InitialGrid(P, sqrt);
    ghost var seeds := cellQueue.data;

    var bestCell := GetCentroidCell(P, sqrt);
    ghost var centroid := bestCell;
    ghost var at, log, probed;
    bestCell, at, log, probed := Refine(cellQueue, P, sqrt, eps, bestCell);
    GridProbed(grid, seeds, probed);
    BestBeatsProbed(bestCell, at, log, probed, centroid, eps, P, sqrt);
    result := Point(bestCell.x, bestCell.y);
    run := Run(centroid, box, grid, log, probed, bestCell, at);
  }
}
