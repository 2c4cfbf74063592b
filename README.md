# polylabel in Dafny

A model of `src/pl.js`. It holds polylabel, which finds the pole of inaccessibility of a polygon: the interior point farthest from its outline. It also holds the binary heap bundled with it (TinyQueue). Proofs are about the model.

A polygon is a sequence of rings. Ring 0 is the outer boundary and the rest are holes. The search covers the outer ring's bounding box with square cells. A cell has a centre `(x, y)` and a half-size `h`. Its fields are `d`, the signed distance from its centre to the outline, and `max = d + h·√2`, the potential: the most any point of the cell could reach. A max-heap on `max` feeds a branch-and-bound loop:

- It pops the cell of greatest potential.
- It remembers the best centre seen so far. The first best guess is the centroid cell.
- It drops a cell that cannot beat the best by more than `precision`.
- It splits every other cell into four children of half the size.
- It returns the centre of the best cell.

Modules, following the source's parts:

- `Geometry` (`geometry.dfy`):
  - getSegDistSq;
  - the edge walk `j = i++` of pointToPolygonDist;
  - the even-odd ray-crossing test;
  - the minimum squared distance and the signed distance.
- `Cells` (`cells.dfy`): the Cell constructor, compareMax, and getCentroidCell with its moment accumulators.
- `Queue` (`tinyqueue.dfy`):
  - TinyQueue as a class whose `data` (a sequence field the methods reassign) and `length` change in place;
  - heapify, push, pop, peek, `_up`, `_down` and swap;
  - the heap order and the multiset of entries are the invariants every method keeps.
- `Polylabel` (`polylabel.dfy`):
  - the bounding box and the seeding loops;
  - the refinement loop, with a termination proof;
  - polylabel itself.

Numbers are mathematical reals. `Math.sqrt` is a parameter `sqrt`, and the properties the model uses of it (nonnegative, monotone) are stated by `SqrtLike`. `Math.SQRT2` is the constant `1.4142135623730951`.

Definitions the contracts below are written in:

- `Geometry.Crosses`: the ray-crossing test `(a[1] > y !== b[1] > y) && x < (b[0] − a[0])·(y − a[1]) / (b[1] − a[1]) + a[0]` (src/pl.js:85-86).
- `Geometry.SegDistSq`: the squared distance getSegDistSq returns (src/pl.js:107-125), as the distance to a + t·(b − a) at the clamped parameter t.
- `Geometry.SignedDist`: `(inside ? 1 : −1) · sqrt(minDistSq)` over all edges of all rings (src/pl.js:78-93).
- `Cells.WellFormed`: a cell of a polygon with at least one edge, whose `d` is SignedDist at its centre and whose `max` is `d + h·SQRT2`, as the Cell constructor sets them (src/pl.js:70-76).
- `Cells.RingMoments`, `Cells.OuterMoments`: the accumulators `A`, `x` and `y` of getCentroidCell's loop, summed over the edges of P[0] (src/pl.js:95-103).
- `Polylabel.CellSize`: `Math.min(width, height)` of the bounding box (src/pl.js:17-19).
- `Polylabel.Quadrants`: the four child centres `(x ∓ h, y ∓ h)` with `h = cell.h / 2`, in push order (src/pl.js:50-54).
- `Polylabel.PassOk`, `Polylabel.LogOk`: one pass, and every pass, of the loop body (src/pl.js:37-54). The best distance rises only to a strictly greater `cell.d`. The cell is dropped exactly when `cell.max − bestCell.d <= precision`. Otherwise its four Quadrants children are pushed.
- `Polylabel.BestIs`: which cell `bestCell` holds after the passes (src/pl.js:33, 41-42). It is the centroid when no pass was strictly better, otherwise the cell of the last pass that raised the best distance.
- `Polylabel.PoppedFirst`, `Polylabel.BestFirst`: each pass pops a cell of greatest `max` from the queue that the seeds and the earlier passes left (`cellQueue.pop()` under compareMax, src/pl.js:38).

## Model

| member | source | states |
|---|---|---|
| Geometry.Min | src/pl.js:88 | `Math.min`: the result is at most both arguments and equals one of them |
| Geometry.Clamp01 | src/pl.js:114-120 | the projection parameter is clamped to [0, 1]: unchanged inside, 0 below, 1 above |
| Geometry.NonDegenerateIff | src/pl.js:112 | `dx·dx + dy·dy > 0` exactly when `dx !== 0 \|\| dy !== 0`, so the model's branch test agrees with the source's |
| Geometry.SegParam | src/pl.js:112-120 | the clamped parameter of the nearest point is in [0, 1]; it is 0 for a degenerate segment or a negative projection, and 1 for a projection beyond b |
| Geometry.SegDistSqProperties | src/pl.js:107-125 | the distance is measured to a point a + t·(b − a) with 0 ≤ t ≤ 1; for a == b it is the distance to a |
| Geometry.SegDistSqAtMostEndpoints | src/pl.js:107-125 | the squared distance to the segment is at most the squared distance to a and at most the squared distance to b |
| Geometry.SegDistSqIsLeast | src/pl.js:106-125 | the squared distance to the segment is at most the squared distance to every point a + t·(b − a) with t in [0, 1], so it is the distance to the nearest point of the segment |
| Geometry.ClampedIsLeastAt | src/pl.js:113-120 | the quadratic u² − 2tk + t²·len2 takes its least value on [0, 1] at the clamped k / len2 |
| Geometry.OffsetAtMostEnds | src/pl.js:113-120 | the endpoint bound in offset form: the clamped parameter does no worse than t = 0 and t = 1 |
| Geometry.ClampedIsLeast | src/pl.js:113-120 | the quadratic is no larger at the clamped k / len2 than at t = 0 or t = 1 |
| Geometry.GetSegDistSq | src/pl.js:107-125 | getSegDistSq step by step; its result is the squared distance to a point of the segment and, when a == b or b − a has positive squared length, at most the squared distance to every point of it |
| Geometry.NearestPoint | src/pl.js:108-121 | the branches t > 1, t > 0 and the degenerate case leave (x, y) at a + t·(b − a) with t the clamped projection parameter |
| Geometry.RingEdges | src/pl.js:82-84 | the loop `for (i = 0, j = len - 1; i < len; j = i++)` visits edge (ring[0], ring[len − 1]) and then (ring[i], ring[i − 1]) |
| Geometry.HasVertexHasEdge | src/pl.js:80-89 | a polygon with a vertex in some ring has at least one edge, so minDistSq gets a finite value |
| Geometry.CrossesProperties | src/pl.js:85-86 | a horizontal edge never toggles `inside` (no division by b[1] − a[1] = 0 is reached); a toggling edge straddles the ray's height |
| Geometry.ParityIsOddCount | src/pl.js:85-86 | after toggling once per crossing edge, `inside` is true exactly when the number of crossings is odd |
| Geometry.CrossCountAppend | src/pl.js:80-86 | crossings of the edges of several rings add up |
| Geometry.MinSegDistSqIsMinimum | src/pl.js:88 | minDistSq is at most every edge's squared distance and equals one of them |
| Geometry.VisitEdge | src/pl.js:83-88 | one loop step toggles the parity on a crossing and takes the minimum with the new edge's distance |
| Geometry.NextRingEdge | src/pl.js:82 | one more step of the ring loop appends edge (ring[i], ring[j]) |
| Geometry.NextRing | src/pl.js:80-81 | one more step of the ring loop appends that ring's edges |
| Geometry.PointToPolygonDist | src/pl.js:78-93 | the loops compute SignedDist: ±sqrt of the least squared edge distance, positive exactly when the crossing parity is odd |
| Geometry.WalkRing | src/pl.js:82-89 | the inner loop extends the parity and the running minimum over the ring's edges |
| Geometry.SignedDistProperties | src/pl.js:92 | the sign follows `inside`, and the magnitude is at most sqrt of every edge's squared distance |
| Cells.Sqrt2Bounds | src/pl.js:75 | the constant is within 0.01 of √2 and its square within 0.0001 of 2 |
| Cells.Potential | src/pl.js:75 | `max = d + h·SQRT2`: equal to d when h = 0, above d when h > 0, at most d + 1.42·h |
| Cells.NewCell | src/pl.js:70-76 | the Cell constructor keeps x, y and h, sets d to the signed distance and max to the potential |
| Cells.CompareMax | src/pl.js:66-68 | compareMax is negative, zero or positive exactly when a.max is greater than, equal to or less than b.max |
| Cells.MomentsAppend | src/pl.js:96-102 | each edge adds its own terms: the accumulators over two lists of edges are the sums of the accumulators over each |
| Cells.RotatedEdges | src/pl.js:96-98 | listing a ring from its second vertex turns its edge walk by one edge |
| Cells.RotationKeepsMoments | src/pl.js:94-103 | A, x and y do not depend on the vertex the ring is listed from, so neither does the centroid |
| Cells.AreaIsCrossSum | src/pl.js:99-102 | A is three times the sum of the edges' cross products |
| Cells.FlatRingHasNoArea | src/pl.js:94-103 | a ring on one horizontal or one vertical line gives A = 0 |
| Cells.HorizontalCrossSum | src/pl.js:99-102 | on a horizontal ring the cross products telescope |
| Cells.VerticalCrossSum | src/pl.js:99-102 | on a vertical ring the cross products telescope |
| Cells.AccumulateEdge | src/pl.js:97-102 | the loop body adds f·3 to A and (a + b)·f to x and y, with f the edge's cross product |
| Cells.NextMoments | src/pl.js:96-102 | one more loop step adds the terms of edge (points[i], points[j]) |
| Cells.GetCentroidCell | src/pl.js:94-105 | the result is the constructed cell at (x / A, y / A) with h = 0, so max = d |
| Queue.AncestorBound | src/pl.js:161-168 | in a heap, every entry's potential is at most the root's |
| Queue.HeapRootIsMax | src/pl.js:146-156 | the root of a heap has the greatest potential |
| Queue.PopContents | src/pl.js:147-150 | moving the last entry to the root and dropping the last slot removes exactly the old root from the multiset |
| Queue.TinyQueue.constructor | src/pl.js:128-136 | heapify from floor(length / 2) down to 0 gives a heap with the items' multiset and length = \|data\| |
| Queue.TinyQueue.Push | src/pl.js:141-145 | push keeps the heap, adds the item to the multiset and length, and nothing else |
| Queue.TinyQueue.Pop | src/pl.js:146-153 | pop returns the old root, the greatest potential, and removes exactly it; on an empty queue it returns nothing and changes nothing |
| Queue.TinyQueue.TakeRoot | src/pl.js:146-153 | the body of pop on a non-empty queue, with the same guarantees |
| Queue.TinyQueue.PopAsWritten | src/pl.js:146-153 | pop exactly as written: on an empty queue it leaves no entries but length −1, which breaks the queue's invariant |
| Queue.TinyQueue.Peek | src/pl.js:154-156 | peek returns the root, the greatest potential, or nothing when empty |
| Queue.TinyQueue.Up | src/pl.js:157-169 | `_up` restores the heap order from one out-of-place entry, keeping the multiset and length |
| Queue.TinyQueue.UpStep | src/pl.js:162-166 | one swap with the parent moves the defect one level up |
| Queue.TinyQueue.Down | src/pl.js:170-188 | `_down` restores the heap order below pos, keeping the multiset and length |
| Queue.TinyQueue.DownStep | src/pl.js:176-186 | one swap with the child of greatest potential moves the defect one level down |
| Queue.TinyQueue.Swap | src/pl.js:190-194 | swap exchanges entries i and j and leaves every other entry and the length alone |
| Polylabel.EffectivePrecision | src/pl.js:6 | `precision \|\| 1.0`: a missing or zero precision becomes 1.0, any other value is kept, and the result is positive when the precision is missing or ≥ 0 |
| Polylabel.BoundingBox | src/pl.js:8-15 | the box over the outer ring only contains every vertex, and each bound is attained by a vertex |
| Polylabel.FlatBoxHasNoArea | src/pl.js:17-20 | a box of zero width or height means a flat outer ring with A = 0, so with A ≠ 0 the cell size is positive |
| Polylabel.SeedStep | src/pl.js:26-27 | each step of a seeding loop advances by cellSize; the steps left, ⌊(max − v) / cellSize⌋, are nonnegative while v < max and drop by exactly one, so the loop ends |
| Polylabel.CornerIsLinear | src/pl.js:26-27 | the corner reached after j steps of `+= cellSize` is minX + j·cellSize (likewise for y) |
| Polylabel.SeedCell | src/pl.js:28 | pushes one well-formed cell of half-size h centred at (x + h, y + h) and nothing else |
| Polylabel.SeedColumn | src/pl.js:27-29 | the inner loop ends and pushes exactly one cell centred at (x + h, minY + j·cellSize + h) for every corner minY + j·cellSize below maxY |
| Polylabel.SeedGrid | src/pl.js:26-30 | the two loops end and push exactly one such column for every corner minX + i·cellSize left of maxX |
| Polylabel.FlattenAppend | src/pl.js:26-30 | the cells of one more column add to the cells queued so far |
| Polylabel.InitialGrid | src/pl.js:8-30 | a new queue holding exactly the grid of cells of side min(width, height) over the outer ring's bounding box, whose width and height are positive |
| Polylabel.QuadrantsTile | src/pl.js:50-54 | the four children's squares of half-size h / 2 cover the parent's square and lie inside it |
| Polylabel.SplitLighter | src/pl.js:50-54 | four children weigh less than a parent whose half-diagonal h·SQRT2 exceeds the precision; this drives the termination measure |
| Polylabel.SplitCell | src/pl.js:50-54 | four pushes of well-formed children at x ± h, y ± h with h = cell.h / 2, in the source's order, and nothing else is added |
| Polylabel.PushChild | src/pl.js:50-54 | one push of the child at the given quadrant centre with half-size cell.h / 2 |
| Polylabel.SplitNeedsCoarseCell | src/pl.js:41-47 | once the best has been updated, split only happens when h·SQRT2 > precision; a cell with h·SQRT2 ≤ precision is never split |
| Polylabel.LogAppend | src/pl.js:36-56 | a pass that follows the loop body's rules extends a log of such passes |
| Polylabel.BestGrows | src/pl.js:41-42 | the best distance never decreases from one pass to a later one |
| Polylabel.LogOutcome | src/pl.js:36-56 | the final best distance is at least the first guess's and every popped cell's; every dropped cell had max ≤ best + precision; every split cell had max − (best at its pass) > precision and h·SQRT2 > precision |
| Polylabel.BestBeatsProbed | src/pl.js:36-63 | the best cell's distance is at least the centroid's and every popped cell's, and every dropped cell's potential is within the precision of it |
| Polylabel.BestIsFirst | src/pl.js:41-42 | ties keep the earlier cell: a popped cell that became the best is strictly better than the first guess and than every cell popped before it |
| Polylabel.SplitCovers | src/pl.js:47-54 | every point of a split cell lies in one of its four pushed children |
| Polylabel.GridProbed | src/pl.js:26-36 | when the queue is empty every seeded grid cell has been popped |
| Polylabel.BestFirstAppend | src/pl.js:37-38 | a pass that pops a cell of greatest potential from the queue the earlier passes left extends a best-first log, and what it leaves is the queue less that cell plus its children |
| Polylabel.QueuedSince | src/pl.js:36-54 | a cell queued at pass j was already queued at an earlier pass i or was pushed by one of the passes between them |
| Polylabel.LaterPopBound | src/pl.js:37-38 | best-first order: a cell popped after pass i has no greater potential than the cell popped at pass i, unless it was pushed after pass i |
| Polylabel.PopCell | src/pl.js:38 | the popped cell has the greatest potential in the queue and leaves it, with its weight |
| Polylabel.SplitStep | src/pl.js:49-54 | the split branch adds exactly the four children of half-size cell.h / 2 at the quadrant centres, keeps every queued cell and lowers the queue's weight |
| Polylabel.Pass | src/pl.js:37-55 | one pass of the loop body keeps the loop invariant and lowers the weight: it pops a cell of greatest potential from the queue, the new queue is the old one less that cell plus its children, and the log's rules, the best cell and "every pushed cell queued or popped" are kept |
| Polylabel.PassKeepsBest | src/pl.js:41-42 | the best cell is replaced exactly when the popped cell is strictly better |
| Polylabel.Refine | src/pl.js:36-56 | the loop ends with an empty queue; every pass popped a cell of greatest potential from the queue that the seeds and the earlier passes left, and the last pass left it empty; every pass follows the rules (strict improvement, prune exactly when max − best ≤ precision, four quadrant children otherwise); the best is the first cell of greatest distance in that order; every seed and every child was popped |
| Polylabel.Polylabel | src/pl.js:5-64 | the result is the centre of the best cell: at least as good as the centroid, no popped cell better, every seeded and every split child popped, every dropped cell within the effective precision; the passes popped best first, starting from exactly the seeded grid, and drained the queue |

## Left out

- The UMD/browserify wrapper (src/pl.js:1, 126-127, 195) and `require('tinyqueue')`: module plumbing with no behaviour.
- `debug`, `console.log` and `numProbes` (src/pl.js:34, 43, 55, 58-61): output only.
- IEEE-754 doubles: the model computes over exact reals. It does not model rounding, NaN or Infinity. The seed `minDistSq = Infinity` becomes a "no edge seen yet" flag, because `Math.min(Infinity, s) = s`.
- `Math.sqrt`: it is a parameter, and only nonnegativity and monotonicity are assumed, through `SqrtLike`.
- Geometry.PointToPolygonDist: requires that some ring has a vertex. With no edges the source returns −sqrt(Infinity) = −Infinity, and the model has no infinity.
- Geometry.SegDistSqAtMostEndpoints, Geometry.SegDistSqIsLeast, Geometry.AlongIsLeast: require that a == b or that b − a has positive squared length. Every segment is one or the other. The proof that a ≠ b implies a positive squared length would need a step about squares of reals that the solver's nonlinear arithmetic does not settle here.
- Geometry.GetSegDistSq: its least-distance ensures is stated under the same condition, a == b or b − a of positive squared length, for the same reason.
- Geometry.NearestPoint: branches on the squared length `dx·dx + dy·dy > 0` where the source branches on `dx !== 0 || dy !== 0`. `NonDegenerateIff` states that the two tests agree.
- Cells.GetCentroidCell, Polylabel.Polylabel: require the outer ring's area accumulator A ≠ 0. The code divides by A without a guard, which gives NaN or Infinity at A = 0. The model follows the code and makes A ≠ 0 a precondition.
- Polylabel.Polylabel: requires a non-empty outer ring. An empty one leaves the box undefined.
- Polylabel.Polylabel: requires precision ≥ 0. With a negative precision the prune test at src/pl.js:47 still drops a cell whose potential is below the best by more than |precision|, but a cell whose potential reaches the best, such as the cell holding the current best when h > 0, is always split, so the loop would not end.
- Polylabel: the box having positive width and height is not a separate precondition. It follows from A ≠ 0 (`FlatBoxHasNoArea`).
- The pluggable comparator and `defaultCompare` (src/pl.js:133, 137-139): the queue is specialised to compareMax, the only comparator polylabel passes.
- TinyQueue's `data || []` and `instanceof` guard (src/pl.js:129, 131): construction takes a sequence of cells, and `null` is the empty sequence.
- Queue.TinyQueue.constructor: copies the items into `data` where the source keeps and heapifies the caller's array in place (src/pl.js:131, 135), so aliasing with the caller's array is not modelled. polylabel passes `null`, so nothing in the solver depends on it.
- Polylabel.Refine: does not prove that `max` bounds the distance of every point in the cell. That is a geometric fact about the Lipschitz continuity of the distance, not something the code computes. Termination is proved with a weight that decreases under splitting.
- Polylabel.Refine, Polylabel.Polylabel: the log states that each pass pops a cell of greatest potential, not which one among cells of equal potential. The source's choice among those follows the heap's layout (which index `_down` and `_up` leave where), and the model does not carry that choice into the log, so which cell wins a tie in `max` is not pinned down.
- Gulpfile.js: a build script.
- The loop bodies of `_up`, `_down`, pop, the seeding loops, the split and the refinement loop are separate methods (UpStep, DownStep, TakeRoot, SeedCell, PushChild, PopCell, SplitStep and Pass), and the bounding box and seeding part of polylabel is InitialGrid. They run the same statements in the same order.
- Polylabel.Polylabel: the reassignment of `h` at src/pl.js:50 is a local of the split (the seeding loops are over by then), so it is not a shared variable in the model.

## Findings

| source | as written | input that shows it | evidently intended | confidence | as-written member | corrected member |
|---|---|---|---|---|---|---|
| src/pl.js:146-153 | `pop` has no guard for an empty queue: it reads `data[-1]`, decrements `length` to −1 and pops the array, so an empty queue is left with length −1 | `pop()` on a queue whose length is 0 | return nothing and leave the queue unchanged, as `peek` does | not executed | Queue.TinyQueue.PopAsWritten | Queue.TinyQueue.Pop |
