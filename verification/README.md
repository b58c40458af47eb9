# bounds: boundary extraction, modelled in Dafny

`bounds` reads x/y point records and prints a boundary around them: a
bounding box, a convex hull, a concave hull, or a "bounding block". The
bounding block lays a grid over the points and traces the edges of the
occupied cells into closed rings. This project models the logic behind
those boundaries, with reading and printing taken out, and proves
properties of the model. Coordinates are exact `real`s.

The modules follow the source files:

- `Types`: points, regions, segments, `Option`, FLT_EPSILON, INT_MAX, and
  C's truncating double-to-int conversion.
- `Pnts` (src/pnts.c): the region fold `minmax` and the field assignment of
  `read_point`.
- `Cells` (src/block.c): the helpers `minmax`, `pnts_equal_p`, the
  integer clamps, `pixel_to_point`, `g_edges_p` and `pl_match`.
- `Raster` (src/block.c, `bbs_block`): grid size, gridding the points and
  edge classification. There are also counting lemmas on open edges.
- `Trace` (src/block.c, `bbs_block`): the start-edge search and the
  neighbourhood tracing loop.
  - Both are written as a state machine over the grids.
  - The model's tracing loop ends: each sweep consumes an open edge, or
    the loop stops as `Stalled` where the source's would run for ever.
  - On a classified grid, when the outer loop ends every open edge has
    gone into exactly one ring.
- `Block`: the whole of `bbs_block`, plus two worked examples: one
  isolated cell, and two cells that touch at a corner.
- `Hull` (src/hull.c): `ccw`, `intersect`, `inside` and the monotone-chain
  `mc_convex`.
- `Bounds` (src/bounds.c): the qsort comparators, `region_valid_p`,
  `qadd`, and the bounding-box branch of `main`.
- `Concave` (src/bounds.c): the concave-hull retry loop of `main`.
  - `dpw_concave`, `inside_p` and `pw_convex` enter as functions of an
    `Oracles` value.
  - The distance is a double. It doubles exactly until it overflows to
    +infinity past DBL_MAX, and that overflow is what triggers the convex
    fallback.

Where the code and its description differ, the model follows the code:

- `compare` and `sort_min_x` compare x alone. They have no y tie-break.
- `bbs_block` allocates `3 * xsize * ysize + 1` boundary points. A ring can
  need one more (see Findings).
- The tracer treats cells that touch only at a corner as one shape. For
  the grid [[1, 0], [0, 1]] it emits ONE nine-point ring, (0,0), (1,0),
  (1,1), (2,1), (2,2), (1,2), (1,1), (0,1), (0,0), that passes through
  the shared corner twice (`Block.DiagonalMerged`), not two squares.
- In the concave driver, a distance that is zero after `qadd` (all points on
  one horizontal or vertical line) gives hull size 0, which is the first
  point alone.
- The `dist == NAN` test can never be true. The `dist < 0` test cannot fire
  inside the loop, because only a positive distance enters it.
- `bounds.c` calls `inside_p`, which src/hull.c does not define (it defines
  `inside`, with an extra distance argument). The model treats `inside_p`
  as an oracle and models `inside` separately.

## Model

| member | source | states |
|---|---|---|
| Pnts.TightUnique | src/pnts.c:89-105 | two regions that both bracket a point set and are both attained by it are equal, so the box of a set is unique |
| Pnts.Seed | src/pnts.c:94-97 | the region seeded from one point is that point's bounding box |
| Pnts.WidenExtends | src/pnts.c:98-103 | widening the box of the first i points by point i (with the `<=`/`>=` tests) gives the box of the first i+1 points |
| Pnts.MinMax | src/pnts.c:89-105 | with no points the region is left as it was; otherwise the result brackets every point and each bound is attained by some point |
| Pnts.LastSlot | src/pnts.c:74-79 | the slot that decides a field is the last record letter equal to it among those with a token, or none if no such letter exists |
| Pnts.AssignFields | src/pnts.c:73-81 | x and y take the value of the token at the last 'x' / 'y' letter that has a token; a field whose letter has no token keeps its previous value; other letters are ignored |
| Pnts.SlotStep | src/pnts.c:74-81 | one more letter in the layout changes the deciding slot only when it names that field and has a token |
| Pnts.SlotPrefix | src/pnts.c:74-76 | the deciding slot depends only on the letters that have tokens |
| Pnts.ReadPoint | src/pnts.c:60-83 | at end of input the status is -1 and the point is untouched; otherwise the status is 0 and the fields are assigned as by `AssignFields` |
| Cells.MinMax | src/block.c:19-38 | for at least one point, the region brackets every point and each bound is some point's coordinate |
| Cells.PntsEqualReflexiveSymmetric | src/block.c:42-50 | `pnts_equal_p` holds iff both coordinate differences are at most FLT_EPSILON; it is reflexive and symmetric |
| Cells.PntsEqualNotTransitive | src/block.c:42-50 | three points 2/3 FLT_EPSILON apart show that `pnts_equal_p` is not transitive |
| Cells.IntInRangeMeaning | src/block.c:54-62 | `int_in_range` holds iff min <= v <= max |
| Cells.IntOrZero | src/block.c:66-71 | the result is at least 0, and equals v when v >= 0 |
| Cells.IntOrMin | src/block.c:73-78 | the result is at least min, and equals v when v >= min |
| Cells.IntOrMax | src/block.c:82-87 | the result is at most max, and equals v when v <= max |
| Cells.LatticeMatch | src/block.c:91-98 | for a cell size above FLT_EPSILON, two `pixel_to_point` corners match under `pnts_equal_p` iff they are the same lattice corner |
| Cells.ApartByCells | src/block.c:91-98 | a non-zero whole number of cells is more than FLT_EPSILON apart |
| Cells.Clear | src/block.c:293 | clearing one side flag leaves the other three as they were |
| Cells.HasEdgeMeaning | src/block.c:102-115 | `g_edges_p` holds iff some side flag is set, that is iff the flags are not all clear |
| Cells.PlMatch | src/block.c:119-128 | 1 iff p1 matches p2; 2 iff it does not and p1 matches p3; 0 iff it matches neither |
| Raster.CellsAcross | src/block.c:164-165 | the number of cells along an axis is the truncation of \|extent\| / inc; it is non-negative and at most \|extent\| / inc |
| Raster.FrameOf | src/block.c:164-165 | the grid keeps the region and cell size; both dimensions are at most the extent over the cell size |
| Raster.IndexIsFloorInside | src/block.c:212-216 | for a point inside the region, the truncated index is the floor of the offset over the cell size |
| Raster.FringeLandsInFirstCell | src/block.c:228-232 | a point less than one cell left of or below the region truncates to index 0 and is gridded into the first cell |
| Raster.Mark | src/block.c:228-232 | a point whose truncated indices are in the grid sets that cell to 1 and changes nothing else; any other point changes nothing |
| Raster.Rasterise | src/block.c:200-234 | the grid has ysize rows of xsize cells; a cell is 1 iff some point's truncated indices land on it, otherwise 0 |
| Raster.Classify | src/block.c:255-275 | on a 1-cell each side flag is set iff the cell is on that border or its neighbour on that side is 0 in the input grid; the cell becomes 2 iff no flag is set; every other cell keeps its value and has no flag |
| Raster.MarkSides | src/block.c:257-269 | the four neighbour tests, made against the grid as classification has left it so far, mark exactly the open sides of the cell in the input grid |
| Raster.ZeroKept | src/block.c:257-274 | a grid that differs from the input only by turning 1-cells into 2 has the same 0-cells, so the in-place neighbour tests see the input's empty cells |
| Raster.ClearCount | src/block.c:293 | clearing a set flag lowers the cell's open-edge count by one |
| Raster.OpenCountUpdate | src/block.c:352 | replacing one cell changes the grid's open-edge count by the difference of the two cells' counts |
| Raster.ClearOne | src/block.c:352 | clearing one set flag in the grid lowers the open-edge count by exactly one |
| Raster.RowCountZero | src/block.c:102-115 | a row's open-edge count is 0 iff no cell in it has a set flag |
| Raster.OpenCountZero | src/block.c:102-115 | the grid's open-edge count is 0 iff no cell has a set flag |
| Raster.OpenCountBound | src/block.c:255-275 | a grid of xsize by ysize cells has at most 4 * xsize * ysize open edges |
| Trace.SideEndsOnLattice | src/block.c:288-319 | the two ends of each side are the lattice corners of the cell given by `pixel_to_point`, offset by inc as in the source |
| Trace.Take | src/block.c:346-355 | taking a side appends its far corner, clears only that flag, makes the cell 2 iff it has no flag left, moves lxi and lyi to the cell, leaves done set iff it was set or the edge also touches the ring's first point, and lowers the open-edge count by one |
| Trace.ClearKeeps | src/block.c:352-355 | clearing one flag changes only that flag and retires only that cell, and only when it has no flag left; so no flag appears and a grid whose flagged cells are all 1 stays so |
| Trace.StepTrans | src/block.c:334-413 | two tracer steps in a row make one: prefix, edge accounting, done and coherence all compose |
| Trace.TrySide | src/block.c:340-357 | a side is taken, as `Take` states, exactly when its flag is set and one of its corners matches the ring's last point; otherwise nothing changes; either way the ring keeps its prefix and grows by exactly the edges consumed, nothing changes unless it grows, done is never reset, no cell without a flag gains one, and a grid whose flagged cells are all 1 stays so |
| Trace.VisitCell | src/block.c:338-411 | a cell that is not 1 is skipped; the four side tests in order: the ring keeps its prefix and grows by exactly the edges consumed, nothing changes unless it grows, done is never reset, no cell without a flag gains one, and a grid whose flagged cells are all 1 stays so |
| Trace.ColLoop | src/block.c:337 | the column loop, with its bound `int_or_max(lxi + 2, xsize)` re-read after each cell: the ring keeps its prefix and grows by exactly the edges consumed, nothing changes unless it grows, done is never reset, no cell without a flag gains one, and a grid whose flagged cells are all 1 stays so |
| Trace.RowLoop | src/block.c:336-337 | the row loop, with its bounds re-read: the ring keeps its prefix and grows by exactly the edges consumed, nothing changes unless it grows, done is never reset, no cell without a flag gains one, and a grid whose flagged cells are all 1 stays so |
| Trace.Sweep | src/block.c:336-412 | one pass over the neighbourhood of the last cell: the ring keeps its prefix and grows by exactly the edges consumed, nothing changes unless it grows, done is never reset, no cell without a flag gains one, and a grid whose flagged cells are all 1 stays so |
| Trace.TraceRing | src/block.c:334-413 | the tracing loop either sets done, or reaches a state that the next sweep leaves unchanged, where the source loops for ever; overall the ring keeps its prefix and grows by exactly the edges consumed, nothing changes unless it grows, done is never reset, no cell without a flag gains one, and a grid whose flagged cells are all 1 stays so |
| Trace.FirstSide | src/block.c:288-319 | the side chosen in a cell is the first set flag in the order bottom, left, top, right, and none iff no flag is set |
| Trace.ScanFrom | src/block.c:284-320 | the search returns the first 1-cell with a set flag in row-major order from the given position, with its first side; none iff no such cell remains |
| Trace.FindStart | src/block.c:284-323 | the start is the first row-major 1-cell with a flag at or after the starting row; with no such cell the search reports none, which ends the tracing |
| Trace.Begin | src/block.c:288-319 | the new ring holds the chosen side's two corners, only that flag is cleared, the open-edge count drops by one, no flag is set and a coherent grid stays coherent |
| Trace.EdgesUsedBound | src/block.c:353 | each ring's length is at most the edges used by all rings plus one |
| Trace.Polygonize | src/block.c:280-441 | the rings already emitted stay, in order, at the front of the result |
| Trace.PolygonizeSizes | src/block.c:280-441 | every emitted ring has at least two points |
| Trace.PolygonizeStallSize | src/block.c:334-413 | a ring whose tracing stalls has at least two points |
| Trace.PolygonizeAccounts | src/block.c:280-441 | when the outer loop ends, the edges used by the rings plus the open edges left equal the open edges at the start |
| Trace.PolygonizeStallAccounts | src/block.c:280-441 | when a ring stalls, the rings, the partial ring and the open edges left still account for every open edge at the start |
| Trace.PolygonizeRound | src/block.c:280-441 | a round that finds a start and closes its ring emits that ring and continues the search from the start's row |
| Trace.SearchExhausted | src/block.c:284-323 | on a grid whose flagged cells are all 1, with no flag below row fyi, a search from `int_or_zero(fyi - 2)` that finds nothing means no open edge is left |
| Trace.StartIsLowest | src/block.c:284-294 | on a grid whose flagged cells are all 1 and whose rows below fyi are clear, every row below the start found is clear too |
| Trace.PolygonizeComplete | src/block.c:280-441 | on a grid whose flagged cells are all 1 and whose rows below fyi are clear, an outer loop that ends leaves no open edge |
| Trace.TraceAll | src/block.c:280-441 | the trace from scratch: rings of at least two points, a stalled ring of at least two points, every open edge accounted for; on a classified (coherent) grid, when it ends no open edge is left and the rings used every one |
| Block.RingsFit | src/block.c:243-244 | every traced ring, and a stalled partial ring, has between 2 and 4 * xsize * ysize + 1 points |
| Block.ClassifiedCoherent | src/block.c:255-275 | after classification every cell with a set flag is 1 |
| Block.TraceBlock | src/block.c:280-441 | tracing a grid whose flagged cells are all 1: when it ends no open edge is left and the rings used every one, and each ring fits in 4 * xsize * ysize + 1 points |
| Block.BlockBoundary | src/block.c:134-441 | a valid region is used as given, otherwise the points' bounding box; the grid has the truncated cell counts; a cell is 1 iff a point lands in it; the flags and states are the classification of that grid; the rings are the trace of it, which, when it ends, leaves no open edge and used every one; every ring fits in 4 * xsize * ysize + 1 points |
| Block.OneCellGrid | src/block.c:148-275 | the points (0,0) and (1,1) with cell size 1 give a one-by-one grid whose cell is 1 and open on all four sides |
| Block.OneCellStart | src/block.c:284-294 | on that grid the search starts on the bottom side of cell (0,0) |
| Block.OneCellRing | src/block.c:334-413 | from that start, three sweeps take the right, top and left sides and close the square |
| Block.OneCellTrace | src/block.c:280-441 | tracing that grid yields the one closed five-point square and leaves no open edge |
| Block.OneCellOverflowsBnds | src/block.c:166 | that ring has 5 points, one more than the 3 * xsize * ysize + 1 = 4 points allocated |
| Block.DiagonalClassified | src/block.c:255-275 | on the grid [[1, 0], [0, 1]] both occupied cells are open on all four sides and stay 1, and the empty cells have no flag |
| Block.DiagonalStart | src/block.c:284-294 | on that grid the search starts on the bottom side of cell (0, 0) |
| Block.DiagonalRingCloses | src/block.c:334-413 | from that start, five sweeps go round the lower cell to the shared corner, round the upper cell, and back through the shared corner to (0, 0) |
| Block.DiagonalPolygon | src/block.c:280-441 | the outer loop emits that one ring and then finds no further start |
| Block.DiagonalMerged | src/block.c:280-441 | cells that touch only at a corner are traced as one ring: [[1, 0], [0, 1]] gives a single nine-point ring that passes through (1, 1) twice, and no open edge is left |
| Hull.Ccw | src/hull.c:75-78 | the signed area is 0 when two of the three points coincide |
| Hull.CcwSymmetries | src/hull.c:75-78 | swapping the last two points negates ccw; rotating the three points leaves it unchanged |
| Hull.CcwCollinear | src/hull.c:75-78 | three points on a common line have ccw 0 |
| Hull.Intersect | src/hull.c:80-90 | 1 iff both cross products are below -thresh; 0 iff not 1 and either product lies in [-thresh, thresh]; -1 iff neither holds |
| Hull.IntersectSymmetric | src/hull.c:82-89 | swapping the two segments gives the same result |
| Hull.IntersectReversed | src/hull.c:82-89 | reversing either segment gives the same result |
| Hull.IntersectIsProper | src/hull.c:86 | with a non-negative threshold, result 1 means each segment's ends lie strictly on opposite sides of the other segment's line |
| Hull.IntersectTouch | src/hull.c:87-88 | an endpoint of one segment on the other segment's line gives 0 |
| Hull.Crossings | src/hull.c:121-128 | the number of crossing edges is at most the number of edges examined |
| Hull.Inside | src/hull.c:110-130 | the result is 0 or 1; it is 1 when some edge gives 0 against the ray to INT_MAX, otherwise the parity of the edges that give 1 |
| Hull.SquareCentreCrossedOnce | src/hull.c:110-130 | the centre of the unit square is inside: the ray crosses its right edge only |
| Hull.SquareRightNotCrossed | src/hull.c:110-130 | the point (2, 0.5) is outside the unit square: no edge is crossed |
| Hull.PrefixKeeps | src/hull.c:207-216 | cutting a chain back keeps the left turns and the x order of what remains |
| Hull.PushKeeps | src/hull.c:209 | pushing a point that turns left after the top keeps all left turns and the x order |
| Hull.Pop | src/hull.c:208 | the pop loop only removes entries, never below the floor t - 1, and stops at a left turn or at the floor |
| Hull.LowerStep | src/hull.c:207-210 | one pass of the lower loop keeps the lower-chain invariant |
| Hull.Lower | src/hull.c:207-210 | the lower chain starts at point 0 and ends at point n - 1, every three consecutive entries turn left, and its indices rise |
| Hull.UpperStep | src/hull.c:213-216 | one pass of the upper loop keeps the upper-chain invariant |
| Hull.Upper | src/hull.c:213-216 | the upper loop never pops below the lower chain, and it ends at point 0 |
| Hull.McConvex | src/hull.c:199-220 | every entry is an input index; for n >= 1 points there are at most 2n - 1 entries; for two or more points the hull has at least 3 entries and is closed at point 0 at both ends; the lower chain is kept as a prefix; from the last lower-chain entry on every three consecutive entries turn left and the indices fall (`HullTurnsLeft` adds the lower chain) |
| Hull.HullTurnsLeft | src/hull.c:207-216 | every three consecutive hull entries turn left, except the triple whose last entry is the first one after the lower chain |
| Bounds.Order | src/bounds.c:84-96 | the three-way result is -1, 1 or 0 exactly when the first value is below, above or equal to the second |
| Bounds.CompareByXOnly | src/bounds.c:84-96 | `compare` and `sort_min_x` agree, look at x alone (0 exactly when the x values are equal, whatever the y), and are antisymmetric and transitive |
| Bounds.SortMinYByYOnly | src/bounds.c:98-110 | `sort_min_y` orders by y alone and is antisymmetric and transitive |
| Bounds.DescendingIsNegated | src/bounds.c:112-138 | `sort_max_y` is `sort_min_y` negated, and `sort_max_x` is `compare` negated |
| Bounds.RegionValidMeaning | src/bounds.c:154-164 | `region_valid_p` holds iff xmin < xmax and ymin < ymax |
| Bounds.Extremes | src/bounds.c:175-181 | the four indices are in range, and the region they span is the points' bounding box |
| Bounds.Qadd | src/bounds.c:169-188 | the result is non-negative, and times the number of points equals the area of the bounding box |
| Bounds.Skipped | src/bounds.c:518-519 | no record is skipped for sl <= 0, otherwise min(sl, n) records are skipped |
| Bounds.Include | src/bounds.c:523-540 | the first counted record seeds the box; each later one widens it as `minmax` would |
| Bounds.IncludeExtends | src/bounds.c:516-545 | folding in the next record keeps the running values the box of the counted records |
| Bounds.BoundingBox | src/bounds.c:516-545 | the first sl records are skipped, and the rest are counted; the values are set iff something was counted, and they are then the box of the counted records |
| Bounds.BoxRing | src/bounds.c:547-561 | the five emitted points start and end at (xmin, ymin), move along one axis at a time, and lie on the box's corners |
| Bounds.BoxRingIsTight | src/bounds.c:547-561 | the emitted ring visits all four corners, so its own box is the region |
| Concave.AsDouble | src/bounds.c:471 | a value stays finite iff it is at most DBL_MAX |
| Concave.Twice | src/bounds.c:471 | `dist += dist` is exact doubling while finite, and +infinity stays +infinity |
| Concave.DoubledValue | src/bounds.c:471 | k doublings without overflow multiply the distance by 2^k |
| Concave.Verdict | src/bounds.c:460-466 | a found hull is kept iff every point after it is inside it; otherwise the size becomes -1 |
| Concave.CheckGathered | src/bounds.c:460-466 | the check loop, which stops at the first point outside, gives `Verdict` |
| Concave.Judged | src/bounds.c:450-466 | the checked hull at a distance keeps the point count |
| Concave.Step | src/bounds.c:448-486 | one pass keeps the point count and keeps the distance positive, so the `dist < 0` fallback never fires |
| Concave.FloorHalves | src/bounds.c:471 | doubling a positive distance within a bound lowers the floor of bound over distance |
| Concave.HeadroomShrinks | src/bounds.c:471 | a doubling that stays finite brings the distance closer to overflow |
| Concave.DoubledShift | src/bounds.c:471 | doubling once and then k more times is doubling k + 1 times |
| Concave.Shift | src/bounds.c:469-472 | a rejected round in front of a loop run keeps `Chosen` with one more doubling |
| Concave.Run | src/bounds.c:448-486 | every distance tried before the last was rejected; a finite last distance is the first doubling whose hull is accepted; at +infinity the answer is `pw_convex`'s, and the loop spins for ever iff that is -1 |
| Concave.InfiniteStays | src/bounds.c:471 | once the distance is infinite, further doubling keeps it infinite |
| Concave.StopsBeforeFallback | src/bounds.c:448-486 | if some finite doubling of the start distance is accepted, the loop stops at a finite distance no later than that, without the convex fallback |
| Concave.ConcaveBoundary | src/bounds.c:429-487 | a negative distance, or a zero `qadd` area, or no distance and no points (where `qadd` is 0/0), gives hull size 0 without entering the loop; a zero distance is replaced by area / n; a positive finite one runs the loop with the guarantees of `Run`; an infinite one ends with `pw_convex`'s answer, spinning iff that is -1 |

## Left out

- Argument parsing, usage text, and GMT/GeoJSON/plain-text printing of
  every branch. The bounding-box JSON writes `],,` after its first point,
  which is an output quirk outside the model.
- File and stream input: `fgets`, `strtok` and `load_pnts`. A record is
  given as its token list, and `atof` is a function parameter.
- Allocation, freeing, and exit on allocation failure.
- The angle and distance code on `atan2`/`sqrt`: `dist_euclid`, `atheta`
  and `theta`. For the same reason `dpw_concave` and `pw_convex` are
  oracles, and so is `inside_p`, which src/hull.c does not define.
- The deprecated, unused `intersectp`.
- The convex-hull branch's fixed `hull0[MAX_HULLS]` buffer
  (src/bounds.c:202, with `MAX_HULLS` 100000 at src/bounds.h:26). The
  model has no buffer. `Hull.McConvex` states the up to 2n - 1 entries it
  must hold, so more than 50000 points can overrun it.
- C's 32-bit `int`: the cell counts `int ysize/xsize = fabs(...)`
  (src/block.c:164-165) are undefined past INT_MAX, the buffer size
  `(xsize * ysize) * 3` (src/block.c:166) is multiplied in `int` before it
  is widened to `ssize_t`, and the cell indices `xpos`, `ypos` are `int`
  conversions (src/block.c:212-213, 228-229). The model's integers are
  unbounded, so it states none of these overflows.
- Concave.ConcaveBoundary: a distance of -infinity or NaN (`atof` of a
  non-number at src/bounds.c:288 gives 0, but `nan` parses to NaN) is not
  representable; the source sends both down the hull-size-0 branch, as
  the model does for any negative distance. With no points and no
  distance, `qadd`'s 0/0 is NaN (src/bounds.c:184-187); the model returns
  hull size 0 as the source does, but records the distance as 0 rather
  than NaN.
- Floating-point rounding. Coordinates, `qadd` and the cell indices are
  exact. The concave distance is exact below DBL_MAX, which is faithful
  because doubling a double is exact.
- Bounds.Qadd, Cells.MinMax, Block.BlockBoundary: require at least one point
  (without a valid region, for `bbs_block`). The source reads `points[0]`
  there even when there are none.
- Raster.Classify: the source never clears `edgearray` after allocating it.
  The model starts every flag false, and flags of cells that are not 1 stay
  false.
- Trace.TraceRing: a `Closed` ring is not proved to end at its first
  point. `done` is set when an appended edge touches the first point, but
  the sweep goes on to the end of its neighbourhood and may append more
  edges after that. The model states only what `done` means.
- Trace.TraceRing: where the source's `while (done == 0)` loops for ever
  because a sweep takes no edge, the model stops with the `Stalled` outcome,
  and states that a further sweep changes nothing.
- Concave.Run: where the source loops for ever because `pw_convex` returned
  -1 at infinite distance, the model stops with the `Spins` outcome, and
  states that a further pass changes nothing.
- Hull.McConvex: the left-turn property leaves out the triple at the
  junction of the two chains. Three collinear points give the hull
  [0, 2, 0], whose one triple turns by 0.
- Hull.Inside: the ray end is (INT_MAX, y) as in the source. Points beyond
  x = INT_MAX are not treated specially.

## Findings

| source | as written | input that shows it | evidently intended | confidence | as-written member | corrected member |
|---|---|---|---|---|---|---|
| src/block.c:166 | the boundary buffer `bnds` holds `3 * xsize * ysize + 1` points | the points (0,0) and (1,1) with cell size 1 give one isolated cell, whose ring has 5 points and overruns the 4 allocated | room for one point per open edge plus the closing point, `4 * xsize * ysize + 1` | not executed | Block.OneCellOverflowsBnds | Block.RingsFit |
