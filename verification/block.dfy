/** The "bounding block" boundary of src/block.c (`bbs_block`) put
    together: choose the region, lay the grid over it, grid the points,
    classify the edges and trace them into rings. Also the size of the
    buffer the rings are written into. */
module Block {
  import opened Types
  import opened Cells
  import opened Raster
  import opened Trace
  import Pnts
  import Bounds

  /** The number of points the source allocates for `bnds`: three per
      cell plus one (src/block.c:166, 244). */
  function BndsCapacity(f: Frame): int {
    3 * f.xsize * f.ysize + 1
  }

  /** The number of points a ring can need: one per open edge plus the
      repeated first point, and a cell has at most four open edges. */
  function RingCapacity(f: Frame): int {
    4 * f.xsize * f.ysize + 1
  }

  /** Every ring the tracer writes, and a stalled partial ring, fits in
      `RingCapacity` points: a ring of n points used n - 1 edges, and all
      rings together use no more edges than the grid had open. */
  lemma RingsFit(f: Frame, g: Grid, e: EdgeGrid)
    requires f.xsize >= 0 && f.ysize >= 0
    requires Shaped(g, f.xsize, f.ysize) && Shaped(e, f.xsize, f.ysize)
    ensures var r := TraceAll(f, g, e);
            && (forall m :: 0 <= m < |r.rings| ==> 2 <= |r.rings[m]| <= RingCapacity(f))
            && (r.Hangs? ==> 2 <= |r.partial| <= RingCapacity(f))
  {
    var r := TraceAll(f, g, e);
    OpenCountBound(e, f.xsize, f.ysize);
    EdgesUsedNonNeg(r.rings);
    forall m | 0 <= m < |r.rings|
      ensures |r.rings[m]| <= RingCapacity(f)
    {
      EdgesUsedBound(r.rings, m);
    }
  }

  /** Classification leaves open edges only on cells in state 1. */
  lemma ClassifiedCoherent(f: Frame, grid: Grid, block: Grid, edges: EdgeGrid)
    requires Shaped(grid, f.xsize, f.ysize) && Shaped(block, f.xsize, f.ysize) && Shaped(edges, f.xsize, f.ysize)
    requires forall i, j :: InFrame(f, i, j) ==> edges[i][j] == ClassifiedEdges(grid, f.xsize, f.ysize, i, j)
    requires forall i, j :: InFrame(f, i, j) ==> block[i][j] == ClassifiedState(grid, f.xsize, f.ysize, i, j)
    ensures Coherent(f, block, edges)
  {
  }

  /** `bbs_block` without its reading and printing: a valid region is used
      as given, otherwise the points' bounding box; the grid has
      `trunc(|extent| / inc)` cells each way; a cell is occupied iff some
      point lands in it; the edges are those classification records; the
      rings are the trace of that grid. When the trace ends, every open
      edge was used by exactly one ring, and each ring fits in
      `RingCapacity` points. */
  method BlockBoundary(pts: seq<Point>, inc: real, region: Region)
    returns (f: Frame, grid: Grid, block: Grid, edges: EdgeGrid, r: Boundary)
    requires inc > 0.0
    requires Bounds.RegionValid(region) || |pts| >= 1
    ensures Bounds.RegionValid(region) ==> f.rgn == region
    ensures !Bounds.RegionValid(region) ==> Pnts.Tight(f.rgn, pts)
    ensures f == FrameOf(f.rgn, inc)
    ensures Shaped(grid, f.xsize, f.ysize) && Shaped(block, f.xsize, f.ysize) && Shaped(edges, f.xsize, f.ysize)
    ensures forall i, j :: InFrame(f, i, j) ==> grid[i][j] == (if Hit(f, pts, i, j) then 1 else 0)
    ensures forall i, j :: InFrame(f, i, j) ==> edges[i][j] == ClassifiedEdges(grid, f.xsize, f.ysize, i, j)
    ensures forall i, j :: InFrame(f, i, j) ==> block[i][j] == ClassifiedState(grid, f.xsize, f.ysize, i, j)
    ensures r == TraceAll(f, block, edges)
    ensures r.Rings? ==> OpenCount(r.rest) == 0 && EdgesUsed(r.rings) == OpenCount(edges)
    ensures forall m :: 0 <= m < |r.rings| ==> 2 <= |r.rings[m]| <= RingCapacity(f)
    ensures r.Hangs? ==> 2 <= |r.partial| <= RingCapacity(f)
  {
    var rgn: Region;
    if Bounds.RegionValid(region) {
      rgn := region;
    } else {
      rgn := Cells.MinMax(pts);
    }
    f := FrameOf(rgn, inc);
    grid := Rasterise(f, pts);
    block, edges := Classify(grid, f.xsize, f.ysize);
    ClassifiedCoherent(f, grid, block, edges);
    r := TraceBlock(f, block, edges);
  }

  /** The trace of a coherent grid: complete when it ends, and every ring
      fits in `RingCapacity` points. */
  method TraceBlock(f: Frame, block: Grid, edges: EdgeGrid) returns (r: Boundary)
    requires f.xsize >= 0 && f.ysize >= 0
    requires Shaped(block, f.xsize, f.ysize) && Shaped(edges, f.xsize, f.ysize)
    requires Coherent(f, block, edges)
    ensures r == TraceAll(f, block, edges)
    ensures r.Rings? ==> OpenCount(r.rest) == 0 && EdgesUsed(r.rings) == OpenCount(edges)
    ensures forall m :: 0 <= m < |r.rings| ==> 2 <= |r.rings[m]| <= RingCapacity(f)
    ensures r.Hangs? ==> 2 <= |r.partial| <= RingCapacity(f)
  {
    r := TraceAll(f, block, edges);
    RingsFit(f, block, edges);
  }

  /** The corners of the unit cell of the one-cell example. */
  const Unit := Region(0.0, 1.0, 0.0, 1.0)
  const UnitFrame := Frame(1, 1, 1.0, Unit)

  /** The ring traced around one isolated cell: its lower-left corner,
      then right, up, left and back, five points for four edges. */
  const Square := [Point(0.0, 0.0), Point(1.0, 0.0), Point(1.0, 1.0), Point(0.0, 1.0), Point(0.0, 0.0)]

  /** The points (0, 0) and (1, 1) with cell size 1 and no valid region
      give a one-by-one grid whose only cell is occupied and open on all
      four sides (the point (1, 1) falls in column 1, outside the grid). */
  lemma OneCellGrid()
    ensures var pts := [Point(0.0, 0.0), Point(1.0, 1.0)];
            && Pnts.Tight(Unit, pts)
            && FrameOf(Unit, 1.0) == UnitFrame
            && Hit(UnitFrame, pts, 0, 0)
            && ClassifiedEdges([[1]], 1, 1, 0, 0) == AllOpen
            && ClassifiedState([[1]], 1, 1, 0, 0) == 1
  {
    var pts := [Point(0.0, 0.0), Point(1.0, 1.0)];
    assert pts[0].x == Unit.xmin && pts[1].x == Unit.xmax;
    assert pts[0].y == Unit.ymin && pts[1].y == Unit.ymax;
    assert YPos(UnitFrame, pts[0]) == 0 && XPos(UnitFrame, pts[0]) == 0;
  }

  const P00 := Point(0.0, 0.0)
  const P10 := Point(1.0, 0.0)
  const P11 := Point(1.0, 1.0)
  const P01 := Point(0.0, 1.0)
  const AllOpen := Edges(true, true, true, true)

  /** The tracer states of the one-cell run: after the start, after each
      of the three sweeps. */
  const T0 := Tracer([[1]], [[Edges(false, true, true, true)]], [P00, P10], 0, 0, false)
  const T1 := Tracer([[1]], [[Edges(false, true, true, false)]], [P00, P10, P11], 0, 0, false)
  const T2 := Tracer([[1]], [[Edges(false, true, false, false)]], [P00, P10, P11, P01], 0, 0, false)
  const T3 := Tracer([[2]], [[NoEdges]], Square, 0, 0, true)

  lemma UnitCorners()
    ensures SideEnds(UnitFrame, Bottom, 0, 0) == (P00, P10)
    ensures SideEnds(UnitFrame, Left, 0, 0) == (P01, P00)
    ensures SideEnds(UnitFrame, Top, 0, 0) == (P11, P01)
    ensures SideEnds(UnitFrame, Right, 0, 0) == (P11, P10)
  {
    assert Corner(UnitFrame, 0, 0) == P00;
  }

  /** The search starts the ring on the bottom side. */
  lemma OneCellStart()
    ensures FindStart(UnitFrame, [[1]], [[AllOpen]], 0) == Some(Start(0, 0, Bottom))
    ensures Begin(UnitFrame, [[1]], [[AllOpen]], Start(0, 0, Bottom)) == T0
  {
    UnitCorners();
    var e := [[AllOpen]];
    assert ScanFrom(UnitFrame, [[1]], e, 0, 0) == Some(Start(0, 0, Bottom));
    var x := Edges(false, true, true, true);
    assert Clear(e[0][0], Bottom) == x;
    assert e[0][0 := x] == [x];
    assert e[0 := [x]] == [[x]];
  }

  /** First sweep: only the right side continues from (1, 0). */
  lemma OneCellSweep1()
    ensures Sweep(UnitFrame, T0) == T1
  {
    var f := UnitFrame;
    UnitCorners();
    assert TrySide(f, T0, 0, 0, Bottom) == T0;
    assert TrySide(f, T0, 0, 0, Left) == T0;
    assert TrySide(f, T0, 0, 0, Top) == T0;
    var x := Edges(false, true, true, false);
    assert T0.edges[0][0 := x] == [x];
    assert T0.edges[0 := [x]] == [[x]];
    assert TrySide(f, T0, 0, 0, Right) == T1;
    assert VisitCell(f, T0, 0, 0) == T1;
    assert ColLoop(f, T1, 0, 1) == T1;
    assert ColLoop(f, T0, 0, 0) == T1;
    assert RowLoop(f, T1, 1) == T1;
  }

  /** Second sweep: the top side continues from (1, 1). */
  lemma OneCellSweep2()
    ensures Sweep(UnitFrame, T1) == T2
  {
    var f := UnitFrame;
    UnitCorners();
    assert TrySide(f, T1, 0, 0, Bottom) == T1;
    assert TrySide(f, T1, 0, 0, Left) == T1;
    var x := Edges(false, true, false, false);
    assert T1.edges[0][0 := x] == [x];
    assert T1.edges[0 := [x]] == [[x]];
    assert TrySide(f, T1, 0, 0, Top) == T2;
    assert TrySide(f, T2, 0, 0, Right) == T2;
    assert VisitCell(f, T1, 0, 0) == T2;
    assert ColLoop(f, T2, 0, 1) == T2;
    assert ColLoop(f, T1, 0, 0) == T2;
    assert RowLoop(f, T2, 1) == T2;
  }

  /** Third sweep: the left side closes the ring at (0, 0) and retires
      the cell. */
  lemma OneCellSweep3()
    ensures Sweep(UnitFrame, T2) == T3
  {
    var f := UnitFrame;
    UnitCorners();
    assert TrySide(f, T2, 0, 0, Bottom) == T2;
    assert T2.edges[0][0 := NoEdges] == [NoEdges];
    assert T2.edges[0 := [NoEdges]] == [[NoEdges]];
    assert T2.block[0][0 := 2] == [2];
    assert T2.block[0 := [2]] == [[2]];
    assert T2.ring + [P00] == Square;
    assert TrySide(f, T2, 0, 0, Left) == T3;
    assert TrySide(f, T3, 0, 0, Top) == T3;
    assert TrySide(f, T3, 0, 0, Right) == T3;
    assert VisitCell(f, T2, 0, 0) == T3;
    assert ColLoop(f, T3, 0, 1) == T3;
    assert ColLoop(f, T2, 0, 0) == T3;
    assert RowLoop(f, T3, 1) == T3;
  }

  /** The three sweeps close the ring: the trace started at T0 ends
      closed in T3. */
  lemma OneCellRing()
    ensures TraceRing(UnitFrame, T0) == Closed(T3)
  {
    var f := UnitFrame;
    OneCellSweep1();
    OneCellSweep2();
    OneCellSweep3();
    assert TraceRing(f, T3) == Closed(T3);
    assert TraceRing(f, T2) == Closed(T3);
    assert TraceRing(f, T1) == Closed(T3);
  }

  /** After the square is emitted the search from row 0 finds nothing. */
  lemma OneCellDone()
    ensures Polygonize(UnitFrame, [[2]], [[NoEdges]], 0, [Square]) == Rings([Square], [[NoEdges]])
  {
    assert ScanFrom(UnitFrame, [[2]], [[NoEdges]], 0, 0) == None;
  }

  lemma OneCellRound()
    ensures FindStart(UnitFrame, [[1]], [[AllOpen]], IntOrZero(0 - 2)) == Some(Start(0, 0, Bottom))
    ensures TraceRing(UnitFrame, Begin(UnitFrame, [[1]], [[AllOpen]], Start(0, 0, Bottom))) == Closed(T3)
  {
    OneCellStart();
    OneCellRing();
    assert IntOrZero(0 - 2) == 0;
  }

  lemma OneCellShaped()
    ensures Shaped([[1]], 1, 1) && Shaped([[AllOpen]], 1, 1)
  {
    var e := [[AllOpen]];
    assert |e[0]| == 1;
  }

  lemma OneCellFirstRound()
    ensures Polygonize(UnitFrame, [[1]], [[AllOpen]], 0, []) == Polygonize(UnitFrame, [[2]], [[NoEdges]], 0, [Square])
  {
    OneCellRound();
    OneCellShaped();
    PolygonizeRound(UnitFrame, [[1]], [[AllOpen]], 0, [], Start(0, 0, Bottom), T3);
    var rings: seq<seq<Point>> := [];
    assert rings + [T3.ring] == [Square];
  }

  /** Tracing the one-cell grid yields the single five-point square and
      leaves no open edge. */
  lemma OneCellTrace()
    ensures TraceAll(UnitFrame, [[1]], [[AllOpen]]) == Rings([Square], [[NoEdges]])
  {
    OneCellFirstRound();
    OneCellDone();
  }

  /** On the one-cell grid the ring has five points, one more than the
      `3 * xsize * ysize + 1 = 4` the source allocates, while the
      corrected capacity holds it. */
  lemma OneCellOverflowsBnds()
    ensures var r := TraceAll(UnitFrame, [[1]], [[AllOpen]]);
            && |r.rings| == 1
            && |r.rings[0]| == 5 > BndsCapacity(UnitFrame) == 4
            && |r.rings[0]| <= RingCapacity(UnitFrame)
  {
    OneCellTrace();
  }

  /** A grid whose two occupied cells touch only at a corner: (0, 0) and
      (1, 1) on a two-by-two grid of unit cells.

      The lemmas from here to `DiagonalMerged` are one hand trace of the
      tracing loop (src/block.c:334-413) on this grid: `DiagonalSweep1` to
      `DiagonalSweep5` are its five sweeps, and each sweep is split into
      one lemma per row (`DiagonalRow…`) and per visited cell
      (`DiagonalVisit…`) only to keep each proof small for the solver. */
  const DiagonalFrame := Frame(2, 2, 1.0, Region(0.0, 2.0, 0.0, 2.0))
  const Diagonal: Grid := [[1, 0], [0, 1]]
  const DiagonalEdges := [[AllOpen, NoEdges], [NoEdges, AllOpen]]
  const NoneOpen := [[NoEdges, NoEdges], [NoEdges, NoEdges]]

  /** The one ring the diagonal grid traces: round the lower cell to the
      shared corner (1, 1), round the upper cell, back through (1, 1) and
      round the rest of the lower cell. */
  const DiagonalRing := [Point(0.0, 0.0), Point(1.0, 0.0), Point(1.0, 1.0), Point(2.0, 1.0), Point(2.0, 2.0),
                         Point(1.0, 2.0), Point(1.0, 1.0), Point(0.0, 1.0), Point(0.0, 0.0)]

  /** Both occupied cells are open on all four sides and stay in state 1. */
  lemma DiagonalClassified()
    ensures forall i, j :: InFrame(DiagonalFrame, i, j) ==>
              ClassifiedEdges(Diagonal, 2, 2, i, j) == DiagonalEdges[i][j]
              && ClassifiedState(Diagonal, 2, 2, i, j) == Diagonal[i][j]
  {
  }

  lemma DiagonalShaped()
    ensures Shaped(Diagonal, 2, 2) && Shaped(DiagonalEdges, 2, 2)
  {
    assert |DiagonalEdges[0]| == 2 && |DiagonalEdges[1]| == 2;
  }

  /** A tracer state of the right shape for the two-by-two frame. */
  lemma DiagonalValid(t: Tracer)
    requires |t.block| == 2 && |t.block[0]| == 2 && |t.block[1]| == 2
    requires |t.edges| == 2 && |t.edges[0]| == 2 && |t.edges[1]| == 2
    requires |t.ring| >= 1
    ensures Valid(DiagonalFrame, t)
  {
  }

  lemma DiagonalCorners()
    ensures forall i, j :: 0 <= i <= 2 && 0 <= j <= 2 ==> Corner(DiagonalFrame, i, j) == Point(j as real, i as real)
  {
  }

  /** The tracer states of the diagonal run: after the start and after
      each of the five sweeps. */
  const D0 := Tracer([[1, 0], [0, 1]], [[Edges(false, true, true, true), NoEdges], [NoEdges, AllOpen]], [Point(0.0, 0.0), Point(1.0, 0.0)], 0, 0, false)
  const D1 := Tracer([[1, 0], [0, 1]], [[Edges(false, true, true, false), NoEdges], [NoEdges, Edges(false, true, true, false)]], [Point(0.0, 0.0), Point(1.0, 0.0), Point(1.0, 1.0), Point(2.0, 1.0), Point(2.0, 2.0)], 1, 1, false)
  const D2 := Tracer([[1, 0], [0, 1]], [[Edges(false, true, true, false), NoEdges], [NoEdges, Edges(false, true, false, false)]], [Point(0.0, 0.0), Point(1.0, 0.0), Point(1.0, 1.0), Point(2.0, 1.0), Point(2.0, 2.0), Point(1.0, 2.0)], 1, 1, false)
  const D3 := Tracer([[1, 0], [0, 2]], [[Edges(false, true, true, false), NoEdges], [NoEdges, NoEdges]], [Point(0.0, 0.0), Point(1.0, 0.0), Point(1.0, 1.0), Point(2.0, 1.0), Point(2.0, 2.0), Point(1.0, 2.0), Point(1.0, 1.0)], 1, 1, false)
  const D4 := Tracer([[1, 0], [0, 2]], [[Edges(false, true, false, false), NoEdges], [NoEdges, NoEdges]], [Point(0.0, 0.0), Point(1.0, 0.0), Point(1.0, 1.0), Point(2.0, 1.0), Point(2.0, 2.0), Point(1.0, 2.0), Point(1.0, 1.0), Point(0.0, 1.0)], 0, 0, false)
  const D5 := Tracer([[2, 0], [0, 2]], NoneOpen, DiagonalRing, 0, 0, true)

  // Sweep 1: from D0 to D1.
  const D1a := Tracer([[1, 0], [0, 1]], [[Edges(false, true, true, false), NoEdges], [NoEdges, AllOpen]], [Point(0.0, 0.0), Point(1.0, 0.0), Point(1.0, 1.0)], 0, 0, false)

  lemma DiagonalVisit100()
    ensures VisitCell(DiagonalFrame, D0, 0, 0) == D1a
  {
    var f := DiagonalFrame;
    DiagonalValid(D0);
    DiagonalValid(D1a);
    DiagonalCorners();
    assert TrySide(f, D0, 0, 0, Bottom) == D0;
    assert TrySide(f, D0, 0, 0, Left) == D0;
    assert TrySide(f, D0, 0, 0, Top) == D0;
    assert D0.edges[0][0 := Edges(false, true, true, false)] == D1a.edges[0];
    assert D0.edges[0 := D1a.edges[0]] == D1a.edges;
    assert D0.ring + [Point(1.0, 1.0)] == D1a.ring;
    assert TrySide(f, D0, 0, 0, Right) == D1a;
  }

  lemma DiagonalRow10()
    ensures ColLoop(DiagonalFrame, D0, 0, 0) == D1a
  {
    var f := DiagonalFrame;
    DiagonalValid(D0);
    DiagonalValid(D1a);
    DiagonalVisit100();
    assert VisitCell(f, D1a, 0, 1) == D1a;
    assert ColLoop(f, D1a, 0, 2) == D1a;
    assert ColLoop(f, D1a, 0, 1) == D1a;
    assert ColLoop(f, D0, 0, 0) == D1a;
  }

  lemma DiagonalVisit111()
    ensures VisitCell(DiagonalFrame, D1a, 1, 1) == D1
  {
    var f := DiagonalFrame;
    DiagonalValid(D1a);
    DiagonalValid(D1);
    DiagonalCorners();
    var s1 := Tracer([[1, 0], [0, 1]], [[Edges(false, true, true, false), NoEdges], [NoEdges, Edges(false, true, true, true)]], [Point(0.0, 0.0), Point(1.0, 0.0), Point(1.0, 1.0), Point(2.0, 1.0)], 1, 1, false);
    assert D1a.edges[1][1 := Edges(false, true, true, true)] == s1.edges[1];
    assert D1a.edges[1 := s1.edges[1]] == s1.edges;
    assert D1a.ring + [Point(2.0, 1.0)] == s1.ring;
    assert TrySide(f, D1a, 1, 1, Bottom) == s1;
    assert TrySide(f, s1, 1, 1, Left) == s1;
    assert TrySide(f, s1, 1, 1, Top) == s1;
    assert s1.edges[1][1 := Edges(false, true, true, false)] == D1.edges[1];
    assert s1.edges[1 := D1.edges[1]] == D1.edges;
    assert s1.ring + [Point(2.0, 2.0)] == D1.ring;
    assert TrySide(f, s1, 1, 1, Right) == D1;
  }

  lemma DiagonalRow11()
    ensures ColLoop(DiagonalFrame, D1a, 1, 0) == D1
  {
    var f := DiagonalFrame;
    DiagonalValid(D1a);
    DiagonalValid(D1);
    assert VisitCell(f, D1a, 1, 0) == D1a;
    DiagonalVisit111();
    assert ColLoop(f, D1, 1, 2) == D1;
    assert ColLoop(f, D1a, 1, 1) == D1;
    assert ColLoop(f, D1a, 1, 0) == D1;
  }

  lemma DiagonalRows11()
    ensures RowLoop(DiagonalFrame, D1a, 1) == D1
  {
    var f := DiagonalFrame;
    DiagonalValid(D1);
    DiagonalValid(D1a);
    DiagonalRow11();
    assert RowLoop(f, D1, 2) == D1;
  }

  lemma DiagonalSweep1()
    ensures Sweep(DiagonalFrame, D0) == D1
  {
    var f := DiagonalFrame;
    DiagonalValid(D0);
    DiagonalValid(D1a);
    DiagonalRow10();
    DiagonalRows11();
    assert RowLoop(f, D0, 0) == D1;
  }

  // Sweep 2: from D1 to D2.

  lemma DiagonalVisit200()
    ensures VisitCell(DiagonalFrame, D1, 0, 0) == D1
  {
    var f := DiagonalFrame;
    DiagonalValid(D1);
    DiagonalCorners();
    assert TrySide(f, D1, 0, 0, Bottom) == D1;
    assert TrySide(f, D1, 0, 0, Left) == D1;
    assert TrySide(f, D1, 0, 0, Top) == D1;
    assert TrySide(f, D1, 0, 0, Right) == D1;
  }

  lemma DiagonalRow20()
    ensures ColLoop(DiagonalFrame, D1, 0, 0) == D1
  {
    var f := DiagonalFrame;
    DiagonalValid(D1);
    DiagonalVisit200();
    assert VisitCell(f, D1, 0, 1) == D1;
    assert ColLoop(f, D1, 0, 2) == D1;
    assert ColLoop(f, D1, 0, 1) == D1;
    assert ColLoop(f, D1, 0, 0) == D1;
  }

  lemma DiagonalVisit211()
    ensures VisitCell(DiagonalFrame, D1, 1, 1) == D2
  {
    var f := DiagonalFrame;
    DiagonalValid(D1);
    DiagonalValid(D2);
    DiagonalCorners();
    assert TrySide(f, D1, 1, 1, Bottom) == D1;
    assert TrySide(f, D1, 1, 1, Left) == D1;
    assert D1.edges[1][1 := Edges(false, true, false, false)] == D2.edges[1];
    assert D1.edges[1 := D2.edges[1]] == D2.edges;
    assert D1.ring + [Point(1.0, 2.0)] == D2.ring;
    assert TrySide(f, D1, 1, 1, Top) == D2;
    assert TrySide(f, D2, 1, 1, Right) == D2;
  }

  lemma DiagonalRow21()
    ensures ColLoop(DiagonalFrame, D1, 1, 0) == D2
  {
    var f := DiagonalFrame;
    DiagonalValid(D1);
    DiagonalValid(D2);
    assert VisitCell(f, D1, 1, 0) == D1;
    DiagonalVisit211();
    assert ColLoop(f, D2, 1, 2) == D2;
    assert ColLoop(f, D1, 1, 1) == D2;
    assert ColLoop(f, D1, 1, 0) == D2;
  }

  lemma DiagonalSweep2()
    ensures Sweep(DiagonalFrame, D1) == D2
  {
    var f := DiagonalFrame;
    DiagonalValid(D1);
    DiagonalValid(D2);
    DiagonalRow20();
    DiagonalRow21();
    assert RowLoop(f, D2, 2) == D2;
    assert RowLoop(f, D1, 1) == D2;
    assert RowLoop(f, D1, 0) == D2;
  }

  // Sweep 3: from D2 to D3.

  lemma DiagonalVisit300()
    ensures VisitCell(DiagonalFrame, D2, 0, 0) == D2
  {
    var f := DiagonalFrame;
    DiagonalValid(D2);
    DiagonalCorners();
    assert TrySide(f, D2, 0, 0, Bottom) == D2;
    assert TrySide(f, D2, 0, 0, Left) == D2;
    assert TrySide(f, D2, 0, 0, Top) == D2;
    assert TrySide(f, D2, 0, 0, Right) == D2;
  }

  lemma DiagonalRow30()
    ensures ColLoop(DiagonalFrame, D2, 0, 0) == D2
  {
    var f := DiagonalFrame;
    DiagonalValid(D2);
    DiagonalVisit300();
    assert VisitCell(f, D2, 0, 1) == D2;
    assert ColLoop(f, D2, 0, 2) == D2;
    assert ColLoop(f, D2, 0, 1) == D2;
    assert ColLoop(f, D2, 0, 0) == D2;
  }

  lemma DiagonalVisit311()
    ensures VisitCell(DiagonalFrame, D2, 1, 1) == D3
  {
    var f := DiagonalFrame;
    DiagonalValid(D2);
    DiagonalValid(D3);
    DiagonalCorners();
    assert TrySide(f, D2, 1, 1, Bottom) == D2;
    assert D2.edges[1][1 := NoEdges] == D3.edges[1];
    assert D2.edges[1 := D3.edges[1]] == D3.edges;
    assert D2.block[1][1 := 2] == D3.block[1];
    assert D2.block[1 := D3.block[1]] == D3.block;
    assert D2.ring + [Point(1.0, 1.0)] == D3.ring;
    assert TrySide(f, D2, 1, 1, Left) == D3;
    assert TrySide(f, D3, 1, 1, Top) == D3;
    assert TrySide(f, D3, 1, 1, Right) == D3;
  }

  lemma DiagonalRow31()
    ensures ColLoop(DiagonalFrame, D2, 1, 0) == D3
  {
    var f := DiagonalFrame;
    DiagonalValid(D2);
    DiagonalValid(D3);
    assert VisitCell(f, D2, 1, 0) == D2;
    DiagonalVisit311();
    assert ColLoop(f, D3, 1, 2) == D3;
    assert ColLoop(f, D2, 1, 1) == D3;
    assert ColLoop(f, D2, 1, 0) == D3;
  }

  lemma DiagonalSweep3()
    ensures Sweep(DiagonalFrame, D2) == D3
  {
    var f := DiagonalFrame;
    DiagonalValid(D2);
    DiagonalValid(D3);
    DiagonalRow30();
    DiagonalRow31();
    assert RowLoop(f, D3, 2) == D3;
    assert RowLoop(f, D2, 1) == D3;
    assert RowLoop(f, D2, 0) == D3;
  }

  // Sweep 4: from D3 to D4.

  lemma DiagonalVisit400()
    ensures VisitCell(DiagonalFrame, D3, 0, 0) == D4
  {
    var f := DiagonalFrame;
    DiagonalValid(D3);
    DiagonalValid(D4);
    DiagonalCorners();
    assert TrySide(f, D3, 0, 0, Bottom) == D3;
    assert TrySide(f, D3, 0, 0, Left) == D3;
    assert D3.edges[0][0 := Edges(false, true, false, false)] == D4.edges[0];
    assert D3.edges[0 := D4.edges[0]] == D4.edges;
    assert D3.ring + [Point(0.0, 1.0)] == D4.ring;
    assert TrySide(f, D3, 0, 0, Top) == D4;
    assert TrySide(f, D4, 0, 0, Right) == D4;
  }

  lemma DiagonalRow40()
    ensures ColLoop(DiagonalFrame, D3, 0, 0) == D4
  {
    var f := DiagonalFrame;
    DiagonalValid(D3);
    DiagonalValid(D4);
    DiagonalVisit400();
    assert VisitCell(f, D4, 0, 1) == D4;
    assert ColLoop(f, D4, 0, 2) == D4;
    assert ColLoop(f, D4, 0, 1) == D4;
    assert ColLoop(f, D3, 0, 0) == D4;
  }

  lemma DiagonalRow41()
    ensures ColLoop(DiagonalFrame, D4, 1, 0) == D4
  {
    var f := DiagonalFrame;
    DiagonalValid(D4);
    assert VisitCell(f, D4, 1, 0) == D4;
    assert VisitCell(f, D4, 1, 1) == D4;
    assert ColLoop(f, D4, 1, 2) == D4;
    assert ColLoop(f, D4, 1, 1) == D4;
    assert ColLoop(f, D4, 1, 0) == D4;
  }

  lemma DiagonalSweep4()
    ensures Sweep(DiagonalFrame, D3) == D4
  {
    var f := DiagonalFrame;
    DiagonalValid(D3);
    DiagonalValid(D4);
    DiagonalRow40();
    DiagonalRow41();
    assert RowLoop(f, D4, 2) == D4;
    assert RowLoop(f, D4, 1) == D4;
    assert RowLoop(f, D3, 0) == D4;
  }

  // Sweep 5: from D4 to D5.

  lemma DiagonalVisit500()
    ensures VisitCell(DiagonalFrame, D4, 0, 0) == D5
  {
    var f := DiagonalFrame;
    DiagonalValid(D4);
    DiagonalValid(D5);
    DiagonalCorners();
    assert TrySide(f, D4, 0, 0, Bottom) == D4;
    assert D4.edges[0][0 := NoEdges] == D5.edges[0];
    assert D4.edges[0 := D5.edges[0]] == D5.edges;
    assert D4.block[0][0 := 2] == D5.block[0];
    assert D4.block[0 := D5.block[0]] == D5.block;
    assert D4.ring + [Point(0.0, 0.0)] == D5.ring;
    assert TrySide(f, D4, 0, 0, Left) == D5;
    assert TrySide(f, D5, 0, 0, Top) == D5;
    assert TrySide(f, D5, 0, 0, Right) == D5;
  }

  lemma DiagonalRow50()
    ensures ColLoop(DiagonalFrame, D4, 0, 0) == D5
  {
    var f := DiagonalFrame;
    DiagonalValid(D4);
    DiagonalValid(D5);
    DiagonalVisit500();
    assert VisitCell(f, D5, 0, 1) == D5;
    assert ColLoop(f, D5, 0, 2) == D5;
    assert ColLoop(f, D5, 0, 1) == D5;
    assert ColLoop(f, D4, 0, 0) == D5;
  }

  lemma DiagonalRow51()
    ensures ColLoop(DiagonalFrame, D5, 1, 0) == D5
  {
    var f := DiagonalFrame;
    DiagonalValid(D5);
    assert VisitCell(f, D5, 1, 0) == D5;
    assert VisitCell(f, D5, 1, 1) == D5;
    assert ColLoop(f, D5, 1, 2) == D5;
    assert ColLoop(f, D5, 1, 1) == D5;
    assert ColLoop(f, D5, 1, 0) == D5;
  }

  lemma DiagonalSweep5()
    ensures Sweep(DiagonalFrame, D4) == D5
  {
    var f := DiagonalFrame;
    DiagonalValid(D4);
    DiagonalValid(D5);
    DiagonalRow50();
    DiagonalRow51();
    assert RowLoop(f, D5, 2) == D5;
    assert RowLoop(f, D5, 1) == D5;
    assert RowLoop(f, D4, 0) == D5;
  }

  /** The search starts on the bottom side of the lower cell. */
  lemma DiagonalStart()
    ensures FindStart(DiagonalFrame, Diagonal, DiagonalEdges, 0) == Some(Start(0, 0, Bottom))
    ensures Begin(DiagonalFrame, Diagonal, DiagonalEdges, Start(0, 0, Bottom)) == D0
  {
    DiagonalCorners();
    var e := DiagonalEdges;
    assert ScanFrom(DiagonalFrame, Diagonal, e, 0, 0) == Some(Start(0, 0, Bottom));
    var x := Edges(false, true, true, true);
    assert Clear(e[0][0], Bottom) == x;
    assert e[0][0 := x] == D0.edges[0];
    assert e[0 := D0.edges[0]] == D0.edges;
  }

  /** The five sweeps close the ring at (0, 0). */
  lemma DiagonalRingCloses()
    ensures TraceRing(DiagonalFrame, D0) == Closed(D5)
  {
    var f := DiagonalFrame;
    DiagonalSweep1();
    DiagonalSweep2();
    DiagonalSweep3();
    DiagonalSweep4();
    DiagonalSweep5();
    assert TraceRing(f, D5) == Closed(D5);
    assert TraceRing(f, D4) == Closed(D5);
    assert TraceRing(f, D3) == Closed(D5);
    assert TraceRing(f, D2) == Closed(D5);
    assert TraceRing(f, D1) == Closed(D5);
  }

  /** After the ring is emitted the search finds nothing. */
  lemma DiagonalDone()
    ensures Polygonize(DiagonalFrame, D5.block, NoneOpen, 0, [DiagonalRing]) == Rings([DiagonalRing], NoneOpen)
  {
    assert ScanFrom(DiagonalFrame, D5.block, NoneOpen, 0, 0) == None;
  }

  /** The search finds the bottom of the lower cell, the ring closes,
      and the search that follows finds nothing. */
  lemma DiagonalRound()
    ensures FindStart(DiagonalFrame, Diagonal, DiagonalEdges, IntOrZero(0 - 2)) == Some(Start(0, 0, Bottom))
    ensures TraceRing(DiagonalFrame, Begin(DiagonalFrame, Diagonal, DiagonalEdges, Start(0, 0, Bottom))) == Closed(D5)
  {
    DiagonalStart();
    DiagonalRingCloses();
    assert IntOrZero(0 - 2) == 0;
  }

  lemma DiagonalFirstRound()
    ensures Polygonize(DiagonalFrame, Diagonal, DiagonalEdges, 0, [])
            == Polygonize(DiagonalFrame, D5.block, NoneOpen, 0, [DiagonalRing])
  {
    DiagonalRound();
    DiagonalShaped();
    PolygonizeRound(DiagonalFrame, Diagonal, DiagonalEdges, 0, [], Start(0, 0, Bottom), D5);
    var rings: seq<seq<Point>> := [];
    assert rings + [DiagonalRing] == [DiagonalRing];
  }

  lemma DiagonalPolygon()
    ensures Polygonize(DiagonalFrame, Diagonal, DiagonalEdges, 0, []) == Rings([DiagonalRing], NoneOpen)
  {
    DiagonalFirstRound();
    DiagonalDone();
  }

  /** Tracing the diagonal grid from scratch. */
  lemma DiagonalTrace()
    ensures TraceAll(DiagonalFrame, Diagonal, DiagonalEdges) == Rings([DiagonalRing], NoneOpen)
  {
    DiagonalPolygon();
  }

  lemma NoneOpenEmpty()
    ensures OpenCount(NoneOpen) == 0
  {
    OpenCountZero(NoneOpen);
  }

  /** The diagonal ring is closed and visits the shared corner twice. */
  lemma DiagonalRingPinched()
    ensures |DiagonalRing| == 9 && DiagonalRing[0] == DiagonalRing[8]
    ensures DiagonalRing[2] == DiagonalRing[6] == Point(1.0, 1.0)
  {
  }

  /** Cells that touch only at a corner are not traced apart: the diagonal
      grid gives one nine-point ring that passes through the shared corner
      twice, and no open edge is left. */
  lemma DiagonalMerged()
    ensures TraceAll(DiagonalFrame, Diagonal, DiagonalEdges) == Rings([DiagonalRing], NoneOpen)
    ensures OpenCount(NoneOpen) == 0
    ensures |DiagonalRing| == 9 && DiagonalRing[0] == DiagonalRing[8]
    ensures DiagonalRing[2] == DiagonalRing[6] == Point(1.0, 1.0)
  {
    DiagonalTrace();
    NoneOpenEmpty();
    DiagonalRingPinched();
  }
}
