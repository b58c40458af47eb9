/** The grid half of the block boundary (src/block.c, `bbs_block`): grid
    dimensions, rasterising points into cells, classifying each occupied
    cell's open edges, and counting the open edges that are left. The C
    arrays `blockarray[row][col]` and `edgearray[row][col]` are sequences of
    rows here. */
module Raster {
  import opened Types
  import opened Cells

  /** Cell states: 0 empty, 1 occupied with open edges to trace, 2 done. */
  type Grid = seq<seq<int>>

  type EdgeGrid = seq<seq<Edges>>

  /** The grid a boundary is built on: `xsize` columns, `ysize` rows of
      cells of side `inc`, with cell (0, 0) at the lower-left of `rgn`. */
  datatype Frame = Frame(xsize: int, ysize: int, inc: real, rgn: Region)

  /** Every row has `xs` cells and there are `ys` rows. */
  ghost predicate Shaped<T>(g: seq<seq<T>>, xs: int, ys: int) {
    |g| == ys && forall i :: 0 <= i < |g| ==> |g[i]| == xs
  }

  predicate InFrame(f: Frame, i: int, j: int) {
    0 <= i < f.ysize && 0 <= j < f.xsize
  }

  /** Number of whole cells across an extent: `fabs(extent / inc)` stored
      into an int. */
  function CellsAcross(lo: real, hi: real, inc: real): (n: int)
    requires inc > 0.0
    ensures n >= 0
    ensures n as real <= Abs(hi - lo) / inc < n as real + 1.0
  {
    DivPos(hi - lo, inc);
    DivPos(Abs(hi - lo), inc);
    assert Abs((hi - lo) / inc) == Abs(hi - lo) / inc;
    Trunc(Abs((hi - lo) / inc))
  }

  /** The grid over region `rgn` at cell size `inc`. */
  function FrameOf(rgn: Region, inc: real): (f: Frame)
    requires inc > 0.0
    ensures f.xsize >= 0 && f.ysize >= 0 && f.inc == inc && f.rgn == rgn
    ensures f.xsize as real <= Abs(rgn.xmax - rgn.xmin) / inc < f.xsize as real + 1.0
    ensures f.ysize as real <= Abs(rgn.ymax - rgn.ymin) / inc < f.ysize as real + 1.0
  {
    Frame(CellsAcross(rgn.xmin, rgn.xmax, inc), CellsAcross(rgn.ymin, rgn.ymax, inc), inc, rgn)
  }

  /** Column of a point: `(x - xmin) / inc` converted to an int. */
  function XPos(f: Frame, p: Point): int
    requires f.inc > 0.0
  {
    Trunc((p.x - f.rgn.xmin) / f.inc)
  }

  /** Row of a point: `(y - ymin) / inc` converted to an int. */
  function YPos(f: Frame, p: Point): int
    requires f.inc > 0.0
  {
    Trunc((p.y - f.rgn.ymin) / f.inc)
  }

  /** The guard of the gridding loop: both indices inside the grid. */
  predicate InGrid(f: Frame, p: Point)
    requires f.inc > 0.0
  {
    0 <= XPos(f, p) < f.xsize && 0 <= YPos(f, p) < f.ysize
  }

  /** For a point at or above the region's lower-left corner the
      truncated indices are the floors, so the point lies in the cell they
      name. */
  lemma IndexIsFloorInside(f: Frame, p: Point)
    requires f.inc > 0.0
    requires p.x >= f.rgn.xmin && p.y >= f.rgn.ymin
    ensures XPos(f, p) == ((p.x - f.rgn.xmin) / f.inc).Floor
    ensures YPos(f, p) == ((p.y - f.rgn.ymin) / f.inc).Floor
  {
    DivPos(p.x - f.rgn.xmin, f.inc);
    DivPos(p.y - f.rgn.ymin, f.inc);
  }

  /** Truncation toward zero sends a point up to one cell left of the
      region (or below it) into column 0 (row 0), so the range guard of the
      gridding loop does not drop it. */
  lemma FringeLandsInFirstCell(f: Frame, p: Point)
    requires f.inc > 0.0 && f.xsize >= 1 && f.ysize >= 1
    requires f.rgn.xmin - f.inc < p.x < f.rgn.xmin
    requires f.rgn.ymin - f.inc < p.y < f.rgn.ymin
    ensures InGrid(f, p) && XPos(f, p) == 0 && YPos(f, p) == 0
  {
    FringeIndex(p.x - f.rgn.xmin, f.inc);
    FringeIndex(p.y - f.rgn.ymin, f.inc);
  }

  /** An offset of less than one cell below zero truncates to index 0. */
  lemma FringeIndex(d: real, inc: real)
    requires inc > 0.0 && -inc < d < 0.0
    ensures Trunc(d / inc) == 0
  {
    var u := d / inc;
    DivPos(d, inc);
    MulMono(u, -1.0, inc);
    MulMono(0.0, u, inc);
    assert -1.0 < u < 0.0;
  }

  /** One step of the gridding loop: set the point's cell to 1 when both
      indices are inside the grid; a point outside changes nothing. */
  function Mark(f: Frame, g: Grid, p: Point): (g': Grid)
    requires f.inc > 0.0
    requires Shaped(g, f.xsize, f.ysize)
    ensures Shaped(g', f.xsize, f.ysize)
    ensures !InGrid(f, p) ==> g' == g
    ensures forall i, j :: InFrame(f, i, j) ==>
              g'[i][j] == (if InGrid(f, p) && i == YPos(f, p) && j == XPos(f, p) then 1 else g[i][j])
  {
    if InGrid(f, p) then
      var x, y := XPos(f, p), YPos(f, p);
      g[y := g[y][x := 1]]
    else g
  }

  /** Some point of `pts` has its cell at row `i`, column `j`. */
  ghost predicate Hit(f: Frame, pts: seq<Point>, i: int, j: int)
    requires f.inc > 0.0
  {
    exists k :: 0 <= k < |pts| && YPos(f, pts[k]) == i && XPos(f, pts[k]) == j
  }

  /** The empty grid. */
  function Blank<T>(xs: nat, ys: nat, v: T): (g: seq<seq<T>>)
    ensures Shaped(g, xs, ys)
    ensures forall i, j :: 0 <= i < ys && 0 <= j < xs ==> g[i][j] == v
  {
    seq(ys, _ => seq(xs, _ => v))
  }

  /** Zero the grid and grid every point: a cell is 1 exactly when some
      point's truncated indices name it, 0 otherwise. */
  method Rasterise(f: Frame, pts: seq<Point>) returns (g: Grid)
    requires f.inc > 0.0 && f.xsize >= 0 && f.ysize >= 0
    ensures Shaped(g, f.xsize, f.ysize)
    ensures forall i, j :: InFrame(f, i, j) ==> g[i][j] == (if Hit(f, pts, i, j) then 1 else 0)
  {
    g := Blank(f.xsize, f.ysize, 0);
    var k := 0;
    while k < |pts|
      invariant 0 <= k <= |pts|
      invariant Shaped(g, f.xsize, f.ysize)
      invariant forall i, j :: InFrame(f, i, j) ==> g[i][j] == (if Hit(f, pts[..k], i, j) then 1 else 0)
    {
      ghost var pre := pts[..k];
      assert pts[..k + 1] == pre + [pts[k]];
      forall i, j | InFrame(f, i, j)
        ensures Hit(f, pts[..k + 1], i, j) <==> Hit(f, pre, i, j) || (YPos(f, pts[k]) == i && XPos(f, pts[k]) == j)
      {
        if Hit(f, pre, i, j) {
          var m :| 0 <= m < |pre| && YPos(f, pre[m]) == i && XPos(f, pre[m]) == j;
          assert pts[..k + 1][m] == pre[m];
        }
        if YPos(f, pts[k]) == i && XPos(f, pts[k]) == j {
          assert pts[..k + 1][k] == pts[k];
        }
        if Hit(f, pts[..k + 1], i, j) {
          var m :| 0 <= m < k + 1 && YPos(f, pts[..k + 1][m]) == i && XPos(f, pts[..k + 1][m]) == j;
          if m < k {
            assert pre[m] == pts[..k + 1][m];
          }
        }
      }
      g := Mark(f, g, pts[k]);
      k := k + 1;
    }
    assert pts[..k] == pts;
  }

  /** The open edges the classification records for an occupied cell: a
      side is open when it is on the grid border or the neighbour across it
      is empty. */
  function OpenSides(g: Grid, xs: int, ys: int, i: int, j: int): Edges
    requires Shaped(g, xs, ys) && 0 <= i < ys && 0 <= j < xs
  {
    Edges(i == 0 || g[i - 1][j] == 0,
          j == 0 || g[i][j - 1] == 0,
          i == ys - 1 || g[i + 1][j] == 0,
          j == xs - 1 || g[i][j + 1] == 0)
  }

  /** The flags classification leaves on a cell: the open sides of an
      occupied cell, none on any other cell. */
  function ClassifiedEdges(g: Grid, xs: int, ys: int, i: int, j: int): Edges
    requires Shaped(g, xs, ys) && 0 <= i < ys && 0 <= j < xs
  {
    if g[i][j] == 1 then OpenSides(g, xs, ys, i, j) else NoEdges
  }

  /** The state classification leaves on a cell: an occupied cell with no
      open side becomes 2, every other cell keeps its state. */
  function ClassifiedState(g: Grid, xs: int, ys: int, i: int, j: int): int
    requires Shaped(g, xs, ys) && 0 <= i < ys && 0 <= j < xs
  {
    if g[i][j] == 1 && !HasEdge(OpenSides(g, xs, ys, i, j)) then 2 else g[i][j]
  }

  /** Row-major order: cell (a, c) comes before cell (i, j). */
  predicate Before(a: int, c: int, i: int, j: int) {
    a < i || (a == i && c < j)
  }

  /** The edge-recording loop. It updates `blockarray` in place while it
      reads neighbours, but only tests neighbours against 0 and only turns
      1 into 2, so each cell's result depends on the grid it started from.
      The edge flags start false. */
  method Classify(g: Grid, xs: int, ys: int) returns (g': Grid, e: EdgeGrid)
    requires xs >= 0 && ys >= 0 && Shaped(g, xs, ys)
    ensures Shaped(g', xs, ys) && Shaped(e, xs, ys)
    ensures forall i, j :: 0 <= i < ys && 0 <= j < xs ==> e[i][j] == ClassifiedEdges(g, xs, ys, i, j)
    ensures forall i, j :: 0 <= i < ys && 0 <= j < xs ==> g'[i][j] == ClassifiedState(g, xs, ys, i, j)
  {
    g' := g;
    e := Blank(xs, ys, NoEdges);
    var i := 0;
    while i < ys
      invariant 0 <= i <= ys
      invariant Shaped(g', xs, ys) && Shaped(e, xs, ys)
      invariant forall a, c :: 0 <= a < ys && 0 <= c < xs ==>
                  g'[a][c] == (if a < i then ClassifiedState(g, xs, ys, a, c) else g[a][c])
      invariant forall a, c :: 0 <= a < ys && 0 <= c < xs ==>
                  e[a][c] == (if a < i then ClassifiedEdges(g, xs, ys, a, c) else NoEdges)
    {
      var j := 0;
      while j < xs
        invariant 0 <= j <= xs
        invariant Shaped(g', xs, ys) && Shaped(e, xs, ys)
        invariant forall a, c :: 0 <= a < ys && 0 <= c < xs ==>
                    g'[a][c] == (if Before(a, c, i, j) then ClassifiedState(g, xs, ys, a, c) else g[a][c])
        invariant forall a, c :: 0 <= a < ys && 0 <= c < xs ==>
                    e[a][c] == (if Before(a, c, i, j) then ClassifiedEdges(g, xs, ys, a, c) else NoEdges)
      {
        if g'[i][j] == 1 {
          var cell := MarkSides(g, g', e[i][j], xs, ys, i, j);
          e := e[i := e[i][j := cell]];
          if !HasEdge(cell) {
            g' := g'[i := g'[i][j := 2]];
          }
        }
        j := j + 1;
      }
      i := i + 1;
    }
  }

  /** The four neighbour tests of one occupied cell, made against the
      working grid: a side is marked open when it lies on the frame's edge
      or its neighbour is empty. */
  method MarkSides(g: Grid, g': Grid, cell: Edges, xs: int, ys: int, i: int, j: int) returns (cell': Edges)
    requires Shaped(g, xs, ys) && Shaped(g', xs, ys) && 0 <= i < ys && 0 <= j < xs
    requires forall a, c :: 0 <= a < ys && 0 <= c < xs ==>
               g'[a][c] == (if Before(a, c, i, j) then ClassifiedState(g, xs, ys, a, c) else g[a][c])
    requires cell == NoEdges
    ensures cell' == OpenSides(g, xs, ys, i, j)
  {
    ZeroKept(g, g', xs, ys, i, j);
    cell' := cell;
    if i == 0 || g'[i - 1][j] == 0 {
      cell' := cell'.(b := true);
    }
    if j == 0 || g'[i][j - 1] == 0 {
      cell' := cell'.(l := true);
    }
    if i == ys - 1 || g'[i + 1][j] == 0 {
      cell' := cell'.(t := true);
    }
    if j == xs - 1 || g'[i][j + 1] == 0 {
      cell' := cell'.(r := true);
    }
  }

  /** While classifying, a cell of the working grid is 0 exactly when it
      was 0 in the grid classification started from. */
  lemma ZeroKept(g: Grid, g': Grid, xs: int, ys: int, i: int, j: int)
    requires Shaped(g, xs, ys) && Shaped(g', xs, ys) && 0 <= i < ys && 0 <= j < xs
    requires forall a, c :: 0 <= a < ys && 0 <= c < xs ==>
               g'[a][c] == (if Before(a, c, i, j) then ClassifiedState(g, xs, ys, a, c) else g[a][c])
    ensures g'[i][j] == g[i][j]
    ensures i > 0 ==> (g'[i - 1][j] == 0 <==> g[i - 1][j] == 0)
    ensures j > 0 ==> (g'[i][j - 1] == 0 <==> g[i][j - 1] == 0)
    ensures i < ys - 1 ==> g'[i + 1][j] == g[i + 1][j]
    ensures j < xs - 1 ==> g'[i][j + 1] == g[i][j + 1]
  {
  }

  // ----- counting open edges -----

  /** Number of flags set on one cell. */
  function CellCount(e: Edges): (n: nat)
    ensures n <= 4
    ensures n == 0 <==> e == NoEdges
  {
    (if e.b then 1 else 0) + (if e.l then 1 else 0) + (if e.t then 1 else 0) + (if e.r then 1 else 0)
  }

  /** Clearing a set flag removes exactly one open edge from the cell. */
  lemma ClearCount(e: Edges, s: Side)
    requires Flag(e, s)
    ensures CellCount(Clear(e, s)) == CellCount(e) - 1
  {
  }

  function RowCount(row: seq<Edges>): nat
  {
    if |row| == 0 then 0 else RowCount(row[..|row| - 1]) + CellCount(row[|row| - 1])
  }

  /** Number of open edges left in the whole grid. */
  function OpenCount(e: EdgeGrid): nat
  {
    if |e| == 0 then 0 else OpenCount(e[..|e| - 1]) + RowCount(e[|e| - 1])
  }

  lemma {:induction false} RowCountUpdate(row: seq<Edges>, j: nat, x: Edges)
    requires j < |row|
    ensures RowCount(row[j := x]) == RowCount(row) - CellCount(row[j]) + CellCount(x)
  {
    var n := |row|;
    var row' := row[j := x];
    if j == n - 1 {
      assert row'[..n - 1] == row[..n - 1];
    } else {
      assert row'[..n - 1] == row[..n - 1][j := x];
      RowCountUpdate(row[..n - 1], j, x);
    }
  }

  lemma {:induction false} OpenCountUpdate(e: EdgeGrid, i: nat, row: seq<Edges>)
    requires i < |e|
    ensures OpenCount(e[i := row]) == OpenCount(e) - RowCount(e[i]) + RowCount(row)
  {
    var n := |e|;
    var e' := e[i := row];
    if i == n - 1 {
      assert e'[..n - 1] == e[..n - 1];
    } else {
      assert e'[..n - 1] == e[..n - 1][i := row];
      OpenCountUpdate(e[..n - 1], i, row);
    }
  }

  /** Clearing one set flag anywhere in the grid removes exactly one open
      edge from the count. */
  lemma ClearOne(e: EdgeGrid, i: nat, j: nat, s: Side)
    requires i < |e| && j < |e[i]| && Flag(e[i][j], s)
    ensures OpenCount(e[i := e[i][j := Clear(e[i][j], s)]]) == OpenCount(e) - 1
  {
    ClearCount(e[i][j], s);
    RowCountUpdate(e[i], j, Clear(e[i][j], s));
    OpenCountUpdate(e, i, e[i][j := Clear(e[i][j], s)]);
  }

  /** A row counts no open edge exactly when none of its cells has one. */
  lemma {:induction false} RowCountZero(row: seq<Edges>)
    ensures RowCount(row) == 0 <==> forall j :: 0 <= j < |row| ==> !HasEdge(row[j])
  {
    if |row| > 0 {
      var n := |row| - 1;
      RowCountZero(row[..n]);
      HasEdgeMeaning(row[n]);
      assert forall j :: 0 <= j < n ==> row[..n][j] == row[j];
    }
  }

  /** The grid counts no open edge exactly when no cell has one. */
  lemma {:induction false} OpenCountZero(e: EdgeGrid)
    ensures OpenCount(e) == 0 <==> forall i, j :: 0 <= i < |e| && 0 <= j < |e[i]| ==> !HasEdge(e[i][j])
  {
    if |e| > 0 {
      var n := |e| - 1;
      OpenCountZero(e[..n]);
      RowCountZero(e[n]);
      assert forall i :: 0 <= i < n ==> e[..n][i] == e[i];
    }
  }

  lemma {:induction false} RowCountBound(row: seq<Edges>)
    ensures RowCount(row) <= 4 * |row|
  {
    if |row| > 0 {
      RowCountBound(row[..|row| - 1]);
    }
  }

  /** A grid of `xs` by `ys` cells holds at most four open edges per cell. */
  lemma {:induction false} OpenCountBound(e: EdgeGrid, xs: int, ys: int)
    requires Shaped(e, xs, ys)
    ensures OpenCount(e) <= 4 * xs * ys
  {
    if |e| > 0 {
      assert Shaped(e[..|e| - 1], xs, ys - 1);
      OpenCountBound(e[..|e| - 1], xs, ys - 1);
      RowCountBound(e[|e| - 1]);
      assert 4 * xs * ys == 4 * xs * (ys - 1) + 4 * xs;
    }
  }
}
