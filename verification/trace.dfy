/** The tracing half of the block boundary (src/block.c, `bbs_block`
    lines 277-441): the row-major search for a starting edge, the
    neighbourhood sweep that chains open edges onto the ring by matching
    corners, and the outer loop that emits one ring after another. */
module Trace {
  import opened Types
  import opened Cells
  import opened Raster

  /** The lower-left corner of a cell, as `pixel_to_point` computes it. */
  function Corner(f: Frame, i: int, j: int): Point {
    PixelToPoint(j, i, f.inc, f.rgn)
  }

  /** The two corners (`bb1`, `bb2`) the source writes for side `s` of the
      cell at row `i`, column `j`, offsetting `pixel_to_point` by `inc`. */
  function SideEnds(f: Frame, s: Side, i: int, j: int): (Point, Point) {
    var c := Corner(f, i, j);
    match s
    case Bottom => (c, Point(c.x + f.inc, c.y))
    case Left => (Point(c.x, c.y + f.inc), c)
    case Top => (Point(c.x + f.inc, c.y + f.inc), Point(c.x, c.y + f.inc))
    case Right => (Point(c.x + f.inc, c.y + f.inc), Point(c.x + f.inc, c.y))
  }

  /** The corners of every side are lattice corners of the cell, so a cell's
      sides wind bottom (left to right), right (down), top (right to left)
      and left (down) around it. */
  lemma SideEndsOnLattice(f: Frame, s: Side, i: int, j: int)
    ensures s == Bottom ==> SideEnds(f, s, i, j) == (Corner(f, i, j), Corner(f, i, j + 1))
    ensures s == Left ==> SideEnds(f, s, i, j) == (Corner(f, i + 1, j), Corner(f, i, j))
    ensures s == Top ==> SideEnds(f, s, i, j) == (Corner(f, i + 1, j + 1), Corner(f, i + 1, j))
    ensures s == Right ==> SideEnds(f, s, i, j) == (Corner(f, i + 1, j + 1), Corner(f, i, j + 1))
  {
    var c := Corner(f, i, j);
    assert (j + 1) as real * f.inc == j as real * f.inc + f.inc;
    assert (i + 1) as real * f.inc == i as real * f.inc + f.inc;
    assert Corner(f, i, j + 1) == Point(c.x + f.inc, c.y);
    assert Corner(f, i + 1, j) == Point(c.x, c.y + f.inc);
  }

  /** The tracer's working state: the cell states, the open-edge flags, the
      ring built so far (`bnds[0 .. bcount]`), the last cell an edge was
      taken from (`lxi`, `lyi`) and the `done` flag. */
  datatype Tracer = Tracer(block: Grid, edges: EdgeGrid, ring: seq<Point>, lxi: int, lyi: int, done: bool)

  ghost predicate Valid(f: Frame, t: Tracer) {
    && Shaped(t.block, f.xsize, f.ysize)
    && Shaped(t.edges, f.xsize, f.ysize)
    && |t.ring| >= 1
  }

  function Last(ring: seq<Point>): Point
    requires |ring| >= 1
  {
    ring[|ring| - 1]
  }

  /** Side `s` of cell (`i`, `j`) can be taken: its flag is still set and one
      of its corners matches the ring's last point. */
  predicate Enabled(f: Frame, t: Tracer, i: int, j: int, s: Side)
    requires Valid(f, t) && InFrame(f, i, j)
  {
    var (c1, c2) := SideEnds(f, s, i, j);
    Flag(t.edges[i][j], s) && PlMatch(Last(t.ring), c1, c2) != 0
  }

  /** The flags of `e'` are those of `e` except that flag `s` of cell
      (`i`, `j`) is cleared. */
  ghost predicate ClearedOnly(e: EdgeGrid, e': EdgeGrid, i: int, j: int, s: Side)
    requires |e| == |e'| && forall a :: 0 <= a < |e| ==> |e[a]| == |e'[a]|
  {
    forall a, c, s' :: 0 <= a < |e| && 0 <= c < |e[a]| ==>
      Flag(e'[a][c], s') == (Flag(e[a][c], s') && !(a == i && c == j && s' == s))
  }

  /** The cell states of `g'` are those of `g` except that cell (`i`, `j`)
      becomes 2 when `e` leaves it no open edge. */
  ghost predicate RetiredOnly(g: Grid, g': Grid, e: EdgeGrid, i: int, j: int)
    requires |g| == |g'| == |e| && forall a :: 0 <= a < |g| ==> |g[a]| == |g'[a]| == |e[a]|
    requires 0 <= i < |g| && 0 <= j < |g[i]|
  {
    && (forall a, c :: 0 <= a < |g| && 0 <= c < |g[a]| && !(a == i && c == j) ==> g'[a][c] == g[a][c])
    && g'[i][j] == (if HasEdge(e[i][j]) then g[i][j] else 2)
  }

  /** Every cell that still has an open edge is in state 1: classification
      sets flags only on occupied cells, and a cell is retired to 2 only
      once its last flag is cleared. */
  ghost predicate Coherent(f: Frame, g: Grid, e: EdgeGrid)
    requires Shaped(g, f.xsize, f.ysize) && Shaped(e, f.xsize, f.ysize)
  {
    forall i, j :: InFrame(f, i, j) && HasEdge(e[i][j]) ==> g[i][j] == 1
  }

  /** No cell has an open edge in `e'` unless it had one in `e`. */
  ghost predicate Fewer(f: Frame, e: EdgeGrid, e': EdgeGrid)
    requires Shaped(e, f.xsize, f.ysize) && Shaped(e', f.xsize, f.ysize)
  {
    forall i, j :: InFrame(f, i, j) && HasEdge(e'[i][j]) ==> HasEdge(e[i][j])
  }

  /** No cell in the rows below row `k` has an open edge. */
  ghost predicate ClearBelow(f: Frame, e: EdgeGrid, k: int)
    requires Shaped(e, f.xsize, f.ysize)
  {
    forall i, j :: InFrame(f, i, j) && i < k ==> !HasEdge(e[i][j])
  }

  /** A step of the tracer from `t` to `t'` adds no open edge and keeps
      the grid coherent. */
  ghost predicate Keeps(f: Frame, t: Tracer, t': Tracer)
    requires Valid(f, t) && Valid(f, t')
  {
    Fewer(f, t.edges, t'.edges) && (Coherent(f, t.block, t.edges) ==> Coherent(f, t'.block, t'.edges))
  }

  /** `t'` follows `t` in the trace: the ring only grows, by exactly the
      number of flags cleared, nothing changes unless it grows, `done`
      stays set, and the flags and cell states stay coherent. */
  ghost predicate Step(f: Frame, t: Tracer, t': Tracer)
    requires Valid(f, t) && Valid(f, t')
  {
    && |t'.ring| >= |t.ring| && t'.ring[..|t.ring|] == t.ring
    && |t'.ring| - |t.ring| == OpenCount(t.edges) - OpenCount(t'.edges)
    && (|t'.ring| == |t.ring| ==> t' == t)
    && (t.done ==> t'.done)
    && Keeps(f, t, t')
  }

  lemma StepTrans(f: Frame, t1: Tracer, t2: Tracer, t3: Tracer)
    requires Valid(f, t1) && Valid(f, t2) && Valid(f, t3)
    requires Step(f, t1, t2) && Step(f, t2, t3)
    ensures Step(f, t1, t3)
  {
    assert t3.ring[..|t1.ring|] == t3.ring[..|t2.ring|][..|t1.ring|];
  }

  /** Clearing side `s` of cell (`i`, `j`) only removes an open edge, and
      retiring the cell only once it has none left keeps the grid
      coherent. */
  lemma ClearKeeps(f: Frame, g: Grid, e: EdgeGrid, i: int, j: int, s: Side)
    requires Shaped(g, f.xsize, f.ysize) && Shaped(e, f.xsize, f.ysize) && InFrame(f, i, j)
    ensures var cell := Clear(e[i][j], s);
            var e' := e[i := e[i][j := cell]];
            var g' := if HasEdge(cell) then g else g[i := g[i][j := 2]];
            && Shaped(e', f.xsize, f.ysize) && Shaped(g', f.xsize, f.ysize)
            && Fewer(f, e, e') && (Coherent(f, g, e) ==> Coherent(f, g', e'))
            && ClearedOnly(e, e', i, j, s) && RetiredOnly(g, g', e', i, j)
  {
  }

  /** Taking an enabled side: the other corner is appended, only that
      flag is cleared, the cell becomes 2 if it has no flag left, the sweep
      re-centres on the cell, and `done` is set when the edge also touches
      the ring's first point. */
  function Take(f: Frame, t: Tracer, i: int, j: int, s: Side): (t': Tracer)
    requires Valid(f, t) && InFrame(f, i, j) && Enabled(f, t, i, j, s)
    ensures Valid(f, t')
    ensures var (c1, c2) := SideEnds(f, s, i, j);
            && |t'.ring| == |t.ring| + 1
            && t'.ring[..|t.ring|] == t.ring
            && (PntsEqual(Last(t.ring), c1) ==> Last(t'.ring) == c2)
            && (!PntsEqual(Last(t.ring), c1) ==> PntsEqual(Last(t.ring), c2) && Last(t'.ring) == c1)
            && ClearedOnly(t.edges, t'.edges, i, j, s)
            && RetiredOnly(t.block, t'.block, t'.edges, i, j)
            && t'.lxi == j && t'.lyi == i
            && (t'.done <==> t.done || PntsEqual(t.ring[0], c1) || PntsEqual(t.ring[0], c2))
    ensures OpenCount(t'.edges) == OpenCount(t.edges) - 1
    ensures Step(f, t, t')
  {
    var (c1, c2) := SideEnds(f, s, i, j);
    var l := PlMatch(Last(t.ring), c1, c2);
    var cell := Clear(t.edges[i][j], s);
    var edges' := t.edges[i := t.edges[i][j := cell]];
    var block' := if HasEdge(cell) then t.block else t.block[i := t.block[i][j := 2]];
    var done' := t.done || PlMatch(t.ring[0], c1, c2) != 0;
    ClearOne(t.edges, i, j, s);
    ClearKeeps(f, t.block, t.edges, i, j, s);
    Tracer(block', edges', t.ring + [if l == 1 then c2 else c1], j, i, done')
  }

  /** One side test of the sweep (src/block.c:340-357, and its copies for
      the left, top and right sides): an edge is taken only when its flag
      is set and one of its corners matches the ring's last point. */
  function TrySide(f: Frame, t: Tracer, i: int, j: int, s: Side): (t': Tracer)
    requires Valid(f, t) && InFrame(f, i, j)
    ensures Valid(f, t')
    ensures !Enabled(f, t, i, j, s) ==> t' == t
    ensures Enabled(f, t, i, j, s) ==> t' == Take(f, t, i, j, s)
    ensures Step(f, t, t')
  {
    if Enabled(f, t, i, j, s) then Take(f, t, i, j, s) else t
  }

  /** One cell of the sweep: an occupied cell with value 1 has its bottom,
      left, top and right sides tried in that order, each against the ring
      as the previous tests left it. */
  function VisitCell(f: Frame, t: Tracer, i: int, j: int): (t': Tracer)
    requires Valid(f, t) && InFrame(f, i, j)
    ensures Valid(f, t')
    ensures t.block[i][j] != 1 ==> t' == t
    ensures Step(f, t, t')
  {
    if t.block[i][j] == 1 then
      var t1 := TrySide(f, t, i, j, Bottom);
      var t2 := TrySide(f, t1, i, j, Left);
      var t3 := TrySide(f, t2, i, j, Top);
      var t4 := TrySide(f, t3, i, j, Right);
      StepTrans(f, t, t1, t2);
      StepTrans(f, t, t2, t3);
      StepTrans(f, t, t3, t4);
      t4
    else t
  }

  /** The inner loop of the sweep over columns `j ..` of row `i`; its bound
      `int_or_max(lxi + 2, xsize)` is re-read after every cell. */
  function ColLoop(f: Frame, t: Tracer, i: int, j: int): (t': Tracer)
    requires Valid(f, t) && 0 <= i < f.ysize && j >= 0
    ensures Valid(f, t')
    ensures Step(f, t, t')
    decreases f.xsize - j
  {
    if j < IntOrMax(t.lxi + 2, f.xsize) then
      var t1 := VisitCell(f, t, i, j);
      var t2 := ColLoop(f, t1, i, j + 1);
      StepTrans(f, t, t1, t2);
      t2
    else t
  }

  /** The outer loop of the sweep over rows `i ..`; its bound
      `int_or_max(lyi + 2, ysize)` and each row's first column
      `int_or_zero(lxi - 1)` are read with the current `lxi`, `lyi`. */
  function RowLoop(f: Frame, t: Tracer, i: int): (t': Tracer)
    requires Valid(f, t) && i >= 0
    ensures Valid(f, t')
    ensures Step(f, t, t')
    decreases f.ysize - i
  {
    if i < IntOrMax(t.lyi + 2, f.ysize) then
      var t1 := ColLoop(f, t, i, IntOrZero(t.lxi - 1));
      var t2 := RowLoop(f, t1, i + 1);
      StepTrans(f, t, t1, t2);
      t2
    else t
  }

  /** One pass of the `while (done == 0)` body over the 3-by-3
      neighbourhood of the last cell. */
  function Sweep(f: Frame, t: Tracer): (t': Tracer)
    requires Valid(f, t)
    ensures Valid(f, t')
    ensures Step(f, t, t')
  {
    RowLoop(f, t, IntOrZero(t.lyi - 1))
  }

  /** How tracing one ring ends: `done` was set, or a sweep took no edge, in
      which case the state is a fixed point of the sweep and the source's
      `while (done == 0)` loop never ends. */
  datatype Traced = Closed(t: Tracer) | Stalled(t: Tracer)

  /** The `while (done == 0)` loop. */
  function TraceRing(f: Frame, t: Tracer): (r: Traced)
    requires Valid(f, t)
    ensures Valid(f, r.t)
    ensures Step(f, t, r.t)
    ensures r.Closed? ==> r.t.done
    ensures r.Stalled? ==> !r.t.done && Sweep(f, r.t) == r.t
    decreases OpenCount(t.edges)
  {
    if t.done then Closed(t)
    else
      var t' := Sweep(f, t);
      if |t'.ring| == |t.ring| then Stalled(t')
      else
        var r := TraceRing(f, t');
        StepTrans(f, t, t', r.t);
        r
  }

  /** A starting edge: cell row, column and side. */
  datatype Start = Start(row: int, col: int, side: Side)

  /** Cell (`i`, `j`) can start a ring: its state is 1 and a flag is set. */
  predicate Startable(g: Grid, e: EdgeGrid, i: int, j: int)
    requires 0 <= i < |g| && 0 <= j < |g[i]| && i < |e| && j < |e[i]|
  {
    g[i][j] == 1 && HasEdge(e[i][j])
  }

  function Rank(s: Side): int {
    match s
    case Bottom => 0
    case Left => 1
    case Top => 2
    case Right => 3
  }

  /** The side the search takes from a cell: bottom, then left, then top,
      then right. */
  function FirstSide(e: Edges): (r: Option<Side>)
    ensures r.None? <==> !HasEdge(e)
    ensures r.Some? ==> Flag(e, r.value)
    ensures r.Some? ==> forall s :: Rank(s) < Rank(r.value) ==> !Flag(e, s)
  {
    if e.b then Some(Bottom)
    else if e.l then Some(Left)
    else if e.t then Some(Top)
    else if e.r then Some(Right)
    else None
  }

  /** The row-major search from cell (`i`, `j`) on. */
  function ScanFrom(f: Frame, g: Grid, e: EdgeGrid, i: int, j: int): (r: Option<Start>)
    requires Shaped(g, f.xsize, f.ysize) && Shaped(e, f.xsize, f.ysize)
    requires 0 <= i && 0 <= j
    ensures r.Some? ==> InFrame(f, r.value.row, r.value.col)
    ensures r.Some? ==> !Before(r.value.row, r.value.col, i, j)
    ensures r.Some? ==> Startable(g, e, r.value.row, r.value.col)
    ensures r.Some? ==> FirstSide(e[r.value.row][r.value.col]) == Some(r.value.side)
    ensures r.Some? ==> forall a, c ::
              InFrame(f, a, c) && !Before(a, c, i, j) && Before(a, c, r.value.row, r.value.col)
              ==> !Startable(g, e, a, c)
    ensures r.None? <==> forall a, c :: InFrame(f, a, c) && !Before(a, c, i, j) ==> !Startable(g, e, a, c)
    decreases f.ysize - i, f.xsize - j
  {
    if i >= f.ysize then None
    else if j >= f.xsize then ScanFrom(f, g, e, i + 1, 0)
    else if g[i][j] == 1 && FirstSide(e[i][j]).Some? then Some(Start(i, j, FirstSide(e[i][j]).value))
    else ScanFrom(f, g, e, i, j + 1)
  }

  /** The search for a first edge (src/block.c:284-320), starting at row
      `from`: the first cell in row-major order whose state is 1 and that
      has a flag set, with its first set side. */
  function FindStart(f: Frame, g: Grid, e: EdgeGrid, from: int): (r: Option<Start>)
    requires Shaped(g, f.xsize, f.ysize) && Shaped(e, f.xsize, f.ysize) && from >= 0
    ensures r.Some? ==> from <= r.value.row < f.ysize && 0 <= r.value.col < f.xsize
    ensures r.Some? ==> Startable(g, e, r.value.row, r.value.col)
    ensures r.Some? ==> FirstSide(e[r.value.row][r.value.col]) == Some(r.value.side)
    ensures r.Some? ==> forall a, c ::
              InFrame(f, a, c) && from <= a && Before(a, c, r.value.row, r.value.col)
              ==> !Startable(g, e, a, c)
    ensures r.None? <==> forall a, c :: InFrame(f, a, c) && from <= a ==> !Startable(g, e, a, c)
  {
    ScanFrom(f, g, e, from, 0)
  }

  /** A found edge starts the ring: its two corners become `bnds[0]` and
      `bnds[1]`, only its flag is cleared (the cell keeps state 1), and the
      sweep centres on its cell. */
  function Begin(f: Frame, g: Grid, e: EdgeGrid, st: Start): (t: Tracer)
    requires Shaped(g, f.xsize, f.ysize) && Shaped(e, f.xsize, f.ysize)
    requires InFrame(f, st.row, st.col) && Flag(e[st.row][st.col], st.side)
    ensures Valid(f, t) && !t.done && t.block == g
    ensures t.ring == [SideEnds(f, st.side, st.row, st.col).0, SideEnds(f, st.side, st.row, st.col).1]
    ensures ClearedOnly(e, t.edges, st.row, st.col, st.side)
    ensures OpenCount(t.edges) == OpenCount(e) - 1
    ensures t.lxi == st.col && t.lyi == st.row
    ensures Fewer(f, e, t.edges)
    ensures Coherent(f, g, e) ==> Coherent(f, t.block, t.edges)
  {
    var (c1, c2) := SideEnds(f, st.side, st.row, st.col);
    ClearOne(e, st.row, st.col, st.side);
    Tracer(g, e[st.row := e[st.row][st.col := Clear(e[st.row][st.col], st.side)]], [c1, c2], st.col, st.row, false)
  }

  /** Number of edges a list of rings used: each ring of n points took
      n - 1 edges. */
  function EdgesUsed(rings: seq<seq<Point>>): int {
    if |rings| == 0 then 0 else EdgesUsed(rings[..|rings| - 1]) + |rings[|rings| - 1]| - 1
  }

  /** Each ring of at least one point uses no more edges than the list. */
  lemma {:induction false} EdgesUsedBound(rings: seq<seq<Point>>, k: int)
    requires forall m :: 0 <= m < |rings| ==> |rings[m]| >= 1
    requires 0 <= k < |rings|
    ensures 0 <= |rings[k]| - 1 <= EdgesUsed(rings)
  {
    EdgesUsedNonNeg(rings[..|rings| - 1]);
    if k < |rings| - 1 {
      EdgesUsedBound(rings[..|rings| - 1], k);
    }
  }

  lemma {:induction false} EdgesUsedNonNeg(rings: seq<seq<Point>>)
    requires forall m :: 0 <= m < |rings| ==> |rings[m]| >= 1
    ensures EdgesUsed(rings) >= 0
  {
    if |rings| > 0 {
      EdgesUsedNonNeg(rings[..|rings| - 1]);
    }
  }

  /** When the search from row `int_or_zero(fyi - 2)` finds nothing on a
      coherent grid whose rows below `fyi` hold no open edge, no open edge
      is left anywhere. */
  lemma SearchExhausted(f: Frame, g: Grid, e: EdgeGrid, fyi: int)
    requires Shaped(g, f.xsize, f.ysize) && Shaped(e, f.xsize, f.ysize)
    ensures Coherent(f, g, e) && ClearBelow(f, e, fyi) && FindStart(f, g, e, IntOrZero(fyi - 2)).None?
            ==> OpenCount(e) == 0
  {
    if Coherent(f, g, e) && ClearBelow(f, e, fyi) && FindStart(f, g, e, IntOrZero(fyi - 2)).None? {
      forall i, j | 0 <= i < |e| && 0 <= j < |e[i]|
        ensures !HasEdge(e[i][j])
      {
        assert InFrame(f, i, j);
        if i >= IntOrZero(fyi - 2) {
          assert !Startable(g, e, i, j);
        }
      }
      OpenCountZero(e);
    }
  }

  /** On a coherent grid whose rows below `fyi` hold no open edge, the
      start the search finds is the first open edge in row-major order, so
      no row below the start's row holds one. */
  lemma StartIsLowest(f: Frame, g: Grid, e: EdgeGrid, fyi: int, st: Start)
    requires Shaped(g, f.xsize, f.ysize) && Shaped(e, f.xsize, f.ysize)
    requires FindStart(f, g, e, IntOrZero(fyi - 2)) == Some(st)
    ensures Coherent(f, g, e) && ClearBelow(f, e, fyi) ==> ClearBelow(f, e, st.row)
  {
    if Coherent(f, g, e) && ClearBelow(f, e, fyi) {
      forall i, j | InFrame(f, i, j) && i < st.row
        ensures !HasEdge(e[i][j])
      {
        if i >= IntOrZero(fyi - 2) {
          assert Before(i, j, st.row, st.col);
          assert !Startable(g, e, i, j);
        }
      }
    }
  }

  /** Every ring has at least two points. */
  ghost predicate Proper(rings: seq<seq<Point>>) {
    forall m :: 0 <= m < |rings| ==> |rings[m]| >= 2
  }

  /** Appending a ring of n points keeps the earlier rings as a prefix
      and adds n - 1 used edges. */
  lemma Emit(rings: seq<seq<Point>>, ring: seq<Point>)
    ensures (rings + [ring])[..|rings|] == rings
    ensures EdgesUsed(rings + [ring]) == EdgesUsed(rings) + |ring| - 1
    ensures Proper(rings) && |ring| >= 2 ==> Proper(rings + [ring])
  {
    assert (rings + [ring])[..|rings|] == rings;
  }

  lemma PrefixOfPrefix<T>(s: seq<T>, n: nat, k: nat)
    requires k <= n <= |s|
    ensures s[..n][..k] == s[..k]
  {
  }

  /** The result of tracing: the rings emitted, and the edge flags left at
      the end; or, when a ring stalls, the rings before it, the stalled
      ring, and the flags at that point (the source loops forever there). */
  datatype Boundary =
    | Rings(rings: seq<seq<Point>>, rest: EdgeGrid)
    | Hangs(rings: seq<seq<Point>>, partial: seq<Point>, rest: EdgeGrid)

  /** The `while (pdone == 0)` loop: find a start from row
      `int_or_zero(fyi - 2)`, trace it to the end, emit it, repeat until
      the search finds nothing. */
  function Polygonize(f: Frame, g: Grid, e: EdgeGrid, fyi: int, rings: seq<seq<Point>>): (r: Boundary)
    requires Shaped(g, f.xsize, f.ysize) && Shaped(e, f.xsize, f.ysize)
    ensures |r.rings| >= |rings| && r.rings[..|rings|] == rings
    decreases OpenCount(e)
  {
    match FindStart(f, g, e, IntOrZero(fyi - 2))
    case None => Rings(rings, e)
    case Some(st) =>
      var t := Begin(f, g, e, st);
      match TraceRing(f, t)
      case Stalled(t') => Hangs(rings, t'.ring, t'.edges)
      case Closed(t') =>
        var rs := rings + [t'.ring];
        var r := Polygonize(f, t'.block, t'.edges, st.row, rs);
        PrefixOfPrefix(r.rings, |rs|, |rings|);
        r
  }

  /** Every ring the outer loop emits has at least two points. */
  lemma {:induction false} PolygonizeSizes(f: Frame, g: Grid, e: EdgeGrid, fyi: int, rings: seq<seq<Point>>)
    requires Shaped(g, f.xsize, f.ysize) && Shaped(e, f.xsize, f.ysize)
    requires Proper(rings)
    ensures Proper(Polygonize(f, g, e, fyi, rings).rings)
    decreases OpenCount(e)
  {
    match FindStart(f, g, e, IntOrZero(fyi - 2))
    case None =>
    case Some(st) =>
      var t := Begin(f, g, e, st);
      match TraceRing(f, t)
      case Stalled(t') =>
      case Closed(t') =>
        Emit(rings, t'.ring);
        PolygonizeRound(f, g, e, fyi, rings, st, t');
        PolygonizeSizes(f, t'.block, t'.edges, st.row, rings + [t'.ring]);
  }

  /** A stalled ring has at least two points: the start edge's. */
  lemma {:induction false} PolygonizeStallSize(f: Frame, g: Grid, e: EdgeGrid, fyi: int, rings: seq<seq<Point>>)
    requires Shaped(g, f.xsize, f.ysize) && Shaped(e, f.xsize, f.ysize)
    ensures var r := Polygonize(f, g, e, fyi, rings);
            r.Hangs? ==> |r.partial| >= 2
    decreases OpenCount(e)
  {
    match FindStart(f, g, e, IntOrZero(fyi - 2))
    case None =>
    case Some(st) =>
      var t := Begin(f, g, e, st);
      match TraceRing(f, t)
      case Stalled(t') =>
      case Closed(t') =>
        PolygonizeRound(f, g, e, fyi, rings, st, t');
        PolygonizeStallSize(f, t'.block, t'.edges, st.row, rings + [t'.ring]);
  }

  /** Every open edge the outer loop takes is accounted for: when the
      loop ends, the edges used by the emitted rings plus the flags left
      equal the flags there were. */
  lemma {:induction false} PolygonizeAccounts(f: Frame, g: Grid, e: EdgeGrid, fyi: int, rings: seq<seq<Point>>)
    requires Shaped(g, f.xsize, f.ysize) && Shaped(e, f.xsize, f.ysize)
    ensures var r := Polygonize(f, g, e, fyi, rings);
            r.Rings? ==> EdgesUsed(r.rings) + OpenCount(r.rest) == EdgesUsed(rings) + OpenCount(e)
    decreases OpenCount(e)
  {
    match FindStart(f, g, e, IntOrZero(fyi - 2))
    case None =>
    case Some(st) =>
      var t := Begin(f, g, e, st);
      match TraceRing(f, t)
      case Stalled(t') =>
      case Closed(t') =>
        Emit(rings, t'.ring);
        PolygonizeRound(f, g, e, fyi, rings, st, t');
        PolygonizeAccounts(f, t'.block, t'.edges, st.row, rings + [t'.ring]);
  }

  /** When a ring stalls, the edges used by the emitted rings and by the
      stalled ring plus the flags left equal the flags there were. */
  lemma {:induction false} PolygonizeStallAccounts(f: Frame, g: Grid, e: EdgeGrid, fyi: int, rings: seq<seq<Point>>)
    requires Shaped(g, f.xsize, f.ysize) && Shaped(e, f.xsize, f.ysize)
    ensures var r := Polygonize(f, g, e, fyi, rings);
            r.Hangs? ==> EdgesUsed(r.rings) + |r.partial| - 1 + OpenCount(r.rest) == EdgesUsed(rings) + OpenCount(e)
    decreases OpenCount(e)
  {
    match FindStart(f, g, e, IntOrZero(fyi - 2))
    case None =>
    case Some(st) =>
      var t := Begin(f, g, e, st);
      match TraceRing(f, t)
      case Stalled(t') =>
        assert |t'.ring| - 2 == OpenCount(e) - 1 - OpenCount(t'.edges);
      case Closed(t') =>
        Emit(rings, t'.ring);
        PolygonizeRound(f, g, e, fyi, rings, st, t');
        PolygonizeStallAccounts(f, t'.block, t'.edges, st.row, rings + [t'.ring]);
  }

  /** One round of the outer loop: a ring found at `st` and closed in
      state `t` is emitted, and the loop goes on from `t` with the search
      restarting near `st`'s row. */
  lemma PolygonizeRound(f: Frame, g: Grid, e: EdgeGrid, fyi: int, rings: seq<seq<Point>>, st: Start, t: Tracer)
    requires Shaped(g, f.xsize, f.ysize) && Shaped(e, f.xsize, f.ysize)
    requires FindStart(f, g, e, IntOrZero(fyi - 2)) == Some(st)
    requires TraceRing(f, Begin(f, g, e, st)) == Closed(t)
    ensures Polygonize(f, g, e, fyi, rings) == Polygonize(f, t.block, t.edges, st.row, rings + [t.ring])
  {
  }

  /** The trace is complete: on a coherent grid whose rows below `fyi`
      hold no open edge, when the outer loop ends every open edge has been
      used by a ring and none is left. */
  lemma {:induction false} PolygonizeComplete(f: Frame, g: Grid, e: EdgeGrid, fyi: int, rings: seq<seq<Point>>)
    requires Shaped(g, f.xsize, f.ysize) && Shaped(e, f.xsize, f.ysize)
    ensures Coherent(f, g, e) && ClearBelow(f, e, fyi) && Polygonize(f, g, e, fyi, rings).Rings?
            ==> OpenCount(Polygonize(f, g, e, fyi, rings).rest) == 0
    decreases OpenCount(e)
  {
    match FindStart(f, g, e, IntOrZero(fyi - 2))
    case None =>
      SearchExhausted(f, g, e, fyi);
    case Some(st) =>
      StartIsLowest(f, g, e, fyi, st);
      var t := Begin(f, g, e, st);
      match TraceRing(f, t)
      case Stalled(t') =>
      case Closed(t') =>
        PolygonizeRound(f, g, e, fyi, rings, st, t');
        PolygonizeComplete(f, t'.block, t'.edges, st.row, rings + [t'.ring]);
  }

  /** Tracing a classified grid from scratch. */
  function TraceAll(f: Frame, g: Grid, e: EdgeGrid): (r: Boundary)
    requires Shaped(g, f.xsize, f.ysize) && Shaped(e, f.xsize, f.ysize)
    ensures forall m :: 0 <= m < |r.rings| ==> |r.rings[m]| >= 2
    ensures r.Hangs? ==> |r.partial| >= 2
    ensures r.Rings? ==> EdgesUsed(r.rings) + OpenCount(r.rest) == OpenCount(e)
    ensures r.Hangs? ==> EdgesUsed(r.rings) + |r.partial| - 1 + OpenCount(r.rest) == OpenCount(e)
    ensures Coherent(f, g, e) && r.Rings? ==> OpenCount(r.rest) == 0 && EdgesUsed(r.rings) == OpenCount(e)
  {
    PolygonizeSizes(f, g, e, 0, []);
    PolygonizeStallSize(f, g, e, 0, []);
    PolygonizeAccounts(f, g, e, 0, []);
    PolygonizeStallAccounts(f, g, e, 0, []);
    PolygonizeComplete(f, g, e, 0, []);
    Polygonize(f, g, e, 0, [])
  }
}
