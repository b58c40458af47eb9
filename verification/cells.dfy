/** The helpers of the block boundary (src/block.c): the region fold, the
    tolerant point equality, integer clamps, the lattice-to-point map, the
    per-cell edge flags and corner matching. */
module Cells {
  import opened Types
  import Pnts

  /** `minmax` of src/block.c: it seeds the region from the first point
      without checking the count, so it needs at least one point. */
  method MinMax(pts: seq<Point>) returns (r: Region)
    requires |pts| >= 1
    ensures Pnts.Tight(r, pts)
  {
    r := Pnts.Seed(pts[0]);
    assert pts[..1] == [pts[0]];
    var p := 1;
    while p < |pts|
      invariant 1 <= p <= |pts|
      invariant Pnts.Tight(r, pts[..p])
    {
      Pnts.WidenExtends(r, pts, p);
      r := Pnts.Widen(r, pts[p]);
      p := p + 1;
    }
    assert pts[..p] == pts;
  }

  /** `pnts_equal_p`: both coordinates differ by at most FLT_EPSILON. */
  predicate PntsEqual(p1: Point, p2: Point) {
    !(Abs(p1.x - p2.x) > FltEpsilon) && !(Abs(p1.y - p2.y) > FltEpsilon)
  }

  /** The tolerant equality is reflexive and symmetric. */
  lemma PntsEqualReflexiveSymmetric(p: Point, q: Point)
    ensures PntsEqual(p, p)
    ensures PntsEqual(p, q) <==> PntsEqual(q, p)
    ensures PntsEqual(p, q) <==> Abs(p.x - q.x) <= FltEpsilon && Abs(p.y - q.y) <= FltEpsilon
  {
  }

  /** The tolerance is not transitive: two points 2/3 of FLT_EPSILON apart on
      either side of a third are each equal to it but not to each other. */
  lemma PntsEqualNotTransitive()
    ensures var e := FltEpsilon * 2.0 / 3.0;
            PntsEqual(Point(0.0, 0.0), Point(e, 0.0))
            && PntsEqual(Point(e, 0.0), Point(2.0 * e, 0.0))
            && !PntsEqual(Point(0.0, 0.0), Point(2.0 * e, 0.0))
  {
  }

  /** `int_in_range`. */
  predicate IntInRange(v: int, lo: int, hi: int) {
    !(v < lo) && !(v > hi)
  }

  lemma IntInRangeMeaning(v: int, lo: int, hi: int)
    ensures IntInRange(v, lo, hi) <==> lo <= v <= hi
  {
  }

  /** `int_or_zero`. */
  function IntOrZero(v: int): (r: int)
    ensures r >= 0
    ensures v >= 0 ==> r == v
    ensures v < 0 ==> r == 0
  {
    if v < 0 then 0 else v
  }

  /** `int_or_min`. */
  function IntOrMin(v: int, lo: int): (r: int)
    ensures r >= lo
    ensures v >= lo ==> r == v
    ensures r == v || r == lo
  {
    if v < lo then lo else v
  }

  /** `int_or_max`. */
  function IntOrMax(v: int, hi: int): (r: int)
    ensures r <= hi
    ensures v <= hi ==> r == v
    ensures r == v || r == hi
  {
    if v > hi then hi else v
  }

  /** `pixel_to_point`: the lower-left corner of cell (`xi`, `yi`). */
  function PixelToPoint(xi: int, yi: int, inc: real, rgn: Region): Point {
    Point(xi as real * inc + rgn.xmin, yi as real * inc + rgn.ymin)
  }

  /** With cells wider than the tolerance, two lattice corners are
      tolerantly equal exactly when they are the same corner. */
  lemma LatticeMatch(xa: int, ya: int, xb: int, yb: int, inc: real, rgn: Region)
    requires inc > FltEpsilon
    ensures PntsEqual(PixelToPoint(xa, ya, inc, rgn), PixelToPoint(xb, yb, inc, rgn))
            <==> xa == xb && ya == yb
  {
    var p := PixelToPoint(xa, ya, inc, rgn);
    var q := PixelToPoint(xb, yb, inc, rgn);
    assert p.x - q.x == (xa - xb) as real * inc;
    assert p.y - q.y == (ya - yb) as real * inc;
    ApartByCells(xa - xb, inc);
    ApartByCells(ya - yb, inc);
  }

  /** A non-zero number of cells is at least one cell apart. */
  lemma ApartByCells(d: int, inc: real)
    requires inc > FltEpsilon
    ensures d != 0 ==> Abs(d as real * inc) > FltEpsilon
    ensures d == 0 ==> d as real * inc == 0.0
  {
    if d > 0 {
      assert d as real * inc >= inc;
    } else if d < 0 {
      assert (-d) as real * inc >= inc;
      assert d as real * inc == -((-d) as real * inc);
    }
  }

  /** The open-edge flags of one cell (`g_edges_t`): bottom, left, top, right. */
  datatype Edges = Edges(b: bool, l: bool, t: bool, r: bool)

  /** The flags of a cell no edge has been recorded for. */
  const NoEdges := Edges(false, false, false, false)

  datatype Side = Bottom | Left | Top | Right

  function Flag(e: Edges, s: Side): bool {
    match s
    case Bottom => e.b
    case Left => e.l
    case Top => e.t
    case Right => e.r
  }

  /** Clear one flag and keep the others. */
  function Clear(e: Edges, s: Side): (e': Edges)
    ensures !Flag(e', s)
    ensures forall s' :: s' != s ==> Flag(e', s') == Flag(e, s')
  {
    match s
    case Bottom => e.(b := false)
    case Left => e.(l := false)
    case Top => e.(t := false)
    case Right => e.(r := false)
  }

  /** `g_edges_p`: the cell still has an open edge. */
  predicate HasEdge(e: Edges) {
    if e.t then true
    else if e.b then true
    else if e.l then true
    else e.r
  }

  lemma HasEdgeMeaning(e: Edges)
    ensures HasEdge(e) <==> exists s :: Flag(e, s)
    ensures !HasEdge(e) <==> e == NoEdges
  {
    if e.b { assert Flag(e, Bottom); }
    if e.l { assert Flag(e, Left); }
    if e.t { assert Flag(e, Top); }
    if e.r { assert Flag(e, Right); }
  }

  /** `pl_match`: 1 when `p1` matches `p2`, otherwise 2 when it matches `p3`,
      otherwise 0. */
  function PlMatch(p1: Point, p2: Point, p3: Point): (r: int)
    ensures r == 1 <==> PntsEqual(p1, p2)
    ensures r == 2 <==> !PntsEqual(p1, p2) && PntsEqual(p1, p3)
    ensures r == 0 <==> !PntsEqual(p1, p2) && !PntsEqual(p1, p3)
  {
    if PntsEqual(p1, p2) then 1
    else if PntsEqual(p1, p3) then 2
    else 0
  }
}
