/** The geometry of src/hull.c: the signed-area test `ccw`, the segment
    crossing test `intersect`, the ray-cast `inside` test and the
    monotone-chain convex hull `mc_convex`. Hull entries are indices into
    the point array where the source stores pointers into it. */
module Hull {
  import opened Types

  /** `ccw`: twice the signed area of the triangle p1 p2 p3, positive for a
      counter-clockwise turn. */
  function Ccw(p1: Point, p2: Point, p3: Point): (r: real)
    ensures p1 == p2 || p1 == p3 || p2 == p3 ==> r == 0.0
  {
    (p2.x - p1.x) * (p3.y - p1.y) - (p2.y - p1.y) * (p3.x - p1.x)
  }

  /** Swapping the last two points negates the area, rotating the three
      leaves it, and so swapping the first two negates it too. */
  lemma CcwSymmetries(p1: Point, p2: Point, p3: Point)
    ensures Ccw(p1, p3, p2) == -Ccw(p1, p2, p3)
    ensures Ccw(p2, p3, p1) == Ccw(p1, p2, p3)
    ensures Ccw(p2, p1, p3) == -Ccw(p1, p2, p3)
  {
    var ax, ay := p2.x - p1.x, p2.y - p1.y;
    var bx, cy := p3.x - p1.x, p3.y - p1.y;
    assert Ccw(p1, p2, p3) == ax * cy - ay * bx;
    assert Ccw(p1, p3, p2) == bx * ay - cy * ax;
    assert Ccw(p2, p3, p1) == (bx - ax) * (-ay) - (cy - ay) * (-ax);
    assert Ccw(p2, p1, p3) == (-ax) * (cy - ay) - (-ay) * (bx - ax);
  }

  /** A point on the line through p and q has area zero with them. */
  lemma CcwCollinear(p: Point, q: Point, s: real)
    ensures Ccw(p, q, Point(p.x + s * (q.x - p.x), p.y + s * (q.y - p.y))) == 0.0
  {
    var dx, dy := q.x - p.x, q.y - p.y;
    assert Ccw(p, q, Point(p.x + s * dx, p.y + s * dy)) == dx * (s * dy) - dy * (s * dx);
  }

  /** The product of the areas the two ends of `l2` make with `l1`:
      negative when they lie strictly on opposite sides of it. */
  function Straddle(l1: Line, l2: Line): real {
    Ccw(l1.p1, l1.p2, l2.p1) * Ccw(l1.p1, l1.p2, l2.p2)
  }

  /** `intersect`: 1 when each segment's ends straddle the other by more
      than the threshold, otherwise 0 when either product lies within the
      threshold of zero, otherwise -1. */
  function Intersect(l1: Line, l2: Line, thresh: real): (r: int)
    ensures r == 1 <==> Straddle(l1, l2) < -thresh && Straddle(l2, l1) < -thresh
    ensures r == 0 <==> !(Straddle(l1, l2) < -thresh && Straddle(l2, l1) < -thresh)
                        && (Abs(Straddle(l1, l2)) <= thresh || Abs(Straddle(l2, l1)) <= thresh)
    ensures r == -1 <==> !(Straddle(l1, l2) < -thresh && Straddle(l2, l1) < -thresh)
                         && Abs(Straddle(l1, l2)) > thresh && Abs(Straddle(l2, l1)) > thresh
  {
    var a := Straddle(l1, l2);
    var b := Straddle(l2, l1);
    if a < 0.0 - thresh && b < 0.0 - thresh then 1
    else if a >= 0.0 - thresh && a <= thresh then 0
    else if b >= 0.0 - thresh && b <= thresh then 0
    else -1
  }

  function Reverse(l: Line): Line {
    Line(l.p2, l.p1)
  }

  /** The crossing test does not depend on which segment comes first. */
  lemma IntersectSymmetric(l1: Line, l2: Line, thresh: real)
    ensures Intersect(l1, l2, thresh) == Intersect(l2, l1, thresh)
  {
  }

  /** Nor on the direction of either segment. */
  lemma IntersectReversed(l1: Line, l2: Line, thresh: real)
    ensures Intersect(Reverse(l1), l2, thresh) == Intersect(l1, l2, thresh)
    ensures Intersect(l1, Reverse(l2), thresh) == Intersect(l1, l2, thresh)
  {
    CcwSymmetries(l1.p1, l1.p2, l2.p1);
    CcwSymmetries(l1.p1, l1.p2, l2.p2);
    CcwSymmetries(l2.p1, l2.p2, l1.p1);
    CcwSymmetries(l2.p1, l2.p2, l1.p2);
    assert Straddle(Reverse(l1), l2) == Straddle(l1, l2);
    assert Straddle(l2, Reverse(l1)) == Straddle(l2, l1);
    assert Straddle(Reverse(l2), l1) == Straddle(l2, l1);
    assert Straddle(l1, Reverse(l2)) == Straddle(l1, l2);
  }

  /** With a non-negative threshold a reported crossing is a proper one:
      the ends of each segment lie strictly on opposite sides of the other. */
  lemma IntersectIsProper(l1: Line, l2: Line, thresh: real)
    requires thresh >= 0.0
    ensures Intersect(l1, l2, thresh) == 1 ==> Ccw(l1.p1, l1.p2, l2.p1) * Ccw(l1.p1, l1.p2, l2.p2) < 0.0
    ensures Intersect(l1, l2, thresh) == 1 ==> Ccw(l1.p1, l1.p2, l2.p1) != 0.0 && Ccw(l1.p1, l1.p2, l2.p2) != 0.0
    ensures Intersect(l1, l2, thresh) == 1 ==> Ccw(l2.p1, l2.p2, l1.p1) != 0.0 && Ccw(l2.p1, l2.p2, l1.p2) != 0.0
  {
  }

  /** With a non-negative threshold, an end of one segment on the other's
      line is a touch: the result is 0. */
  lemma IntersectTouch(l1: Line, l2: Line, thresh: real)
    requires thresh >= 0.0
    requires Ccw(l1.p1, l1.p2, l2.p1) == 0.0 || Ccw(l1.p1, l1.p2, l2.p2) == 0.0
    ensures Intersect(l1, l2, thresh) == 0
  {
  }

  /** The horizontal ray `inside` casts from `p` to x = INT_MAX. */
  function Ray(p: Point): Line {
    Line(p, Point(IntMax as real, p.y))
  }

  /** Edge `i` of a polygon: from vertex `i` to vertex `i + 1`. */
  function EdgeOf(poly: seq<Point>, i: nat): Line
    requires i + 1 < |poly|
  {
    Line(poly[i], poly[i + 1])
  }

  /** Number of edges among the first `n` that the ray crosses. */
  function Crossings(p: Point, poly: seq<Point>, n: nat, thresh: real): (c: nat)
    requires n == 0 || n < |poly|
    ensures c <= n
  {
    if n == 0 then 0
    else Crossings(p, poly, n - 1, thresh) + (if Intersect(Ray(p), EdgeOf(poly, n - 1), thresh) == 1 then 1 else 0)
  }

  /** Some edge among the first `n` touches the ray. */
  ghost predicate Touches(p: Point, poly: seq<Point>, n: nat, thresh: real)
    requires n == 0 || n < |poly|
  {
    exists i :: 0 <= i < n && Intersect(Ray(p), EdgeOf(poly, i), thresh) == 0
  }

  /** `inside`: 1 as soon as an edge touches the ray, otherwise the parity
      of the edges it crosses. The loop reads vertex `hullsize`, so the
      polygon must have `hullsize + 1` vertices. */
  method Inside(p: Point, poly: seq<Point>, hullsize: int, dist: real) returns (r: int)
    requires hullsize <= 0 || hullsize < |poly|
    ensures r == 0 || r == 1
    ensures var n := if hullsize < 0 then 0 else hullsize;
            Touches(p, poly, n, FltEpsilon * dist) ==> r == 1
    ensures var n := if hullsize < 0 then 0 else hullsize;
            !Touches(p, poly, n, FltEpsilon * dist) ==> r == Crossings(p, poly, n, FltEpsilon * dist) % 2
  {
    var thresh := FltEpsilon * dist;
    var k := 0;
    var i := 0;
    while i < hullsize
      invariant 0 <= i && (hullsize <= 0 ==> i == 0) && (hullsize > 0 ==> i <= hullsize)
      invariant k == Crossings(p, poly, i, thresh)
      invariant !Touches(p, poly, i, thresh)
    {
      var l := Intersect(Ray(p), EdgeOf(poly, i), thresh);
      if l == 0 {
        assert Touches(p, poly, hullsize, thresh);
        return 1;
      }
      if l == 1 {
        k := k + 1;
      }
      i := i + 1;
    }
    return k % 2;
  }

  /** The unit square as a closed ring, and the reference answer of the
      ray-cast test. */
  const UnitSquare := [Point(0.0, 0.0), Point(1.0, 0.0), Point(1.0, 1.0), Point(0.0, 1.0), Point(0.0, 0.0)]

  /** The centre of the unit square is crossed once, by the right edge,
      and touches no edge. */
  lemma SquareCentreCrossedOnce()
    ensures !Touches(Point(0.5, 0.5), UnitSquare, 4, FltEpsilon)
    ensures Crossings(Point(0.5, 0.5), UnitSquare, 4, FltEpsilon) == 1
  {
    var p := Point(0.5, 0.5);
    CentreEdge0();
    CentreEdge1();
    CentreEdge2();
    CentreEdge3();
    var v := seq(4, k requires 0 <= k < 4 => Intersect(Ray(p), EdgeOf(UnitSquare, k), FltEpsilon));
    assert v == [-1, 1, -1, -1];
    forall k | 0 <= k < 4
      ensures Intersect(Ray(p), EdgeOf(UnitSquare, k), FltEpsilon) != 0
    {
      assert v[k] != 0;
    }
    assert Crossings(p, UnitSquare, 0, FltEpsilon) == 0;
    assert Crossings(p, UnitSquare, 1, FltEpsilon) == 0;
    assert Crossings(p, UnitSquare, 2, FltEpsilon) == 1;
    assert Crossings(p, UnitSquare, 3, FltEpsilon) == 1;
    assert Crossings(p, UnitSquare, 4, FltEpsilon) == 1;
  }

  /** A point right of the unit square is crossed by no edge and touches
      none. */
  lemma SquareRightNotCrossed()
    ensures !Touches(Point(2.0, 0.5), UnitSquare, 4, FltEpsilon)
    ensures Crossings(Point(2.0, 0.5), UnitSquare, 4, FltEpsilon) == 0
  {
    var p := Point(2.0, 0.5);
    RightEdge0();
    RightEdge1();
    RightEdge2();
    RightEdge3();
    var v := seq(4, k requires 0 <= k < 4 => Intersect(Ray(p), EdgeOf(UnitSquare, k), FltEpsilon));
    assert v == [-1, -1, -1, -1];
    forall k | 0 <= k < 4
      ensures Intersect(Ray(p), EdgeOf(UnitSquare, k), FltEpsilon) != 0
    {
      assert v[k] != 0;
    }
    assert Crossings(p, UnitSquare, 0, FltEpsilon) == 0;
    assert Crossings(p, UnitSquare, 1, FltEpsilon) == 0;
    assert Crossings(p, UnitSquare, 2, FltEpsilon) == 0;
    assert Crossings(p, UnitSquare, 3, FltEpsilon) == 0;
    assert Crossings(p, UnitSquare, 4, FltEpsilon) == 0;
  }

  /* The ray from the centre, and from (2, 0.5), against each side of the
     square, with the four orientation values of each test written out. */

  lemma CentreEdge0()
    ensures Intersect(Ray(Point(0.5, 0.5)), EdgeOf(UnitSquare, 0), FltEpsilon) == -1
  {
    var p, q := Point(0.5, 0.5), Point(2147483647.0, 0.5);
    assert Ray(p) == Line(p, q);
    assert EdgeOf(UnitSquare, 0) == Line(Point(0.0, 0.0), Point(1.0, 0.0));
    assert Ccw(p, q, Point(0.0, 0.0)) == -1073741823.25;
    assert Ccw(p, q, Point(1.0, 0.0)) == -1073741823.25;
    assert Ccw(Point(0.0, 0.0), Point(1.0, 0.0), p) == 0.5;
    assert Ccw(Point(0.0, 0.0), Point(1.0, 0.0), q) == 0.5;
  }

  lemma CentreEdge1()
    ensures Intersect(Ray(Point(0.5, 0.5)), EdgeOf(UnitSquare, 1), FltEpsilon) == 1
  {
    var p, q := Point(0.5, 0.5), Point(2147483647.0, 0.5);
    assert Ray(p) == Line(p, q);
    assert EdgeOf(UnitSquare, 1) == Line(Point(1.0, 0.0), Point(1.0, 1.0));
    assert Ccw(p, q, Point(1.0, 0.0)) == -1073741823.25;
    assert Ccw(p, q, Point(1.0, 1.0)) == 1073741823.25;
    assert Ccw(Point(1.0, 0.0), Point(1.0, 1.0), p) == 0.5;
    assert Ccw(Point(1.0, 0.0), Point(1.0, 1.0), q) == -2147483646.0;
  }

  lemma CentreEdge2()
    ensures Intersect(Ray(Point(0.5, 0.5)), EdgeOf(UnitSquare, 2), FltEpsilon) == -1
  {
    var p, q := Point(0.5, 0.5), Point(2147483647.0, 0.5);
    assert Ray(p) == Line(p, q);
    assert EdgeOf(UnitSquare, 2) == Line(Point(1.0, 1.0), Point(0.0, 1.0));
    assert Ccw(p, q, Point(1.0, 1.0)) == 1073741823.25;
    assert Ccw(p, q, Point(0.0, 1.0)) == 1073741823.25;
    assert Ccw(Point(1.0, 1.0), Point(0.0, 1.0), p) == 0.5;
    assert Ccw(Point(1.0, 1.0), Point(0.0, 1.0), q) == 0.5;
  }

  lemma CentreEdge3()
    ensures Intersect(Ray(Point(0.5, 0.5)), EdgeOf(UnitSquare, 3), FltEpsilon) == -1
  {
    var p, q := Point(0.5, 0.5), Point(2147483647.0, 0.5);
    assert Ray(p) == Line(p, q);
    assert EdgeOf(UnitSquare, 3) == Line(Point(0.0, 1.0), Point(0.0, 0.0));
    assert Ccw(p, q, Point(0.0, 1.0)) == 1073741823.25;
    assert Ccw(p, q, Point(0.0, 0.0)) == -1073741823.25;
    assert Ccw(Point(0.0, 1.0), Point(0.0, 0.0), p) == 0.5;
    assert Ccw(Point(0.0, 1.0), Point(0.0, 0.0), q) == 2147483647.0;
  }

  lemma RightEdge0()
    ensures Intersect(Ray(Point(2.0, 0.5)), EdgeOf(UnitSquare, 0), FltEpsilon) == -1
  {
    var p, q := Point(2.0, 0.5), Point(2147483647.0, 0.5);
    assert Ray(p) == Line(p, q);
    assert EdgeOf(UnitSquare, 0) == Line(Point(0.0, 0.0), Point(1.0, 0.0));
    assert Ccw(p, q, Point(0.0, 0.0)) == -1073741822.5;
    assert Ccw(p, q, Point(1.0, 0.0)) == -1073741822.5;
    assert Ccw(Point(0.0, 0.0), Point(1.0, 0.0), p) == 0.5;
    assert Ccw(Point(0.0, 0.0), Point(1.0, 0.0), q) == 0.5;
  }

  lemma RightEdge1()
    ensures Intersect(Ray(Point(2.0, 0.5)), EdgeOf(UnitSquare, 1), FltEpsilon) == -1
  {
    var p, q := Point(2.0, 0.5), Point(2147483647.0, 0.5);
    assert Ray(p) == Line(p, q);
    assert EdgeOf(UnitSquare, 1) == Line(Point(1.0, 0.0), Point(1.0, 1.0));
    assert Ccw(p, q, Point(1.0, 0.0)) == -1073741822.5;
    assert Ccw(p, q, Point(1.0, 1.0)) == 1073741822.5;
    assert Ccw(Point(1.0, 0.0), Point(1.0, 1.0), p) == -1.0;
    assert Ccw(Point(1.0, 0.0), Point(1.0, 1.0), q) == -2147483646.0;
  }

  lemma RightEdge2()
    ensures Intersect(Ray(Point(2.0, 0.5)), EdgeOf(UnitSquare, 2), FltEpsilon) == -1
  {
    var p, q := Point(2.0, 0.5), Point(2147483647.0, 0.5);
    assert Ray(p) == Line(p, q);
    assert EdgeOf(UnitSquare, 2) == Line(Point(1.0, 1.0), Point(0.0, 1.0));
    assert Ccw(p, q, Point(1.0, 1.0)) == 1073741822.5;
    assert Ccw(p, q, Point(0.0, 1.0)) == 1073741822.5;
    assert Ccw(Point(1.0, 1.0), Point(0.0, 1.0), p) == 0.5;
    assert Ccw(Point(1.0, 1.0), Point(0.0, 1.0), q) == 0.5;
  }

  lemma RightEdge3()
    ensures Intersect(Ray(Point(2.0, 0.5)), EdgeOf(UnitSquare, 3), FltEpsilon) == -1
  {
    var p, q := Point(2.0, 0.5), Point(2147483647.0, 0.5);
    assert Ray(p) == Line(p, q);
    assert EdgeOf(UnitSquare, 3) == Line(Point(0.0, 1.0), Point(0.0, 0.0));
    assert Ccw(p, q, Point(0.0, 1.0)) == 1073741822.5;
    assert Ccw(p, q, Point(0.0, 0.0)) == -1073741822.5;
    assert Ccw(Point(0.0, 1.0), Point(0.0, 0.0), p) == 2.0;
    assert Ccw(Point(0.0, 1.0), Point(0.0, 0.0), q) == 2147483647.0;
  }

  /** Every hull entry names an input point. */
  ghost predicate Indices(pts: seq<Point>, h: seq<nat>) {
    forall m :: 0 <= m < |h| ==> h[m] < |pts|
  }

  /** Every three consecutive entries from position `lo` on make a strict
      left turn. */
  ghost predicate LeftTurns(pts: seq<Point>, h: seq<nat>, lo: int)
    requires Indices(pts, h)
  {
    forall m :: lo <= m && 0 <= m && m + 2 < |h| ==> TurnAt(pts, h, m)
  }

  /** Entries `m`, `m + 1`, `m + 2` make a strict left turn. */
  ghost predicate TurnAt(pts: seq<Point>, h: seq<nat>, m: nat)
    requires Indices(pts, h) && m + 2 < |h|
  {
    Ccw(pts[h[m]], pts[h[m + 1]], pts[h[m + 2]]) > 0.0
  }

  /** Entries from position `lo` on strictly increase. */
  ghost predicate RisingFrom(h: seq<nat>, lo: int) {
    forall m :: lo <= m && 0 <= m && m + 1 < |h| ==> RiseAt(h, m)
  }

  ghost predicate RiseAt(h: seq<nat>, m: nat)
    requires m + 1 < |h|
  {
    h[m] < h[m + 1]
  }

  /** Entries from position `lo` on strictly decrease. */
  ghost predicate FallingFrom(h: seq<nat>, lo: int) {
    forall m :: lo <= m && 0 <= m && m + 1 < |h| ==> FallAt(h, m)
  }

  ghost predicate FallAt(h: seq<nat>, m: nat)
    requires m + 1 < |h|
  {
    h[m] > h[m + 1]
  }

  /** A prefix of a chain keeps its turns and its order. */
  lemma PrefixKeeps(pts: seq<Point>, h: seq<nat>, n: nat, lo: int)
    requires n <= |h| && Indices(pts, h)
    ensures Indices(pts, h[..n])
    ensures LeftTurns(pts, h, lo) ==> LeftTurns(pts, h[..n], lo)
    ensures RisingFrom(h, lo) ==> RisingFrom(h[..n], lo)
    ensures FallingFrom(h, lo) ==> FallingFrom(h[..n], lo)
  {
    var p := h[..n];
    forall m | lo <= m && 0 <= m && m + 2 < n && LeftTurns(pts, h, lo)
      ensures TurnAt(pts, p, m)
    {
      assert TurnAt(pts, h, m);
      assert p[m] == h[m] && p[m + 1] == h[m + 1] && p[m + 2] == h[m + 2];
    }
    forall m | lo <= m && 0 <= m && m + 1 < n
      ensures RisingFrom(h, lo) ==> RiseAt(p, m)
      ensures FallingFrom(h, lo) ==> FallAt(p, m)
    {
      assert p[m] == h[m] && p[m + 1] == h[m + 1];
      if RisingFrom(h, lo) {
        assert RiseAt(h, m);
      }
      if FallingFrom(h, lo) {
        assert FallAt(h, m);
      }
    }
  }

  /** Pushing point `i` after a left turn keeps the turns from `lo` on. */
  lemma PushKeeps(pts: seq<Point>, h: seq<nat>, i: nat, lo: int)
    requires i < |pts| && Indices(pts, h) && LeftTurns(pts, h, lo)
    requires |h| >= 2 && |h| - 2 >= lo ==> Ccw(pts[h[|h| - 2]], pts[h[|h| - 1]], pts[i]) > 0.0
    ensures Indices(pts, h + [i]) && LeftTurns(pts, h + [i], lo)
  {
    var h' := h + [i];
    forall m | lo <= m && 0 <= m && m + 2 < |h'|
      ensures TurnAt(pts, h', m)
    {
      assert h'[m] == h[m] && h'[m + 1] == h[m + 1];
      if m + 2 < |h| {
        assert TurnAt(pts, h, m);
        assert h'[m + 2] == h[m + 2];
      }
    }
  }

  /** The `while (k >= t && ccw(...) <= 0) --k;` pop: drop the last entry
      while it and the one before make no left turn with point `i`, never
      going below `t - 1` entries. */
  function Pop(pts: seq<Point>, h: seq<nat>, t: nat, i: nat): (h': seq<nat>)
    requires t >= 2 && i < |pts| && Indices(pts, h)
    ensures |h'| <= |h| && h' == h[..|h'|]
    ensures |h| >= t - 1 ==> |h'| >= t - 1
    ensures |h| < t ==> h' == h
    ensures |h'| >= t ==> Ccw(pts[h'[|h'| - 2]], pts[h'[|h'| - 1]], pts[i]) > 0.0
    decreases |h|
  {
    if |h| >= t && Ccw(pts[h[|h| - 2]], pts[h[|h| - 1]], pts[i]) <= 0.0 then
      Pop(pts, h[..|h| - 1], t, i)
    else h
  }

  /** What the lower loop keeps before handling point `i`. */
  ghost predicate LowerInv(pts: seq<Point>, h: seq<nat>, i: nat) {
    && i <= |pts| && Indices(pts, h) && LeftTurns(pts, h, 0) && RisingFrom(h, 0)
    && (forall m :: 0 <= m < |h| ==> h[m] < i)
  }

  /** One step of the lower loop keeps its invariant. */
  lemma LowerStep(pts: seq<Point>, h: seq<nat>, i: nat)
    requires LowerInv(pts, h, i) && i < |pts|
    ensures var h' := Pop(pts, h, 2, i);
            && LowerInv(pts, h' + [i], i + 1)
            && (|h| >= 1 ==> |h'| >= 1 && h'[0] == h[0])
  {
    var h' := Pop(pts, h, 2, i);
    PrefixKeeps(pts, h, |h'|, 0);
    PushKeeps(pts, h', i, 0);
    var h2 := h' + [i];
    forall m | 0 <= m && m + 1 < |h2|
      ensures RiseAt(h2, m)
    {
      assert h2[m] == h'[m] == h[m];
      if m + 1 < |h'| {
        assert RiseAt(h', m);
        assert h2[m + 1] == h'[m + 1];
      }
    }
  }

  /** The lower loop of `mc_convex` over points `i ..`: pop, then push. */
  function Lower(pts: seq<Point>, h: seq<nat>, i: nat): (r: seq<nat>)
    requires LowerInv(pts, h, i)
    ensures LowerInv(pts, r, |pts|)
    ensures |r| <= |h| + (|pts| - i)
    ensures |h| >= 1 ==> |r| >= 1 && r[0] == h[0]
    ensures |h| >= 2 || (|h| >= 1 && i < |pts|) ==> |r| >= 2
    ensures i < |pts| ==> |r| >= 1 && r[|r| - 1] == |pts| - 1
    ensures i == |pts| ==> r == h
    decreases |pts| - i
  {
    if i == |pts| then h
    else
      LowerStep(pts, h, i);
      Lower(pts, Pop(pts, h, 2, i) + [i], i + 1)
  }

  /** What the upper loop keeps before handling point `i`: the entries
      from position `t - 2` on (the rightmost point, then the upper chain)
      turn left, fall, and lie above `i`. */
  ghost predicate UpperInv(pts: seq<Point>, h: seq<nat>, t: nat, i: int) {
    && t >= 2 && |h| >= t - 1 && -1 <= i < |pts|
    && Indices(pts, h) && LeftTurns(pts, h, t - 2) && FallingFrom(h, t - 2)
    && (forall m :: t - 2 <= m < |h| ==> h[m] > i)
  }

  /** One step of the upper loop keeps its invariant and the first
      `t - 1` entries. */
  lemma UpperStep(pts: seq<Point>, h: seq<nat>, t: nat, i: int)
    requires UpperInv(pts, h, t, i) && i >= 0
    ensures var h' := Pop(pts, h, t, i);
            && UpperInv(pts, h' + [i], t, i - 1)
            && (h' + [i])[..t - 1] == h[..t - 1]
  {
    var h' := Pop(pts, h, t, i);
    PrefixKeeps(pts, h, |h'|, t - 2);
    PushKeeps(pts, h', i, t - 2);
    var h2 := h' + [i];
    forall m | t - 2 <= m && m + 1 < |h2|
      ensures FallAt(h2, m)
    {
      assert h2[m] == h'[m] == h[m];
      if m + 1 < |h'| {
        assert FallAt(h', m);
        assert h2[m + 1] == h'[m + 1];
      }
    }
    forall m | t - 2 <= m < |h2|
      ensures h2[m] > i - 1
    {
      if m < |h'| {
        assert h2[m] == h[m];
      }
    }
    assert h2[..t - 1] == h'[..t - 1] == h[..t - 1];
  }

  /** The upper loop of `mc_convex` over points `i` down to 0, popping no
      lower than `t - 1` entries so the lower chain stays. */
  function Upper(pts: seq<Point>, h: seq<nat>, t: nat, i: int): (r: seq<nat>)
    requires UpperInv(pts, h, t, i)
    ensures UpperInv(pts, r, t, -1)
    ensures r[..t - 1] == h[..t - 1]
    ensures |r| <= |h| + i + 1
    ensures i >= 0 ==> |r| >= t && r[|r| - 1] == 0
    ensures i < 0 ==> r == h
    decreases i + 1
  {
    if i < 0 then h
    else
      UpperStep(pts, h, t, i);
      Upper(pts, Pop(pts, h, t, i) + [i], t, i - 1)
  }

  /** The lower chain of `mc_convex`: it starts at the first point, ends
      at the last, rises, and turns left at every inner entry. */
  function LowerChain(pts: seq<Point>): (lo: seq<nat>)
    ensures Indices(pts, lo) && LeftTurns(pts, lo, 0) && RisingFrom(lo, 0)
    ensures |lo| <= |pts|
    ensures |pts| == 0 <==> |lo| == 0
    ensures |pts| >= 1 ==> lo[0] == 0 && lo[|lo| - 1] == |pts| - 1
    ensures |pts| >= 2 ==> |lo| >= 2
  {
    Lower(pts, [], 0)
  }

  /** `mc_convex`: the lower chain, then the upper chain from the
      second-to-last point back to the first, with `t = k + 1`. The ring
      is closed: with two or more points it starts and ends at point 0. */
  function McConvex(pts: seq<Point>): (hull: seq<nat>)
    ensures Indices(pts, hull)
    ensures |pts| == 0 ==> hull == []
    ensures |pts| == 1 ==> hull == [0]
    ensures |pts| >= 1 ==> |hull| <= 2 * |pts| - 1
    ensures |pts| >= 2 ==> |hull| >= 3 && hull[0] == 0 && hull[|hull| - 1] == 0
    ensures var lo := LowerChain(pts);
            && |hull| >= |lo| && hull[..|lo|] == lo
            && LeftTurns(pts, hull, |lo| - 1)
            && FallingFrom(hull, |lo| - 1)
  {
    var lo := LowerChain(pts);
    if |pts| == 0 then []
    else
      assert UpperInv(pts, lo, |lo| + 1, |pts| - 2);
      var hull := Upper(pts, lo, |lo| + 1, |pts| - 2);
      assert hull[..|lo|] == lo[..|lo|] == lo;
      hull
  }

  /** Together: every turn of the hull ring is a strict left turn except
      possibly the one at the rightmost point where the two chains meet. */
  lemma HullTurnsLeft(pts: seq<Point>, m: nat)
    requires m + 2 < |McConvex(pts)| && m + 2 != |LowerChain(pts)|
    ensures var hull := McConvex(pts); Ccw(pts[hull[m]], pts[hull[m + 1]], pts[hull[m + 2]]) > 0.0
  {
    var hull, lo := McConvex(pts), LowerChain(pts);
    if m + 2 < |lo| {
      assert TurnAt(pts, lo, m);
      assert hull[m] == lo[m] && hull[m + 1] == lo[m + 1] && hull[m + 2] == lo[m + 2];
    } else {
      assert TurnAt(pts, hull, m);
    }
  }
}
