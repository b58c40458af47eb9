/** The pure logic of the driver src/bounds.c: the qsort comparators, the
    region test, the density estimate `qadd` and the bounding-box fold. */
module Bounds {
  import opened Types
  import Pnts

  /** The three-way result every comparator returns: -1 when `u` is below
      `v`, 1 when above, 0 otherwise. */
  function Order(u: real, v: real): (r: int)
    ensures r == -1 <==> u < v
    ensures r == 1 <==> u > v
    ensures r == 0 <==> u == v
  {
    if u < v then -1 else if u > v then 1 else 0
  }

  /** `compare`: ascending x. */
  function Compare(a: Point, b: Point): int {
    Order(a.x, b.x)
  }

  /** `sort_min_y`: ascending y. */
  function SortMinY(a: Point, b: Point): int {
    Order(a.y, b.y)
  }

  /** `sort_max_y`: descending y. */
  function SortMaxY(a: Point, b: Point): int {
    if a.y > b.y then -1 else if a.y < b.y then 1 else 0
  }

  /** `sort_max_x`: descending x. */
  function SortMaxX(a: Point, b: Point): int {
    if a.x > b.x then -1 else if a.x < b.x then 1 else 0
  }

  /** `sort_min_x`: ascending x. */
  function SortMinX(a: Point, b: Point): int {
    if a.x < b.x then -1 else if a.x > b.x then 1 else 0
  }

  /** `compare` and `sort_min_x` look at x alone: two points with the same x
      compare equal whatever their y, and the order is antisymmetric and
      transitive. */
  lemma CompareByXOnly(a: Point, b: Point, c: Point)
    ensures Compare(a, b) == 0 <==> a.x == b.x
    ensures Compare(a, b) == -1 <==> a.x < b.x
    ensures Compare(a, b) == -Compare(b, a)
    ensures SortMinX(a, b) == Compare(a, b)
    ensures Compare(a, b) <= 0 && Compare(b, c) <= 0 ==> Compare(a, c) <= 0
    ensures Compare(a, Point(a.x, c.y)) == 0
  {
  }

  /** `sort_min_y` orders by y alone, antisymmetrically and transitively. */
  lemma SortMinYByYOnly(a: Point, b: Point, c: Point)
    ensures SortMinY(a, b) == 0 <==> a.y == b.y
    ensures SortMinY(a, b) == -1 <==> a.y < b.y
    ensures SortMinY(a, b) == -SortMinY(b, a)
    ensures SortMinY(a, b) <= 0 && SortMinY(b, c) <= 0 ==> SortMinY(a, c) <= 0
  {
  }

  /** The descending comparators are the ascending ones negated. */
  lemma DescendingIsNegated(a: Point, b: Point)
    ensures SortMaxY(a, b) == -SortMinY(a, b)
    ensures SortMaxX(a, b) == -Compare(a, b)
    ensures SortMaxX(a, b) == Compare(b, a)
  {
  }

  /** `region_valid_p`: both extents are positive. */
  predicate RegionValid(r: Region) {
    if r.xmin >= r.xmax then false
    else if r.ymin >= r.ymax then false
    else true
  }

  lemma RegionValidMeaning(r: Region)
    ensures RegionValid(r) <==> r.xmin < r.xmax && r.ymin < r.ymax
  {
  }

  /** The index loop of `qadd`: the first index of each extreme, seeded
      with index 0, and the region they span is the bounding box. */
  method Extremes(pts: seq<Point>) returns (xmin: nat, xmax: nat, ymin: nat, ymax: nat)
    requires |pts| >= 1
    ensures xmin < |pts| && xmax < |pts| && ymin < |pts| && ymax < |pts|
    ensures Pnts.Tight(Region(pts[xmin].x, pts[xmax].x, pts[ymin].y, pts[ymax].y), pts)
  {
    ymin, ymax, xmin, xmax := 0, 0, 0, 0;
    var i := 1;
    assert pts[..1] == [pts[0]];
    assert Region(pts[0].x, pts[0].x, pts[0].y, pts[0].y) == Pnts.Seed(pts[0]);
    while i < |pts|
      invariant 1 <= i <= |pts|
      invariant xmin < i && xmax < i && ymin < i && ymax < i
      invariant Pnts.Tight(Region(pts[xmin].x, pts[xmax].x, pts[ymin].y, pts[ymax].y), pts[..i])
    {
      ghost var box := Region(pts[xmin].x, pts[xmax].x, pts[ymin].y, pts[ymax].y);
      Pnts.WidenExtends(box, pts, i);
      if pts[i].y < pts[ymin].y { ymin := i; }
      if pts[i].x < pts[xmin].x { xmin := i; }
      if pts[i].y > pts[ymax].y { ymax := i; }
      if pts[i].x > pts[xmax].x { xmax := i; }
      assert Region(pts[xmin].x, pts[xmax].x, pts[ymin].y, pts[ymax].y) == Pnts.Widen(box, pts[i]);
      i := i + 1;
    }
    assert pts[..i] == pts;
  }

  /** `qadd`: the area of the points' bounding box divided by their
      number. The source reads `points[0]` unguarded, so at least one point
      is needed. */
  method Qadd(pts: seq<Point>) returns (r: real)
    requires |pts| >= 1
    ensures r >= 0.0
    ensures forall b :: Pnts.Tight(b, pts) ==> r * (|pts| as real) == (b.xmax - b.xmin) * (b.ymax - b.ymin)
  {
    var xmin, xmax, ymin, ymax := Extremes(pts);
    var box := Region(pts[xmin].x, pts[xmax].x, pts[ymin].y, pts[ymax].y);
    var w := pts[xmax].x - pts[xmin].x;
    var l := pts[ymax].y - pts[ymin].y;
    assert w >= 0.0 && l >= 0.0;
    r := (w * l) / (|pts| as real);
    AreaPerPoint(w, l, |pts| as real);
    forall b | Pnts.Tight(b, pts)
      ensures r * (|pts| as real) == (b.xmax - b.xmin) * (b.ymax - b.ymin)
    {
      Pnts.TightUnique(b, box, pts);
    }
  }

  /** Dividing a non-negative area by a positive count. */
  lemma AreaPerPoint(w: real, l: real, n: real)
    requires w >= 0.0 && l >= 0.0 && n > 0.0
    ensures (w * l) / n >= 0.0
    ensures ((w * l) / n) * n == w * l
  {
    if l > 0.0 {
      MulMono(0.0, w, l);
    }
    DivPos(w * l, n);
  }

  /** How many leading records the `--skip` count `sl` drops: none when it
      is not positive, otherwise up to all of them. */
  function Skipped(sl: int, n: nat): (k: nat)
    ensures k <= n
    ensures sl <= 0 ==> k == 0
    ensures sl > 0 ==> k == if sl < n then sl else n
  {
    if sl <= 0 then 0 else if sl < n then sl else n
  }

  /** One counted record of the bounding-box branch: the first seeds the
      four values, each later one moves a bound only when it lies strictly
      beyond it. */
  function Include(acc: Option<Region>, p: Point): (r: Option<Region>)
    ensures r.Some?
    ensures acc.None? ==> r.value == Pnts.Seed(p)
    ensures acc.Some? ==> r.value == Pnts.Widen(acc.value, p)
  {
    match acc
    case None => Some(Region(p.x, p.x, p.y, p.y))
    case Some(b) =>
      Some(Region(if p.x < b.xmin then p.x else b.xmin,
                  if p.x > b.xmax then p.x else b.xmax,
                  if p.y < b.ymin then p.y else b.ymin,
                  if p.y > b.ymax then p.y else b.ymax))
  }

  /** Including the next record keeps the running values the bounding box
      of the records counted so far. */
  lemma IncludeExtends(records: seq<Point>, from: nat, n: nat, acc: Option<Region>)
    requires from <= n < |records|
    requires acc.None? ==> from == n
    requires acc.Some? ==> from < n && Pnts.Tight(acc.value, records[from..n])
    ensures Pnts.Tight(Include(acc, records[n]).value, records[from..n + 1])
  {
    var run := records[from..n + 1];
    if acc.None? {
      assert run == [records[n]];
    } else {
      assert run[..n - from] == records[from..n] by {
        forall k | 0 <= k < n - from
          ensures run[..n - from][k] == records[from..n][k]
        {
        }
      }
      assert run[n - from] == records[n];
      Pnts.WidenExtends(acc.value, run, n - from);
      assert run[..n - from + 1] == run;
    }
  }

  /** The bounding-box branch of `main`, over the records as read: the
      first `sl` records are skipped and the rest folded with `Include`.
      With no counted record the four values are never set, which is
      `None` here. */
  method BoundingBox(records: seq<Point>, sl: int) returns (box: Option<Region>, count: nat)
    ensures count == |records| - Skipped(sl, |records|)
    ensures box.None? <==> count == 0
    ensures box.Some? ==> Pnts.Tight(box.value, records[Skipped(sl, |records|)..|records|])
  {
    var skip := sl;
    box := None;
    count := 0;
    var n := 0;
    while n < |records|
      invariant 0 <= n <= |records|
      invariant count <= n && n - count == Skipped(sl, n)
      invariant skip == sl - Skipped(sl, n)
      invariant box.None? <==> count == 0
      invariant box.Some? ==> Pnts.Tight(box.value, records[n - count..n])
    {
      if skip > 0 {
        skip := skip - 1;
      } else {
        IncludeExtends(records, n - count, n, box);
        box := Include(box, records[n]);
        count := count + 1;
      }
      n := n + 1;
    }
  }

  /** The ring the bounding-box branch emits: lower-left, upper-left,
      upper-right, lower-right, and lower-left again. */
  function BoxRing(r: Region): (ring: seq<Point>)
    ensures |ring| == 5
    ensures ring[0] == ring[4] == Point(r.xmin, r.ymin)
    ensures forall k :: 0 <= k < 4 ==> ring[k].x == ring[k + 1].x || ring[k].y == ring[k + 1].y
    ensures forall k :: 0 <= k < 5 ==>
              (ring[k].x == r.xmin || ring[k].x == r.xmax) && (ring[k].y == r.ymin || ring[k].y == r.ymax)
  {
    [Point(r.xmin, r.ymin), Point(r.xmin, r.ymax), Point(r.xmax, r.ymax), Point(r.xmax, r.ymin), Point(r.xmin, r.ymin)]
  }

  /** The emitted ring visits all four corners of the box, so the box of
      the ring is the region itself. */
  lemma BoxRingIsTight(r: Region)
    requires r.xmin <= r.xmax && r.ymin <= r.ymax
    ensures Pnts.Tight(r, BoxRing(r))
    ensures Point(r.xmax, r.ymax) in BoxRing(r) && Point(r.xmin, r.ymax) in BoxRing(r)
    ensures Point(r.xmax, r.ymin) in BoxRing(r)
  {
    var ring := BoxRing(r);
    assert ring[2].x == r.xmax && ring[2].y == r.ymax;
  }
}
