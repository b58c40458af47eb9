/** The concave-hull branch of the driver src/bounds.c: pick a starting
    distance, ask the concave wrapper for a hull, reject it while some point
    lies outside, double the distance and retry, and fall back to the convex
    wrapper once the distance overflows. The distance-weighted wrapper, the
    point-in-hull test and the convex wrapper are not part of this model:
    they enter as the functions of an `Oracles` value. */
module Concave {
  import opened Types
  import Pnts
  import Bounds

  /** 2^k. */
  function Pow2(k: nat): (r: real)
    ensures r >= 1.0
  {
    if k == 0 then 1.0 else 2.0 * Pow2(k - 1)
  }

  /** DBL_MAX, the largest finite IEEE double: (2 - 2^-52) * 2^1023,
      that is 2^1024 - 2^971. */
  const DblMax: real := 179769313486231570814527423731704356798070567525844996598917476803157260780028538760589558632766878171540458953514382464234321326889464182768467546703537516986049910576551282076245490090389328944075868508455133942304583236903222948165808559332123348274797826204144723168738177180919299881250404026184124858368.0

  /** A double distance as the loop sees it: a finite value or +infinity. */
  datatype Dist = Finite(v: real) | Infinite

  /** A finite real stored into a double, overflowing to +infinity past
      DBL_MAX (rounding below DBL_MAX is not modelled). */
  function AsDouble(x: real): (d: Dist)
    ensures d.Finite? <==> x <= DblMax
    ensures d.Finite? ==> d.v == x
  {
    if x > DblMax then Infinite else Finite(x)
  }

  /** `dist += dist`: doubling a double is exact until it overflows. */
  function Twice(d: Dist): (r: Dist)
    ensures d.Infinite? ==> r.Infinite?
    ensures d.Finite? ==> r == AsDouble(2.0 * d.v)
  {
    match d
    case Infinite => Infinite
    case Finite(v) => if v + v > DblMax then Infinite else Finite(v + v)
  }

  /** Doubling a double that stays within DBL_MAX is exact. */
  lemma TwiceFinite(a: real)
    requires a + a <= DblMax
    ensures Twice(Finite(a)) == Finite(a + a)
  {
  }

  /** `d` doubled `k` times. */
  function Doubled(d: Dist, k: nat): Dist {
    if k == 0 then d else Twice(Doubled(d, k - 1))
  }

  /** While no overflow happens, `k` doublings multiply by 2^k. */
  lemma {:induction false} DoubledValue(v: real, k: nat)
    requires v > 0.0
    requires v * Pow2(k) <= DblMax
    ensures Doubled(Finite(v), k) == Finite(v * Pow2(k))
  {
    if k > 0 {
      var a := v * Pow2(k - 1);
      ScaleStep(v, k);
      DoubledValue(v, k - 1);
      TwiceFinite(a);
    }
  }

  /** `v * 2^k` is twice `v * 2^(k-1)` and not below it. */
  lemma ScaleStep(v: real, k: nat)
    requires v > 0.0 && k > 0
    ensures v * Pow2(k) == v * Pow2(k - 1) + v * Pow2(k - 1)
    ensures v * Pow2(k - 1) <= v * Pow2(k)
  {
    MulMono(0.0, Pow2(k - 1), v);
  }

  /** A distance the loop can start from or reach: positive. */
  predicate Positive(d: Dist) {
    d.Infinite? || (0.0 < d.v <= DblMax)
  }

  /** The points rearranged by a wrapper, and the index of the last hull
      point among them (negative when no hull was found). */
  datatype Hull = Hull(pts: seq<Point>, size: int)

  /** `dpw_concave`, `inside_p` and `pw_convex`. */
  datatype Oracles = Oracles(
    concave: (seq<Point>, Dist) -> Hull,
    inside: (Point, seq<Point>, int) -> bool,
    convex: seq<Point> -> Hull)

  /** The wrappers rearrange the points in place, so the arrangement has
      as many points as it was given. */
  ghost predicate InPlace(o: Oracles) {
    && (forall q, d :: |o.concave(q, d).pts| == |q|)
    && (forall q :: |o.convex(q).pts| == |q|)
  }

  /** Every point after the hull lies inside it. */
  predicate Gathers(o: Oracles, h: Hull)
    requires h.size >= 0
  {
    forall i :: h.size < i < |h.pts| ==> o.inside(h.pts[i], h.pts, h.size)
  }

  /** The hull size after the check of src/bounds.c:460-466: a found hull
      that leaves a point outside counts as not found. */
  function Verdict(o: Oracles, h: Hull): (r: int)
    ensures r == -1 <==> h.size == -1 || (h.size >= 0 && !Gathers(o, h))
    ensures r != -1 ==> r == h.size
    ensures r >= 0 ==> Gathers(o, h)
  {
    if h.size >= 0 && !Gathers(o, h) then -1 else h.size
  }

  /** The check loop itself: the points after the hull are examined in order
      and the first one outside rejects the hull. */
  method CheckGathered(o: Oracles, h: Hull) returns (size: int)
    ensures size == Verdict(o, h)
  {
    size := h.size;
    if size >= 0 {
      var i := size + 1;
      while i < |h.pts|
        invariant size + 1 <= i
        invariant size == h.size
        invariant forall k :: h.size < k < i && k < |h.pts| ==> o.inside(h.pts[k], h.pts, h.size)
      {
        if !o.inside(h.pts[i], h.pts, size) {
          size := -1;
          return;
        }
        i := i + 1;
      }
    }
  }

  /** The state the retry loop carries: the point array, the distance and
      the hull size. */
  datatype State = State(pts: seq<Point>, dist: Dist, size: int)

  /** The hull the concave wrapper gives for the original points at
      distance `d`, after the check. */
  function Judged(o: Oracles, orig: seq<Point>, d: Dist): (s: State)
    requires InPlace(o)
    ensures s.dist == d && |s.pts| == |orig|
  {
    var h := o.concave(orig, d);
    State(h.pts, d, Verdict(o, h))
  }

  /** The convex fallback at infinite distance. */
  function Fallback(o: Oracles, orig: seq<Point>): (s: State)
    requires InPlace(o)
    ensures s.dist.Infinite? && |s.pts| == |orig|
  {
    var c := o.convex(orig);
    State(c.pts, Infinite, c.size)
  }

  /** One pass of the body of `while (hullsize == -1)`: wrap, check,
      double and restore on failure, and fall back to the convex wrapper
      when the distance is infinite. The source's further tests `dist ==
      NAN` and `dist < 0` never hold here (`Positive` is kept). */
  function Step(o: Oracles, orig: seq<Point>, s: State): (r: State)
    requires InPlace(o)
    requires |s.pts| == |orig|
    ensures |r.pts| == |orig|
    ensures Positive(s.dist) ==> Positive(r.dist)
  {
    var h := o.concave(s.pts, s.dist);
    var size := Verdict(o, h);
    var pts := if size == -1 then orig else h.pts;
    var dist := if size == -1 then Twice(s.dist) else s.dist;
    if dist.Infinite? then Fallback(o, orig) else State(pts, dist, size)
  }

  /** How the loop ends: with a hull size other than -1, or never, when the
      convex fallback itself reports -1 and every pass repeats the same
      state. `rejected` counts the distance doublings. */
  datatype Outcome = Done(s: State, rejected: nat) | Spins(s: State, rejected: nat)

  /** What the retry loop guarantees when started from distance `d0` on
      the original points: every distance tried before the last was
      rejected; a finite last distance is the first one whose hull is
      accepted; an infinite one leaves the convex wrapper's answer, and the
      loop spins exactly when that answer is -1. */
  ghost predicate Chosen(o: Oracles, orig: seq<Point>, d0: Dist, r: Outcome)
    requires InPlace(o)
  {
    var dk := Doubled(d0, r.rejected);
    && r.s.dist == dk
    && (forall j :: 0 <= j < r.rejected ==> Judged(o, orig, Doubled(d0, j)).size == -1)
    && (dk.Finite? ==> r.Done? && r.s == Judged(o, orig, dk) && r.s.size != -1)
    && (dk.Infinite? ==> r.s == Fallback(o, orig) && (r.Spins? <==> r.s.size == -1))
    && (r.Spins? ==> Step(o, orig, r.s) == r.s)
  }

  /** How far a finite distance is from overflowing. */
  function Headroom(d: Dist): nat
    requires Positive(d)
  {
    if d.Infinite? then 0
    else
      DivPos(DblMax, d.v);
      (DblMax / d.v).Floor
  }

  /** Halving a number of at least 2 lowers its floor. */
  lemma HalfFloor(x: real)
    requires x >= 2.0
    ensures (x / 2.0).Floor < x.Floor
  {
  }

  /** Doubling a distance that stays finite lowers its headroom. */
  lemma HeadroomShrinks(v: real)
    requires 0.0 < v && v + v <= DblMax
    ensures Headroom(Finite(v + v)) < Headroom(Finite(v))
  {
    FloorHalves(DblMax, v);
  }

  /** For any positive bound `m`, doubling `v` lowers the floor of `m / v`
      as long as the double stays within `m`. */
  lemma FloorHalves(m: real, v: real)
    requires 0.0 < v && v + v <= m
    ensures (m / (v + v)).Floor < (m / v).Floor
  {
    var x := m / v;
    var y := m / (v + v);
    assert x * v == m;
    assert y * (v + v) == m;
    assert (y + y) * v == x * v;
    MulMono(y + y, x, v);
    MulMono(x, y + y, v);
    assert x == y + y;
    MulMono(x, 2.0, v);
    HalfFloor(x);
  }

  /** Doubling first and then `k` more times is doubling `k + 1` times. */
  lemma {:induction false} DoubledShift(d: Dist, k: nat)
    ensures Doubled(Twice(d), k) == Doubled(d, k + 1)
  {
    if k > 0 {
      DoubledShift(d, k - 1);
    }
  }

  /** One more rejected round in front. */
  function Bump(r: Outcome): (b: Outcome)
    ensures b.s == r.s && b.rejected == r.rejected + 1 && (b.Spins? <==> r.Spins?)
  {
    match r
    case Done(t, k) => Done(t, k + 1)
    case Spins(t, k) => Spins(t, k + 1)
  }

  /** A round rejected at `d` followed by a loop that satisfies `Chosen`
      from the doubled distance satisfies `Chosen` from `d`. */
  lemma Shift(o: Oracles, orig: seq<Point>, d: Dist, r: Outcome)
    requires InPlace(o)
    requires Judged(o, orig, d).size == -1
    requires Chosen(o, orig, Twice(d), r)
    ensures Chosen(o, orig, d, Bump(r))
  {
    DoubledShift(d, r.rejected);
    forall j | 0 <= j < r.rejected + 1
      ensures Judged(o, orig, Doubled(d, j)).size == -1
    {
      if j > 0 {
        DoubledShift(d, j - 1);
      }
    }
  }

  /** The retry loop entered with hull size -1 on the original points.
      Each finite round that is rejected doubles the distance, so the loop
      either accepts a hull or overflows, and the first round at infinite
      distance ends in the convex fallback. */
  function Run(o: Oracles, orig: seq<Point>, d: Dist): (r: Outcome)
    requires InPlace(o)
    requires Positive(d)
    ensures Chosen(o, orig, d, r)
    decreases Headroom(d)
  {
    var s := Step(o, orig, State(orig, d, -1));
    var k := if Judged(o, orig, d).size == -1 then 1 else 0;
    if s.dist.Infinite? then
      if s.size == -1 then Spins(s, k) else Done(s, k)
    else if s.size != -1 then
      Done(s, 0)
    else
      HeadroomShrinks(d.v);
      var r := Run(o, orig, s.dist);
      Shift(o, orig, d, r);
      Bump(r)
  }

  /** An infinite distance stays infinite under further doubling. */
  lemma {:induction false} InfiniteStays(d: Dist, j: nat, k: nat)
    requires j <= k && Doubled(d, j).Infinite?
    ensures Doubled(d, k).Infinite?
  {
    if j < k {
      InfiniteStays(d, j, k - 1);
    }
  }

  /** If some doubling of the start distance that is still finite gives an
      accepted hull, the loop never reaches the convex fallback: it stops at
      a finite distance no later than that doubling. */
  lemma StopsBeforeFallback(o: Oracles, orig: seq<Point>, d0: Dist, k: nat)
    requires InPlace(o) && Positive(d0)
    requires Doubled(d0, k).Finite?
    requires Judged(o, orig, Doubled(d0, k)).size != -1
    ensures Run(o, orig, d0).Done?
    ensures Run(o, orig, d0).rejected <= k
    ensures Run(o, orig, d0).s.dist.Finite?
  {
    var r := Run(o, orig, d0);
    var jk := Judged(o, orig, Doubled(d0, k));
    assert k < r.rejected ==> jk.size == -1;
    if Doubled(d0, r.rejected).Infinite? {
      InfiniteStays(d0, r.rejected, k);
    }
  }

  /** The area of a region. */
  function Area(b: Region): real {
    (b.xmax - b.xmin) * (b.ymax - b.ymin)
  }

  /** The concave branch of `main` (src/bounds.c:429-487) without its
      reading and printing. The distance is the double the user gave, so
      it may be infinite. A zero distance is replaced by the `qadd`
      estimate; a distance that is not positive gives hull size 0, the first
      point alone (with no points the estimate is 0/0, which is not
      positive either); a positive one enters the retry loop, and an infinite one
      always ends in the convex fallback. */
  method ConcaveBoundary(o: Oracles, pts: seq<Point>, dist: Dist) returns (r: Outcome)
    requires InPlace(o)
    requires dist.Finite? ==> -DblMax <= dist.v <= DblMax
    ensures dist.Infinite? ==> Chosen(o, pts, Infinite, r)
    ensures dist.Infinite? ==> r.s == Fallback(o, pts) && (r.Spins? <==> r.s.size == -1)
    ensures dist.Finite? && dist.v < 0.0 ==> r == Done(State(pts, dist, 0), 0)
    ensures dist.Finite? && dist.v > 0.0 ==> Chosen(o, pts, dist, r)
    ensures dist == Finite(0.0) ==> forall b :: Pnts.Tight(b, pts) && Area(b) == 0.0 ==>
              r == Done(State(pts, Finite(0.0), 0), 0)
    ensures dist == Finite(0.0) ==> forall b :: Pnts.Tight(b, pts) && Area(b) != 0.0 ==>
              Chosen(o, pts, AsDouble(Area(b) / |pts| as real), r)
    ensures dist == Finite(0.0) && |pts| == 0 ==> r == Done(State(pts, Finite(0.0), 0), 0)
  {
    if dist.Infinite? {
      r := Run(o, pts, Infinite);
      return;
    }
    var d := dist.v;
    if d == 0.0 && |pts| == 0 {
      // `qadd` of no points is 0/0, a NaN that is not positive
      r := Done(State(pts, Finite(0.0), 0), 0);
      return;
    }
    if d == 0.0 {
      d := Bounds.Qadd(pts);
      var n := |pts| as real;
      forall b | Pnts.Tight(b, pts)
        ensures Area(b) == 0.0 ==> d == 0.0
        ensures Area(b) != 0.0 ==> d > 0.0 && d == Area(b) / n
      {
        assert d * n == Area(b);
        DivPos(Area(b), n);
        QuotientUnique(d, Area(b) / n, n);
      }
    }
    if d > 0.0 {
      r := Run(o, pts, AsDouble(d));
    } else {
      r := Done(State(pts, Finite(d), 0), 0);
    }
  }

  /** Two numbers with the same product by a positive number are equal. */
  lemma QuotientUnique(a: real, b: real, n: real)
    requires n > 0.0 && a * n == b * n
    ensures a == b
  {
    MulMono(a, b, n);
    MulMono(b, a, n);
  }
}
