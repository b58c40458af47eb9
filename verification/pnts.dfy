/** Point records: the region fold `minmax` and the field assignment of
    `read_point` (src/pnts.c). Reading a line and splitting it into tokens
    are taken as given; `atof` is an opaque parameter. */
module Pnts {
  import opened Types

  /** Every point of `pts` lies inside `r` (bounds included). */
  ghost predicate Brackets(r: Region, pts: seq<Point>) {
    forall k :: 0 <= k < |pts| ==> r.xmin <= pts[k].x <= r.xmax && r.ymin <= pts[k].y <= r.ymax
  }

  /** Each of the four bounds of `r` is the coordinate of some point of `pts`. */
  ghost predicate Attained(r: Region, pts: seq<Point>) {
    && (exists k :: 0 <= k < |pts| && pts[k].x == r.xmin)
    && (exists k :: 0 <= k < |pts| && pts[k].x == r.xmax)
    && (exists k :: 0 <= k < |pts| && pts[k].y == r.ymin)
    && (exists k :: 0 <= k < |pts| && pts[k].y == r.ymax)
  }

  /** `r` is the bounding box of `pts`. */
  ghost predicate Tight(r: Region, pts: seq<Point>) {
    Brackets(r, pts) && Attained(r, pts)
  }

  /** There is only one bounding box of a point set. */
  lemma TightUnique(r1: Region, r2: Region, pts: seq<Point>)
    requires Tight(r1, pts) && Tight(r2, pts)
    ensures r1 == r2
  {
    var a :| 0 <= a < |pts| && pts[a].x == r1.xmin;
    var b :| 0 <= b < |pts| && pts[b].x == r2.xmin;
    assert r1.xmin == r2.xmin;
    var c :| 0 <= c < |pts| && pts[c].x == r1.xmax;
    var d :| 0 <= d < |pts| && pts[d].x == r2.xmax;
    assert r1.xmax == r2.xmax;
    var e :| 0 <= e < |pts| && pts[e].y == r1.ymin;
    var f :| 0 <= f < |pts| && pts[f].y == r2.ymin;
    assert r1.ymin == r2.ymin;
    var g :| 0 <= g < |pts| && pts[g].y == r1.ymax;
    var h :| 0 <= h < |pts| && pts[h].y == r2.ymax;
  }

  /** The bounding box of one point. */
  function Seed(p: Point): (r: Region)
    ensures Tight(r, [p])
  {
    assert [p][0] == p;
    Region(p.x, p.x, p.y, p.y)
  }

  /** Widen `r` by one more point, with the non-strict comparisons of the
      source. */
  function Widen(r: Region, p: Point): (r': Region)
    ensures r'.xmin == (if p.x <= r.xmin then p.x else r.xmin)
    ensures r'.xmax == (if p.x >= r.xmax then p.x else r.xmax)
    ensures r'.ymin == (if p.y <= r.ymin then p.y else r.ymin)
    ensures r'.ymax == (if p.y >= r.ymax then p.y else r.ymax)
  {
    Region(if p.x <= r.xmin then p.x else r.xmin,
           if p.x >= r.xmax then p.x else r.xmax,
           if p.y <= r.ymin then p.y else r.ymin,
           if p.y >= r.ymax then p.y else r.ymax)
  }

  /** Widening the bounding box of a prefix by the next point gives the
      bounding box of the longer prefix. */
  lemma WidenExtends(r: Region, pts: seq<Point>, i: nat)
    requires 1 <= i < |pts|
    requires Tight(r, pts[..i])
    ensures Tight(Widen(r, pts[i]), pts[..i + 1])
  {
    var r' := Widen(r, pts[i]);
    var pre := pts[..i + 1];
    assert pre[..i] == pts[..i];
    assert pre[i] == pts[i];
    forall k | 0 <= k < |pre|
      ensures r'.xmin <= pre[k].x <= r'.xmax && r'.ymin <= pre[k].y <= r'.ymax
    {
      if k < i {
        assert pre[k] == pts[..i][k];
      }
    }
    var a :| 0 <= a < i && pts[..i][a].x == r.xmin;
    assert r'.xmin == pre[if pts[i].x <= r.xmin then i else a].x;
    var b :| 0 <= b < i && pts[..i][b].x == r.xmax;
    assert r'.xmax == pre[if pts[i].x >= r.xmax then i else b].x;
    var c :| 0 <= c < i && pts[..i][c].y == r.ymin;
    assert r'.ymin == pre[if pts[i].y <= r.ymin then i else c].y;
    var d :| 0 <= d < i && pts[..i][d].y == r.ymax;
    assert r'.ymax == pre[if pts[i].y >= r.ymax then i else d].y;
  }

  /** `minmax` (src/pnts.c): the first point seeds the region, every later
      point widens it; with no points the caller's region is left as it was. */
  method MinMax(pts: seq<Point>, prior: Region) returns (r: Region)
    ensures |pts| == 0 ==> r == prior
    ensures |pts| >= 1 ==> Tight(r, pts)
  {
    r := prior;
    var i := 0;
    while i < |pts|
      invariant 0 <= i <= |pts|
      invariant i == 0 ==> r == prior
      invariant i >= 1 ==> Tight(r, pts[..i])
    {
      if i == 0 {
        r := Seed(pts[0]);
        assert pts[..1] == [pts[0]];
      } else {
        WidenExtends(r, pts, i);
        r := Widen(r, pts[i]);
      }
      i := i + 1;
    }
    assert pts[..i] == pts;
  }

  /** The last position `j < n` of the record layout that names field `c`. */
  function LastSlot(layout: string, n: nat, c: char): (r: Option<nat>)
    requires n <= |layout|
    ensures r.Some? ==> r.value < n && layout[r.value] == c
    ensures r.Some? ==> forall j :: r.value < j < n ==> layout[j] != c
    ensures r.None? <==> forall j :: 0 <= j < n ==> layout[j] != c
  {
    if n == 0 then None
    else if layout[n - 1] == c then Some(n - 1)
    else LastSlot(layout, n - 1, c)
  }

  /** The value a field ends with after the assignment loop: the token at
      the last matching slot that has a token, or the previous value. */
  function FieldValue(layout: string, tokens: seq<string>, c: char, atof: string -> real, prev: real): real
  {
    var n := if |tokens| < |layout| then |tokens| else |layout|;
    match LastSlot(layout, n, c)
    case Some(j) => atof(tokens[j])
    case None => prev
  }

  /** The field-assignment loop of `read_point`: token `j` sets x when the
      layout letter `j` is 'x', y when it is 'y', and nothing otherwise;
      slots without a token leave the field alone. */
  method AssignFields(prev: Point, tokens: seq<string>, layout: string, atof: string -> real)
    returns (p: Point)
    ensures p.x == FieldValue(layout, tokens, 'x', atof, prev.x)
    ensures p.y == FieldValue(layout, tokens, 'y', atof, prev.y)
  {
    p := prev;
    var j := 0;
    while j < |layout|
      invariant 0 <= j <= |layout|
      invariant p.x == FieldValue(layout[..j], tokens, 'x', atof, prev.x)
      invariant p.y == FieldValue(layout[..j], tokens, 'y', atof, prev.y)
    {
      SlotStep(layout, tokens, j, 'x');
      SlotStep(layout, tokens, j, 'y');
      if j < |tokens| {
        if layout[j] == 'x' {
          p := p.(x := atof(tokens[j]));
        } else if layout[j] == 'y' {
          p := p.(y := atof(tokens[j]));
        }
      }
      j := j + 1;
    }
    assert layout[..j] == layout;
  }

  /** How `LastSlot` over a layout prefix changes when the prefix grows by
      one letter. */
  lemma SlotStep(layout: string, tokens: seq<string>, j: nat, c: char)
    requires j < |layout|
    ensures var n := if |tokens| < j then |tokens| else j;
            var n' := if |tokens| < j + 1 then |tokens| else j + 1;
            LastSlot(layout[..j + 1], n', c)
              == if j < |tokens| && layout[j] == c then Some(j) else LastSlot(layout[..j], n, c)
  {
    var n := if |tokens| < j then |tokens| else j;
    var n' := if |tokens| < j + 1 then |tokens| else j + 1;
    SlotPrefix(layout[..j + 1], layout[..j], n, c);
    if j < |tokens| {
      assert n' == j + 1 && n == j;
    } else {
      assert n' == n;
    }
  }

  /** `LastSlot` only looks at the first `n` letters. */
  lemma {:induction false} SlotPrefix(a: string, b: string, n: nat, c: char)
    requires n <= |a| && n <= |b|
    requires a[..n] == b[..n]
    ensures LastSlot(a, n, c) == LastSlot(b, n, c)
  {
    if n > 0 {
      assert a[n - 1] == a[..n][n - 1] == b[..n][n - 1] == b[n - 1];
      assert a[..n - 1] == a[..n][..n - 1] == b[..n][..n - 1] == b[..n - 1];
      SlotPrefix(a, b, n - 1, c);
    }
  }

  /** `read_point` once the record has been read and split: end of input
      (`None`) gives status -1 and leaves the point untouched, a record gives
      status 0 and the assigned fields. */
  method ReadPoint(record: Option<seq<string>>, prev: Point, layout: string, atof: string -> real)
    returns (status: int, p: Point)
    ensures record.None? ==> status == -1 && p == prev
    ensures record.Some? ==> status == 0
    ensures record.Some? ==> p.x == FieldValue(layout, record.value, 'x', atof, prev.x)
    ensures record.Some? ==> p.y == FieldValue(layout, record.value, 'y', atof, prev.y)
  {
    match record
    case None =>
      return -1, prev;
    case Some(tokens) =>
      p := AssignFields(prev, tokens, layout, atof);
      return 0, p;
  }
}
