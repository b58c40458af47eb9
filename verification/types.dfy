/** Shared value types of the boundary engine: points, regions, segments,
    and the few C numeric conventions the engine relies on. Coordinates are
    exact reals; where the C code converts a double to an int the conversion
    is written out as truncation toward zero. */
module Types {

  /** A point record (`point_t`). */
  datatype Point = Point(x: real, y: real)

  /** A rectangular region (`region_t`). */
  datatype Region = Region(xmin: real, xmax: real, ymin: real, ymax: real)

  /** A directed segment (`line_t`). */
  datatype Line = Line(p1: Point, p2: Point)

  datatype Option<+T> = None | Some(value: T)

  /** FLT_EPSILON of IEEE single precision, 2^-23. */
  const FltEpsilon: real := 1.0 / 8388608.0

  /** DBL_EPSILON of IEEE double precision, 2^-52. */
  const DblEpsilon: real := 1.0 / 4503599627370496.0

  /** INT_MAX of a 32-bit int. */
  const IntMax: int := 2147483647

  function Abs(v: real): (r: real)
    ensures r >= 0.0
    ensures r == v || r == -v
  {
    if v < 0.0 then -v else v
  }

  /** C's conversion of a double to an int: truncation toward zero. */
  function Trunc(v: real): (r: int)
    ensures v >= 0.0 ==> r as real <= v < r as real + 1.0
    ensures v < 0.0 ==> r as real - 1.0 < v <= r as real
    ensures v >= 0.0 ==> r >= 0
    ensures v < 0.0 ==> r <= 0
  {
    if v >= 0.0 then v.Floor else -((-v).Floor)
  }

  /** Multiplying by a positive factor keeps the order. */
  lemma MulMono(a: real, b: real, c: real)
    requires c > 0.0
    ensures a <= b ==> a * c <= b * c
    ensures a < b ==> a * c < b * c
  {
    if a < b {
      assert b * c - a * c == (b - a) * c;
    }
  }

  /** Dividing by a positive number keeps the sign and can be undone. */
  lemma DivPos(a: real, c: real)
    requires c > 0.0
    ensures (a / c) * c == a
    ensures a >= 0.0 ==> a / c >= 0.0
    ensures a < 0.0 ==> a / c < 0.0
    ensures Abs(a / c) * c == Abs(a)
  {
    var q := a / c;
    if a >= 0.0 && q < 0.0 {
      MulMono(q, 0.0, c);
    }
    if a < 0.0 && q >= 0.0 {
      MulMono(0.0, q, c);
    }
    if q < 0.0 {
      assert Abs(q) * c == -(q * c);
    }
  }
}
