/** The geometry kernel of the raycaster: points, vectors, lines in general
    form A*x + B*y + C = 0 and wall segments. Exact reals stand in for the
    double-precision coordinates of the original. */
module Geom {
  import opened Wrappers

  /** Tolerance of the segment containment test. */
  const EPS: real := 0.000000001

  /** The tolerant comparison: true when lhs is below rhs or above it by less than EPS. */
  predicate LessOrEqual(lhs: real, rhs: real) {
    lhs < rhs + EPS
  }

  lemma LessOrEqualTolerance(lhs: real, rhs: real)
    ensures LessOrEqual(lhs, rhs) <==> lhs - rhs < EPS
    ensures lhs <= rhs ==> LessOrEqual(lhs, rhs)
    ensures LessOrEqual(lhs, lhs)
    ensures lhs >= rhs + EPS ==> !LessOrEqual(lhs, rhs)
  {
  }

  datatype Point = Point(x: real, y: real)

  datatype Vector = Vector(x: real, y: real)

  /** The displacement leading from a to b. */
  function VectorFromTo(a: Point, b: Point): Vector {
    Vector(b.x - a.x, b.y - a.y)
  }

  /** The point p moved by v. */
  function Shift(v: Vector, p: Point): Point {
    Point(p.x + v.x, p.y + v.y)
  }

  function DotProduct(lhs: Vector, rhs: Vector): real {
    lhs.x * rhs.x + lhs.y * rhs.y
  }

  /** The square of the Euclidean length (the length itself needs a square root). */
  function LenSq(v: Vector): (r: real)
    ensures 0.0 <= r
  {
    SquarePositive(v.x);
    SquarePositive(v.y);
    v.x * v.x + v.y * v.y
  }

  lemma SquarePositive(a: real)
    ensures 0.0 <= a * a
    ensures a != 0.0 ==> 0.0 < a * a
  {
    if a < 0.0 {
      assert a * a == (-a) * (-a);
    }
  }

  lemma ShiftUndoesVectorFromTo(a: Point, b: Point)
    ensures Shift(VectorFromTo(a, b), a) == b
  {
  }

  lemma VectorFromToUndoesShift(v: Vector, a: Point)
    ensures VectorFromTo(a, Shift(v, a)) == v
  {
  }

  lemma DotProductSymmetric(u: Vector, v: Vector)
    ensures DotProduct(u, v) == DotProduct(v, u)
  {
  }

  /** An infinite line, the points with A*x + B*y + C == 0. */
  datatype Line = Line(A: real, B: real, C: real)

  predicate OnLine(l: Line, p: Point) {
    l.A * p.x + l.B * p.y + l.C == 0.0
  }

  /** The line through a and b; every coefficient is zero exactly when a == b. */
  function LineThrough(a: Point, b: Point): (l: Line)
    ensures OnLine(l, a) && OnLine(l, b)
    ensures l.A == 0.0 && l.B == 0.0 <==> a == b
    ensures a == b ==> l == Line(0.0, 0.0, 0.0)
  {
    Line(a.y - b.y, b.x - a.x, -b.x * a.y + b.y * a.x)
  }

  /** The determinant of the 2x2 system of two lines; zero when they are parallel. */
  function Det(lhs: Line, rhs: Line): real {
    lhs.A * rhs.B - rhs.A * lhs.B
  }

  /** The Cramer's-rule solution of the system of two non-parallel lines. */
  function Cramer(lhs: Line, rhs: Line): Point
    requires Det(lhs, rhs) != 0.0
  {
    var det := Det(lhs, rhs);
    Point(-(lhs.C * rhs.B - rhs.C * lhs.B) / det, -(lhs.A * rhs.C - rhs.A * lhs.C) / det)
  }

  lemma CramerSolves(lhs: Line, rhs: Line)
    requires Det(lhs, rhs) != 0.0
    ensures OnLine(lhs, Cramer(lhs, rhs)) && OnLine(rhs, Cramer(lhs, rhs))
  {
    var det := Det(lhs, rhs);
    var nx := -(lhs.C * rhs.B - rhs.C * lhs.B);
    var ny := -(lhs.A * rhs.C - rhs.A * lhs.C);
    var p := Cramer(lhs, rhs);
    assert p.x * det == nx;
    assert p.y * det == ny;
    assert (lhs.A * p.x + lhs.B * p.y + lhs.C) * det == lhs.A * nx + lhs.B * ny + lhs.C * det;
    assert lhs.A * nx + lhs.B * ny + lhs.C * det == 0.0;
    assert (rhs.A * p.x + rhs.B * p.y + rhs.C) * det == rhs.A * nx + rhs.B * ny + rhs.C * det;
    assert rhs.A * nx + rhs.B * ny + rhs.C * det == 0.0;
  }

  /** Intersection of two infinite lines. The parallel case, where the
      division by a zero determinant leaves no finite point, is None. */
  function LineIntersection(lhs: Line, rhs: Line): (r: Option<Point>)
    ensures r.Some? <==> Det(lhs, rhs) != 0.0
    ensures r.Some? ==> OnLine(lhs, r.value) && OnLine(rhs, r.value)
  {
    if Det(lhs, rhs) == 0.0 then None
    else
      CramerSolves(lhs, rhs);
      Some(Cramer(lhs, rhs))
  }

  /** A point on two non-parallel lines is the one their intersection returns. */
  lemma LineIntersectionUnique(lhs: Line, rhs: Line, p: Point)
    requires Det(lhs, rhs) != 0.0
    requires OnLine(lhs, p) && OnLine(rhs, p)
    ensures LineIntersection(lhs, rhs) == Some(p)
  {
    var det := Det(lhs, rhs);
    var q := Cramer(lhs, rhs);
    assert lhs.C == -(lhs.A * p.x + lhs.B * p.y);
    assert rhs.C == -(rhs.A * p.x + rhs.B * p.y);
    assert -(lhs.C * rhs.B - rhs.C * lhs.B) == p.x * det;
    assert -(lhs.A * rhs.C - rhs.A * lhs.C) == p.y * det;
    assert q.x * det == p.x * det;
    assert q.y * det == p.y * det;
  }

  /** Swapping the lines negates numerator and denominator alike. */
  lemma LineIntersectionSymmetric(lhs: Line, rhs: Line)
    ensures LineIntersection(lhs, rhs) == LineIntersection(rhs, lhs)
  {
    assert Det(rhs, lhs) == -Det(lhs, rhs);
    if Det(lhs, rhs) != 0.0 {
      var p := Cramer(lhs, rhs);
      CramerSolves(lhs, rhs);
      LineIntersectionUnique(rhs, lhs, p);
    }
  }

  /** A wall piece between two endpoints. */
  datatype Segment = Segment(p1: Point, p2: Point)

  function GetLine(s: Segment): Line {
    LineThrough(s.p1, s.p2)
  }

  function Min(a: real, b: real): real {
    if a < b then a else b
  }

  function Max(a: real, b: real): real {
    if a < b then b else a
  }

  /** The containment test: all four bounding-box checks, each tolerant by EPS. */
  predicate IsPointOnSegment(s: Segment, p: Point) {
    var minx := Min(s.p1.x, s.p2.x);
    var miny := Min(s.p1.y, s.p2.y);
    var maxx := Max(s.p1.x, s.p2.x);
    var maxy := Max(s.p1.y, s.p2.y);
    LessOrEqual(minx, p.x) && LessOrEqual(p.x, maxx) && LessOrEqual(miny, p.y) && LessOrEqual(p.y, maxy)
  }

  /** p lies in the open box obtained by widening the segment's bounding box by EPS on every side. */
  ghost predicate InWidenedBox(s: Segment, p: Point) {
    && (s.p1.x - EPS < p.x || s.p2.x - EPS < p.x)
    && (p.x < s.p1.x + EPS || p.x < s.p2.x + EPS)
    && (s.p1.y - EPS < p.y || s.p2.y - EPS < p.y)
    && (p.y < s.p1.y + EPS || p.y < s.p2.y + EPS)
  }

  lemma IsPointOnSegmentIsWidenedBox(s: Segment, p: Point)
    ensures IsPointOnSegment(s, p) <==> InWidenedBox(s, p)
  {
  }

  /** Intersection of a wall segment with an infinite line: the lines'
      intersection point when it passes the containment test, else None. */
  function SegmentIntersection(s: Segment, l: Line): (r: Option<Point>)
    ensures r.Some? ==> Det(GetLine(s), l) != 0.0
    ensures r.Some? ==> OnLine(GetLine(s), r.value) && OnLine(l, r.value)
    ensures r.Some? ==> InWidenedBox(s, r.value)
  {
    match LineIntersection(GetLine(s), l)
    case None => None
    case Some(p) => if IsPointOnSegment(s, p) then Some(p) else None
  }

  /** Every point on both lines and inside the widened box is accepted, and it is the point returned. */
  lemma SegmentIntersectionComplete(s: Segment, l: Line, p: Point)
    requires Det(GetLine(s), l) != 0.0
    requires OnLine(GetLine(s), p) && OnLine(l, p)
    requires InWidenedBox(s, p)
    ensures SegmentIntersection(s, l) == Some(p)
  {
    LineIntersectionUnique(GetLine(s), l, p);
  }

  /** A line through an endpoint of the segment, not parallel to it, hits it exactly at that endpoint. */
  lemma SegmentIntersectionAtEndpoint(s: Segment, l: Line)
    requires Det(GetLine(s), l) != 0.0
    ensures OnLine(l, s.p1) ==> SegmentIntersection(s, l) == Some(s.p1)
    ensures OnLine(l, s.p2) ==> SegmentIntersection(s, l) == Some(s.p2)
  {
    if OnLine(l, s.p1) {
      SegmentIntersectionComplete(s, l, s.p1);
    }
    if OnLine(l, s.p2) {
      SegmentIntersectionComplete(s, l, s.p2);
    }
  }

  /** Reversing the segment's endpoints changes nothing. */
  lemma SegmentIntersectionSwap(s: Segment, l: Line)
    ensures SegmentIntersection(Segment(s.p2, s.p1), l) == SegmentIntersection(s, l)
  {
    var t := Segment(s.p2, s.p1);
    var ls, lt := GetLine(s), GetLine(t);
    assert lt == Line(-ls.A, -ls.B, -ls.C);
    assert Det(lt, l) == -Det(ls, l);
    assert forall p :: OnLine(lt, p) <==> OnLine(ls, p);
    match SegmentIntersection(s, l)
    case Some(p) =>
      SegmentIntersectionComplete(t, l, p);
    case None =>
      match SegmentIntersection(t, l)
      case Some(p) =>
        SegmentIntersectionComplete(s, l, p);
      case None =>
  }
}
