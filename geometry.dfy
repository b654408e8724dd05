/**
 * The geometry kernel of classes.py: points, segments (QLineF) and rectangles
 * (QRectF), the segment bounding box, the point-in-segment-box test, the
 * segment/segment intersection test and the segment/rectangle test.
 * Coordinates are exact reals.
 */
module Geometry {

  /** A value or Python's None (a previous stylus position that may be unset). */
  datatype Option<T> = None | Some(value: T)

  datatype Point = Point(x: real, y: real)

  /** A QLineF: the segment from p1 to p2. */
  datatype Segment = Segment(p1: Point, p2: Point)

  /**
   * A QRectF given by its top-left corner and its size. As in Qt, right() is
   * x + w and bottom() is y + h, and a negative size is not normalised.
   */
  datatype Rect = Rect(x: real, y: real, w: real, h: real) {
    function Left(): real { x }
    function Top(): real { y }
    function Right(): real { x + w }
    function Bottom(): real { y + h }
  }

  function Min(a: real, b: real): real { if a <= b then a else b }
  function Max(a: real, b: real): real { if a <= b then b else a }

  /** The closed rectangle [Left, Right] x [Top, Bottom] holds p. */
  predicate InRect(p: Point, r: Rect) {
    r.Left() <= p.x <= r.Right() && r.Top() <= p.y <= r.Bottom()
  }

  /** The point a fraction k of the way from p to q. */
  function Lerp(p: Point, q: Point, k: real): Point {
    Point(p.x + k * (q.x - p.x), p.y + k * (q.y - p.y))
  }

  /** The point of segment l at parameter u (u = 0 is p1, u = 1 is p2). */
  function At(l: Segment, u: real): Point {
    Lerp(l.p1, l.p2, u)
  }

  // ---------------------------------------------------------------------------
  // bbox and the module-level colliderect

  /**
   * bbox(a, b): the box spanned by two points, as (left, top, width, height)
   * with the coordinates of each axis put in order first.
   */
  function BBox(a: Point, b: Point): (r: Rect)
    ensures r.w >= 0.0 && r.h >= 0.0
    ensures InRect(a, r) && InRect(b, r)
    ensures r.Left() == a.x || r.Left() == b.x
    ensures r.Top() == a.y || r.Top() == b.y
    ensures r.Right() == a.x || r.Right() == b.x
    ensures r.Bottom() == a.y || r.Bottom() == b.y
  {
    var (left, right) := if a.x > b.x then (b.x, a.x) else (a.x, b.x);
    var (top, bottom) := if a.y > b.y then (b.y, a.y) else (a.y, b.y);
    Rect(left, top, right - left, bottom - top)
  }

  /** The box does not depend on the order of the two points. */
  lemma BBoxSwap(a: Point, b: Point)
    ensures BBox(a, b) == BBox(b, a)
  {
  }

  /**
   * The module-level colliderect(start, end, pos): pos lies in the closed box
   * spanned by start and end, that is, between the endpoints on each axis.
   */
  function PointInSegmentBox(start: Point, end: Point, pos: Point): (r: bool)
    ensures r <==> ((start.x <= pos.x <= end.x || end.x <= pos.x <= start.x)
                    && (start.y <= pos.y <= end.y || end.y <= pos.y <= start.y))
  {
    var b := BBox(start, end);
    var right := b.x + b.w;
    var bottom := b.y + b.h;
    if pos.x < b.x || pos.x > right then false
    else if pos.y < b.y || pos.y > bottom then false
    else true
  }

  /** Both endpoints of a segment always pass the point test. */
  lemma EndpointsInSegmentBox(start: Point, end: Point)
    ensures PointInSegmentBox(start, end, start)
    ensures PointInSegmentBox(start, end, end)
  {
  }

  // ---------------------------------------------------------------------------
  // intersect_lines

  /** The determinant d of the direction vectors of the two segments. */
  function Det(l1: Segment, l2: Segment): real {
    var s1x, s1y := l1.p2.x - l1.p1.x, l1.p2.y - l1.p1.y;
    var s2x, s2y := l2.p2.x - l2.p1.x, l2.p2.y - l2.p1.y;
    -s2x * s1y + s1x * s2y
  }

  /** s: the parameter of the crossing point along the second segment. */
  function ParamOnSecond(l1: Segment, l2: Segment): real
    requires Det(l1, l2) != 0.0
  {
    var s1x, s1y := l1.p2.x - l1.p1.x, l1.p2.y - l1.p1.y;
    (-s1y * (l1.p1.x - l2.p1.x) + s1x * (l1.p1.y - l2.p1.y)) / Det(l1, l2)
  }

  /** t: the parameter of the crossing point along the first segment. */
  function ParamOnFirst(l1: Segment, l2: Segment): real
    requires Det(l1, l2) != 0.0
  {
    var s2x, s2y := l2.p2.x - l2.p1.x, l2.p2.y - l2.p1.y;
    (s2x * (l1.p1.y - l2.p1.y) - s2y * (l1.p1.x - l2.p1.x)) / Det(l1, l2)
  }

  /**
   * The d == 0 branch of intersect_lines. It compares the ABSOLUTE coordinates
   * of the first segment's end point (x1, y1) and the second segment's start
   * point (x2, y2), not the direction vectors. Each division is guarded: the
   * last one is reached only when x1 != 0 and x2 != 0.
   */
  function ParallelCase(l1: Segment, l2: Segment): bool {
    var x1, y1 := l1.p2.x, l1.p2.y;
    var x2, y2 := l2.p1.x, l2.p1.y;
    if x1 == 0.0 || y1 == 0.0 then x2 * y1 != y2 * x1
    else if x2 == 0.0 then y1 != 0.0
    else y1 / x1 == y2 / x2
  }

  /**
   * intersect_lines: a determinant test on the segment parameters; when the
   * determinant is not zero, the segments meet iff both parameters lie in
   * [0, 1]. Total: no division by zero is reachable.
   */
  function IntersectLines(l1: Segment, l2: Segment): bool {
    if Det(l1, l2) == 0.0 then ParallelCase(l1, l2)
    else
      var s := ParamOnSecond(l1, l2);
      var t := ParamOnFirst(l1, l2);
      0.0 <= s <= 1.0 && 0.0 <= t <= 1.0
  }

  /** When d != 0 the two parameters name one common point of the two lines. */
  lemma CrossingPoint(l1: Segment, l2: Segment)
    requires Det(l1, l2) != 0.0
    ensures At(l1, ParamOnFirst(l1, l2)) == At(l2, ParamOnSecond(l1, l2))
  {
    var d := Det(l1, l2);
    var s1x, s1y := l1.p2.x - l1.p1.x, l1.p2.y - l1.p1.y;
    var s2x, s2y := l2.p2.x - l2.p1.x, l2.p2.y - l2.p1.y;
    var dx, dy := l1.p1.x - l2.p1.x, l1.p1.y - l2.p1.y;
    var ns := -s1y * dx + s1x * dy;
    var nt := s2x * dy - s2y * dx;
    var s, t := ParamOnSecond(l1, l2), ParamOnFirst(l1, l2);
    DivMul(ns, d);
    DivMul(nt, d);
    CrossIdentity(s1x, s1y, s2x, s2y, dx, dy);
    Solved(dx, s1x, s2x, t, s, d, nt, ns);
    Solved(dy, s1y, s2y, t, s, d, nt, ns);
  }

  lemma DivMul(n: real, d: real)
    requires d != 0.0
    ensures (n / d) * d == n
  {
  }

  /** The numerators of t and s against the determinant, as polynomial identities. */
  lemma CrossIdentity(s1x: real, s1y: real, s2x: real, s2y: real, dx: real, dy: real)
    ensures dx * (-s2x * s1y + s1x * s2y) + s1x * (s2x * dy - s2y * dx) - s2x * (-s1y * dx + s1x * dy) == 0.0
    ensures dy * (-s2x * s1y + s1x * s2y) + s1y * (s2x * dy - s2y * dx) - s2y * (-s1y * dx + s1x * dy) == 0.0
  {
  }

  /** Dividing the identity by d != 0 gives a zero offset along one axis. */
  lemma Solved(o: real, a: real, c: real, t: real, s: real, d: real, nt: real, ns: real)
    requires d != 0.0 && t * d == nt && s * d == ns && o * d + a * nt - c * ns == 0.0
    ensures o + t * a - s * c == 0.0
  {
    assert (o + t * a - s * c) * d == o * d + a * (t * d) - c * (s * d);
  }

  /**
   * Soundness of the non-parallel test: a reported intersection is a point
   * that lies on both segments.
   */
  lemma IntersectLinesSound(l1: Segment, l2: Segment)
    requires Det(l1, l2) != 0.0 && IntersectLines(l1, l2)
    ensures 0.0 <= ParamOnFirst(l1, l2) <= 1.0 && 0.0 <= ParamOnSecond(l1, l2) <= 1.0
    ensures At(l1, ParamOnFirst(l1, l2)) == At(l2, ParamOnSecond(l1, l2))
  {
    CrossingPoint(l1, l2);
  }

  /**
   * Completeness of the non-parallel test: if the two segments share a point,
   * intersect_lines reports it.
   */
  lemma IntersectLinesComplete(l1: Segment, l2: Segment, u: real, v: real)
    requires Det(l1, l2) != 0.0
    requires 0.0 <= u <= 1.0 && 0.0 <= v <= 1.0 && At(l1, u) == At(l2, v)
    ensures IntersectLines(l1, l2)
  {
    ParamsOfCommonPoint(l1, l2, u, v);
  }

  /** When d != 0, a point common to both segments has the parameters t and s. */
  lemma ParamsOfCommonPoint(l1: Segment, l2: Segment, u: real, v: real)
    requires Det(l1, l2) != 0.0 && At(l1, u) == At(l2, v)
    ensures ParamOnFirst(l1, l2) == u && ParamOnSecond(l1, l2) == v
  {
    var d := Det(l1, l2);
    var s1x, s1y := l1.p2.x - l1.p1.x, l1.p2.y - l1.p1.y;
    var s2x, s2y := l2.p2.x - l2.p1.x, l2.p2.y - l2.p1.y;
    var dx, dy := l1.p1.x - l2.p1.x, l1.p1.y - l2.p1.y;
    assert dx == v * s2x - u * s1x;
    assert dy == v * s2y - u * s1y;
    Cramer(s1x, s1y, s2x, s2y, dx, dy, u, v);
    Cancel(s2x * dy - s2y * dx, d, u);
    Cancel(-s1y * dx + s1x * dy, d, v);
  }

  /** Cramer's rule for the crossing parameters, written out as two polynomial identities. */
  lemma Cramer(s1x: real, s1y: real, s2x: real, s2y: real, dx: real, dy: real, u: real, v: real)
    requires dx == v * s2x - u * s1x && dy == v * s2y - u * s1y
    ensures s2x * dy - s2y * dx == u * (-s2x * s1y + s1x * s2y)
    ensures -s1y * dx + s1x * dy == v * (-s2x * s1y + s1x * s2y)
  {
  }

  lemma Cancel(n: real, d: real, u: real)
    requires d != 0.0 && n == u * d
    ensures n / d == u
  {
  }

  /** When d != 0 the test does not depend on the order of the segments. */
  lemma IntersectLinesSymmetric(l1: Segment, l2: Segment)
    requires Det(l1, l2) != 0.0
    ensures IntersectLines(l1, l2) == IntersectLines(l2, l1)
  {
    assert Det(l2, l1) == -Det(l1, l2);
    if IntersectLines(l1, l2) {
      IntersectLinesSound(l1, l2);
      IntersectLinesComplete(l2, l1, ParamOnSecond(l1, l2), ParamOnFirst(l1, l2));
    }
    if IntersectLines(l2, l1) {
      IntersectLinesSound(l2, l1);
      IntersectLinesComplete(l1, l2, ParamOnSecond(l2, l1), ParamOnFirst(l2, l1));
    }
  }

  /**
   * The parallel branch as written: two parallel segments that share no point
   * are reported as intersecting (the test looks at absolute coordinates).
   */
  lemma ParallelDisjointReported()
    ensures var a := Segment(Point(0.0, 0.0), Point(1.0, 0.0));
            var b := Segment(Point(0.0, 5.0), Point(1.0, 5.0));
            Det(a, b) == 0.0 && IntersectLines(a, b)
  {
  }

  /**
   * The parallel branch as written: two overlapping collinear segments are
   * reported as not intersecting.
   */
  lemma CollinearOverlapMissed()
    ensures var a := Segment(Point(0.0, 0.0), Point(1.0, 0.0));
            var b := Segment(Point(0.0, 0.0), Point(2.0, 0.0));
            Det(a, b) == 0.0 && !IntersectLines(a, b)
  {
  }

  /**
   * The parallel branch as written is not symmetric: swapping two disjoint
   * collinear segments changes the answer.
   */
  lemma ParallelCaseAsymmetric()
    ensures var a := Segment(Point(0.0, 1.0), Point(1.0, 1.0));
            var b := Segment(Point(2.0, 1.0), Point(3.0, 1.0));
            Det(a, b) == 0.0 && !IntersectLines(a, b) && IntersectLines(b, a)
  {
  }

  // ---------------------------------------------------------------------------
  // intersect_line_rect

  /**
   * The four sides of a rectangle in the order intersect_line_rect tests
   * them: top, right, bottom, left.
   */
  function Edge(r: Rect, k: nat): Segment
    requires k < 4
  {
    var p1 := Point(r.Left(), r.Top());
    var p2 := Point(r.Right(), r.Top());
    var p3 := Point(r.Right(), r.Bottom());
    var p4 := Point(r.Left(), r.Bottom());
    if k == 0 then Segment(p1, p2)
    else if k == 1 then Segment(p2, p3)
    else if k == 2 then Segment(p3, p4)
    else Segment(p4, p1)
  }

  /** The trivial reject: both endpoints strictly beyond the same side. */
  predicate Rejected(l: Segment, r: Rect) {
    (l.p1.x < r.Left() && l.p2.x < r.Left())
    || (l.p1.x > r.Right() && l.p2.x > r.Right())
    || (l.p1.y < r.Top() && l.p2.y < r.Top())
    || (l.p1.y > r.Bottom() && l.p2.y > r.Bottom())
  }

  /**
   * intersect_line_rect: trivial reject, then trivial accept (both endpoints
   * in the closed rectangle), then intersect_lines against the four sides.
   */
  function IntersectLineRect(l: Segment, r: Rect): (b: bool)
    ensures Rejected(l, r) ==> !b
    ensures InRect(l.p1, r) && InRect(l.p2, r) ==> b
  {
    if Rejected(l, r) then false
    else if InRect(l.p1, r) && InRect(l.p2, r) then true
    else
      IntersectLines(l, Edge(r, 0)) || IntersectLines(l, Edge(r, 1))
      || IntersectLines(l, Edge(r, 2)) || IntersectLines(l, Edge(r, 3))
  }

  // --- one-dimensional facts used to locate crossing points

  /** The fraction of the way from a to b at which the value c is reached. */
  function CrossParam(a: real, b: real, c: real): real
    requires a != b
  {
    (a - c) / (a - b)
  }

  lemma MulPos(a: real, b: real)
    requires a > 0.0 && b > 0.0
    ensures a * b > 0.0
  {
  }

  lemma MulMono(j: real, k: real, d: real)
    requires j <= k && d >= 0.0
    ensures j * d <= k * d
  {
    assert (k - j) * d == k * d - j * d;
    if k > j && d > 0.0 {
      MulPos(k - j, d);
    }
  }

  lemma MulNeg(a: real, b: real)
    requires a < 0.0 && b > 0.0
    ensures a * b < 0.0
  {
    MulPos(-a, b);
    assert (-a) * b == -(a * b);
  }

  /** k * d == n with 0 <= n < d puts k in [0, 1). */
  lemma Fraction(k: real, d: real, n: real)
    requires d > 0.0 && 0.0 <= n < d && k * d == n
    ensures 0.0 <= k < 1.0
  {
    if k < 0.0 {
      MulNeg(k, d);
    }
    if k >= 1.0 {
      MulMono(1.0, k, d);
    }
  }

  lemma CrossParamFacts(a: real, b: real, c: real)
    requires (a >= c > b) || (a <= c < b)
    ensures 0.0 <= CrossParam(a, b, c) < 1.0
    ensures a + CrossParam(a, b, c) * (b - a) == c
  {
    var k := CrossParam(a, b, c);
    assert k * (a - b) == a - c;
    assert k * (b - a) == -(k * (a - b));
    if a > b {
      Fraction(k, a - b, a - c);
    } else {
      Fraction(k, b - a, c - a);
    }
  }

  /** Before the crossing fraction the value has not yet passed c. */
  lemma BeforeCross(a: real, b: real, c: real, j: real)
    requires (a >= c > b) || (a <= c < b)
    requires 0.0 <= j <= CrossParam(a, b, c)
    ensures a >= c > b ==> a + j * (b - a) >= c
    ensures a <= c < b ==> a + j * (b - a) <= c
  {
    var k := CrossParam(a, b, c);
    assert k * (a - b) == a - c;
    assert k * (b - a) == -(k * (a - b));
    assert j * (b - a) == -(j * (a - b));
    if a > b {
      MulMono(j, k, a - b);
    } else {
      MulMono(j, k, b - a);
    }
  }

  lemma MulMonoNeg(j: real, k: real, d: real)
    requires j <= k && d <= 0.0
    ensures k * d <= j * d
  {
    assert (k - j) * d == k * d - j * d;
    if k > j && d < 0.0 {
      MulPos(k - j, -d);
    }
  }

  /** A fraction j in [0, 1] of a non-negative d lies in [0, d]. */
  lemma FractionUp(j: real, d: real)
    requires 0.0 <= j <= 1.0 && d >= 0.0
    ensures 0.0 <= j * d <= d
  {
    MulMono(0.0, j, d);
    MulMono(j, 1.0, d);
  }

  /** A fraction j in [0, 1] of a non-positive d lies in [d, 0]. */
  lemma FractionDown(j: real, d: real)
    requires 0.0 <= j <= 1.0 && d <= 0.0
    ensures d <= j * d <= 0.0
  {
    MulMonoNeg(0.0, j, d);
    MulMonoNeg(j, 1.0, d);
  }

  /** A value between a and b for a fraction in [0, 1]. */
  lemma Between(a: real, b: real, j: real)
    requires 0.0 <= j <= 1.0
    ensures Min(a, b) <= a + j * (b - a) <= Max(a, b)
  {
    var d := b - a;
    var e := j * d;
    assert j * (b - a) == e;
    if a <= b {
      FractionUp(j, d);
      assert 0.0 <= e <= d;
      assert a <= a + e <= b;
    } else {
      FractionDown(j, d);
      assert d <= e <= 0.0;
      assert b <= a + e <= a;
    }
  }

  /** The point of l at a fraction k of the way from parameter u to parameter b. */
  lemma AtOfLerp(l: Segment, u: real, b: real, k: real)
    ensures At(l, u + k * (b - u)) == Lerp(At(l, u), At(l, b), k)
  {
    LinearStep(l.p1.x, l.p2.x - l.p1.x, u, b, k);
    LinearStep(l.p1.y, l.p2.y - l.p1.y, u, b, k);
  }

  lemma LinearStep(o: real, d: real, u: real, b: real, k: real)
    ensures o + (u + k * (b - u)) * d == (o + u * d) + k * ((o + b * d) - (o + u * d))
  {
    assert (o + b * d) - (o + u * d) == (b - u) * d;
    assert k * ((b - u) * d) == (k * (b - u)) * d;
    assert (u + k * (b - u)) * d == u * d + (k * (b - u)) * d;
  }

  // --- soundness and completeness of intersect_line_rect

  /** X lies on side k of r (closed). */
  predicate OnEdge(p: Point, r: Rect, k: nat) {
    if k == 0 then p.y == r.Top() && r.Left() <= p.x <= r.Right()
    else if k == 1 then p.x == r.Right() && r.Top() <= p.y <= r.Bottom()
    else if k == 2 then p.y == r.Bottom() && r.Left() <= p.x <= r.Right()
    else k == 3 && p.x == r.Left() && r.Top() <= p.y <= r.Bottom()
  }

  /** Every point of a side lies in the closed rectangle. */
  lemma EdgeInRect(r: Rect, k: nat, e: real)
    requires k < 4 && r.w > 0.0 && r.h > 0.0 && 0.0 <= e <= 1.0
    ensures InRect(At(Edge(r, k), e), r)
  {
    Between(r.Left(), r.Right(), e);
    Between(r.Right(), r.Left(), e);
    Between(r.Top(), r.Bottom(), e);
    Between(r.Bottom(), r.Top(), e);
  }

  lemma MulNonZero(a: real, b: real)
    requires a != 0.0 && b != 0.0
    ensures a * b != 0.0
  {
    if a > 0.0 && b > 0.0 {
      MulPos(a, b);
    } else if a > 0.0 {
      MulNeg(b, a);
      assert b * a == a * b;
    } else if b > 0.0 {
      MulNeg(a, b);
    } else {
      MulPos(-a, -b);
      assert (-a) * (-b) == a * b;
    }
  }

  /** A value c between a and b is reached at the fraction CrossParam(a, b, c). */
  lemma CrossParamClosed(a: real, b: real, c: real)
    requires a != b && Min(a, b) <= c <= Max(a, b)
    ensures 0.0 <= CrossParam(a, b, c) <= 1.0
    ensures a + CrossParam(a, b, c) * (b - a) == c
  {
    var k := CrossParam(a, b, c);
    assert k * (a - b) == a - c;
    assert k * (b - a) == -(k * (a - b));
    if c == b {
      assert k == 1.0;
    } else {
      CrossParamFacts(a, b, c);
    }
  }

  /** A point between the ends of a horizontal segment E is a point of E. */
  lemma HorizontalParam(E: Segment, p: Point) returns (e: real)
    requires E.p1.y == E.p2.y && E.p1.x != E.p2.x && p.y == E.p1.y
    requires Min(E.p1.x, E.p2.x) <= p.x <= Max(E.p1.x, E.p2.x)
    ensures 0.0 <= e <= 1.0 && At(E, e) == p
  {
    e := CrossParam(E.p1.x, E.p2.x, p.x);
    CrossParamClosed(E.p1.x, E.p2.x, p.x);
    var h := E.p2.y - E.p1.y;
    assert e * h == 0.0;
  }

  /** A point between the ends of a vertical segment E is a point of E. */
  lemma VerticalParam(E: Segment, p: Point) returns (e: real)
    requires E.p1.x == E.p2.x && E.p1.y != E.p2.y && p.x == E.p1.x
    requires Min(E.p1.y, E.p2.y) <= p.y <= Max(E.p1.y, E.p2.y)
    ensures 0.0 <= e <= 1.0 && At(E, e) == p
  {
    e := CrossParam(E.p1.y, E.p2.y, p.y);
    CrossParamClosed(E.p1.y, E.p2.y, p.y);
    var w := E.p2.x - E.p1.x;
    assert e * w == 0.0;
  }

  /** A segment that moves vertically is not parallel to a horizontal one. */
  lemma HorizontalDet(l: Segment, E: Segment)
    requires E.p1.y == E.p2.y && E.p1.x != E.p2.x && l.p1.y != l.p2.y
    ensures Det(l, E) != 0.0
  {
    var w := E.p2.x - E.p1.x;
    var dy := l.p2.y - l.p1.y;
    assert Det(l, E) == -w * dy;
    MulNonZero(-w, dy);
  }

  /** A segment that moves horizontally is not parallel to a vertical one. */
  lemma VerticalDet(l: Segment, E: Segment)
    requires E.p1.x == E.p2.x && E.p1.y != E.p2.y && l.p1.x != l.p2.x
    ensures Det(l, E) != 0.0
  {
    var h := E.p2.y - E.p1.y;
    var dx := l.p2.x - l.p1.x;
    assert Det(l, E) == dx * h;
    MulNonZero(dx, h);
  }

  /**
   * A segment that moves vertically and has a point on a horizontal segment E
   * is reported by intersect_lines against E.
   */
  lemma HorizontalHit(l: Segment, E: Segment, v: real)
    requires E.p1.y == E.p2.y && E.p1.x != E.p2.x && l.p1.y != l.p2.y
    requires 0.0 <= v <= 1.0 && At(l, v).y == E.p1.y
    requires Min(E.p1.x, E.p2.x) <= At(l, v).x <= Max(E.p1.x, E.p2.x)
    ensures IntersectLines(l, E)
  {
    HorizontalDet(l, E);
    var e := HorizontalParam(E, At(l, v));
    IntersectLinesComplete(l, E, v, e);
  }

  /**
   * A segment that moves horizontally and has a point on a vertical segment E
   * is reported by intersect_lines against E.
   */
  lemma VerticalHit(l: Segment, E: Segment, v: real)
    requires E.p1.x == E.p2.x && E.p1.y != E.p2.y && l.p1.x != l.p2.x
    requires 0.0 <= v <= 1.0 && At(l, v).x == E.p1.x
    requires Min(E.p1.y, E.p2.y) <= At(l, v).y <= Max(E.p1.y, E.p2.y)
    ensures IntersectLines(l, E)
  {
    VerticalDet(l, E);
    var e := VerticalParam(E, At(l, v));
    IntersectLinesComplete(l, E, v, e);
  }

  /**
   * A segment that is not parallel to side k and has a point on it is
   * reported by intersect_lines against that side.
   */
  lemma EdgeHit(l: Segment, r: Rect, k: nat, v: real)
    requires k < 4 && r.w > 0.0 && r.h > 0.0 && 0.0 <= v <= 1.0
    requires OnEdge(At(l, v), r, k)
    requires k % 2 == 0 ==> l.p1.y != l.p2.y
    requires k % 2 == 1 ==> l.p1.x != l.p2.x
    ensures IntersectLines(l, Edge(r, k))
  {
    if k % 2 == 0 {
      HorizontalHit(l, Edge(r, k), v);
    } else {
      VerticalHit(l, Edge(r, k), v);
    }
  }

  /** The fraction along p..q at which the x coordinate leaves [Left, Right], or 2 if it never does. */
  function ExitX(p: Point, q: Point, r: Rect): real
    requires q.x < r.Left() || q.x > r.Right() ==> p.x != q.x
  {
    if q.x < r.Left() then CrossParam(p.x, q.x, r.Left())
    else if q.x > r.Right() then CrossParam(p.x, q.x, r.Right())
    else 2.0
  }

  /** The fraction along p..q at which the y coordinate leaves [Top, Bottom], or 2 if it never does. */
  function ExitY(p: Point, q: Point, r: Rect): real
    requires q.y < r.Top() || q.y > r.Bottom() ==> p.y != q.y
  {
    if q.y < r.Top() then CrossParam(p.y, q.y, r.Top())
    else if q.y > r.Bottom() then CrossParam(p.y, q.y, r.Bottom())
    else 2.0
  }

  /** Up to the exit fraction of an axis, that coordinate stays in range. */
  lemma StaysInRangeX(p: Point, q: Point, r: Rect, j: real)
    requires InRect(p, r) && 0.0 <= j <= 1.0 && j <= ExitX(p, q, r)
    ensures r.Left() <= Lerp(p, q, j).x <= r.Right()
  {
    Between(p.x, q.x, j);
    assert Lerp(p, q, j).x == p.x + j * (q.x - p.x);
    if q.x < r.Left() {
      BeforeCross(p.x, q.x, r.Left(), j);
    } else if q.x > r.Right() {
      BeforeCross(p.x, q.x, r.Right(), j);
    }
  }

  lemma StaysInRangeY(p: Point, q: Point, r: Rect, j: real)
    requires InRect(p, r) && 0.0 <= j <= 1.0 && j <= ExitY(p, q, r)
    ensures r.Top() <= Lerp(p, q, j).y <= r.Bottom()
  {
    Between(p.y, q.y, j);
    assert Lerp(p, q, j).y == p.y + j * (q.y - p.y);
    if q.y < r.Top() {
      BeforeCross(p.y, q.y, r.Top(), j);
    } else if q.y > r.Bottom() {
      BeforeCross(p.y, q.y, r.Bottom(), j);
    }
  }

  /** An axis on which q lies outside r is left before the fraction 1. */
  lemma ExitFacts(p: Point, q: Point, r: Rect)
    requires InRect(p, r)
    ensures q.x < r.Left() || q.x > r.Right() ==> 0.0 <= ExitX(p, q, r) < 1.0
    ensures q.y < r.Top() || q.y > r.Bottom() ==> 0.0 <= ExitY(p, q, r) < 1.0
  {
    if q.x < r.Left() {
      CrossParamFacts(p.x, q.x, r.Left());
    } else if q.x > r.Right() {
      CrossParamFacts(p.x, q.x, r.Right());
    }
    if q.y < r.Top() {
      CrossParamFacts(p.y, q.y, r.Top());
    } else if q.y > r.Bottom() {
      CrossParamFacts(p.y, q.y, r.Bottom());
    }
  }

  /** Leaving through the left or right side. */
  lemma ExitViaX(p: Point, q: Point, r: Rect) returns (k: nat, j: real)
    requires InRect(p, r) && (q.x < r.Left() || q.x > r.Right())
    requires ExitX(p, q, r) <= ExitY(p, q, r)
    ensures k < 4 && k % 2 == 1 && 0.0 <= j <= 1.0 && OnEdge(Lerp(p, q, j), r, k)
    ensures p.x != q.x
  {
    if q.x < r.Left() {
      k, j := 3, CrossParam(p.x, q.x, r.Left());
      CrossParamFacts(p.x, q.x, r.Left());
      assert Lerp(p, q, j).x == r.Left();
    } else {
      k, j := 1, CrossParam(p.x, q.x, r.Right());
      CrossParamFacts(p.x, q.x, r.Right());
      assert Lerp(p, q, j).x == r.Right();
    }
    assert j == ExitX(p, q, r);
    StaysInRangeY(p, q, r, j);
  }

  /** Leaving through the top or bottom side. */
  lemma ExitViaY(p: Point, q: Point, r: Rect) returns (k: nat, j: real)
    requires InRect(p, r) && (q.y < r.Top() || q.y > r.Bottom())
    requires ExitY(p, q, r) <= ExitX(p, q, r)
    ensures k < 4 && k % 2 == 0 && 0.0 <= j <= 1.0 && OnEdge(Lerp(p, q, j), r, k)
    ensures p.y != q.y
  {
    if q.y < r.Top() {
      k, j := 0, CrossParam(p.y, q.y, r.Top());
      CrossParamFacts(p.y, q.y, r.Top());
      assert Lerp(p, q, j).y == r.Top();
    } else {
      k, j := 2, CrossParam(p.y, q.y, r.Bottom());
      CrossParamFacts(p.y, q.y, r.Bottom());
      assert Lerp(p, q, j).y == r.Bottom();
    }
    assert j == ExitY(p, q, r);
    StaysInRangeX(p, q, r, j);
  }

  /**
   * Walking from a point inside r to a point outside, one leaves r through a
   * side k, across which the walk really moves.
   */
  lemma ExitPoint(p: Point, q: Point, r: Rect) returns (k: nat, j: real)
    requires InRect(p, r) && !InRect(q, r)
    ensures k < 4 && 0.0 <= j <= 1.0 && OnEdge(Lerp(p, q, j), r, k)
    ensures k % 2 == 0 ==> p.y != q.y
    ensures k % 2 == 1 ==> p.x != q.x
  {
    ExitFacts(p, q, r);
    if (q.x < r.Left() || q.x > r.Right()) && ExitX(p, q, r) <= ExitY(p, q, r) {
      k, j := ExitViaX(p, q, r);
    } else {
      k, j := ExitViaY(p, q, r);
    }
  }

  /**
   * A segment that is parallel to an axis and not trivially rejected has a
   * point in the rectangle.
   */
  lemma AxisWitness(l: Segment, r: Rect) returns (u: real)
    requires r.w >= 0.0 && r.h >= 0.0 && !Rejected(l, r)
    requires l.p1.y == l.p2.y || l.p1.x == l.p2.x
    ensures 0.0 <= u <= 1.0 && InRect(At(l, u), r)
  {
    if InRect(l.p1, r) {
      u := 0.0;
      assert At(l, u) == l.p1;
    } else if InRect(l.p2, r) {
      u := 1.0;
      assert At(l, u) == l.p2;
    } else if l.p1.y == l.p2.y {
      u := CrossParam(l.p1.x, l.p2.x, r.Left());
      CrossParamFacts(l.p1.x, l.p2.x, r.Left());
      assert At(l, u) == Point(r.Left(), l.p1.y);
    } else {
      u := CrossParam(l.p1.y, l.p2.y, r.Top());
      CrossParamFacts(l.p1.y, l.p2.y, r.Top());
      assert At(l, u) == Point(l.p1.x, r.Top());
    }
  }

  /** A side of positive length is parallel to l only when l runs along the same axis. */
  lemma ParallelToEdge(l: Segment, r: Rect, k: nat)
    requires k < 4 && r.w > 0.0 && r.h > 0.0 && Det(l, Edge(r, k)) == 0.0
    ensures k % 2 == 0 ==> l.p1.y == l.p2.y
    ensures k % 2 == 1 ==> l.p1.x == l.p2.x
  {
    var dx, dy := l.p2.x - l.p1.x, l.p2.y - l.p1.y;
    if k == 0 {
      assert Det(l, Edge(r, k)) == -r.w * dy;
      if dy != 0.0 { MulNonZero(-r.w, dy); }
    } else if k == 1 {
      assert Det(l, Edge(r, k)) == dx * r.h;
      if dx != 0.0 { MulNonZero(dx, r.h); }
    } else if k == 2 {
      assert Det(l, Edge(r, k)) == r.w * dy;
      if dy != 0.0 { MulNonZero(r.w, dy); }
    } else {
      assert Det(l, Edge(r, k)) == dx * -r.h;
      if dx != 0.0 { MulNonZero(dx, -r.h); }
    }
  }

  /** A side reported by intersect_lines yields a point of l in the rectangle. */
  lemma EdgeReportSound(l: Segment, r: Rect, k: nat) returns (u: real)
    requires k < 4 && r.w > 0.0 && r.h > 0.0 && !Rejected(l, r)
    requires IntersectLines(l, Edge(r, k))
    ensures 0.0 <= u <= 1.0 && InRect(At(l, u), r)
  {
    var E := Edge(r, k);
    if Det(l, E) != 0.0 {
      IntersectLinesSound(l, E);
      u := ParamOnFirst(l, E);
      EdgeInRect(r, k, ParamOnSecond(l, E));
    } else {
      ParallelToEdge(l, r, k);
      u := AxisWitness(l, r);
    }
  }

  /**
   * No false positives: for a rectangle of positive size, when
   * intersect_line_rect reports a hit the segment has a point in the closed
   * rectangle (including the parallel cases, where the quirky branch of
   * intersect_lines is reached only for segments that do reach the rectangle).
   */
  lemma IntersectLineRectSound(l: Segment, r: Rect) returns (u: real)
    requires r.w > 0.0 && r.h > 0.0 && IntersectLineRect(l, r)
    ensures 0.0 <= u <= 1.0 && InRect(At(l, u), r)
  {
    if InRect(l.p1, r) && InRect(l.p2, r) {
      u := 0.0;
      assert At(l, u) == l.p1;
    } else {
      var k: nat :=
        if IntersectLines(l, Edge(r, 0)) then 0
        else if IntersectLines(l, Edge(r, 1)) then 1
        else if IntersectLines(l, Edge(r, 2)) then 2
        else 3;
      u := EdgeReportSound(l, r, k);
    }
  }

  /** A segment with a point in the closed rectangle is not trivially rejected. */
  lemma NotRejected(l: Segment, r: Rect, u: real)
    requires 0.0 <= u <= 1.0 && InRect(At(l, u), r)
    ensures !Rejected(l, r)
  {
    InSpan(l, u);
  }

  /** A point of a segment lies between its endpoints on both axes. */
  lemma InSpan(l: Segment, u: real)
    requires 0.0 <= u <= 1.0
    ensures Min(l.p1.x, l.p2.x) <= At(l, u).x <= Max(l.p1.x, l.p2.x)
    ensures Min(l.p1.y, l.p2.y) <= At(l, u).y <= Max(l.p1.y, l.p2.y)
  {
    Between(l.p1.x, l.p2.x, u);
    Between(l.p1.y, l.p2.y, u);
  }

  /**
   * A segment with a point in the rectangle and an endpoint outside it crosses
   * a side that it is not parallel to.
   */
  lemma BoundaryCrossing(l: Segment, r: Rect, u: real) returns (k: nat, v: real)
    requires 0.0 <= u <= 1.0 && InRect(At(l, u), r)
    requires !InRect(l.p1, r) || !InRect(l.p2, r)
    ensures k < 4 && 0.0 <= v <= 1.0 && OnEdge(At(l, v), r, k)
    ensures k % 2 == 0 ==> l.p1.y != l.p2.y
    ensures k % 2 == 1 ==> l.p1.x != l.p2.x
  {
    var p := At(l, u);
    var b := if !InRect(l.p1, r) then 0.0 else 1.0;
    AtEnds(l);
    var q := At(l, b);
    var j;
    k, j := ExitPoint(p, q, r);
    v := u + j * (b - u);
    AtOfLerp(l, u, b, j);
    Between(u, b, j);
    ConstantAxis(l, u, b);
  }

  /** The parameters 0 and 1 give the two endpoints. */
  lemma AtEnds(l: Segment)
    ensures At(l, 0.0) == l.p1 && At(l, 1.0) == l.p2
  {
  }

  /** Along a segment parallel to an axis, that coordinate does not change. */
  lemma ConstantAxis(l: Segment, u: real, b: real)
    ensures l.p1.x == l.p2.x ==> At(l, u).x == At(l, b).x
    ensures l.p1.y == l.p2.y ==> At(l, u).y == At(l, b).y
  {
    if l.p1.x == l.p2.x {
      assert At(l, u).x == l.p1.x && At(l, b).x == l.p1.x;
    }
    if l.p1.y == l.p2.y {
      assert At(l, u).y == l.p1.y && At(l, b).y == l.p1.y;
    }
  }

  /**
   * No false negatives: for a rectangle of positive size, a segment with a
   * point in the closed rectangle is reported by intersect_line_rect.
   */
  lemma IntersectLineRectComplete(l: Segment, r: Rect, u: real)
    requires r.w > 0.0 && r.h > 0.0 && 0.0 <= u <= 1.0 && InRect(At(l, u), r)
    ensures IntersectLineRect(l, r)
  {
    NotRejected(l, r, u);
    if !InRect(l.p1, r) || !InRect(l.p2, r) {
      var k, v := BoundaryCrossing(l, r, u);
      EdgeHit(l, r, k, v);
    }
  }
}
