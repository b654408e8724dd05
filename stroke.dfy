/**
 * The Stroke class of classes.py: an ordered list of pen samples with a
 * bounding box that add() keeps up to date, and the three hit tests the
 * canvas uses (collidepoint, collideline, colliderect).
 */
module Strokes {
  import opened Geometry

  /** The left, top, right and bottom fields of a stroke. */
  datatype Box = Box(left: real, top: real, right: real, bottom: real)

  /** The box of a stroke that has no point yet: all four fields are 0. */
  const Blank := Box(0.0, 0.0, 0.0, 0.0)

  /** The side of the default box given to the first point, so that a lone point has an extent. */
  const DefaultExtent := 5.0

  predicate InBox(p: Point, b: Box) {
    b.left <= p.x <= b.right && b.top <= p.y <= b.bottom
  }

  /**
   * The box update of add(): a box of zero width is first replaced by the
   * default box at the new point; then the point widens the box on the side
   * it lies beyond.
   */
  function Grow(b: Box, p: Point): Box {
    var b0 := if b.right - b.left == 0.0
              then Box(p.x, p.y, p.x + DefaultExtent, p.y + DefaultExtent)
              else b;
    var (l, r) := if p.x < b0.left then (p.x, b0.right)
                  else if p.x > b0.right then (b0.left, p.x)
                  else (b0.left, b0.right);
    var (t, bt) := if p.y < b0.top then (p.y, b0.bottom)
                   else if p.y > b0.bottom then (b0.top, p.y)
                   else (b0.top, b0.bottom);
    Box(l, t, r, bt)
  }

  /** The box a stroke holds after its points were added one by one, in order. */
  function BoxOf(pts: seq<Point>): Box
    decreases |pts|
  {
    if |pts| == 0 then Blank else Grow(BoxOf(pts[..|pts| - 1]), pts[|pts| - 1])
  }

  /** On a fresh stroke (zero width) the box becomes exactly [x, x+5] x [y, y+5]. */
  lemma GrowFresh(b: Box, p: Point)
    requires b.right - b.left == 0.0
    ensures Grow(b, p) == Box(p.x, p.y, p.x + DefaultExtent, p.y + DefaultExtent)
  {
  }

  /**
   * On a box that already has an extent, add() only widens: the old box stays
   * inside the new one and the new point lies in it.
   */
  lemma GrowWidens(b: Box, p: Point)
    requires b.left < b.right && b.top <= b.bottom
    ensures var g := Grow(b, p);
      g.left <= b.left && b.right <= g.right && g.top <= b.top && b.bottom <= g.bottom
      && InBox(p, g)
  {
  }

  /**
   * The box of a non-empty stroke holds every sample, is at least 5 wide and
   * high, its left and top are attained by a sample (they are the minima),
   * and its right and bottom are either attained or come from the default
   * box of the first sample.
   */
  lemma {:induction false} BoxOfEncloses(pts: seq<Point>)
    requires |pts| > 0
    ensures var b := BoxOf(pts);
      b.right - b.left >= DefaultExtent && b.bottom - b.top >= DefaultExtent
    ensures forall i :: 0 <= i < |pts| ==> InBox(pts[i], BoxOf(pts))
    ensures exists i :: 0 <= i < |pts| && BoxOf(pts).left == pts[i].x
    ensures exists i :: 0 <= i < |pts| && BoxOf(pts).top == pts[i].y
    ensures BoxOf(pts).right == pts[0].x + DefaultExtent
            || exists i :: 0 <= i < |pts| && BoxOf(pts).right == pts[i].x
    ensures BoxOf(pts).bottom == pts[0].y + DefaultExtent
            || exists i :: 0 <= i < |pts| && BoxOf(pts).bottom == pts[i].y
  {
    var n := |pts| - 1;
    var last := pts[n];
    if n == 0 {
      GrowFresh(Blank, last);
      assert InBox(pts[0], BoxOf(pts));
    } else {
      var init := pts[..n];
      var b := BoxOf(init);
      BoxOfEncloses(init);
      assert init[0] == pts[0];
      assert forall i :: 0 <= i < n ==> init[i] == pts[i];
      GrowWidens(b, last);
      var g := BoxOf(pts);
      assert g == Grow(b, last);
      forall i | 0 <= i < |pts|
        ensures InBox(pts[i], g)
      {
        if i < n {
          assert InBox(init[i], b);
        }
      }
      if last.x >= b.left {
        var i :| 0 <= i < n && b.left == init[i].x;
        assert g.left == pts[i].x;
      } else {
        assert g.left == pts[n].x;
      }
      if last.y >= b.top {
        var i :| 0 <= i < n && b.top == init[i].y;
        assert g.top == pts[i].y;
      } else {
        assert g.top == pts[n].y;
      }
      if last.x > b.right {
        assert g.right == pts[n].x;
      } else if b.right != pts[0].x + DefaultExtent {
        var i :| 0 <= i < n && b.right == init[i].x;
        assert g.right == pts[i].x;
      }
      if last.y > b.bottom {
        assert g.bottom == pts[n].y;
      } else if b.bottom != pts[0].y + DefaultExtent {
        var i :| 0 <= i < n && b.bottom == init[i].y;
        assert g.bottom == pts[i].y;
      }
    }
  }

  /** The rect property: (left, top, right - left, bottom - top) as a QRectF. */
  function BoxRect(b: Box): Rect {
    Rect(b.left, b.top, b.right - b.left, b.bottom - b.top)
  }

  lemma InBoxRect(p: Point, b: Box)
    ensures InBox(p, b) <==> InRect(p, BoxRect(b))
  {
  }

  /** One sample of a non-empty stroke lies in its box, which is at least 5 by 5. */
  lemma BoxOfHolds(pts: seq<Point>, i: nat)
    requires i < |pts|
    ensures InBox(pts[i], BoxOf(pts))
    ensures BoxOf(pts).right - BoxOf(pts).left >= DefaultExtent
    ensures BoxOf(pts).bottom - BoxOf(pts).top >= DefaultExtent
  {
    BoxOfEncloses(pts);
  }

  /**
   * The rect property of a non-empty stroke is at least 5 by 5 and holds
   * every sample.
   */
  lemma BoxRectEncloses(pts: seq<Point>)
    requires |pts| > 0
    ensures BoxRect(BoxOf(pts)).w >= DefaultExtent && BoxRect(BoxOf(pts)).h >= DefaultExtent
    ensures forall i :: 0 <= i < |pts| ==> InRect(pts[i], BoxRect(BoxOf(pts)))
  {
    forall i | 0 <= i < |pts|
      ensures InRect(pts[i], BoxRect(BoxOf(pts)))
    {
      BoxOfHolds(pts, i);
      InBoxRect(pts[i], BoxOf(pts));
    }
    BoxOfHolds(pts, 0);
  }

  /** The segments between consecutive samples, in point order. */
  function Segments(pts: seq<Point>): (r: seq<Segment>)
    ensures |r| == if |pts| == 0 then 0 else |pts| - 1
    ensures forall i :: 0 <= i < |r| ==> r[i] == Segment(pts[i], pts[i + 1])
  {
    if |pts| <= 1 then [] else seq(|pts| - 1, i requires 0 <= i < |pts| - 1 => Segment(pts[i], pts[i + 1]))
  }

  /** A sample-to-sample segment of a stroke with box b stays inside b. */
  lemma SegmentInBox(p: Point, q: Point, b: Box, u: real)
    requires InBox(p, b) && InBox(q, b) && 0.0 <= u <= 1.0
    ensures InBox(Lerp(p, q, u), b)
  {
    AxisInRange(p.x, q.x, b.left, b.right, u);
    AxisInRange(p.y, q.y, b.top, b.bottom, u);
  }

  /** A value between two values of [lo, hi] lies in [lo, hi]. */
  lemma AxisInRange(a: real, c: real, lo: real, hi: real, u: real)
    requires lo <= a <= hi && lo <= c <= hi && 0.0 <= u <= 1.0
    ensures lo <= a + u * (c - a) <= hi
  {
    Between(a, c, u);
  }

  // ---------------------------------------------------------------------------
  // The specifications of the three hit tests

  /**
   * collidepoint: the point lies in the stroke box and in the box of some
   * segment between consecutive samples.
   */
  predicate PointHitsStroke(b: Box, pts: seq<Point>, pos: Point) {
    InBox(pos, b) && InSomeSegmentBox(pts, pos)
  }

  /** The point lies in the box of some segment between consecutive samples. */
  predicate InSomeSegmentBox(pts: seq<Point>, pos: Point) {
    exists i :: 0 <= i < |pts| - 1 && PointInSegmentBox(pts[i], pts[i + 1], pos)
  }

  /**
   * collideline: the line passes intersect_line_rect against the stroke box
   * and intersect_lines against some segment between consecutive samples.
   */
  predicate LineHitsStroke(b: Box, pts: seq<Point>, line: Segment) {
    IntersectLineRect(line, BoxRect(b))
    && exists i :: 0 <= i < |pts| - 1 && IntersectLines(line, Segment(pts[i], pts[i + 1]))
  }

  /** The result of Stroke.colliderect: False, or a non-empty list of segments. */
  datatype RectHit = NoHit | Lines(segments: seq<Segment>)

  /** The segments accepted by intersect_line_rect, in their original order. */
  function Accepted(segs: seq<Segment>, rect: Rect): seq<Segment>
    decreases |segs|
  {
    if |segs| == 0 then []
    else
      var n := |segs| - 1;
      Accepted(segs[..n], rect) + (if IntersectLineRect(segs[n], rect) then [segs[n]] else [])
  }

  /** The four early exits of Stroke.colliderect: the box lies beyond one side of the rect. */
  predicate BoxMisses(b: Box, rect: Rect) {
    b.left > rect.Right() || b.right < rect.Left() || b.top > rect.Bottom() || b.bottom < rect.Top()
  }

  /** Stroke.colliderect. */
  function RectHitOf(b: Box, pts: seq<Point>, rect: Rect): RectHit {
    if BoxMisses(b, rect) then NoHit
    else
      var acc := Accepted(Segments(pts), rect);
      if |acc| > 0 then Lines(acc) else NoHit
  }

  /** Accepted keeps exactly the segments that intersect_line_rect accepts. */
  lemma {:induction false} AcceptedMembers(segs: seq<Segment>, rect: Rect)
    ensures forall s :: s in Accepted(segs, rect) <==> s in segs && IntersectLineRect(s, rect)
  {
    if |segs| > 0 {
      var n := |segs| - 1;
      AcceptedMembers(segs[..n], rect);
      assert segs == segs[..n] + [segs[n]];
    }
  }

  /**
   * For a stroke whose box was built by add(), the box test of collidepoint
   * decides nothing: the point hits exactly when it lies in the box of some
   * segment.
   */
  lemma PointPrecheckRedundant(pts: seq<Point>, pos: Point)
    ensures PointHitsStroke(BoxOf(pts), pts, pos) <==> InSomeSegmentBox(pts, pos)
  {
    var b := BoxOf(pts);
    forall i | 0 <= i < |pts|
      ensures InBox(pts[i], b)
    {
      BoxOfHolds(pts, i);
    }
    PointPrecheckFor(b, pts, pos);
  }

  /** With every sample inside b, the box test of collidepoint against b decides nothing. */
  lemma PointPrecheckFor(b: Box, pts: seq<Point>, pos: Point)
    requires forall i :: 0 <= i < |pts| ==> InBox(pts[i], b)
    ensures PointHitsStroke(b, pts, pos) <==> InSomeSegmentBox(pts, pos)
  {
    if InSomeSegmentBox(pts, pos) {
      var i :| 0 <= i < |pts| - 1 && PointInSegmentBox(pts[i], pts[i + 1], pos);
      assert InBox(pts[i], b) && InBox(pts[i + 1], b);
    }
  }

  /**
   * collideline finds every crossing that is not parallel: if the line
   * crosses a segment of the stroke with a non-zero determinant, the stroke
   * is hit.
   */
  lemma CrossingDetected(pts: seq<Point>, line: Segment, i: nat)
    requires i < |pts| - 1
    requires Det(line, Segment(pts[i], pts[i + 1])) != 0.0
    requires IntersectLines(line, Segment(pts[i], pts[i + 1]))
    ensures LineHitsStroke(BoxOf(pts), pts, line)
  {
    var seg := Segment(pts[i], pts[i + 1]);
    var b := BoxOf(pts);
    IntersectLinesSound(line, seg);
    var t, s := ParamOnFirst(line, seg), ParamOnSecond(line, seg);
    BoxOfHolds(pts, i);
    BoxOfHolds(pts, i + 1);
    SegmentInBox(pts[i], pts[i + 1], b, s);
    InBoxRect(At(line, t), b);
    IntersectLineRectComplete(line, BoxRect(b), t);
  }

  /**
   * For a stroke whose box was built by add(), the four early exits of
   * colliderect decide nothing: when the box misses the rect, no segment is
   * accepted anyway.
   */
  lemma RectPrecheckRedundant(pts: seq<Point>, rect: Rect)
    ensures var acc := Accepted(Segments(pts), rect);
      RectHitOf(BoxOf(pts), pts, rect) == if |acc| > 0 then Lines(acc) else NoHit
  {
    var b := BoxOf(pts);
    var segs := Segments(pts);
    var acc := Accepted(segs, rect);
    if BoxMisses(b, rect) && |acc| > 0 {
      AcceptedMembers(segs, rect);
      assert acc[0] in acc;
      var k :| 0 <= k < |segs| && segs[k] == acc[0];
      BoxOfHolds(pts, k);
      BoxOfHolds(pts, k + 1);
      assert Rejected(segs[k], rect);
    }
  }

  /**
   * No false positives: for a rect of positive size, every segment that
   * colliderect returns is a segment of the stroke with a point inside the
   * closed rect.
   */
  lemma RectHitSound(pts: seq<Point>, rect: Rect, s: Segment) returns (u: real)
    requires rect.w > 0.0 && rect.h > 0.0
    requires RectHitOf(BoxOf(pts), pts, rect).Lines? && s in RectHitOf(BoxOf(pts), pts, rect).segments
    ensures s in Segments(pts) && 0.0 <= u <= 1.0 && InRect(At(s, u), rect)
  {
    AcceptedMembers(Segments(pts), rect);
    u := IntersectLineRectSound(s, rect);
  }

  /**
   * No false negatives: for a rect of positive size, a segment of the stroke
   * with a point inside the closed rect is among the segments colliderect
   * returns.
   */
  lemma RectHitComplete(pts: seq<Point>, rect: Rect, s: Segment, u: real)
    requires rect.w > 0.0 && rect.h > 0.0
    requires s in Segments(pts) && 0.0 <= u <= 1.0 && InRect(At(s, u), rect)
    ensures RectHitOf(BoxOf(pts), pts, rect).Lines?
    ensures s in RectHitOf(BoxOf(pts), pts, rect).segments
  {
    IntersectLineRectComplete(s, rect, u);
    AcceptedMembers(Segments(pts), rect);
    RectPrecheckRedundant(pts, rect);
  }

  /** The points of the classes.py demo stroke. */
  const DemoPoints := [Point(0.0, 0.0), Point(50.0, 50.0)]

  /** The rect of the classes.py demo. */
  const DemoRect := Rect(40.0, 0.0, 30.0, 30.0)

  /**
   * The classes.py demo: the diagonal from (0, 0) to (50, 50) runs at
   * y in [40, 50] where x is in [40, 50], below the rect's y-range [0, 30],
   * so colliderect is False.
   */
  lemma DemoMisses()
    ensures RectHitOf(BoxOf(DemoPoints), DemoPoints, DemoRect) == NoHit
  {
    var seg := Segment(Point(0.0, 0.0), Point(50.0, 50.0));
    assert Segments(DemoPoints) == [seg];
    assert !IntersectLines(seg, Edge(DemoRect, 0));
    assert !IntersectLines(seg, Edge(DemoRect, 1));
    assert !IntersectLines(seg, Edge(DemoRect, 2));
    assert !IntersectLines(seg, Edge(DemoRect, 3));
    assert !IntersectLineRect(seg, DemoRect);
    assert Accepted([seg], DemoRect) == Accepted([], DemoRect);
  }

  // ---------------------------------------------------------------------------
  // The class

  class Stroke {
    const id: string
    const color: seq<int>
    const width: real
    const opacity: real
    const highlight: bool
    const imported: bool
    var points: seq<Point>
    var left: real
    var top: real
    var right: real
    var bottom: real

    function Bounds(): Box
      reads this
    {
      Box(left, top, right, bottom)
    }

    /** The box fields are the ones add() built from the points, in order. */
    ghost predicate Valid()
      reads this
    {
      Bounds() == BoxOf(points)
    }

    /**
     * Stroke.__init__: the box starts at 0 and each given point is passed to
     * add() in order. The uuid of a new stroke is an injected value.
     */
    constructor (id: string, color: seq<int>, width: real, pts: seq<Point>,
                 opacity: real, highlight: bool, imported: bool)
      ensures Valid() && points == pts
      ensures this.id == id && this.color == color && this.width == width
      ensures this.opacity == opacity && this.highlight == highlight && this.imported == imported
    {
      this.id := id;
      this.color := color;
      this.width := width;
      this.opacity := opacity;
      this.highlight := highlight;
      this.imported := imported;
      points := [];
      left, top, right, bottom := 0.0, 0.0, 0.0, 0.0;
      new;
      for i := 0 to |pts|
        invariant points == pts[..i] && Valid()
      {
        Add(pts[i]);
      }
    }

    /** Stroke.add: append the point and update the box. */
    method Add(p: Point)
      modifies this`points, this`left, this`top, this`right, this`bottom
      ensures points == old(points) + [p]
      ensures Bounds() == Grow(old(Bounds()), p)
      ensures old(Valid()) ==> Valid()
    {
      points := points + [p];
      var x, y := p.x, p.y;
      if right - left == 0.0 {
        left := x;
        top := y;
        right := x + DefaultExtent;
        bottom := y + DefaultExtent;
      }
      if x < left {
        left := x;
      } else if x > right {
        right := x;
      }
      if y < top {
        top := y;
      } else if y > bottom {
        bottom := y;
      }
      assert points[..|points| - 1] == old(points);
    }

    /** The rect property: the stroke box as a QRectF. */
    function BoundingRect(): Rect
      reads this
    {
      BoxRect(Bounds())
    }

    /** Stroke.collidepoint. */
    method CollidePoint(pos: Point) returns (hit: bool)
      ensures hit == PointHitsStroke(Bounds(), points, pos)
      ensures !InBox(pos, Bounds()) ==> !hit
      ensures |points| < 2 ==> !hit
    {
      if pos.x < left || pos.x > right {
        return false;
      }
      if pos.y < top || pos.y > bottom {
        return false;
      }
      var i := 0;
      while i < |points| - 1
        invariant 0 <= i && (i == 0 || i < |points|)
        invariant forall k :: 0 <= k < i ==> !PointInSegmentBox(points[k], points[k + 1], pos)
      {
        if PointInSegmentBox(points[i], points[i + 1], pos) {
          return true;
        }
        i := i + 1;
      }
      return false;
    }

    /** Stroke.collideline. */
    method CollideLine(line: Segment) returns (hit: bool)
      ensures hit == LineHitsStroke(Bounds(), points, line)
      ensures !IntersectLineRect(line, BoxRect(Bounds())) ==> !hit
    {
      if !IntersectLineRect(line, BoundingRect()) {
        return false;
      }
      var i := 0;
      while i < |points| - 1
        invariant 0 <= i && (i == 0 || i < |points|)
        invariant forall k :: 0 <= k < i ==> !IntersectLines(line, Segment(points[k], points[k + 1]))
      {
        if IntersectLines(line, Segment(points[i], points[i + 1])) {
          return true;
        }
        i := i + 1;
      }
      return false;
    }

    /** Stroke.colliderect: builds the list of accepted segments in point order. */
    method CollideRect(rect: Rect) returns (r: RectHit)
      ensures r == RectHitOf(Bounds(), points, rect)
      ensures r.Lines? ==> |r.segments| > 0
    {
      if left > rect.Right() || right < rect.Left() || top > rect.Bottom() || bottom < rect.Top() {
        return NoHit;
      }
      var segs := Segments(points);
      var lines := [];
      var i := 0;
      while i < |points| - 1
        invariant 0 <= i <= |segs|
        invariant lines == Accepted(segs[..i], rect)
      {
        var line := Segment(points[i], points[i + 1]);
        assert segs[..i + 1][..i] == segs[..i] && segs[i] == line;
        assert Accepted(segs[..i + 1], rect)
          == Accepted(segs[..i], rect) + (if IntersectLineRect(line, rect) then [line] else []);
        if IntersectLineRect(line, rect) {
          lines := lines + [line];
        }
        i := i + 1;
      }
      assert segs[..i] == segs;
      if |lines| > 0 {
        return Lines(lines);
      }
      return NoHit;
    }
  }

  /** collidepoint of every stroke of a list, in list order. */
  function PointHits(ss: seq<Stroke>, pos: Point): seq<bool>
    reads ss
  {
    seq(|ss|, i requires 0 <= i < |ss| reads ss => PointHitsStroke(ss[i].Bounds(), ss[i].points, pos))
  }

  /** collideline of every stroke of a list, in list order. */
  function LineHits(ss: seq<Stroke>, line: Segment): seq<bool>
    reads ss
  {
    seq(|ss|, i requires 0 <= i < |ss| reads ss => LineHitsStroke(ss[i].Bounds(), ss[i].points, line))
  }

  /** The classes.py demo block: colliderect of the demo stroke and rect is False. */
  method Demo(id: string) returns (r: RectHit)
    ensures r == NoHit
  {
    var s := new Stroke(id, [0, 0, 0], 1.0, DemoPoints, 1.0, false, false);
    r := s.CollideRect(DemoRect);
    DemoMisses();
  }
}
