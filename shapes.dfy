/**
 * The static annotation entities of classes.py: the Ink import record and
 * the Square, FreeText and Line shapes with their rectangle hit tests.
 */
module Shapes {
  import opened Geometry

  /** int(x) in Python: truncation toward zero. */
  function Truncate(r: real): int {
    if r >= 0.0 then r.Floor else -((-r).Floor)
  }

  /**
   * int(c * 255): a colour channel read from the page file (a fraction) as
   * an integer channel. Fractions in [0, 1] land in [0, 255].
   */
  function ScaleChannel(c: real): (v: int)
    ensures 0.0 <= c <= 1.0 ==> 0 <= v <= 255
  {
    Truncate(c * 255.0)
  }

  /** [int(x * 255) for x in color]: every channel scaled, in order. */
  function ScaleColor(color: seq<real>): (r: seq<int>)
    ensures |r| == |color|
    ensures forall i :: 0 <= i < |color| ==> r[i] == ScaleChannel(color[i])
  {
    seq(|color|, i requires 0 <= i < |color| => ScaleChannel(color[i]))
  }

  /**
   * Scaling is exact on the fractions c / 255 that the writer produces, so
   * an integer channel survives being written out and read back.
   */
  lemma ScaleChannelRoundTrip(c: int)
    requires 0 <= c <= 255
    ensures ScaleChannel(c as real / 255.0) == c
  {
    assert (c as real / 255.0) * 255.0 == c as real;
  }

  /** Scaling never reverses the order of two channels. */
  lemma ScaleChannelMonotone(a: real, b: real)
    requires 0.0 <= a <= b
    ensures ScaleChannel(a) <= ScaleChannel(b)
  {
    assert a * 255.0 <= b * 255.0;
  }

  /** The Ink import record. */
  datatype Ink = Ink(id: string, points: seq<Point>, color: seq<int>, width: real,
                     opacity: real, highlight: bool)

  /**
   * Ink.__init__: the colour channels are scaled to integers and the record
   * is a highlight exactly when its border width is 0.
   */
  function NewInk(id: string, points: seq<Point>, color: seq<real>, width: real,
                  opacity: real): (ink: Ink)
    ensures ink.highlight <==> width == 0.0
    ensures ink.id == id && ink.points == points && ink.width == width && ink.opacity == opacity
    ensures |ink.color| == |color|
    ensures forall i :: 0 <= i < |color| && 0.0 <= color[i] <= 1.0 ==> 0 <= ink.color[i] <= 255
  {
    Ink(id, points, ScaleColor(color), width, opacity, width == 0.0)
  }

  datatype Size = Size(w: real, h: real)

  /** The shapes held in the object list of the canvas. */
  datatype Annotation =
    | Square(id: string, pos: Point, size: Size, opacity: real,
             borderColor: seq<int>, fillColor: seq<int>, borderWidth: real)
    | FreeText(id: string, text: string, color: seq<int>, pos: Point, size: Size, opacity: real)
    | Line(id: string, p1: Point, p2: Point, color: seq<int>, opacity: real, width: real)

  /** The closed box a shape covers: [pos, pos + size], or the box of the line's endpoints. */
  function ShapeRect(a: Annotation): Rect {
    match a
    case Square(_, pos, size, _, _, _, _) => Rect(pos.x, pos.y, size.w, size.h)
    case FreeText(_, _, _, pos, size, _) => Rect(pos.x, pos.y, size.w, size.h)
    case Line(_, p1, p2, _, _, _) => BBox(p1, p2)
  }

  /**
   * The colliderect methods of Square, FreeText and Line: four comparisons of
   * the shape's extent against the rectangle's sides. Line puts the
   * coordinates of its endpoints in order first.
   */
  function CollideRect(a: Annotation, rect: Rect): bool {
    var (left, top, right, bottom) :=
      match a
      case Square(_, pos, size, _, _, _, _) =>
        (pos.x, pos.y, pos.x + size.w, pos.y + size.h)
      case FreeText(_, _, _, pos, size, _) =>
        (pos.x, pos.y, pos.x + size.w, pos.y + size.h)
      case Line(_, p1, p2, _, _, _) =>
        var (l, r) := if p1.x > p2.x then (p2.x, p1.x) else (p1.x, p2.x);
        var (t, b) := if p1.y > p2.y then (p2.y, p1.y) else (p1.y, p2.y);
        (l, t, r, b);
    if left > rect.Right() then false
    else if right < rect.Left() then false
    else if top > rect.Bottom() then false
    else if bottom < rect.Top() then false
    else true
  }

  /**
   * The test is a closed-interval overlap: when the shape and the rectangle
   * have no negative size, it succeeds exactly when some point lies in both
   * closed boxes.
   */
  lemma CollideRectOverlap(a: Annotation, rect: Rect)
    requires ShapeRect(a).w >= 0.0 && ShapeRect(a).h >= 0.0 && rect.w >= 0.0 && rect.h >= 0.0
    ensures CollideRect(a, rect) <==> exists p :: InRect(p, ShapeRect(a)) && InRect(p, rect)
  {
    var b := ShapeRect(a);
    if CollideRect(a, rect) {
      var p := Point(Max(b.Left(), rect.Left()), Max(b.Top(), rect.Top()));
      assert InRect(p, b) && InRect(p, rect);
    }
    if exists p :: InRect(p, b) && InRect(p, rect) {
      var p :| InRect(p, b) && InRect(p, rect);
      assert !(b.Left() > rect.Right() || b.Right() < rect.Left());
    }
  }

  /** Line.colliderect does not depend on the order of the endpoints. */
  lemma LineCollideSymmetric(id: string, p1: Point, p2: Point, color: seq<int>,
                             opacity: real, width: real, rect: Rect)
    ensures CollideRect(Line(id, p1, p2, color, opacity, width), rect)
        == CollideRect(Line(id, p2, p1, color, opacity, width), rect)
  {
  }
}
