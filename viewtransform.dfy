/**
 * The pure coordinate maps of the GraphicsArea in main.py: the zoom clamp of
 * a pinch, the screen/canvas maps, normalise/denormalise against the image
 * size, and the clip rect that refresh culls against.
 */
module ViewTransform {
  import opened Geometry

  /** The bounds of the zoom factor set up by GraphicsArea.__init__. */
  const MinZoom := 0.5
  const MaxZoom := 18.0

  /** min(max_zoom, max(min_zoom, z)). */
  function ClampZoom(z: real): (r: real)
    ensures MinZoom <= r <= MaxZoom
    ensures MinZoom <= z <= MaxZoom ==> r == z
    ensures z < MinZoom ==> r == MinZoom
    ensures z > MaxZoom ==> r == MaxZoom
  {
    Min(MaxZoom, Max(MinZoom, z))
  }

  /** A larger requested zoom never gives a smaller clamped zoom. */
  lemma ClampZoomMonotone(a: real, b: real)
    requires a <= b
    ensures ClampZoom(a) <= ClampZoom(b)
  {
  }

  /**
   * What the screen/canvas maps depend on: the top-left corner of the drawn
   * image on screen, the ratio of the image height to the original height,
   * and the zoom factor.
   */
  datatype Viewport = Viewport(topLeft: Point, ratio: real, zoom: real)

  /** One coordinate of screen_to_canvas: (a - t) * ratio / zoom. */
  function ToCanvas(a: real, t: real, ratio: real, zoom: real): real
    requires zoom != 0.0
  {
    (a - t) * ratio / zoom
  }

  /** One coordinate of canvas_to_screen: c * zoom / ratio + t. */
  function ToScreen(c: real, t: real, ratio: real, zoom: real): real
    requires ratio != 0.0
  {
    c * zoom / ratio + t
  }

  /** screen_to_canvas: (pos - topLeft) * ratio / zoom. */
  function ScreenToCanvas(p: Point, v: Viewport): Point
    requires v.zoom != 0.0
  {
    Point(ToCanvas(p.x, v.topLeft.x, v.ratio, v.zoom), ToCanvas(p.y, v.topLeft.y, v.ratio, v.zoom))
  }

  /** canvas_to_screen: pos * zoom / ratio + topLeft. */
  function CanvasToScreen(p: Point, v: Viewport): Point
    requires v.ratio != 0.0
  {
    Point(ToScreen(p.x, v.topLeft.x, v.ratio, v.zoom), ToScreen(p.y, v.topLeft.y, v.ratio, v.zoom))
  }

  lemma AxisRoundTrip(a: real, t: real, r: real, z: real)
    requires r != 0.0 && z != 0.0
    ensures ToScreen(ToCanvas(a, t, r, z), t, r, z) == a
    ensures ToCanvas(ToScreen(a, t, r, z), t, r, z) == a
  {
    assert ((a - t) * r / z) * z == (a - t) * r;
    assert (a * z / r) * r == a * z;
  }

  /** Mapping a screen point to the canvas and back gives the screen point. */
  lemma ScreenCanvasRoundTrip(p: Point, v: Viewport)
    requires v.zoom != 0.0 && v.ratio != 0.0
    ensures CanvasToScreen(ScreenToCanvas(p, v), v) == p
  {
    AxisRoundTrip(p.x, v.topLeft.x, v.ratio, v.zoom);
    AxisRoundTrip(p.y, v.topLeft.y, v.ratio, v.zoom);
  }

  /** Mapping a canvas point to the screen and back gives the canvas point. */
  lemma CanvasScreenRoundTrip(p: Point, v: Viewport)
    requires v.zoom != 0.0 && v.ratio != 0.0
    ensures ScreenToCanvas(CanvasToScreen(p, v), v) == p
  {
    AxisRoundTrip(p.x, v.topLeft.x, v.ratio, v.zoom);
    AxisRoundTrip(p.y, v.topLeft.y, v.ratio, v.zoom);
  }

  /** normalise: divide by the image width and height. */
  function Normalise(p: Point, width: real, height: real): Point
    requires width != 0.0 && height != 0.0
  {
    Point(p.x / width, p.y / height)
  }

  /** denormalise: multiply by the image width and height. */
  function Denormalise(p: Point, width: real, height: real): Point {
    Point(p.x * width, p.y * height)
  }

  /** denormalise undoes normalise, and normalise undoes denormalise. */
  lemma NormaliseRoundTrip(p: Point, width: real, height: real)
    requires width != 0.0 && height != 0.0
    ensures Denormalise(Normalise(p, width, height), width, height) == p
    ensures Normalise(Denormalise(p, width, height), width, height) == p
  {
    assert (p.x / width) * width == p.x;
    assert (p.y / height) * height == p.y;
    assert (p.x * width) / width == p.x;
    assert (p.y * height) / height == p.y;
  }

  /**
   * The canvas position a stylus sample at screen position p is stored at:
   * the tablet handler maps p with screen_to_canvas, and tabletMoveEvent and
   * eraseEvent divide the result by the zoom once more.
   */
  function Stored(p: Point, v: Viewport): Point
    requires v.zoom != 0.0
  {
    Point(ToCanvas(p.x, v.topLeft.x, v.ratio, v.zoom) / v.zoom,
          ToCanvas(p.y, v.topLeft.y, v.ratio, v.zoom) / v.zoom)
  }

  /**
   * The clipping rect of refresh: the widget's corners (0, 0) and
   * (width, height) mapped with screen_to_canvas and divided by the zoom.
   */
  function ClipRect(v: Viewport, width: real, height: real): Rect
    requires v.zoom != 0.0
  {
    var tl := Stored(Point(0.0, 0.0), v);
    var br := Stored(Point(width, height), v);
    Rect(tl.x, tl.y, br.x - tl.x, br.y - tl.y)
  }

  lemma ScaleOrder(a: real, b: real, k: real)
    requires k > 0.0
    ensures a * k <= b * k <==> a <= b
  {
    if a > b {
      MulPos(a - b, k);
      assert (a - b) * k == a * k - b * k;
    } else if a < b {
      MulPos(b - a, k);
      assert (b - a) * k == b * k - a * k;
    }
  }

  lemma DivOrder(x: real, y: real, z: real)
    requires z > 0.0
    ensures x / z <= y / z <==> x <= y
  {
    ScaleOrder(x / z, y / z, z);
    assert (x / z) * z == x;
    assert (y / z) * z == y;
  }

  /** One coordinate of Stored is increasing in the screen coordinate. */
  lemma StoredOrder(a: real, b: real, t: real, r: real, z: real)
    requires r > 0.0 && z > 0.0
    ensures ToCanvas(a, t, r, z) / z <= ToCanvas(b, t, r, z) / z <==> a <= b
  {
    DivOrder(ToCanvas(a, t, r, z), ToCanvas(b, t, r, z), z);
    DivOrder((a - t) * r, (b - t) * r, z);
    ScaleOrder(a - t, b - t, r);
  }

  /**
   * What the clip rect means: with a positive ratio and zoom, a stored sample
   * lies in the clip rect exactly when its screen position lies in the
   * widget, so culling against it keeps what the widget can show.
   */
  lemma ClipRectHoldsVisible(p: Point, v: Viewport, width: real, height: real)
    requires v.ratio > 0.0 && v.zoom > 0.0
    ensures InRect(Stored(p, v), ClipRect(v, width, height))
        <==> 0.0 <= p.x <= width && 0.0 <= p.y <= height
  {
    StoredOrder(0.0, p.x, v.topLeft.x, v.ratio, v.zoom);
    StoredOrder(p.x, width, v.topLeft.x, v.ratio, v.zoom);
    StoredOrder(0.0, p.y, v.topLeft.y, v.ratio, v.zoom);
    StoredOrder(p.y, height, v.topLeft.y, v.ratio, v.zoom);
  }

  /** For a widget of positive size, the clip rect has positive size. */
  lemma ClipRectPositive(v: Viewport, width: real, height: real)
    requires v.ratio > 0.0 && v.zoom > 0.0 && width > 0.0 && height > 0.0
    ensures ClipRect(v, width, height).w > 0.0 && ClipRect(v, width, height).h > 0.0
  {
    StoredOrder(width, 0.0, v.topLeft.x, v.ratio, v.zoom);
    StoredOrder(height, 0.0, v.topLeft.y, v.ratio, v.zoom);
  }
}
