/**
 * The drawing canvas of main.py (GraphicsArea): the stroke and object lists,
 * the pending erase map and the history of erased batches, the zoom, and
 * the stylus handlers that change them, with refresh as the list of draw
 * calls it issues.
 */
module Canvas {
  import opened Geometry
  import opened Shapes
  import opened Strokes
  import opened ViewTransform
  import opened EraseHistory

  /** A draw call refresh makes: a stroke with the `lines` argument it passes, or a shape. */
  datatype DrawCall = DrawStroke(stroke: Stroke, lines: seq<Segment>) | DrawObject(obj: Annotation)

  /** pos / zoom. */
  function Unzoomed(p: Point, k: real): Point
    requires k != 0.0
  {
    Point(p.x / k, p.y / k)
  }

  /** colliderect of every stroke of a list against the clip rect, in list order. */
  function RectHits(ss: seq<Stroke>, clip: Rect): seq<RectHit>
    reads ss
  {
    seq(|ss|, i requires 0 <= i < |ss| reads ss => RectHitOf(ss[i].Bounds(), ss[i].points, clip))
  }

  /**
   * The stroke loop of refresh, given the colliderect result of each stroke:
   * every stroke whose result is truthy, with its lines.
   */
  function StrokeCalls(ss: seq<Stroke>, hits: seq<RectHit>): seq<DrawCall>
    requires |hits| == |ss|
    decreases |ss|
  {
    if |ss| == 0 then []
    else
      var n := |ss| - 1;
      match hits[n]
      case NoHit => StrokeCalls(ss[..n], hits[..n])
      case Lines(segs) => StrokeCalls(ss[..n], hits[..n]) + [DrawStroke(ss[n], segs)]
  }

  /** The object loop of refresh: every shape whose colliderect is true. */
  function ObjectCalls(objs: seq<Annotation>, clip: Rect): seq<DrawCall>
    decreases |objs|
  {
    if |objs| == 0 then []
    else
      var n := |objs| - 1;
      if CollideRect(objs[n], clip) then ObjectCalls(objs[..n], clip) + [DrawObject(objs[n])]
      else ObjectCalls(objs[..n], clip)
  }

  /** Every call of the stroke loop names a listed stroke and passes the lines of its result. */
  lemma {:induction false} StrokeCallsSound(ss: seq<Stroke>, hits: seq<RectHit>)
    requires |hits| == |ss|
    ensures |StrokeCalls(ss, hits)| <= |ss|
    ensures forall c :: c in StrokeCalls(ss, hits) ==>
      c.DrawStroke? && exists k :: 0 <= k < |ss| && ss[k] == c.stroke && hits[k] == Lines(c.lines)
  {
    if |ss| > 0 {
      var n := |ss| - 1;
      StrokeCallsSound(ss[..n], hits[..n]);
      forall c | c in StrokeCalls(ss[..n], hits[..n])
        ensures exists k :: 0 <= k < |ss| && ss[k] == c.stroke && hits[k] == Lines(c.lines)
      {
        var k :| 0 <= k < n && ss[..n][k] == c.stroke && hits[..n][k] == Lines(c.lines);
        assert ss[k] == c.stroke && hits[k] == Lines(c.lines);
      }
    }
  }

  /** Every listed stroke with a truthy result is drawn by the stroke loop. */
  lemma {:induction false} StrokeCallsComplete(ss: seq<Stroke>, hits: seq<RectHit>, k: nat)
    requires |hits| == |ss| && k < |ss| && hits[k].Lines?
    ensures DrawStroke(ss[k], hits[k].segments) in StrokeCalls(ss, hits)
  {
    var n := |ss| - 1;
    if k < n {
      assert ss[..n][k] == ss[k] && hits[..n][k] == hits[k];
      StrokeCallsComplete(ss[..n], hits[..n], k);
    }
  }

  /**
   * Which strokes refresh calls draw on: every such stroke is in the list and
   * gets as `lines` exactly the segments its colliderect accepted, and every
   * stroke whose colliderect is truthy gets a call.
   */
  lemma StrokesDrawnExactly(ss: seq<Stroke>, clip: Rect)
    ensures forall c :: c in StrokeCalls(ss, RectHits(ss, clip)) ==>
      c.DrawStroke? && c.stroke in ss
      && RectHitOf(c.stroke.Bounds(), c.stroke.points, clip) == Lines(c.lines)
    ensures forall k :: 0 <= k < |ss| && RectHitOf(ss[k].Bounds(), ss[k].points, clip).Lines? ==>
      DrawStroke(ss[k], RectHitOf(ss[k].Bounds(), ss[k].points, clip).segments)
        in StrokeCalls(ss, RectHits(ss, clip))
  {
    var hits := RectHits(ss, clip);
    StrokeCallsSound(ss, hits);
    forall k | 0 <= k < |ss| && RectHitOf(ss[k].Bounds(), ss[k].points, clip).Lines?
      ensures DrawStroke(ss[k], RectHitOf(ss[k].Bounds(), ss[k].points, clip).segments)
        in StrokeCalls(ss, hits)
    {
      StrokeCallsComplete(ss, hits, k);
    }
  }

  /**
   * Culling loses nothing visible: a stroke that has a segment with a point
   * inside a clip rect of positive size gets a draw call, with that segment
   * among its lines.
   */
  lemma VisibleStrokeDrawn(ss: seq<Stroke>, clip: Rect, k: nat, s: Segment, u: real)
    requires k < |ss| && ss[k].Valid() && clip.w > 0.0 && clip.h > 0.0
    requires s in Segments(ss[k].points) && 0.0 <= u <= 1.0 && InRect(At(s, u), clip)
    ensures RectHitOf(ss[k].Bounds(), ss[k].points, clip).Lines?
    ensures s in RectHitOf(ss[k].Bounds(), ss[k].points, clip).segments
    ensures DrawStroke(ss[k], RectHitOf(ss[k].Bounds(), ss[k].points, clip).segments)
      in StrokeCalls(ss, RectHits(ss, clip))
  {
    RectHitComplete(ss[k].points, clip, s, u);
    StrokeCallsComplete(ss, RectHits(ss, clip), k);
  }

  /** A shape is drawn iff it is in the list and its colliderect is true. */
  lemma {:induction false} ObjectCallsExact(objs: seq<Annotation>, clip: Rect, c: DrawCall)
    ensures c in ObjectCalls(objs, clip) <==> c.DrawObject? && c.obj in objs && CollideRect(c.obj, clip)
  {
    if |objs| > 0 {
      var n := |objs| - 1;
      ObjectCallsExact(objs[..n], clip, c);
      assert objs == objs[..n] + [objs[n]];
    }
  }

  class GraphicsArea {
    var strokes: seq<Stroke>
    var objects: seq<Annotation>
    var previousPoint: Option<Point>
    var drawing: bool
    /** erased_strokes: the pending erase map, index -> stroke, in insertion order. */
    var erasedStrokes: seq<Entry<Stroke>>
    /** actions_stack: the committed batches, oldest first. */
    var actionsStack: seq<seq<Stroke>>
    var zoom: real
    var pinching: bool
    var penColor: seq<int>
    var penWidth: real
    /** The top-left corner of the drawn image on screen (drawRect.topLeft()). */
    var drawTopLeft: Point
    /** image.height() and original_size.height(): their quotient is the screen/canvas ratio. */
    var imageHeight: real
    var originalHeight: real
    /** image_size, the size normalise and denormalise use. */
    var imageSize: Size
    /** The widget's own width() and height(). */
    var widgetWidth: real
    var widgetHeight: real

    /**
     * The strokes are distinct objects, each with its box in step with its
     * points; the zoom stays in its bounds; the pending map has unique keys
     * that index the stroke list; and no committed stroke is still listed.
     */
    ghost predicate Valid()
      reads this, strokes
    {
      && MinZoom <= zoom <= MaxZoom
      && originalHeight != 0.0
      && Distinct(strokes)
      && (forall s :: s in strokes ==> s.Valid())
      && UniqueKeys(erasedStrokes) && Indexes(erasedStrokes, strokes)
      && (forall x :: x in Flatten(actionsStack) ==> x !in strokes)
    }

    /** What screen_to_canvas and canvas_to_screen read. */
    function View(): Viewport
      reads this
      requires originalHeight != 0.0
    {
      Viewport(drawTopLeft, imageHeight / originalHeight, zoom)
    }

    /** The clipping rect of refresh. */
    function Clip(): Rect
      reads this
      requires originalHeight != 0.0 && zoom != 0.0
    {
      ClipRect(View(), widgetWidth, widgetHeight)
    }

    /** Everything refresh draws, strokes first, then shapes. */
    function Scene(): seq<DrawCall>
      reads this, strokes
      requires originalHeight != 0.0 && zoom != 0.0
    {
      StrokeCalls(strokes, RectHits(strokes, Clip())) + ObjectCalls(objects, Clip())
    }

    /**
     * GraphicsArea.__init__ for an original page size (width, height): black
     * pen of width .5, zoom 1, nothing drawn, nothing pending.
     */
    constructor (width: real, height: real, widgetWidth: real, widgetHeight: real)
      requires height != 0.0
      ensures Valid()
      ensures strokes == [] && objects == [] && erasedStrokes == [] && actionsStack == []
      ensures previousPoint == None && !drawing && !pinching && zoom == 1.0
      ensures penColor == [0, 0, 0] && penWidth == 0.5
      ensures imageSize == Size(width, height)
    {
      strokes := [];
      objects := [];
      previousPoint := None;
      drawing := false;
      erasedStrokes := [];
      actionsStack := [];
      zoom := 1.0;
      pinching := false;
      penColor := [0, 0, 0];
      penWidth := 0.5;
      drawTopLeft := Point(0.0, 0.0);
      imageHeight := height;
      originalHeight := height;
      imageSize := Size(width, height);
      this.widgetWidth := widgetWidth;
      this.widgetHeight := widgetHeight;
    }

    /** The zoom update of pinchTriggered: the scaled zoom, clamped to its bounds. */
    method PinchTriggered(scale: real)
      requires Valid()
      modifies this`zoom, this`pinching
      ensures Valid()
      ensures zoom == ClampZoom(old(zoom) * scale) && pinching
    {
      zoom := Min(MaxZoom, Max(MinZoom, zoom * scale));
      pinching := true;
    }

    /**
     * eraseEvent: the first sample only records the position; each later one
     * marks, under its index, every stroke not yet pending that the segment
     * from the previous sample to this one (both divided by the zoom) crosses.
     */
    method EraseEvent(pos: Point)
      requires Valid()
      modifies this`erasedStrokes, this`previousPoint, this`drawing
      ensures Valid()
      ensures previousPoint == Some(pos)
      ensures old(previousPoint).None? ==> erasedStrokes == old(erasedStrokes) && drawing == old(drawing)
      ensures old(previousPoint).Some? ==> !drawing
      ensures old(previousPoint).Some? ==>
        erasedStrokes == ErasePass(old(erasedStrokes), strokes,
          LineHits(strokes, Segment(Unzoomed(old(previousPoint).value, zoom), Unzoomed(pos, zoom))))
    {
      if previousPoint.None? {
        previousPoint := Some(pos);
        return;
      }
      drawing := false;
      var line := Segment(Unzoomed(previousPoint.value, zoom), Unzoomed(pos, zoom));
      MarkCrossed(line);
      previousPoint := Some(pos);
    }

    /**
     * The marking loop of eraseEvent: every stroke not yet pending whose
     * collideline accepts the line is added to the pending map under its index.
     */
    method MarkCrossed(line: Segment)
      requires Valid()
      modifies this`erasedStrokes
      ensures Valid()
      ensures erasedStrokes == ErasePass(old(erasedStrokes), strokes, LineHits(strokes, line))
    {
      ghost var m0 := erasedStrokes;
      ghost var hits := LineHits(strokes, line);
      for i := 0 to |strokes|
        invariant erasedStrokes == ErasePass(m0, strokes[..i], hits[..i])
      {
        var hit := strokes[i].CollideLine(line);
        if hit {
          erasedStrokes := Mark(erasedStrokes, i, strokes[i]);
        }
        assert strokes[..i + 1][..i] == strokes[..i];
        assert hits[..i + 1][..i] == hits[..i];
      }
      assert strokes[..|strokes|] == strokes;
      assert hits[..|strokes|] == hits;
      ErasePassUnique(m0, strokes, hits);
      ErasePassIndexes(m0, strokes, hits);
    }

    /** tabletPressEvent: a new empty stroke in the pen's colour and width is appended. */
    method TabletPressEvent(pos: Point, id: string)
      requires Valid()
      modifies this`strokes, this`previousPoint, this`drawing
      ensures Valid()
      ensures |strokes| == |old(strokes)| + 1 && strokes[..|old(strokes)|] == old(strokes)
      ensures fresh(strokes[|strokes| - 1]) && strokes[|strokes| - 1].points == []
      ensures strokes[|strokes| - 1].color == penColor && strokes[|strokes| - 1].width == penWidth
      ensures strokes[|strokes| - 1].id == id && !strokes[|strokes| - 1].imported
      ensures strokes[|strokes| - 1].opacity == 1.0 && !strokes[|strokes| - 1].highlight
      ensures previousPoint == Some(pos) && drawing
    {
      ghost var history := actionsStack;
      var s := new Stroke(id, penColor, penWidth, [], 1.0, false, false);
      forall x | x in Flatten(history)
        ensures x != s
      {
        FlattenMembers(history, x);
      }
      strokes := strokes + [s];
      assert strokes[..|strokes| - 1] == old(strokes);
      previousPoint := Some(pos);
      drawing := true;
    }

    /**
     * tabletMoveEvent: with no strokes drawing stops; while drawing, the
     * sample divided by the zoom is added to the newest stroke.
     */
    method TabletMoveEvent(pos: Point)
      requires Valid()
      modifies this`drawing, this`previousPoint
      modifies if |strokes| > 0 then {strokes[|strokes| - 1]} else {}
      ensures Valid()
      ensures |strokes| == 0 ==> !drawing && previousPoint == old(previousPoint)
      ensures |strokes| > 0 ==> drawing == old(drawing)
      ensures |strokes| > 0 && drawing ==>
        strokes[|strokes| - 1].points == old(strokes[|strokes| - 1].points) + [Unzoomed(pos, zoom)]
        && previousPoint == Some(pos)
      ensures |strokes| > 0 && !drawing ==>
        strokes[|strokes| - 1].points == old(strokes[|strokes| - 1].points)
        && previousPoint == old(previousPoint)
    {
      if |strokes| == 0 {
        drawing := false;
      }
      if drawing {
        var last := strokes[|strokes| - 1];
        last.Add(Unzoomed(pos, zoom));
        forall s | s in strokes
          ensures s.Valid()
        {
          if s != last {
            assert s.Bounds() == old(s.Bounds()) && s.points == old(s.points);
          }
        }
        previousPoint := Some(pos);
      }
    }

    /** refresh: the draw calls for what meets the clipping rect. */
    method Refresh() returns (calls: seq<DrawCall>)
      requires Valid()
      ensures calls == Scene()
    {
      var clip := ClipRect(View(), widgetWidth, widgetHeight);
      var drawn := DrawStrokes(clip);
      var shapes := DrawObjects(clip);
      calls := drawn + shapes;
    }

    /** The stroke loop of refresh: each stroke whose colliderect is truthy, with its lines. */
    method DrawStrokes(clip: Rect) returns (calls: seq<DrawCall>)
      ensures calls == StrokeCalls(strokes, RectHits(strokes, clip))
    {
      calls := [];
      ghost var hits := RectHits(strokes, clip);
      for i := 0 to |strokes|
        invariant calls == StrokeCalls(strokes[..i], hits[..i])
      {
        var lines := strokes[i].CollideRect(clip);
        assert lines == hits[i];
        assert strokes[..i + 1][..i] == strokes[..i] && hits[..i + 1][..i] == hits[..i];
        if lines.Lines? {
          calls := calls + [DrawStroke(strokes[i], lines.segments)];
        }
      }
      assert strokes[..|strokes|] == strokes && hits[..|strokes|] == hits;
    }

    /** The object loop of refresh: each shape whose colliderect is true. */
    method DrawObjects(clip: Rect) returns (calls: seq<DrawCall>)
      ensures calls == ObjectCalls(objects, clip)
    {
      calls := [];
      for i := 0 to |objects|
        invariant calls == ObjectCalls(objects[..i], clip)
      {
        assert objects[..i + 1][..i] == objects[..i];
        if CollideRect(objects[i], clip) {
          calls := calls + [DrawObject(objects[i])];
        }
      }
      assert objects[..|objects|] == objects;
    }

    /**
     * tabletReleaseEvent: a non-empty pending map is pushed as one batch,
     * every stroke of every batch is removed from the list, the canvas is
     * redrawn and the map is cleared. The history is not trimmed.
     */
    method TabletReleaseEvent() returns (calls: seq<DrawCall>)
      requires Valid()
      modifies this`previousPoint, this`actionsStack, this`strokes, this`erasedStrokes
      ensures Valid()
      ensures previousPoint == None
      ensures |old(erasedStrokes)| == 0 ==>
        strokes == old(strokes) && actionsStack == old(actionsStack) && erasedStrokes == [] && calls == []
      ensures |old(erasedStrokes)| > 0 ==>
        && actionsStack == old(actionsStack) + [Values(old(erasedStrokes))]
        && strokes == RemoveBatches(old(strokes), actionsStack)
        && erasedStrokes == []
        && calls == Scene()
    {
      previousPoint := None;
      calls := [];
      if |erasedStrokes| > 0 {
        CommitErased();
        calls := Refresh();
      }
    }

    /**
     * The commit of tabletReleaseEvent: the pending map is pushed as one
     * batch, every stroke of every batch is removed from the list and the
     * map is cleared.
     */
    method CommitErased()
      requires Valid() && |erasedStrokes| > 0
      modifies this`actionsStack, this`strokes, this`erasedStrokes
      ensures Valid()
      ensures actionsStack == old(actionsStack) + [Values(old(erasedStrokes))]
      ensures strokes == RemoveBatches(old(strokes), actionsStack)
      ensures erasedStrokes == []
    {
      actionsStack := actionsStack + [Values(erasedStrokes)];
      CommitApart(strokes, actionsStack);
      strokes := Commit(strokes, actionsStack);
      erasedStrokes := [];
    }

    /** add_stroke: an Ink record becomes an imported stroke at the end of the list. */
    method AddStroke(ink: Ink, id: string)
      requires Valid()
      modifies this`strokes
      ensures Valid()
      ensures |strokes| == |old(strokes)| + 1 && strokes[..|old(strokes)|] == old(strokes)
      ensures fresh(strokes[|strokes| - 1])
      ensures strokes[|strokes| - 1].points == ink.points && strokes[|strokes| - 1].color == ink.color
      ensures strokes[|strokes| - 1].width == ink.width && strokes[|strokes| - 1].opacity == ink.opacity
      ensures strokes[|strokes| - 1].highlight == ink.highlight && strokes[|strokes| - 1].imported
    {
      ghost var history := actionsStack;
      var s := new Stroke(id, ink.color, ink.width, ink.points, ink.opacity, ink.highlight, true);
      forall x | x in Flatten(history)
        ensures x != s
      {
        FlattenMembers(history, x);
      }
      strokes := strokes + [s];
      assert strokes[..|strokes| - 1] == old(strokes);
    }

    /** add_rect, add_text and add_line: the shape is appended to the object list. */
    method AddObject(a: Annotation)
      requires Valid()
      modifies this`objects
      ensures Valid()
      ensures objects == old(objects) + [a]
    {
      objects := objects + [a];
    }
  }
}
