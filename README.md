# PDFEditor ink annotations: a Dafny model

This project models the core of PDFEditor, a PyQt application for drawing
ink strokes on PDF pages. It covers three parts of the application and
proves properties of each:

- **The geometry kernel and entities of `classes.py`** (modules `Geometry`,
  `Shapes`, `Strokes`):
  - the segment bounding box and the point-in-segment-box test;
  - the segment/segment test `intersect_lines` and the segment/rectangle test
    `intersect_line_rect`;
  - the `Stroke` class, an ordered point list whose bounding box `add`
    updates in place, with its three hit tests;
  - the `Square`, `FreeText` and `Line` shapes;
  - the `Ink` import record.
- **The canvas of `main.py`** (modules `ViewTransform`, `EraseHistory`,
  `Canvas`), the `GraphicsArea` class:
  - its stroke list and the pending erase map, keyed by stroke index;
  - the commit on stylus release, which pushes a batch onto `actions_stack`
    and removes every batched stroke;
  - the clip-rect culling of `refresh` and the zoom clamp of a pinch;
  - the screen/canvas and normalise/denormalise maps.
- **The earlier panel of `archive.py`** (module `Panel`):
  - `setColor`, erasing by point, and the commit that keeps only the newest
    25 batches;
  - undo, which puts the newest batch back.

Coordinates are exact reals. Stroke identity matters, because `list.remove`
and `in` compare strokes. So `Stroke` is a class, and stroke lists are
sequences of references. A Python dict that keeps insertion order is a
sequence of `Entry(index, stroke)` with unique keys.

Behaviour kept exactly as the code has it:

- The parallel branch of `intersect_lines` (`d == 0`) compares the absolute
  coordinates of the first segment's end point and the second segment's
  start point, not direction vectors. So it reports some disjoint parallel
  segments as meeting, misses some overlapping collinear ones, and is not
  symmetric. `ParallelDisjointReported`, `CollinearOverlapMissed` and
  `ParallelCaseAsymmetric` exhibit each case.
- `collidepoint` is an approximation: the point only has to lie in the box of
  one segment.
- The demo block at the end of `classes.py` prints False. The diagonal from
  (0, 0) to (50, 50) passes the rect (40, 0, 30, 30) below its y-range.
  `DemoMisses` and `Demo` state this.
- `refresh` divides by the zoom twice to get its clip rect, because
  `screen_to_canvas` already divides once. The tablet handlers store samples
  with the same double division. `ClipRectHoldsVisible` shows that the two
  agree: a stored sample lies in the clip rect exactly when its screen
  position lies in the widget.
- In `main.py` the 25-batch trim is commented out, so `actions_stack` grows
  without bound. Only the `archive.py` panel trims its history.
- `Window.undo` in `archive.py` reads `erased_strokes`, `strokes` and
  `refresh` from the window, but only the drawing panel has them. Undo is
  modelled as an operation on the panel's state, which is what the code
  evidently means.

## Model

| member | source | states |
|---|---|---|
| Geometry.BBox | classes.py:163-174 | width and height are non-negative, both points lie in the box, and each side is one of the points' coordinates |
| Geometry.BBoxSwap | classes.py:163-174 | the box does not depend on the order of the two points |
| Geometry.PointInSegmentBox | classes.py:176-188 | the point test holds iff the point lies between the endpoints on both axes |
| Geometry.EndpointsInSegmentBox | classes.py:176-188 | both endpoints of a segment pass the point test |
| Geometry.CrossingPoint | classes.py:406-433 | when d ≠ 0 the parameters s and t name one common point of the two lines |
| Geometry.IntersectLinesSound | classes.py:406-433 | when d ≠ 0, a reported intersection has both parameters in [0, 1] and is a point on both segments |
| Geometry.IntersectLinesComplete | classes.py:406-433 | when d ≠ 0, two segments that share a point are reported as intersecting |
| Geometry.ParamsOfCommonPoint | classes.py:417-428 | when d ≠ 0, the parameters t and s computed by intersect_lines are exactly the positions of any common point along the two segments |
| Geometry.IntersectLinesSymmetric | classes.py:406-433 | when d ≠ 0 the result does not change if the two segments are swapped |
| Geometry.ParallelDisjointReported | classes.py:418-425 | the parallel branch reports two disjoint parallel segments as meeting |
| Geometry.CollinearOverlapMissed | classes.py:418-425 | the parallel branch misses two overlapping collinear segments |
| Geometry.ParallelCaseAsymmetric | classes.py:418-425 | the parallel branch gives different answers for the two orders of the same pair |
| Geometry.IntersectLineRect | classes.py:435-466 | false when both endpoints lie strictly beyond one side of the rect; true when both endpoints lie in the closed rect |
| Geometry.IntersectLineRectSound | classes.py:435-466 | for a rect of positive size, a reported hit has a point of the segment inside the closed rect |
| Geometry.IntersectLineRectComplete | classes.py:435-466 | for a rect of positive size, a segment with a point inside the closed rect is reported |
| Shapes.NewInk | classes.py:14-21 | highlight iff the width is 0; the other fields are kept; every colour channel in [0, 1] becomes an integer in [0, 255] |
| Shapes.ScaleChannelRoundTrip | classes.py:18 | scaling is exact on c / 255, so every integer channel c in [0, 255] is recovered |
| Shapes.ScaleChannelMonotone | classes.py:18 | scaling never reverses the order of two channels |
| Shapes.CollideRectOverlap | classes.py:34-49 | for shapes and rects of non-negative size, colliderect holds iff some point lies in both closed boxes (Square, FreeText at 98-113, Line at 137-154) |
| Shapes.LineCollideSymmetric | classes.py:137-154 | Line.colliderect does not depend on the order of the endpoints |
| Strokes.GrowFresh | classes.py:220-224 | on a fresh stroke (zero width) the box becomes exactly [x, x+5] × [y, y+5] |
| Strokes.GrowWidens | classes.py:226-233 | once the box has an extent, add only widens it and the new point lies inside |
| Strokes.BoxOfEncloses | classes.py:215-233 | after any non-empty sequence of adds, every point lies in the box, the box is at least 5 × 5, and its left and top are attained by points |
| Strokes.BoxRectEncloses | classes.py:235-237 | the rect property holds every point of the stroke and is at least 5 × 5 |
| Strokes.Stroke.constructor | classes.py:190-213 | a new stroke holds the given points, with its box as add builds it, and the given attributes |
| Strokes.Stroke.Add | classes.py:215-233 | the point is appended at the end, the box is updated as add does, and the box stays in step with the points |
| Strokes.Stroke.CollidePoint | classes.py:239-257 | the result is the point-hit specification; false outside the box and for strokes with fewer than two points |
| Strokes.PointPrecheckRedundant | classes.py:239-257 | for a box built by add, a point hits iff it lies in the box of some segment |
| Strokes.Stroke.CollideLine | classes.py:259-271 | the result is the line-hit specification; false whenever the line misses the stroke box |
| Strokes.CrossingDetected | classes.py:259-271 | a non-parallel crossing of any segment of the stroke is detected despite the box precheck |
| Strokes.Stroke.CollideRect | classes.py:273-292 | the result is False when the box misses the rect, otherwise the accepted segments in point order, never an empty list |
| Strokes.AcceptedMembers | classes.py:283-287 | the returned segments are exactly the stroke segments intersect_line_rect accepts |
| Strokes.RectPrecheckRedundant | classes.py:273-281 | for a box built by add, the four early exits never change the result |
| Strokes.RectHitSound | classes.py:273-292 | every returned segment belongs to the stroke and has a point in the rect |
| Strokes.RectHitComplete | classes.py:273-292 | every stroke segment with a point in the rect is returned |
| Strokes.DemoMisses | classes.py:468-471 | the demo stroke does not collide with the demo rect |
| Strokes.Demo | classes.py:468-471 | building the demo stroke and calling colliderect gives False |
| ViewTransform.ClampZoom | main.py:119 | the zoom lies in [0.5, 18], is unchanged inside that range, and is clamped to the nearer bound outside it |
| ViewTransform.ClampZoomMonotone | main.py:119 | a larger requested zoom never gives a smaller zoom |
| ViewTransform.ScreenCanvasRoundTrip | main.py:214-220 | canvas_to_screen(screen_to_canvas(p)) == p for non-zero ratio and zoom |
| ViewTransform.CanvasScreenRoundTrip | main.py:214-220 | screen_to_canvas(canvas_to_screen(p)) == p for non-zero ratio and zoom |
| ViewTransform.NormaliseRoundTrip | main.py:249-253 | denormalise undoes normalise, and normalise undoes denormalise, for a non-zero image size |
| ViewTransform.ClipRectHoldsVisible | main.py:329-332 | with positive ratio and zoom, a stored sample lies in the clip rect iff its screen position lies in the widget |
| ViewTransform.ClipRectPositive | main.py:329-332 | a widget of positive size gives a clip rect of positive size |
| EraseHistory.ErasePassKeys | main.py:239-244 | after an erase pass, an index is pending iff it was pending before or its stroke was hit |
| EraseHistory.ErasePassExtends | main.py:243-244 | a pass only appends to the pending map: entries already pending stay as they were |
| EraseHistory.ErasePassUnique | main.py:243-244 | a pass keeps each index pending at most once |
| EraseHistory.ErasePassIndexes | main.py:241-244 | every pending entry names the stroke at its index |
| EraseHistory.ErasePassIdempotent | archive.py:86-89 | repeating a pass with the same hits leaves the pending map unchanged |
| EraseHistory.Commit | archive.py:115-118 | the nested removal loop removes every stroke of every batch; on distinct strokes it equals the order-keeping filter (also main.py:275-278) |
| EraseHistory.RemoveFirstIsWithout | archive.py:117-118 | on distinct strokes, list.remove drops exactly that stroke |
| EraseHistory.RemoveBatchesIsWithout | main.py:275-278 | on distinct strokes, the commit loop keeps exactly the strokes outside the history, in order |
| EraseHistory.CommitMembers | main.py:275-278 | after a commit a stroke is listed iff it was listed and is in no batch |
| EraseHistory.CommitApart | main.py:274-277 | a commit of a distinct list leaves a distinct list of old strokes that shares none with the history |
| EraseHistory.WithoutConcat | main.py:275-278 | the commit keeps the relative order of the remaining strokes |
| EraseHistory.TrimKeepsNewest | archive.py:123 | the trimmed history is a suffix of at most 25 batches that keeps the newest batch |
| EraseHistory.TrimPush | archive.py:111-123 | pushing onto a history of up to 25 batches and trimming loses nothing below 25; at 25 the oldest batch is evicted |
| EraseHistory.Undo | archive.py:156-162 | on an empty history nothing changes; otherwise the newest batch is appended to the strokes and popped |
| EraseHistory.EraseThenUndo | archive.py:111-162 | a release of a non-empty pending map followed by an undo gives back the same set of distinct strokes, and the history as it was, less its oldest batch if the push evicted it |
| EraseHistory.ReleaseKeepsDistinct | archive.py:111-123 | a release keeps the listed and the held strokes distinct and brings in no new stroke |
| EraseHistory.UndoKeepsDistinct | archive.py:156-162 | undo keeps the listed and the held strokes distinct and loses or gains none |
| Canvas.GraphicsArea.constructor | main.py:23-73 | a new canvas has a black pen of width .5, zoom 1, and no strokes, objects, pending erasures or history |
| Canvas.GraphicsArea.PinchTriggered | main.py:112-134 | the zoom becomes the clamped product of the old zoom and the scale factor, and pinching is set |
| Canvas.GraphicsArea.EraseEvent | main.py:232-247 | the first sample only records the position; each later sample stops drawing and marks every stroke not yet pending that the segment from the previous sample crosses; strokes are never removed |
| Canvas.GraphicsArea.MarkCrossed | main.py:239-244 | the pending map becomes the old map extended, in list order, by every stroke not yet pending whose collideline accepts the line; it keeps unique keys that index the list |
| Canvas.GraphicsArea.TabletPressEvent | main.py:255-258 | one new empty stroke with the pen's colour and width is appended, and drawing starts |
| Canvas.GraphicsArea.TabletMoveEvent | main.py:260-267 | with no strokes drawing stops; while drawing, pos / zoom is appended to the last stroke only |
| Canvas.GraphicsArea.TabletReleaseEvent | main.py:269-283 | with nothing pending only the previous point is cleared; otherwise one batch of the pending strokes is pushed, every batched stroke is removed, the map is cleared, the canvas is redrawn, and the history is not trimmed |
| Canvas.GraphicsArea.CommitErased | main.py:271-280 | the pending strokes become one new batch at the end of the history, every stroke of every batch leaves the list, and the map is emptied |
| Canvas.GraphicsArea.Refresh | main.py:329-346 | the draw calls are the strokes, then the shapes, whose colliderect with the clip rect is non-False, in list order |
| Canvas.GraphicsArea.DrawStrokes | main.py:336-339 | the stroke loop yields one call per stroke whose colliderect is non-False, with the segments it returned |
| Canvas.GraphicsArea.DrawObjects | main.py:341-344 | the shape loop yields one call per shape whose colliderect is true |
| Canvas.StrokeCallsSound | main.py:336-339 | every call of the stroke loop names a listed stroke and passes as `lines` the segments of its own colliderect result |
| Canvas.StrokeCallsComplete | main.py:336-339 | every listed stroke whose colliderect result is non-False is drawn |
| Canvas.StrokesDrawnExactly | main.py:336-339 | refresh calls draw on a stroke iff it is listed and its colliderect with the clip rect is non-False, and then with `lines` = exactly the segments that colliderect accepted |
| Canvas.VisibleStrokeDrawn | main.py:329-338 | a stroke with a segment that has a point in the clip rect gets a draw call whose `lines` include that segment |
| Canvas.ObjectCallsExact | main.py:340-343 | a shape is drawn iff it is listed and its colliderect is true |
| Canvas.GraphicsArea.AddStroke | main.py:348-354 | an imported stroke with the record's points, colour, width, opacity and highlight is appended |
| Canvas.GraphicsArea.AddObject | main.py:356-363 | the shape is appended to the object list |
| Panel.PenColorFor | archive.py:49-57 | a 3-tuple gets alpha 255, a longer tuple keeps its first four channels, a shorter one leaves the colour unchanged |
| Panel.PenColorStable | archive.py:49-57 | a colour setColor has already built from a tuple of three or more channels stays fixed when set again; the initial 3-channel pen (50, 50, 50) is not such a colour and gains alpha 255 when set again |
| Panel.DrawingPanel.constructor | archive.py:15-37 | a new panel has pen (50, 50, 50) of width 3 and no strokes, history or pending erasures |
| Panel.DrawingPanel.SetColor | archive.py:49-59 | the pen colour becomes the colour setColor derives from the tuple |
| Panel.DrawingPanel.EraseAt | archive.py:80-93 | drawing stops, and every stroke not yet pending whose collidepoint accepts the scaled position is marked under its index |
| Panel.DrawingPanel.MarkHit | archive.py:86-91 | the pending map becomes the old map extended, in list order, by every stroke not yet pending whose collidepoint accepts the point; it keeps unique keys that index the list |
| Panel.DrawingPanel.Release | archive.py:111-123 | with something pending, one batch is pushed, every batched stroke is removed, the map is cleared and the history is cut to 25 batches; with nothing pending nothing changes |
| Panel.DrawingPanel.Undo | archive.py:156-162 | the panel's strokes and history become what undo specifies |

## Left out

- Qt rendering is not modelled: the `draw` methods, QPainter and QImage, `drawForeground`, `update`, and the buffer allocation of `reset_painter`. The model does not capture pixel output. `Refresh` returns the list of draw calls instead, and the stroke highlight drawn while erasing is omitted.
- The pinch recentering offset (main.py:120-131), `drawRect` placement, and mouse, touch and resize panning are not modelled. They use integer-rounded QRect centres and widget geometry. The draw rect's top-left corner and the widget size are fields that no modelled operation changes.
- Touch, gesture and tablet event dispatch (`event`, `gestureEvent`, `handleTablet`, `tabletEvent` in main.py) are not modelled. They are event plumbing. `tabletEvent` also reads `strokes[-1]` when the list can be empty.
- The press and move branches of archive.py's `tabletEvent` are not modelled. The press branch (archive.py:96-99) builds `Stroke(self.pen_color)`, but archive.py does not import `Stroke`, and the `Stroke` of classes.py also needs a width, so this branch cannot run as written. The move branch (archive.py:101-109) builds no stroke; since the list is always empty there, it only sets `drawing` to false. The canvas models both as `TabletPressEvent` and `TabletMoveEvent`.
- No path of archive.py ever adds a stroke, so in the source `DrawingPanel.strokes` is always empty. Panel.DrawingPanel.EraseAt, Release and Undo are proved for any list of strokes, including lists the program as written never builds.
- Panel.DrawingPanel.SetColor: the QColor branch (archive.py:50-51) is not modelled. It calls `getRgb` on the class rather than on the colour.
- main.py's `setColor` and `setWidth` (main.py:222-230) are not modelled. They assign `pen_color` and `pen_width` and rebuild the Qt pen. `setColor` also truncates every channel with `int(c)`. The canvas's `penColor` and `penWidth` fields are set only by the constructor.
- `ColorPicker`, saving and loading pages, reader.py, test.py and download_images.py are not modelled. They are widgets and file I/O; reader.py is not part of this model.
- `Stroke.draw` ignores its `lines` argument (classes.py:319-329 are commented out) and always draws the whole stroke. The `lines` field of a `DrawStroke` call records the argument refresh passes, not the pixels drawn.
- ViewTransform.Normalise: a zero image width or height is excluded by the requires. The source (main.py:249-251) raises ZeroDivisionError there.
- Floating point is not modelled: coordinates are exact reals. Stroke ids from `uuid4` are injected as parameters, as are the tablet ratio and the scale factor of a pinch.
- Canvas.GraphicsArea.constructor: the page height must be non-zero. The source divides by it.
