/**
 * The earlier drawing panel of archive.py (DrawingPanel): pen colour
 * handling, erasing by point, the release that commits the pending strokes
 * into a history of at most NUM_UNDOS batches, and undo.
 */
module Panel {
  import opened Geometry
  import opened Strokes
  import opened EraseHistory

  /**
   * The colour setColor stores for a tuple c: an RGB triple gets an opaque
   * alpha of 255, a longer tuple is cut to its first four channels, and a
   * shorter one leaves the current colour in place.
   */
  function PenColorFor(current: seq<int>, c: seq<int>): (r: seq<int>)
    ensures |c| < 3 ==> r == current
    ensures |c| >= 3 ==> |r| == 4 && r[..3] == c[..3]
    ensures |c| == 3 ==> r[3] == 255
    ensures |c| > 3 ==> r[3] == c[3]
  {
    if |c| == 3 then c + [255]
    else if |c| > 3 then c[..4]
    else current
  }

  /**
   * A colour setColor has built from a tuple of three or more channels stays
   * fixed when set again. The initial 3-channel pen is not such a colour: set
   * again, it gains alpha 255.
   */
  lemma PenColorStable(current: seq<int>, c: seq<int>)
    requires |c| >= 3
    ensures PenColorFor(PenColorFor(current, c), PenColorFor(current, c)) == PenColorFor(current, c)
  {
  }

  /** event.pos() * ratio. */
  function ScaledBy(p: Point, ratio: real): Point {
    Point(p.x * ratio, p.y * ratio)
  }

  class DrawingPanel {
    var strokes: seq<Stroke>
    var previousPoint: Option<Point>
    var drawing: bool
    /** erased_strokes: the committed batches, oldest first. */
    var erasedStrokes: seq<seq<Stroke>>
    /** erase_action: the pending erase map, index -> stroke, in insertion order. */
    var eraseAction: seq<Entry<Stroke>>
    var penColor: seq<int>
    var penWidth: real

    /**
     * The strokes listed and the strokes held by the history are distinct
     * objects with their boxes in step with their points; the pending map
     * indexes the list; the history holds at most NUM_UNDOS batches.
     */
    ghost predicate Valid()
      reads this, strokes, Flatten(erasedStrokes)
    {
      && Distinct(strokes + Flatten(erasedStrokes))
      && (forall s :: s in strokes + Flatten(erasedStrokes) ==> s.Valid())
      && UniqueKeys(eraseAction) && Indexes(eraseAction, strokes)
      && |erasedStrokes| <= NumUndos
    }

    /** DrawingPanel.__init__: a grey pen of width 3, nothing drawn, nothing erased. */
    constructor ()
      ensures Valid()
      ensures strokes == [] && erasedStrokes == [] && eraseAction == []
      ensures previousPoint == None && !drawing
      ensures penColor == [50, 50, 50] && penWidth == 3.0
    {
      strokes := [];
      previousPoint := None;
      drawing := false;
      erasedStrokes := [];
      eraseAction := [];
      penColor := [50, 50, 50];
      penWidth := 3.0;
    }

    /** setColor with a tuple. */
    method SetColor(c: seq<int>)
      requires Valid()
      modifies this`penColor
      ensures Valid()
      ensures penColor == PenColorFor(old(penColor), c)
    {
      if |c| == 3 {
        penColor := c + [255];
      } else if |c| > 3 {
        penColor := c[..4];
      }
    }

    /**
     * The erase branch of tabletEvent: drawing stops and every stroke not yet
     * pending whose collidepoint accepts the scaled position is marked under
     * its index.
     */
    method EraseAt(pos: Point, ratio: real)
      requires Valid()
      modifies this`eraseAction, this`drawing
      ensures Valid() && !drawing
      ensures eraseAction == ErasePass(old(eraseAction), strokes, PointHits(strokes, ScaledBy(pos, ratio)))
    {
      drawing := false;
      MarkHit(ScaledBy(pos, ratio));
    }

    /** The marking loop of the erase branch: every stroke collidepoint accepts is marked. */
    method MarkHit(p: Point)
      requires Valid()
      modifies this`eraseAction
      ensures Valid()
      ensures eraseAction == ErasePass(old(eraseAction), strokes, PointHits(strokes, p))
    {
      ghost var m0 := eraseAction;
      ghost var hits := PointHits(strokes, p);
      for i := 0 to |strokes|
        invariant eraseAction == ErasePass(m0, strokes[..i], hits[..i])
      {
        var hit := strokes[i].CollidePoint(p);
        if hit {
          eraseAction := Mark(eraseAction, i, strokes[i]);
        }
        assert strokes[..i + 1][..i] == strokes[..i];
        assert hits[..i + 1][..i] == hits[..i];
      }
      assert strokes[..|strokes|] == strokes;
      assert hits[..|strokes|] == hits;
      ErasePassUnique(m0, strokes, hits);
      ErasePassIndexes(m0, strokes, hits);
      forall s | s in strokes + Flatten(erasedStrokes)
        ensures s.Valid()
      {
        FlattenMembers(erasedStrokes, s);
        assert old(s.Valid());
      }
    }

    /**
     * The release branch of tabletEvent: a non-empty pending map is pushed as
     * one batch, every stroke of every batch is removed from the list, the
     * map is cleared and the history is cut to its newest NUM_UNDOS batches.
     */
    method Release()
      requires Valid()
      modifies this`strokes, this`erasedStrokes, this`eraseAction
      ensures Valid()
      ensures |old(eraseAction)| == 0 ==>
        strokes == old(strokes) && erasedStrokes == old(erasedStrokes) && eraseAction == old(eraseAction)
      ensures |old(eraseAction)| > 0 ==>
        && strokes == RemoveBatches(old(strokes), old(erasedStrokes) + [Values(old(eraseAction))])
        && erasedStrokes == Trim(old(erasedStrokes) + [Values(old(eraseAction))])
        && eraseAction == []
    {
      if |eraseAction| > 0 {
        ghost var s0, h0, m0 := strokes, erasedStrokes, eraseAction;
        var h1 := erasedStrokes + [Values(eraseAction)];
        var s1 := Commit(strokes, h1);
        ReleaseKeepsDistinct(s0, m0, h0);
        ghost var all := s1 + Flatten(Trim(h1));
        assert forall s :: s in all ==> s.Valid() by {
          forall s | s in all
            ensures s.Valid()
          {
            assert s in s0 + Flatten(h0);
            if s !in s0 {
              assert s in Flatten(h0);
              FlattenMembers<Stroke>(h0, s);
              var i :| 0 <= i < |h0| && s in h0[i];
              assert s in old(erasedStrokes)[i];
            }
            assert old(s.Valid());
          }
        }
        strokes, erasedStrokes, eraseAction := s1, Trim(h1), [];
        assert strokes + Flatten(erasedStrokes) == all;
      }
    }

    /**
     * Window.undo, on the panel's state: the newest batch is appended back
     * to the list and popped from the history.
     */
    method Undo()
      requires Valid()
      modifies this`strokes, this`erasedStrokes
      ensures Valid()
      ensures (strokes, erasedStrokes) == EraseHistory.Undo(old(strokes), old(erasedStrokes))
    {
      ghost var s0, h0 := strokes, erasedStrokes;
      if |erasedStrokes| > 0 {
        var batch := erasedStrokes[|erasedStrokes| - 1];
        var restored := strokes;
        for k := 0 to |batch|
          invariant restored == s0 + batch[..k]
        {
          restored := restored + [batch[k]];
          assert batch[..k + 1] == batch[..k] + [batch[k]];
        }
        assert batch[..|batch|] == batch;
        strokes := restored;
        erasedStrokes := erasedStrokes[..|erasedStrokes| - 1];
        UndoKeepsDistinct(s0, h0);
        forall s | s in strokes + Flatten(erasedStrokes)
          ensures s.Valid()
        {
          assert s in Elems(strokes + Flatten(erasedStrokes));
        }
        forall k | 0 <= k < |eraseAction|
          ensures eraseAction[k].index < |strokes| && strokes[eraseAction[k].index] == eraseAction[k].item
        {
          assert strokes[eraseAction[k].index] == s0[eraseAction[k].index];
        }
      }
    }
  }
}
