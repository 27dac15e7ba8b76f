/** The click-point collector: it accumulates clicks on the cue image until
    the required number is reached and then reports them. */
module CuedClickPoints {
  import opened AuthTypes

  /** The image index the click area passes with every click: the scheme uses
      one cue image. */
  const CUE_IMAGE_INDEX: int := 0

  /** The list after one click: the click is appended while fewer than
      REQUIRED_POINTS are held; afterwards clicks change nothing. */
  function PointsAfterClick(points: seq<ClickPoint>, point: ClickPoint): (r: seq<ClickPoint>)
    ensures |points| <= REQUIRED_POINTS ==> |r| == Min(|points| + 1, REQUIRED_POINTS)
    ensures |r| == |points| || |r| == |points| + 1
    ensures r[..|points|] == points
    ensures |r| > |points| ==> r[|points|] == point
  {
    if |points| < REQUIRED_POINTS then points + [point] else points
  }

  /** The list after the clicks `clicks`, in order. */
  function PointsAfterClicks(points: seq<ClickPoint>, clicks: seq<ClickPoint>): seq<ClickPoint>
    decreases |clicks|
  {
    if clicks == [] then points
    else PointsAfterClicks(PointsAfterClick(points, clicks[0]), clicks[1..])
  }

  /** From any list of at most REQUIRED_POINTS points, a run of clicks keeps
      the earlier points and adds the first clicks, in click order, up to
      REQUIRED_POINTS in all. */
  lemma {:induction false} ClicksCollectedInOrder(points: seq<ClickPoint>, clicks: seq<ClickPoint>)
    requires |points| <= REQUIRED_POINTS
    ensures PointsAfterClicks(points, clicks) ==
      (points + clicks)[..Min(|points| + |clicks|, REQUIRED_POINTS)]
    decreases |clicks|
  {
    if clicks != [] {
      var next := PointsAfterClick(points, clicks[0]);
      ClicksCollectedInOrder(next, clicks[1..]);
      if |points| < REQUIRED_POINTS {
        assert next + clicks[1..] == points + clicks;
      } else {
        assert (points + clicks)[..REQUIRED_POINTS] == points;
        assert (next + clicks[1..])[..REQUIRED_POINTS] == points;
      }
    } else {
      assert points + clicks == points;
    }
  }

  /** Once the list is complete, no run of clicks changes it. */
  lemma {:induction false} CompleteListIgnoresClicks(points: seq<ClickPoint>, clicks: seq<ClickPoint>)
    requires |points| == REQUIRED_POINTS
    ensures PointsAfterClicks(points, clicks) == points
    decreases |clicks|
  {
    if clicks != [] {
      CompleteListIgnoresClicks(points, clicks[1..]);
    }
  }

  /** Every point lies on the cue image. */
  predicate OnCueImage(points: seq<ClickPoint>) {
    forall k :: 0 <= k < |points| ==> points[k].imageIndex == CUE_IMAGE_INDEX
  }

  /** The `clickPoints` state of the component. */
  class ClickPointCollector {
    var clickPoints: seq<ClickPoint>

    /** Never more than REQUIRED_POINTS points. */
    ghost predicate Valid()
      reads this
    {
      |clickPoints| <= REQUIRED_POINTS
    }

    constructor ()
      ensures Valid() && clickPoints == []
    {
      clickPoints := [];
    }

    /** `handlePointClick`: append the click while the list is short; the
        returned value is the argument of `onComplete`, present exactly when
        this click completed the list. */
    method HandlePointClick(point: ClickPoint) returns (completed: Option<seq<ClickPoint>>)
      requires Valid()
      modifies this
      ensures Valid()
      ensures clickPoints == PointsAfterClick(old(clickPoints), point)
      ensures |old(clickPoints)| < REQUIRED_POINTS ==> clickPoints == old(clickPoints) + [point]
      ensures |old(clickPoints)| >= REQUIRED_POINTS ==> clickPoints == old(clickPoints)
      ensures completed.Some? <==> |old(clickPoints)| < REQUIRED_POINTS && |clickPoints| == REQUIRED_POINTS
      ensures completed.Some? ==> completed.value == clickPoints
    {
      completed := None;
      if |clickPoints| < REQUIRED_POINTS {
        var newPoints := clickPoints + [point];
        clickPoints := newPoints;
        if |newPoints| == REQUIRED_POINTS {
          completed := Some(newPoints);
        }
      }
    }

    /** A click at (`x`, `y`) percent on the cue image: the click area ignores
        it once the list is full and otherwise hands on a point tagged with
        the cue image index. */
    method ClickOnCueImage(x: real, y: real) returns (completed: Option<seq<ClickPoint>>)
      requires Valid()
      modifies this
      ensures Valid()
      ensures clickPoints == PointsAfterClick(old(clickPoints), ClickPoint(x, y, CUE_IMAGE_INDEX))
      ensures completed.Some? <==> |old(clickPoints)| < REQUIRED_POINTS && |clickPoints| == REQUIRED_POINTS
      ensures completed.Some? ==> completed.value == clickPoints
      ensures old(OnCueImage(clickPoints)) ==> OnCueImage(clickPoints)
    {
      if |clickPoints| >= REQUIRED_POINTS {
        return None;
      }
      completed := HandlePointClick(ClickPoint(x, y, CUE_IMAGE_INDEX));
    }

    /** `handleReset`: empty the list. */
    method HandleReset()
      modifies this
      ensures Valid() && clickPoints == []
    {
      clickPoints := [];
    }
  }
}
