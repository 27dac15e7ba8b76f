/** The geometry matcher: an attempted list of click points against the stored
    one, position by position, within the tolerance radius. */
module Validation {
  import opened AuthTypes

  /** Square of the Euclidean distance between two clicks. Comparing it with
      the squared radius replaces the square root of the source. */
  function SquaredDistance(a: ClickPoint, b: ClickPoint): (d: real)
    ensures d >= 0.0
  {
    (a.x - b.x) * (a.x - b.x) + (a.y - b.y) * (a.y - b.y)
  }

  /** Position i of the attempt against position i of the stored credential:
      the same image and a distance of at most the tolerance radius. */
  predicate PointMatches(attempted: ClickPoint, stored: ClickPoint) {
    attempted.imageIndex == stored.imageIndex &&
    SquaredDistance(attempted, stored) <= TOLERANCE_RADIUS * TOLERANCE_RADIUS
  }

  /** Equal lengths and every position within tolerance of the same position
      of the stored list; there is no reordering and no alignment search. */
  predicate ClickPointsMatch(attempted: seq<ClickPoint>, stored: seq<ClickPoint>) {
    |attempted| == |stored| &&
    forall i :: 0 <= i < |attempted| ==> PointMatches(attempted[i], stored[i])
  }

  /** `validateClickPoints`: a length check, then one pass that stops at the
      first position with another image or a distance above the radius. */
  method ValidateClickPoints(attemptedPoints: seq<ClickPoint>, storedPoints: seq<ClickPoint>)
    returns (valid: bool)
    ensures valid <==> ClickPointsMatch(attemptedPoints, storedPoints)
    ensures |attemptedPoints| != |storedPoints| ==> !valid
  {
    if |attemptedPoints| != |storedPoints| {
      return false;
    }
    for i := 0 to |attemptedPoints|
      invariant forall k :: 0 <= k < i ==> PointMatches(attemptedPoints[k], storedPoints[k])
    {
      var attempted := attemptedPoints[i];
      var stored := storedPoints[i];
      if attempted.imageIndex != stored.imageIndex {
        return false;
      }
      if SquaredDistance(attempted, stored) > TOLERANCE_RADIUS * TOLERANCE_RADIUS {
        return false;
      }
    }
    return true;
  }

  /** The source compares the distance `d = sqrt(sq)` with the radius; for a
      non-negative `d` with `d * d == sq` that test agrees with comparing `sq`
      with the squared radius. */
  lemma DistanceTestAgreesWithSquare(d: real, sq: real)
    requires d >= 0.0 && d * d == sq
    ensures d > TOLERANCE_RADIUS <==> sq > TOLERANCE_RADIUS * TOLERANCE_RADIUS
  {
    // sq - r * r factors as (d - r) * (d + r), and d + r is positive.
    var below, above := d - TOLERANCE_RADIUS, d + TOLERANCE_RADIUS;
    assert sq - TOLERANCE_RADIUS * TOLERANCE_RADIUS == below * above;
    PositiveFactorKeepsSign(below, above);
    assert below > 0.0 <==> sq - TOLERANCE_RADIUS * TOLERANCE_RADIUS > 0.0;
  }

  /** Multiplying by a positive number keeps the sign. */
  lemma PositiveFactorKeepsSign(x: real, y: real)
    requires y > 0.0
    ensures x > 0.0 <==> x * y > 0.0
  {
  }

  /** Lists of different lengths never match. */
  lemma LengthMismatchRejected(attempted: seq<ClickPoint>, stored: seq<ClickPoint>)
    requires |attempted| != |stored|
    ensures !ClickPointsMatch(attempted, stored)
  {
  }

  /** A position on another image fails the whole match, whatever the coordinates. */
  lemma ImageIndexMismatchRejected(attempted: seq<ClickPoint>, stored: seq<ClickPoint>, i: nat)
    requires i < |attempted| && i < |stored|
    requires attempted[i].imageIndex != stored[i].imageIndex
    ensures !ClickPointsMatch(attempted, stored)
  {
  }

  /** A position farther than the radius fails the whole match. */
  lemma DistanceExceededRejected(attempted: seq<ClickPoint>, stored: seq<ClickPoint>, i: nat)
    requires i < |attempted| && i < |stored|
    requires SquaredDistance(attempted[i], stored[i]) > TOLERANCE_RADIUS * TOLERANCE_RADIUS
    ensures !ClickPointsMatch(attempted, stored)
  {
  }

  /** A click at distance exactly the radius (a 3-4-5 offset) is accepted,
      because the rejection test is a strict `>`. */
  lemma BoundaryDistanceAccepted(stored: ClickPoint)
    ensures PointMatches(ClickPoint(stored.x + 3.0, stored.y + 4.0, stored.imageIndex), stored)
    ensures ClickPointsMatch([ClickPoint(stored.x + 3.0, stored.y + 4.0, stored.imageIndex)], [stored])
  {
    var a := ClickPoint(stored.x + 3.0, stored.y + 4.0, stored.imageIndex);
    assert a.x - stored.x == 3.0 && a.y - stored.y == 4.0;
    assert SquaredDistance(a, stored) == 25.0;
  }

  /** The squared distance does not depend on the order of its arguments. */
  lemma SquaredDistanceSymmetric(a: ClickPoint, b: ClickPoint)
    ensures SquaredDistance(a, b) == SquaredDistance(b, a)
  {
    assert (a.x - b.x) * (a.x - b.x) == (b.x - a.x) * (b.x - a.x);
    assert (a.y - b.y) * (a.y - b.y) == (b.y - a.y) * (b.y - a.y);
  }

  /** Swapping attempt and stored list does not change the verdict. */
  lemma MatchSymmetric(attempted: seq<ClickPoint>, stored: seq<ClickPoint>)
    ensures ClickPointsMatch(attempted, stored) == ClickPointsMatch(stored, attempted)
  {
    if |attempted| == |stored| {
      forall i | 0 <= i < |attempted|
        ensures PointMatches(attempted[i], stored[i]) == PointMatches(stored[i], attempted[i])
      {
        SquaredDistanceSymmetric(attempted[i], stored[i]);
      }
    }
  }

  /** Every list matches itself, the empty list included. */
  lemma MatchReflexive(points: seq<ClickPoint>)
    ensures ClickPointsMatch(points, points)
    ensures ClickPointsMatch([], [])
  {
  }

  /** A stored five-point credential on the cue image. */
  function ScenarioStored(): seq<ClickPoint> {
    [ClickPoint(10.0, 10.0, 0), ClickPoint(20.0, 20.0, 0), ClickPoint(30.0, 30.0, 0),
     ClickPoint(40.0, 40.0, 0), ClickPoint(50.0, 50.0, 0)]
  }

  /** Every attempted click a little off its stored click: accepted. */
  lemma ScenarioCloseAttemptAccepted()
    ensures ClickPointsMatch(
      [ClickPoint(12.0, 9.0, 0), ClickPoint(21.0, 22.0, 0), ClickPoint(29.0, 31.0, 0),
       ClickPoint(41.0, 39.0, 0), ClickPoint(52.0, 51.0, 0)],
      ScenarioStored())
  {
  }

  /** The third click 10 units away from its stored click: rejected. */
  lemma ScenarioFarPointRejected()
    ensures !ClickPointsMatch(
      [ClickPoint(12.0, 9.0, 0), ClickPoint(21.0, 22.0, 0), ClickPoint(30.0, 40.0, 0),
       ClickPoint(41.0, 39.0, 0), ClickPoint(52.0, 51.0, 0)],
      ScenarioStored())
  {
    var a := ClickPoint(30.0, 40.0, 0);
    assert SquaredDistance(a, ScenarioStored()[2]) == 100.0;
  }
}
