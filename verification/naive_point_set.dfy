/**
 * The reference point set: the points in a list, and a nearest-point query
 * that scans them all.  The 2-d tree's answers are compared against it.
 */
module NaivePoints {
  import opened KDPoints
  import opened KDTrees

  /**
   * The position of the first point of least squared distance to `(x, y)`:
   * no point is closer, and every point before it is strictly farther.
   */
  function EarliestNearest(s: seq<Point>, x: real, y: real): (i: nat)
    requires |s| > 0
    ensures i < |s|
    ensures forall j :: 0 <= j < |s| ==> DistanceSquaredTo(s[i], x, y) <= DistanceSquaredTo(s[j], x, y)
    ensures forall j :: 0 <= j < i ==> DistanceSquaredTo(s[j], x, y) > DistanceSquaredTo(s[i], x, y)
    decreases |s|
  {
    if |s| == 1 then 0
    else
      var init := s[..|s| - 1];
      assert forall j :: 0 <= j < |init| ==> init[j] == s[j];
      var j := EarliestNearest(init, x, y);
      if DistanceSquaredTo(s[|s| - 1], x, y) < DistanceSquaredTo(s[j], x, y) then |s| - 1 else j
  }

  /** The first nearest position is the only position with both of its properties. */
  lemma EarliestNearestUnique(s: seq<Point>, x: real, y: real, i: nat)
    requires i < |s|
    requires forall j :: 0 <= j < |s| ==> DistanceSquaredTo(s[i], x, y) <= DistanceSquaredTo(s[j], x, y)
    requires forall j :: 0 <= j < i ==> DistanceSquaredTo(s[j], x, y) > DistanceSquaredTo(s[i], x, y)
    ensures i == EarliestNearest(s, x, y)
  {
    var e := EarliestNearest(s, x, y);
    assert !(e < i) && !(i < e);
  }

  /** One step of the scan: the next point takes over only when strictly closer. */
  lemma ScanStep(s: seq<Point>, x: real, y: real, i: nat)
    requires 0 < i < |s|
    ensures EarliestNearest(s[..i + 1], x, y) ==
      var best := EarliestNearest(s[..i], x, y);
      if DistanceSquaredTo(s[i], x, y) < DistanceSquaredTo(s[best], x, y) then i else best
  {
    var prefix := s[..i + 1];
    assert prefix[..i] == s[..i] && prefix[i] == s[i];
  }

  /**
   * A point at distance 0 that is strictly closer than every earlier point
   * is the first nearest point of the whole sequence: stopping there
   * changes nothing.
   */
  lemma ScanStopsAtZero(s: seq<Point>, x: real, y: real, i: nat)
    requires 0 < i < |s|
    requires DistanceSquaredTo(s[i], x, y) == 0.0
    requires DistanceSquaredTo(s[i], x, y) < DistanceSquaredTo(s[EarliestNearest(s[..i], x, y)], x, y)
    ensures i == EarliestNearest(s, x, y)
  {
    assert forall j :: 0 <= j < i ==> s[..i][j] == s[j];
    EarliestNearestUnique(s, x, y, i);
  }

  class NaivePointSet {
    var nps: seq<Point>

    /** Stores its own copy of `points`. */
    constructor (points: seq<Point>)
      ensures nps == points
    {
      nps := points;
    }

    /**
     * `nearest`: scans from the first point, moves to a point only when it is
     * strictly closer, and stops early at distance 0.  The source reads the
     * first point unconditionally, so the set must not be empty.
     */
    method Nearest(x: real, y: real) returns (result: Point)
      requires |nps| > 0
      ensures result == nps[EarliestNearest(nps, x, y)]
    {
      result := nps[0];
      var minDis := DistanceSquaredTo(nps[0], x, y);
      ghost var best := 0;
      var i := 1;
      while i < |nps|
        invariant 1 <= i <= |nps|
        invariant best == EarliestNearest(nps[..i], x, y)
        invariant result == nps[best] && minDis == DistanceSquaredTo(result, x, y)
      {
        ScanStep(nps, x, y, i);
        var dis := DistanceSquaredTo(nps[i], x, y);
        if dis < minDis {
          minDis := dis;
          result := nps[i];
          best := i;
          if minDis == 0.0 {
            ScanStopsAtZero(nps, x, y, i);
            break;
          }
        }
        i := i + 1;
      }
      if i == |nps| {
        assert nps[..i] == nps;
      }
    }
  }

  /** No point of `s` other than `p` lies at the same squared distance as `p`. */
  ghost predicate NoTie(s: seq<Point>, p: Point, x: real, y: real)
  {
    forall j :: 0 <= j < |s| && DistanceSquaredTo(s[j], x, y) == DistanceSquaredTo(p, x, y) ==> s[j] == p
  }

  /**
   * The 2-d tree built from `points` and the linear scan over them answer
   * points at the same squared distance from the query, and the same point
   * when no other point shares that distance.
   */
  lemma NearestAgrees(points: seq<Point>, x: real, y: real)
    requires |points| > 0
    ensures DistanceSquaredTo(NearestOf(FromPoints(points), x, y), x, y)
      == DistanceSquaredTo(points[EarliestNearest(points, x, y)], x, y)
    ensures NoTie(points, points[EarliestNearest(points, x, y)], x, y) ==>
      NearestOf(FromPoints(points), x, y) == points[EarliestNearest(points, x, y)]
  {
    var t := FromPoints(points);
    FromPointsValid(points);
    NearestIsNearest(t, x, y);
    var p := NearestOf(t, x, y);
    var e := EarliestNearest(points, x, y);
    assert points[e] in multiset(points);
    assert p in multiset(points);
    var k :| 0 <= k < |points| && points[k] == p;
    var dp, de := DistanceSquaredTo(p, x, y), DistanceSquaredTo(points[e], x, y);
    assert dp <= de;
    assert de <= DistanceSquaredTo(points[k], x, y);
    assert dp == de;
  }
}
