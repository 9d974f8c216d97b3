/**
 * The search node of the queue-based planner (navigation/Node.java): a grid
 * location, the waypoints between it and its predecessor, a score, the
 * diagonal searched from it, and three links (the queue's `queueNext`, the
 * path's `mapLast` and `mapNext`).
 *
 * The location is never written after construction, so it is held as a
 * `Point` value; the waypoint array is only ever replaced, never written,
 * so it is a `seq<int>`. The position walked by `traverseNode` is the
 * caller's two-element array and is updated in place.
 */
module Nodes {
  import opened Compass

  class Node {
    var queueNext: Node?
    var mapNext: Node?
    var mapLast: Node?
    const location: Point
    var waypoint: seq<int>
    const score: int
    var direction: int

    /** A copy that shares the path links, location, waypoint, direction and score, outside any queue. */
    constructor Copy(node: Node)
      ensures mapNext == node.mapNext && mapLast == node.mapLast && queueNext == null
      ensures location == node.location && waypoint == node.waypoint
      ensures direction == node.direction && score == node.score
    {
      mapNext := node.mapNext;
      mapLast := node.mapLast;
      location := node.location;
      waypoint := node.waypoint;
      direction := node.direction;
      score := node.score;
      queueNext := null;
    }

    /** A node at `coords` with no waypoint, no links and direction 0. */
    constructor Seed(coords: Point, score: int)
      ensures location == coords && waypoint == [] && this.score == score && direction == 0
      ensures queueNext == null && mapNext == null && mapLast == null
    {
      location := coords;
      waypoint := [];
      this.score := score;
      direction := 0;
      queueNext := null;
      mapNext := null;
      mapLast := null;
    }

    /** A node at `coords` reached through `waypoint`, not yet linked. */
    constructor WithWaypoint(coords: Point, waypoint: seq<int>, score: int)
      ensures location == coords && this.waypoint == waypoint && this.score == score && direction == 0
      ensures queueNext == null && mapNext == null && mapLast == null
    {
      location := coords;
      this.waypoint := waypoint;
      this.score := score;
      direction := 0;
      queueNext := null;
      mapNext := null;
      mapLast := null;
    }

    /**
     * A node that extends the path of `last`: the two nodes are linked in
     * both directions, and nothing of `last` but its `mapNext` changes.
     */
    constructor Link(coords: Point, waypoint: seq<int>, last: Node, direction: int, score: int)
      modifies last
      ensures location == coords && this.waypoint == waypoint && this.score == score
      ensures this.direction == direction && mapLast == last && mapNext == null && queueNext == null
      ensures last.mapNext == this
      ensures last.mapLast == old(last.mapLast) && last.queueNext == old(last.queueNext)
      ensures last.waypoint == old(last.waypoint) && last.direction == old(last.direction)
    {
      location := coords;
      mapLast := last;
      this.direction := direction;
      this.waypoint := waypoint;
      this.score := score;
      mapNext := null;
      queueNext := null;
      new;
      last.mapNext := this;
    }

    /**
     * The diagonal to search toward `(x, y)`: east exactly when `x` is east
     * of the location, south exactly when `y` is south of it.
     */
    function DirectionTo(x: int, y: int): (r: int)
      ensures r in {1, 3, 5, 7}
      ensures r == 1 <==> x > location.x && y <= location.y
      ensures r == 3 <==> x > location.x && y > location.y
      ensures r == 5 <==> x <= location.x && y > location.y
      ensures r == 7 <==> x <= location.x && y <= location.y
    {
      Diagonal(location, Point(x, y))
    }

    /**
     * The 16-point bearing of `b` from the location: an odd code in 1..15;
     * on the location's north-south line, 9 southward and 1 otherwise.
     */
    function Bearing(b: Point): (r: int)
      ensures r % 2 == 1 && 1 <= r <= 15
      ensures b.x == location.x ==> r == if b.y > location.y then 9 else 1
    {
      Bearing16(location, b)
    }

    /**
     * One step of walking the node's waypoints toward its location: the
     * position and waypoint become those `TraverseStep` gives, and the same
     * position array is returned.
     */
    method TraverseNode(position: array<int>) returns (r: array<int>)
      requires position.Length == 2
      modifies this, position
      ensures r == position
      ensures Traversal(waypoint, Point(position[0], position[1]))
        == TraverseStep(location, old(waypoint), Point(old(position[0]), old(position[1])))
      ensures queueNext == old(queueNext) && mapNext == old(mapNext) && mapLast == old(mapLast)
      ensures direction == old(direction)
    {
      if |waypoint| == 2 {
        if position[0] == waypoint[0] && position[1] == waypoint[1] {
          waypoint := [];
          position[0] := location.x;
          position[1] := location.y;
        } else {
          position[0] := waypoint[0];
          position[1] := waypoint[1];
        }
      } else if |waypoint| == 4 {
        if position[0] == waypoint[2] && position[1] == waypoint[3] {
          waypoint := [waypoint[0], waypoint[1]];
          position[0] := waypoint[0];
          position[1] := waypoint[1];
        } else {
          position[0] := waypoint[2];
          position[1] := waypoint[3];
        }
      } else {
        if position[0] == location.x && position[1] == location.y {
          position[0] := -1;
          position[1] := -1;
        } else {
          position[0] := location.x;
          position[1] := location.y;
        }
      }
      r := position;
    }
  }

  /** The state `traverseNode` works on: the remaining waypoints and the walker's position. */
  datatype Traversal = Traversal(waypoint: seq<int>, position: Point)

  /** The position `(-1, -1)` reports that the walk has passed the node's location. */
  const Done: Point := Point(-1, -1)

  /**
   * One step of the walk: toward the second waypoint pair, then the first,
   * then the location; a walker already at the location is sent to `Done`.
   * Waypoint lists of any other length count as empty.
   */
  function TraverseStep(location: Point, waypoint: seq<int>, position: Point): Traversal {
    if |waypoint| == 2 then
      if position == Point(waypoint[0], waypoint[1]) then Traversal([], location)
      else Traversal(waypoint, Point(waypoint[0], waypoint[1]))
    else if |waypoint| == 4 then
      if position == Point(waypoint[2], waypoint[3]) then
        Traversal([waypoint[0], waypoint[1]], Point(waypoint[0], waypoint[1]))
      else Traversal(waypoint, Point(waypoint[2], waypoint[3]))
    else if position == location then Traversal(waypoint, Done)
    else Traversal(waypoint, location)
  }

  /** `n` steps of the walk. */
  function Walk(location: Point, t: Traversal, n: nat): Traversal
    decreases n
  {
    if n == 0 then t else Walk(location, TraverseStep(location, t.waypoint, t.position), n - 1)
  }

  /**
   * From a position off the second pair, a node with two waypoint pairs is
   * walked through the second pair, the first pair and the location, in
   * that order, shedding one pair at each of the first two arrivals, and
   * then reports `Done`.
   */
  lemma {:induction false} FourWaypointWalk(location: Point, w: seq<int>, p: Point)
    requires |w| == 4 && p != Point(w[2], w[3])
    ensures Walk(location, Traversal(w, p), 1) == Traversal(w, Point(w[2], w[3]))
    ensures Walk(location, Traversal(w, p), 2) == Traversal([w[0], w[1]], Point(w[0], w[1]))
    ensures Walk(location, Traversal(w, p), 3) == Traversal([], location)
    ensures Walk(location, Traversal(w, p), 4) == Traversal([], Done)
  {
    var t1 := Traversal(w, Point(w[2], w[3]));
    var t2 := Traversal([w[0], w[1]], Point(w[0], w[1]));
    var t3 := Traversal([], location);
    assert TraverseStep(location, w, p) == t1;
    assert TraverseStep(location, t1.waypoint, t1.position) == t2;
    assert TraverseStep(location, t2.waypoint, t2.position) == t3;
    assert TraverseStep(location, t3.waypoint, t3.position) == Traversal([], Done);
  }

  /**
   * From a position off the waypoint, a node with one waypoint pair is
   * walked through that pair and then the location, and then reports `Done`.
   */
  lemma {:induction false} TwoWaypointWalk(location: Point, w: seq<int>, p: Point)
    requires |w| == 2 && p != Point(w[0], w[1])
    ensures Walk(location, Traversal(w, p), 1) == Traversal(w, Point(w[0], w[1]))
    ensures Walk(location, Traversal(w, p), 2) == Traversal([], location)
    ensures Walk(location, Traversal(w, p), 3) == Traversal([], Done)
  {
    var t1 := Traversal(w, Point(w[0], w[1]));
    var t2 := Traversal([], location);
    assert TraverseStep(location, w, p) == t1;
    assert TraverseStep(location, t1.waypoint, t1.position) == t2;
    assert TraverseStep(location, t2.waypoint, t2.position) == Traversal([], Done);
  }

  /**
   * A node without waypoints alternates between its location and `Done`:
   * the walker goes to the location, or to `Done` if it is already there.
   */
  lemma NoWaypointWalk(location: Point, w: seq<int>, p: Point)
    requires |w| != 2 && |w| != 4
    ensures TraverseStep(location, w, p).waypoint == w
    ensures TraverseStep(location, w, p).position == if p == location then Done else location
  {
  }

  /** The walk only ever sheds waypoints: the list never grows. */
  lemma {:induction false} WaypointsNeverGrow(location: Point, t: Traversal, n: nat)
    ensures |Walk(location, t, n).waypoint| <= |t.waypoint|
    decreases n
  {
    if n > 0 {
      var t1 := TraverseStep(location, t.waypoint, t.position);
      WaypointsNeverGrow(location, t1, n - 1);
    }
  }

  /** Whatever the waypoints and the position, the walker stands on the location within three steps. */
  lemma WalkReachesLocation(location: Point, w: seq<int>, p: Point)
    requires location != Done
    ensures exists k :: 1 <= k <= 3 && Walk(location, Traversal(w, p), k).position == location
  {
    var t := Traversal(w, p);
    if |w| == 4 {
      if p == Point(w[2], w[3]) {
        assert Walk(location, t, 2).position == location;
      } else {
        FourWaypointWalk(location, w, p);
        assert Walk(location, t, 3).position == location;
      }
    } else if |w| == 2 {
      if p == Point(w[0], w[1]) {
        assert Walk(location, t, 1).position == location;
      } else {
        TwoWaypointWalk(location, w, p);
        assert Walk(location, t, 2).position == location;
      }
    } else if p == location {
      assert Walk(location, t, 2).position == location;
    } else {
      assert Walk(location, t, 1).position == location;
    }
  }
}
