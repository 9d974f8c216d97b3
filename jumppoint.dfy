/**
 * The jump point of the refactored planner (Refactor/JumpPoint.java): a
 * location held in a two-element array that `move` updates in place, the
 * waypoints between it and its predecessor, a score, the distance travelled,
 * the diagonal searched from it, and the two path links.
 *
 * The copy constructor shares the location array with the original, as the
 * source does. The waypoint array is never written, so it is a `seq<int>`.
 */
module JumpPoints {
  import opened Compass

  class JumpPoint {
    var mapNext: JumpPoint?
    var mapLast: JumpPoint?
    var score: int
    var distance: int
    var direction: int
    var location: array<int>
    var waypoint: seq<int>

    /** The location as a point. */
    function At(): Point
      reads this, location
      requires location.Length == 2
    {
      Point(location[0], location[1])
    }

    /**
     * A copy sharing the links, the location array, the waypoint, the
     * direction and the score; the distance is not copied and starts at 0.
     */
    constructor Copy(jp: JumpPoint)
      ensures mapNext == jp.mapNext && mapLast == jp.mapLast
      ensures location == jp.location && waypoint == jp.waypoint
      ensures direction == jp.direction && score == jp.score && distance == 0
    {
      mapNext := jp.mapNext;
      mapLast := jp.mapLast;
      location := jp.location;
      waypoint := jp.waypoint;
      direction := jp.direction;
      score := jp.score;
      distance := 0;
    }

    /**
     * A jump point at `lastCoords` whose predecessor is a new, unlinked jump
     * point at a copy of `jp`'s coordinates; the link is backward only (the
     * predecessor's `mapNext` stays null). The waypoint is `jp`'s.
     */
    constructor Trailing(lastCoords: Point, jp: JumpPoint)
      requires jp.location.Length == 2
      ensures fresh(location) && location.Length == 2 && At() == lastCoords
      ensures mapLast != null && fresh(mapLast) && fresh(mapLast.location)
      ensures mapLast.location.Length == 2 && mapLast.At() == jp.At()
      ensures mapLast.waypoint == [] && mapLast.mapLast == null && mapLast.mapNext == null
      ensures mapLast.score == 0 && mapLast.distance == 0 && mapLast.direction == 0
      ensures waypoint == jp.waypoint && mapNext == null
      ensures score == 0 && distance == 0 && direction == 0
    {
      location := new int[] [lastCoords.x, lastCoords.y];
      mapLast := new JumpPoint.FromCoords(jp.At());
      waypoint := jp.waypoint;
      mapNext := null;
      score := 0;
      distance := 0;
      direction := 0;
    }

    /** A jump point at a fresh copy of `coords`, with no waypoint, links or score. */
    constructor FromCoords(coords: Point)
      ensures fresh(location) && location.Length == 2 && At() == coords
      ensures waypoint == [] && mapNext == null && mapLast == null
      ensures score == 0 && distance == 0 && direction == 0
    {
      location := new int[] [coords.x, coords.y];
      waypoint := [];
      mapNext := null;
      mapLast := null;
      score := 0;
      distance := 0;
      direction := 0;
    }

    /** A start point: the heuristic `s` is both its score and its distance. */
    constructor Scored(coords: Point, s: int)
      ensures fresh(location) && location.Length == 2 && At() == coords
      ensures waypoint == [] && mapNext == null && mapLast == null
      ensures score == s && distance == s && direction == 0
    {
      location := new int[] [coords.x, coords.y];
      waypoint := [];
      score := s;
      distance := s;
      mapNext := null;
      mapLast := null;
      direction := 0;
    }

    /** A jump point at `coords` reached through `way`, scored `s`, not yet linked. */
    constructor WithWaypoint(coords: Point, way: seq<int>, s: int)
      ensures fresh(location) && location.Length == 2 && At() == coords
      ensures waypoint == way && mapNext == null && mapLast == null
      ensures score == s && distance == 0 && direction == 0
    {
      location := new int[] [coords.x, coords.y];
      waypoint := way;
      score := s;
      distance := 0;
      mapNext := null;
      mapLast := null;
      direction := 0;
    }

    /**
     * A jump point that extends the path of `last`: linked to it in both
     * directions, with the direction, distance and score given; nothing of
     * `last` but its `mapNext` changes.
     */
    constructor Link(coords: Point, w: seq<int>, last: JumpPoint, d: int, dist: int, s: int)
      modifies last
      ensures fresh(location) && location.Length == 2 && At() == coords
      ensures mapLast == last && last.mapNext == this && mapNext == null
      ensures direction == d && distance == dist && score == s && waypoint == w
      ensures last.mapLast == old(last.mapLast) && last.location == old(last.location)
      ensures last.score == old(last.score) && last.distance == old(last.distance)
      ensures last.direction == old(last.direction) && last.waypoint == old(last.waypoint)
    {
      location := new int[] [coords.x, coords.y];
      mapLast := last;
      direction := d;
      waypoint := w;
      score := s;
      distance := dist;
      mapNext := null;
      new;
      last.mapNext := this;
    }

    /**
     * One grid step in compass direction `d`, made in place on the location
     * array; a code outside 0..7 is refused and moves nothing.
     */
    method Move(d: int) returns (moved: bool)
      requires location.Length == 2
      modifies location
      ensures moved <==> 0 <= d < 8
      ensures At() == Step(old(At()), d)
    {
      moved := true;
      match d
      case 0 =>
        location[1] := location[1] - 1;
      case 1 =>
        location[0] := location[0] + 1;
        location[1] := location[1] - 1;
      case 2 =>
        location[0] := location[0] + 1;
      case 3 =>
        location[0] := location[0] + 1;
        location[1] := location[1] + 1;
      case 4 =>
        location[1] := location[1] + 1;
      case 5 =>
        location[0] := location[0] - 1;
        location[1] := location[1] + 1;
      case 6 =>
        location[0] := location[0] - 1;
      case 7 =>
        location[0] := location[0] - 1;
        location[1] := location[1] - 1;
      case _ =>
        moved := false;
    }

    /**
     * The diagonal to search toward `(x, y)`: east exactly when `x` is east
     * of the location, south exactly when `y` is south of it.
     */
    function DirectionTo(x: int, y: int): (r: int)
      reads this, location
      requires location.Length == 2
      ensures r in {1, 3, 5, 7}
      ensures r == 1 <==> x > location[0] && y <= location[1]
      ensures r == 3 <==> x > location[0] && y > location[1]
      ensures r == 5 <==> x <= location[0] && y > location[1]
      ensures r == 7 <==> x <= location[0] && y <= location[1]
    {
      Diagonal(At(), Point(x, y))
    }

    /**
     * The 16-point bearing of `b` from the location: an odd code in 1..15;
     * on the location's north-south line, 9 southward and 1 otherwise.
     */
    function Bearing(b: Point): (r: int)
      reads this, location
      requires location.Length == 2
      ensures r % 2 == 1 && 1 <= r <= 15
      ensures b.x == location[0] ==> r == if b.y > location[1] then 9 else 1
    {
      Bearing16(At(), b)
    }

    /** Whether `pt` is a jump point at the same coordinates. */
    predicate Equals(pt: JumpPoint?)
      reads this, location, pt, if pt == null then null else pt.location
      requires location.Length == 2 && (pt != null ==> pt.location.Length == 2)
    {
      pt != null && pt.location[0] == location[0] && pt.location[1] == location[1]
    }

    /** Whether `pt` holds the jump point's coordinates. */
    predicate EqualsCoords(pt: Point)
      reads this, location
      requires location.Length == 2
    {
      pt.x == location[0] && pt.y == location[1]
    }
  }

  /**
   * `equals` compares locations only: it is an equivalence on jump points,
   * never holds of null, and agrees with comparing against the coordinates.
   */
  lemma EqualsIsLocationEquality(a: JumpPoint, b: JumpPoint, c: JumpPoint)
    requires a.location.Length == 2 && b.location.Length == 2 && c.location.Length == 2
    ensures a.Equals(a) && !a.Equals(null)
    ensures a.Equals(b) <==> b.Equals(a)
    ensures a.Equals(b) && b.Equals(c) ==> a.Equals(c)
    ensures a.Equals(b) <==> a.EqualsCoords(b.At())
    ensures a.Equals(b) <==> a.At() == b.At()
  {
  }
}
