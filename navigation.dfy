/**
 * The grid-step helpers of the heap-based planner (Navigation.java) and the
 * arithmetic of one step of its north-east diagonal scan.
 *
 * The bit-grid probes the scan consults (distance to the next obstacle or
 * the next void along a row of `mapX` or a column of `mapY`) are not part of
 * this model: they enter as functions passed in a `Probes` value, of which
 * nothing is known but that they return a non-negative count. Each probe
 * takes its two coordinates in the order the source passes them.
 */
module Planner {
  import opened Compass

  /**
   * The step toward `(x, y)` as `directionTo` computes it: -1 when already
   * there, otherwise a compass code in 0..7.
   *
   * As written, a target due south yields 2 (east) and a target due east
   * yields 4 (south); `IntendedDirectionTo` is the corrected version.
   */
  function DirectionTo(location: Point, x: int, y: int): (r: int)
    ensures r == -1 <==> location == Point(x, y)
    ensures r != -1 ==> 0 <= r < 8
  {
    var dx := location.x - x;
    var dy := location.y - y;
    if dx <= 0 && dy <= 0 then
      if dx == 0 then (if dy == 0 then -1 else 2)
      else if dy == 0 then 4
      else 3
    else if dx <= 0 then (if dx == 0 then 0 else 1)
    else if dy <= 0 then (if dy == 0 then 6 else 5)
    else 7
  }

  /**
   * When the target differs in both coordinates, the step `directionTo`
   * picks closes the gap in each coordinate by exactly one.
   */
  lemma DiagonalStepClosesBothGaps(location: Point, x: int, y: int)
    requires location.x != x && location.y != y
    ensures var n := Step(location, DirectionTo(location, x, y));
      Abs(n.x - x) == Abs(location.x - x) - 1 && Abs(n.y - y) == Abs(location.y - y) - 1
  {
  }

  /**
   * As written, a target due south or due east is never approached: the
   * step taken is perpendicular to the way to the target, and the
   * Chebyshev distance stays the same.
   */
  lemma AxisStepStalls(location: Point, target: Point)
    requires (target.x == location.x && target.y > location.y)
          || (target.y == location.y && target.x > location.x)
    ensures Chebyshev(Step(location, DirectionTo(location, target.x, target.y)), target)
         == Chebyshev(location, target)
  {
  }

  /** The input that shows it: from (0, 0), the goal (0, 5) due south gets an eastward step. */
  lemma DueSouthGetsEast()
    ensures DirectionTo(Point(0, 0), 0, 5) == 2
    ensures Step(Point(0, 0), 2) == Point(1, 0)
    ensures Chebyshev(Point(1, 0), Point(0, 5)) == Chebyshev(Point(0, 0), Point(0, 5)) == 5
  {
  }

  /** `directionTo` with the two axis codes the right way round: due south is 4, due east is 2. */
  function IntendedDirectionTo(location: Point, x: int, y: int): (r: int)
    ensures r == -1 <==> location == Point(x, y)
    ensures r != -1 ==> 0 <= r < 8
  {
    var dx := location.x - x;
    var dy := location.y - y;
    if dx <= 0 && dy <= 0 then
      if dx == 0 then (if dy == 0 then -1 else 4)
      else if dy == 0 then 2
      else 3
    else if dx <= 0 then (if dx == 0 then 0 else 1)
    else if dy <= 0 then (if dy == 0 then 6 else 5)
    else 7
  }

  /** Every step the corrected `directionTo` picks brings the target one step nearer. */
  lemma IntendedStepApproaches(location: Point, target: Point)
    requires location != target
    ensures Chebyshev(Step(location, IntendedDirectionTo(location, target.x, target.y)), target)
         == Chebyshev(location, target) - 1
  {
  }

  /** The code as written differs from the corrected one exactly on the two axis cases, which it swaps. */
  lemma DirectionToSwapsAxisCodes(location: Point, x: int, y: int)
    ensures var r := IntendedDirectionTo(location, x, y);
      DirectionTo(location, x, y) == if r == 2 then 4 else if r == 4 then 2 else r
    ensures DirectionTo(location, x, y) != IntendedDirectionTo(location, x, y)
        <==> (location.x == x && location.y < y) || (location.y == y && location.x < x)
  {
  }

  /**
   * `move`: one step in compass direction `direction`, made in place on the
   * given location array, which is returned; any other code, such as the
   * -1 of "already there", leaves it as it was.
   */
  method Move(location: array<int>, direction: int) returns (r: array<int>)
    requires location.Length == 2
    modifies location
    ensures r == location
    ensures Point(location[0], location[1]) == Step(Point(old(location[0]), old(location[1])), direction)
  {
    r := location;
    match direction
    case 0 =>
      location[1] := location[1] - 1;
    case 1 =>
      location[0] := location[0] + 1;
      location[1] := location[1] - 1;
    case 2 =>
      location[0] := location[0] + 1;
    case 3 =>
      location[0] := location[0] + 1;
      location[1] := location[1] + 1;
    case 4 =>
      location[1] := location[1] + 1;
    case 5 =>
      location[0] := location[0] - 1;
      location[1] := location[1] + 1;
    case 6 =>
      location[0] := location[0] - 1;
    case 7 =>
      location[0] := location[0] - 1;
      location[1] := location[1] - 1;
    case _ =>
  }

  /**
   * The bit-grid probes: `distanceRight`/`distanceLeft` count walkable cells
   * and `distanceVoidRight`/`distanceVoidLeft` count blocked ones, along a
   * row of `mapX` (arguments x, y) or a column of `mapY` (arguments y, x).
   */
  datatype Probes = Probes(
    distanceRightX: (int, int) -> nat,
    distanceLeftX: (int, int) -> nat,
    distanceRightY: (int, int) -> nat,
    distanceLeftY: (int, int) -> nat,
    voidRightX: (int, int) -> nat,
    voidLeftY: (int, int) -> nat)

  /**
   * The goal test made at each position of the scan: the goal shares the
   * column and lies within the walkable span of `mapY` above or below, or
   * else shares the row and lies within the walkable span of `mapX` to the
   * west or east.
   */
  predicate GoalInSight(goal: Point, location: Point, p: Probes): (b: bool)
    ensures b ==> goal.x == location.x || goal.y == location.y
  {
    if goal.x == location.x then
      (goal.y <= location.y && goal.y >= location.y - p.distanceLeftY(location.y, location.x))
      || (goal.y >= location.y && goal.y <= location.y + p.distanceRightY(location.y, location.x))
    else if goal.y == location.y then
      (goal.x <= location.x && goal.x >= location.x - p.distanceLeftX(location.x, location.y))
      || (goal.x >= location.x && goal.x <= location.x + p.distanceRightX(location.x, location.y))
    else false
  }

  /**
   * The goal is in sight exactly when it lies on the location's column
   * within the column's walkable span, or on its row within the row's; in
   * particular it is then at most that span away.
   */
  lemma GoalInSightIsStraightReach(goal: Point, location: Point, p: Probes)
    ensures GoalInSight(goal, location, p) <==>
      (goal.x == location.x
        && location.y - p.distanceLeftY(location.y, location.x) <= goal.y
        && goal.y <= location.y + p.distanceRightY(location.y, location.x))
      || (goal.y == location.y
        && location.x - p.distanceLeftX(location.x, location.y) <= goal.x
        && goal.x <= location.x + p.distanceRightX(location.x, location.y))
    ensures GoalInSight(goal, location, p) ==> goal.x == location.x || goal.y == location.y
  {
  }

  datatype Option<T> = None | Some(value: T)

  /**
   * A jump point the scan inserts: where it is, the waypoint it is reached
   * through, the diagonal to search from it, and the distance travelled.
   */
  datatype Successor = Successor(at: Point, via: Point, direction: int, distance: int)

  /**
   * The successor along the row, after the diagonal has stepped to
   * `location`: `lastStep` and `step` are the row's walkable spans before
   * and after the step, `diagonal` the steps taken so far and `base` the
   * distance of the jump point being expanded. The successor is reached
   * from its waypoint by a straight run along one row, and its distance is
   * that run's signed length from `location`'s column plus `diagonal` and
   * `base`. A shrink of exactly one (`dX == -1`) inserts nothing.
   */
  function RowSuccessor(location: Point, lastStep: int, step: int, p: Probes, diagonal: int, base: int)
    : (r: Option<Successor>)
    ensures step - lastStep == -1 ==> r == None
    ensures step - lastStep >= 0 ==>
      var voids := p.voidRightX(location.x + lastStep - 1, location.y + 1);
      (r != None <==> step - lastStep - voids >= -1)
      && (r != None ==> r.value.at == Point(location.x + voids + lastStep - 2, location.y)
                        && r.value.via == location && r.value.direction == 3)
    ensures step - lastStep < -1 ==>
      var voids := p.voidRightX(location.x + step, location.y);
      (r != None <==> step - lastStep + voids < 0)
      && (r != None ==> r.value.at == Point(location.x + voids + step - 1, location.y + 1)
                        && r.value.via == Point(location.x - 1, location.y + 1) && r.value.direction == 1)
    ensures r != None ==> (r.value.at.y == r.value.via.y
      && r.value.distance == r.value.at.x - location.x + diagonal + base)
  {
    var dX := step - lastStep;
    if dX >= 0 then
      var voids := p.voidRightX(location.x + lastStep - 1, location.y + 1);
      if dX - voids >= -1 then
        var distance := voids + lastStep - 2;
        Some(Successor(Point(location.x + distance, location.y), location, 3, distance + diagonal + base))
      else None
    else if dX < -1 then
      var voids := p.voidRightX(location.x + step, location.y);
      if dX + voids < 0 then
        var distance := voids + step - 1;
        Some(Successor(Point(location.x + distance, location.y + 1), Point(location.x - 1, location.y + 1),
                       1, distance + diagonal + base))
      else None
    else None
  }

  /**
   * The successor along the column, by the same rule on `mapY`: it is
   * reached from its waypoint by a straight run up one column, and its
   * distance is that run's signed length from `location`'s row plus
   * `diagonal` and `base`.
   */
  function ColumnSuccessor(location: Point, lastStep: int, step: int, p: Probes, diagonal: int, base: int)
    : (r: Option<Successor>)
    ensures step - lastStep == -1 ==> r == None
    ensures step - lastStep >= 0 ==>
      var voids := p.voidLeftY(location.y - lastStep + 1, location.x - 1);
      (r != None <==> step - lastStep - voids >= -1)
      && (r != None ==> r.value.at == Point(location.x, location.y - (voids + lastStep - 2))
                        && r.value.via == location && r.value.direction == 7)
    ensures step - lastStep < -1 ==>
      var voids := p.voidLeftY(location.y - step, location.x);
      (r != None <==> step - lastStep + voids < 0)
      && (r != None ==> r.value.at == Point(location.x - 1, location.y - (voids + step - 1))
                        && r.value.via == Point(location.x - 1, location.y + 1) && r.value.direction == 1)
    ensures r != None ==> (r.value.at.x == r.value.via.x
      && r.value.distance == location.y - r.value.at.y + diagonal + base)
  {
    var dY := step - lastStep;
    if dY >= 0 then
      var voids := p.voidLeftY(location.y - lastStep + 1, location.x - 1);
      if dY - voids >= -1 then
        var distance := voids + lastStep - 2;
        Some(Successor(Point(location.x, location.y - distance), location, 7, distance + diagonal + base))
      else None
    else if dY < -1 then
      var voids := p.voidLeftY(location.y - step, location.x);
      if dY + voids < 0 then
        var distance := voids + step - 1;
        Some(Successor(Point(location.x - 1, location.y - distance), Point(location.x - 1, location.y + 1),
                       1, distance + diagonal + base))
      else None
    else None
  }

  /**
   * Every successor the north-east scan inserts keeps one half of its
   * heading: a row successor searches an eastward diagonal from the
   * location's row or the row south of it, and a column successor searches
   * a northward diagonal from the location's column or the column west of it.
   */
  lemma SuccessorsKeepScanHeading(location: Point, lastStep: int, step: int, p: Probes, diagonal: int, base: int)
    ensures var r := RowSuccessor(location, lastStep, step, p, diagonal, base);
      r != None ==>
        && Offset(r.value.direction).x == 1
        && location.y <= r.value.at.y <= location.y + 1
        && (Offset(r.value.direction).y == 1 <==> r.value.at.y == location.y)
    ensures var c := ColumnSuccessor(location, lastStep, step, p, diagonal, base);
      c != None ==>
        && Offset(c.value.direction).y == -1
        && location.x - 1 <= c.value.at.x <= location.x
        && (Offset(c.value.direction).x == -1 <==> c.value.at.x == location.x)
  {
  }

  /** The state of the north-east scan between steps: position, last spans, steps taken. */
  datatype Scan = Scan(location: Point, lastStep: (int, int), diagonal: int)

  function Emitted(o: Option<Successor>): (s: seq<Successor>)
    ensures o == None ==> s == []
    ensures o != None ==> s == [o.value]
  {
    if o == None then [] else [o.value]
  }

  /**
   * One step of the north-east scan: move one cell north-east, measure the
   * row and column spans there, emit the row and column successors, and
   * count the step.
   */
  function NortheastStep(s: Scan, p: Probes, base: int): (r: (Scan, seq<Successor>))
    ensures r.0.location == Step(s.location, 1) && r.0.diagonal == s.diagonal + 1
    ensures |r.1| <= 2
  {
    var location := Point(s.location.x + 1, s.location.y - 1);
    var stepX := p.distanceRightX(location.x, location.y);
    var stepY := p.distanceLeftY(location.y, location.x);
    var row := RowSuccessor(location, s.lastStep.0, stepX, p, s.diagonal, base);
    var column := ColumnSuccessor(location, s.lastStep.1, stepY, p, s.diagonal, base);
    (Scan(location, (stepX, stepY), s.diagonal + 1), Emitted(row) + Emitted(column))
  }

  /**
   * A scan step advances one cell north-east and one step of diagonal
   * distance, keeps non-negative spans, and emits at most two successors,
   * each reached by a straight run along a row or a column, whose distance
   * is `base`, plus the diagonal steps taken before this one, plus the
   * run's signed length from the new position.
   */
  lemma {:induction false} NortheastStepAdvances(s: Scan, p: Probes, base: int)
    ensures var (t, out) := NortheastStep(s, p, base);
      t.location == Step(s.location, 1) && t.diagonal == s.diagonal + 1
      && t.lastStep.0 >= 0 && t.lastStep.1 >= 0
      && |out| <= 2
      && (forall k :: 0 <= k < |out| ==>
            (out[k].at.y == out[k].via.y
              && out[k].distance == out[k].at.x - t.location.x + s.diagonal + base)
            || (out[k].at.x == out[k].via.x
              && out[k].distance == t.location.y - out[k].at.y + s.diagonal + base))
  {
    var location := Point(s.location.x + 1, s.location.y - 1);
    var row := RowSuccessor(location, s.lastStep.0, p.distanceRightX(location.x, location.y), p, s.diagonal, base);
    var column := ColumnSuccessor(location, s.lastStep.1, p.distanceLeftY(location.y, location.x), p, s.diagonal, base);
    var out := Emitted(row) + Emitted(column);
    assert NortheastStep(s, p, base).1 == out;
    forall k | 0 <= k < |out|
      ensures (out[k].at.y == out[k].via.y
                && out[k].distance == out[k].at.x - location.x + s.diagonal + base)
           || (out[k].at.x == out[k].via.x
                && out[k].distance == location.y - out[k].at.y + s.diagonal + base)
    {
      if k < |Emitted(row)| {
        assert out[k] == row.value;
      } else {
        assert out[k] == column.value;
      }
    }
  }
}
