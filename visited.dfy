/**
 * The duplicate-suppression rule shared by the heap and the queue frontier.
 *
 * Every grid cell has a mark in a visited table: 0 while unvisited, -1 once
 * closed, and otherwise the (positive) diagonal direction of the first search
 * that reached it. A new jump point is admitted when its cell is unvisited, or
 * when the cell was reached once before in a different direction; in the
 * second case the cell is closed.
 */
module Visited {
  import opened Compass

  const Unvisited: int := 0
  const Closed: int := -1

  /** Whether a jump point searching in direction `d` is added to the frontier. */
  predicate Admits(mark: int, d: int) {
    mark == Unvisited || (mark > 0 && mark != d)
  }

  /** The mark a cell holds after a jump point in direction `d` arrives. */
  function Mark(mark: int, d: int): (m: int)
    ensures !Admits(mark, d) ==> m == mark
    ensures mark == Closed ==> m == Closed
    ensures mark == Unvisited ==> m == d
    ensures mark > 0 && mark != d ==> m == Closed
  {
    if mark == Unvisited then d
    else if mark > 0 && mark != d then Closed
    else mark
  }

  /** The directions admitted, in order, when jump points in `arrivals` reach one cell. */
  function Admitted(mark: int, arrivals: seq<int>): seq<int>
    decreases |arrivals|
  {
    if arrivals == [] then []
    else if Admits(mark, arrivals[0]) then [arrivals[0]] + Admitted(Mark(mark, arrivals[0]), arrivals[1..])
    else Admitted(mark, arrivals[1..])
  }

  predicate Positive(ds: seq<int>) {
    forall i :: 0 <= i < |ds| ==> ds[i] > 0
  }

  predicate Distinct(ds: seq<int>) {
    forall i, j :: 0 <= i < j < |ds| ==> ds[i] != ds[j]
  }

  /**
   * Whatever jump points arrive at a cell, the cell enters the frontier at
   * most twice, in two different directions, only once more after a first
   * visit (and never in that visit's direction), and never once closed.
   */
  lemma {:induction false} AtMostTwicePerCell(mark: int, arrivals: seq<int>)
    requires mark >= Closed && Positive(arrivals)
    decreases |arrivals|
    ensures var a := Admitted(mark, arrivals);
      && |a| <= (if mark == Unvisited then 2 else if mark > 0 then 1 else 0)
      && Distinct(a)
      && (mark > 0 ==> mark !in a)
  {
    if arrivals != [] {
      var d := arrivals[0];
      assert Positive(arrivals[1..]) by {
        forall i | 0 <= i < |arrivals[1..]| ensures arrivals[1..][i] > 0 {
          assert arrivals[1..][i] == arrivals[i + 1];
        }
      }
      AtMostTwicePerCell(Mark(mark, d), arrivals[1..]);
    }
  }

  /**
   * A new visited table for a search from `start`: every cell unvisited but
   * the start cell, which is closed.
   */
  method NewTable(start: Point) returns (marks: array<int>)
    requires InGrid(start)
    ensures fresh(marks) && marks.Length == Capacity
    ensures forall c :: 0 <= c < Capacity ==> marks[c] == if c == Cell(start) then Closed else Unvisited
  {
    marks := new int[Capacity](_ => 0);
    marks[start.y * 256 + start.x] := -1;
  }
}
