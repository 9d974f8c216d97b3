/**
 * The priority heap of jump points that drives the search (Heap.java).
 *
 * Slots 1..size of `points` hold the frontier; `visited` is the table of
 * marks of the duplicate-suppression rule, indexed by `y*256 + x`. The
 * methods follow the source's swap loops exactly; their effect on the slots
 * is given by the `AsWritten` functions of `HeapSeq`.
 */
module PriorityHeap {
  import opened Compass
  import opened Visited
  import opened HeapSeq

  /**
   * A jump point as the heap uses it: a grid position, a score, the diagonal
   * direction searched from it and the two path links.
   */
  class JumpPoint {
    const x: int
    const y: int
    const score: int
    var direction: int
    var mapLast: JumpPoint?
    var mapNext: JumpPoint?

    constructor (x: int, y: int, score: int)
      ensures this.x == x && this.y == y && this.score == score
      ensures direction == 0 && mapLast == null && mapNext == null
    {
      this.x := x;
      this.y := y;
      this.score := score;
      direction := 0;
      mapLast := null;
      mapNext := null;
    }

    function At(): Point {
      Point(x, y)
    }
  }

  /** The heap's priority: a jump point's score (an empty slot is never compared). */
  function Score(p: JumpPoint?): int {
    if p == null then 0 else p.score
  }

  /**
   * `chain` lists the jump points met by following `mapLast` from `jp`: it
   * starts at `jp` and ends at the root of the search tree.
   */
  predicate IsChain(jp: JumpPoint, chain: seq<JumpPoint>)
    reads chain
  {
    && |chain| >= 1 && chain[0] == jp
    && (forall i :: 0 <= i < |chain| - 1 ==> chain[i].mapLast == chain[i + 1])
    && chain[|chain| - 1].mapLast == null
  }

  /** A `mapLast` chain never meets the same jump point twice. */
  lemma ChainDistinct(jp: JumpPoint, chain: seq<JumpPoint>)
    requires IsChain(jp, chain)
    ensures forall i, j :: 0 <= i < j < |chain| ==> chain[i] != chain[j]
  {
    forall i, j | 0 <= i < j < |chain|
      ensures chain[i] != chain[j]
    {
      ChainTailsDiffer(jp, chain, i, j);
    }
  }

  lemma {:induction false} ChainTailsDiffer(jp: JumpPoint, chain: seq<JumpPoint>, i: int, j: int)
    requires IsChain(jp, chain) && 0 <= i < j < |chain|
    ensures chain[i] != chain[j]
    decreases |chain| - j
  {
    assert chain[i].mapLast == chain[i + 1];
    if j < |chain| - 1 {
      ChainTailsDiffer(jp, chain, i + 1, j + 1);
      assert chain[j].mapLast == chain[j + 1];
    }
  }

  /** Every jump point of a chain but the last has a predecessor, the next one of the chain. */
  lemma ChainLinksUntilRoot(jp: JumpPoint, chain: seq<JumpPoint>, k: int)
    requires IsChain(jp, chain) && 0 <= k < |chain|
    ensures k < |chain| - 1 ==> chain[k].mapLast == chain[k + 1]
    ensures chain[k].mapLast == null ==> k == |chain| - 1
  {
  }

  /**
   * Slots 1..4 hold start points at `start`, scored `score`
   * to `score + 3` and searching the directions of `order` in turn, with
   * no path links.
   */
  predicate Seeded(s: seq<JumpPoint?>, start: Point, score: int, order: seq<int>)
    reads s
  {
    && |s| > 4 && |order| == 4
    && forall k :: 1 <= k <= 4 ==>
         && s[k] != null && s[k].At() == start && s[k].score == score + (k - 1)
         && s[k].direction == order[k - 1] && s[k].mapLast == null && s[k].mapNext == null
  }

  class Heap {
    const points: array<JumpPoint?>
    const visited: array<int>
    const goal: Point
    var size: int

    /** The slot array has its fixed capacity and slots 1..size are occupied. */
    predicate Valid()
      reads this, points
    {
      && points.Length == Capacity && visited.Length == Capacity
      && 0 <= size < Capacity
      && forall k :: 1 <= k <= size ==> points[k] != null
    }

    /** The jump points on the frontier. */
    function Contents(): multiset<JumpPoint?>
      reads this, points
      requires 0 <= size < points.Length
    {
      multiset(Live(points[..], size))
    }

    /**
     * Seeds the search at `start`: four jump points scored from the
     * Chebyshev distance to `g`, one per diagonal in the order of the
     * 16-point bearing of `g`, with the start cell closed.
     */
    constructor (start: Point, g: Point)
      requires InGrid(start)
      ensures Valid() && fresh(points) && fresh(visited)
      ensures goal == g && size == 4
      ensures forall c :: 0 <= c < Capacity ==> visited[c] == if c == Cell(start) then Closed else Unvisited
      ensures Seeded(points[..], start, Chebyshev(g, start), SeedOrder(Bearing16(start, g)))
      ensures forall k :: 1 <= k <= 4 ==> fresh(points[k])
      ensures Ordered(points[..], size, Score)
    {
      var marks := NewTable(start);
      var score := Max(Abs(g.x - start.x), Abs(g.y - start.y));
      var order := SeedOrder(Bearing16(start, g));
      var slots := NewSeeds(start, score, order);
      points := slots;
      visited := marks;
      goal := g;
      size := 4;
    }

    /**
     * A fresh slot array holding the four start points in slots 1..4:
     * scores `score` to `score + 3`, directions as listed in `order`.
     */
    static method NewSeeds(start: Point, score: int, order: seq<int>) returns (slots: array<JumpPoint?>)
      requires |order| == 4
      ensures fresh(slots) && slots.Length == Capacity && slots[0] == null
      ensures Seeded(slots[..], start, score, order)
      ensures forall k :: 1 <= k <= 4 ==> fresh(slots[k])
    {
      var front := NewSeed(start, score, order[0]);
      var next := NewSeed(start, score + 1, order[1]);
      var next2 := NewSeed(start, score + 2, order[2]);
      var next3 := NewSeed(start, score + 3, order[3]);
      slots := new JumpPoint?[Capacity](_ => null);
      slots[1] := front;
      slots[2] := next;
      slots[3] := next2;
      slots[4] := next3;
    }

    /** One start point at `start`, scored `score`, searching `direction`. */
    static method NewSeed(start: Point, score: int, direction: int) returns (jp: JumpPoint)
      ensures fresh(jp) && jp.At() == start && jp.score == score
      ensures jp.direction == direction && jp.mapLast == null && jp.mapNext == null
    {
      jp := new JumpPoint(start.x, start.y, score);
      jp.direction := direction;
    }

    /**
     * Takes the jump point at the root off the heap: the last slot moves to
     * the root, is cleared, and the sift-down runs as written.
     */
    method Remove() returns (top: JumpPoint?)
      requires Valid() && size >= 1
      modifies this, points
      ensures Valid()
      ensures top == old(points[1]) && top != null
      ensures size == old(size) - 1
      ensures points[..] == RemoveAsWritten(old(points[..]), old(size), null, Score)
      ensures Contents() + multiset{top} == old(Contents())
    {
      ghost var s0, n := points[..], size;
      top := points[1];
      MoveLastToRoot();
      ghost var s1 := points[..];
      SiftDownFromRoot();
      assert points[..] == SiftDownAsWritten(s1, n - 1, 2, Score);
      assert points[..] == RemoveAsWritten(s0, n, null, Score);
    }

    /** The last jump point moves to the root, its slot is cleared, and the size shrinks by one. */
    method MoveLastToRoot()
      requires Valid() && size >= 1
      modifies this, points
      ensures Valid() && size == old(size) - 1
      ensures points[..] == old(points[..])[1 := old(points[size])][old(size) := null]
    {
      points[1] := points[size];
      points[size] := null;
      size := size - 1;
    }

    /**
     * The sift-down loop of the removal: from slot 2, while below
     * `size - 1`, a child scoring below its parent at `i / 2` is swapped up.
     */
    method SiftDownFromRoot()
      requires Valid()
      modifies points
      ensures Valid()
      ensures points[..] == SiftDownAsWritten(old(points[..]), size, 2, Score)
    {
      ghost var target := SiftDownAsWritten(points[..], size, 2, Score);
      var stop := size - 1;
      var i := 2;
      while i < stop
        invariant Valid() && 2 <= i && stop == size - 1
        invariant SiftDownAsWritten(points[..], size, i, Score) == target
        decreases size - i
      {
        var rightIndex := i + 1;
        var index := i / 2;
        var parentScore := points[index].score;
        var leftScore := points[i].score;
        var rightScore := points[rightIndex].score;
        SiftDownAsWrittenStep(points[..], size, i, Score);
        if leftScore < rightScore && leftScore < parentScore {
          Exchange(i, index);
        } else if rightScore < parentScore {
          Exchange(rightIndex, index);
          i := i + 1;
        } else {
          break;
        }
        i := i * 2;
      }
    }

    /**
     * Offers a new jump point to the heap under the duplicate-suppression
     * rule of its cell: when the cell admits the jump point's direction, the
     * cell is marked, the point is stored after the last slot and the sift-up
     * runs as written; otherwise the heap is unchanged. The caller must not
     * offer to a heap of size 0 (the sift-up reads slot 0, which is empty)
     * nor overflow the slot array.
     */
    method Insert(newNode: JumpPoint)
      requires Valid() && InGrid(newNode.At())
      requires Admits(visited[Cell(newNode.At())], newNode.direction) ==> 1 <= size && size + 1 < Capacity
      modifies this, points, visited
      ensures Valid()
      ensures visited[..] == old(visited[..])[Cell(newNode.At()) := Mark(old(visited[Cell(newNode.At())]), newNode.direction)]
      ensures Admits(old(visited[Cell(newNode.At())]), newNode.direction) ==>
        && size == old(size) + 1
        && points[..] == InsertAsWritten(old(points[..]), old(size), newNode, Score)
        && Contents() == old(Contents()) + multiset{newNode}
      ensures !Admits(old(visited[Cell(newNode.At())]), newNode.direction) ==>
        size == old(size) && points[..] == old(points[..])
    {
      var index := newNode.y * 256 + newNode.x;
      assert index == Cell(newNode.At());
      var visitedDirection := visited[index];
      if visitedDirection == 0 {
        SetMark(index, newNode.direction);
        AppendAndSiftUp(newNode);
      } else if visitedDirection != newNode.direction && visitedDirection > 0 {
        SetMark(index, -1);
        AppendAndSiftUp(newNode);
      }
    }

    /** Records `mark` for the cell at linear index `index`. */
    method SetMark(index: int, mark: int)
      requires 0 <= index < visited.Length
      modifies visited
      ensures visited[..] == old(visited[..])[index := mark]
    {
      visited[index] := mark;
    }

    /**
     * The body shared by both admitting branches of `Insert`: the point goes
     * into slot `size + 1` and the sift-up loop starts from slot `size`.
     */
    method AppendAndSiftUp(newNode: JumpPoint)
      requires Valid() && 1 <= size && size + 1 < Capacity
      modifies this, points
      ensures Valid() && size == old(size) + 1
      ensures points[..] == InsertAsWritten(old(points[..]), old(size), newNode, Score)
      ensures Contents() == old(Contents()) + multiset{newNode}
    {
      ghost var s0 := points[..];
      size := size + 1;
      points[size] := newNode;
      assert points[..] == s0[size := newNode];
      SiftUpFromLast();
    }

    /**
     * The sift-up loop of `insert(JumpPoint)`: it starts one slot above the
     * new point and carries the score it started with, taking the parent's
     * score after each swap.
     */
    method SiftUpFromLast()
      requires Valid() && 2 <= size
      modifies points
      ensures Valid()
      ensures points[..] == SiftUpAsWritten(old(points[..]), size, size - 1, Score(old(points[size - 1])), Score)
    {
      var next := size - 1;
      var score1 := points[next].score;
      var i := next;
      ghost var target := SiftUpAsWritten(points[..], size, i, score1, Score);
      while i > 2
        invariant Valid() && 1 <= i <= size && next == i
        invariant SiftUpAsWritten(points[..], size, i, score1, Score) == target
        decreases i
      {
        next := next / 2;
        var score2 := points[next].score;
        if score1 < score2 {
          Exchange(next, i);
        } else {
          break;
        }
        score1 := score2;
        i := next;
      }
    }

    /**
     * Puts back a jump point that is already on a path, without consulting
     * the visited table: stored after the last slot, then the sift-up of
     * this variant runs as written.
     */
    method InsertExisting(jp: JumpPoint)
      requires Valid() && size + 1 < Capacity
      modifies this, points
      ensures Valid() && size == old(size) + 1
      ensures points[..] == InsertExistingAsWritten(old(points[..]), old(size), jp, Score)
      ensures Contents() == old(Contents()) + multiset{jp}
    {
      ghost var s0 := points[..];
      size := size + 1;
      points[size] := jp;
      assert points[..] == s0[size := jp];
      SiftUpExistingFromLast();
    }

    /**
     * The sift-up loop of `insert(JumpPoint, boolean)`: it starts one slot
     * above the new point and compares the two slots' own scores.
     */
    method SiftUpExistingFromLast()
      requires Valid() && 1 <= size
      modifies points
      ensures Valid()
      ensures points[..] == SiftUpExistingAsWritten(old(points[..]), size, size - 1, Score)
    {
      var next := size - 1;
      var i := next;
      ghost var target := SiftUpExistingAsWritten(points[..], size, i, Score);
      while i > 2
        invariant Valid() && 0 <= i <= size && next == i
        invariant SiftUpExistingAsWritten(points[..], size, i, Score) == target
        decreases i
      {
        next := next / 2;
        if points[i].score < points[next].score {
          Exchange(next, i);
        } else {
          break;
        }
        i := next;
      }
    }

    /**
     * Walks the `mapLast` chain from `jp` back to the root of the search,
     * setting each predecessor's `mapNext` to its successor, and returns the
     * root. Afterwards `mapNext` leads from the root back down to `jp`.
     */
    method Retrace(jp: JumpPoint, ghost chain: seq<JumpPoint>) returns (root: JumpPoint)
      requires IsChain(jp, chain)
      modifies chain
      ensures root == chain[|chain| - 1] && root.mapLast == null
      ensures IsChain(jp, chain)
      ensures forall k :: 1 <= k < |chain| ==> chain[k].mapNext == chain[k - 1]
      ensures jp.mapNext == old(jp.mapNext)
      ensures forall k :: 0 <= k < |chain| ==> chain[k].direction == old(chain[k].direction)
    {
      ChainDistinct(jp, chain);
      var cur := jp;
      var next := jp.mapLast;
      ghost var k := 0;
      while next != null
        invariant 0 <= k < |chain| && cur == chain[k] && next == cur.mapLast
        invariant IsChain(jp, chain)
        invariant forall i :: 1 <= i <= k ==> chain[i].mapNext == chain[i - 1]
        invariant jp.mapNext == old(jp.mapNext)
        invariant forall i :: 0 <= i < |chain| ==> chain[i].direction == old(chain[i].direction)
        decreases |chain| - k
      {
        ChainLinksUntilRoot(jp, chain, k);
        assert next == chain[k + 1];
        next.mapNext := cur;
        cur := next;
        next := next.mapLast;
        k := k + 1;
      }
      ChainLinksUntilRoot(jp, chain, k);
      root := cur;
    }

    /**
     * Finds the root of the `mapLast` chain from `jp` without linking. The
     * loop advances one jump point every second pass (the predecessor is
     * read from the point left behind), yet it still ends at the root.
     */
    method RetraceNoLink(jp: JumpPoint, ghost chain: seq<JumpPoint>) returns (root: JumpPoint)
      requires IsChain(jp, chain)
      ensures root == chain[|chain| - 1]
    {
      var cur := jp;
      var next := jp.mapLast;
      var temp: JumpPoint? := null;
      ghost var k := 0;
      ghost var settled := true;
      while next != null
        invariant 0 <= k < |chain|
        invariant settled ==> cur == chain[k] && next == chain[k].mapLast && (temp != null ==> temp == chain[k])
        invariant !settled ==> k + 1 < |chain| && temp == chain[k] && cur == chain[k + 1] && next == chain[k + 1]
        decreases 2 * (|chain| - k) + (if settled then 1 else 0)
      {
        if settled {
          assert k + 1 < |chain|;
        } else {
          k := k + 1;
        }
        temp := cur;
        cur := next;
        next := temp.mapLast;
        settled := !settled;
      }
      ChainLinksUntilRoot(jp, chain, k);
      if temp != null {
        root := temp;
      } else {
        root := cur;
      }
    }

    /** Swaps two occupied slots. */
    method Exchange(a: int, b: int)
      requires Valid() && 1 <= a <= size && 1 <= b <= size
      modifies points
      ensures Valid()
      ensures points[..] == Swap(old(points[..]), a, b)
    {
      var t := points[a];
      points[a] := points[b];
      points[b] := t;
    }
  }
}
