/**
 * The frontier of the queue-based planner (navigation/Queue.java): a singly
 * linked list of nodes through `queueNext`, kept in score order behind its
 * front, with the same visited table and duplicate-suppression rule as the
 * heap.
 *
 * The ghost field `nodes` lists the queue from `front` along `queueNext`;
 * `Valid` ties the two together.
 */
module LinkedQueue {
  import opened Compass
  import opened Visited
  import opened Nodes

  /** The scores of a list of nodes, in order. */
  function Scores(ns: seq<Node>): (r: seq<int>)
    ensures |r| == |ns| && forall i :: 0 <= i < |ns| ==> r[i] == ns[i].score
  {
    seq(|ns|, i requires 0 <= i < |ns| => ns[i].score)
  }

  predicate Sorted(t: seq<int>) {
    forall i, j :: 0 <= i < j < |t| ==> t[i] <= t[j]
  }

  /**
   * How many leading scores of `t` are below `s`: the number of nodes the
   * insertion walk passes before it stops.
   */
  function Skip(t: seq<int>, s: int): (k: nat)
    ensures k <= |t|
    ensures forall i :: 0 <= i < k ==> t[i] < s
    ensures k < |t| ==> t[k] >= s
  {
    if t == [] || t[0] >= s then 0
    else 1 + Skip(t[1..], s)
  }

  /**
   * Where `offer` places a node of score `s` in a queue with scores
   * `scores`: at the front of an empty queue, otherwise after the front and
   * after every following node that scores below `s`.
   */
  function InsertPosition(scores: seq<int>, s: int): (p: nat)
    ensures p <= |scores|
    ensures |scores| > 0 ==> p >= 1
  {
    if scores == [] then 0 else 1 + Skip(scores[1..], s)
  }

  /** `x` placed at position `p` of `t`. */
  function InsertAt<T>(t: seq<T>, p: nat, x: T): (r: seq<T>)
    requires p <= |t|
  {
    t[..p] + [x] + t[p..]
  }

  /** A position that stops the walk at the first score not below `s` is the one `Skip` gives. */
  lemma {:induction false} SkipIsFirstStop(t: seq<int>, s: int, j: nat)
    requires j <= |t| && (forall i :: 0 <= i < j ==> t[i] < s) && (j < |t| ==> t[j] >= s)
    ensures Skip(t, s) == j
    decreases j
  {
    if j > 0 {
      assert t[0] < s;
      SkipIsFirstStop(t[1..], s, j - 1);
    }
  }

  /** Inserting where the walk stops keeps a non-decreasing list non-decreasing. */
  lemma InsertKeepsSorted(t: seq<int>, s: int)
    requires Sorted(t)
    ensures Sorted(InsertAt(t, Skip(t, s), s))
  {
    var k := Skip(t, s);
    var r := InsertAt(t, k, s);
    forall i, j | 0 <= i < j < |r|
      ensures r[i] <= r[j]
    {
      if j < k {
        assert r[i] == t[i] && r[j] == t[j];
      } else if j == k {
        assert r[j] == s && r[i] == t[i];
      } else if i < k {
        assert r[i] == t[i] && r[j] == t[j - 1];
      } else if i == k {
        assert r[i] == s && r[j] == t[j - 1];
      } else {
        assert r[i] == t[i - 1] && r[j] == t[j - 1];
      }
    }
  }

  /**
   * `offer` keeps the front in place and keeps the part of the queue behind
   * the front in score order.
   */
  lemma OfferKeepsTailSorted(scores: seq<int>, s: int)
    requires |scores| > 0 && Sorted(scores[1..])
    ensures var r := InsertAt(scores, InsertPosition(scores, s), s);
      r[0] == scores[0] && Sorted(r[1..])
  {
    var tail := scores[1..];
    InsertKeepsSorted(tail, s);
    var p := InsertPosition(scores, s);
    assert InsertAt(scores, p, s)[1..] == InsertAt(tail, p - 1, s);
  }

  /** `chain` lists the nodes met by following `mapLast` from `node`, up to the root. */
  predicate IsPath(node: Node, chain: seq<Node>)
    reads chain
  {
    && |chain| >= 1 && chain[0] == node
    && (forall i :: 0 <= i < |chain| - 1 ==> chain[i].mapLast == chain[i + 1])
    && chain[|chain| - 1].mapLast == null
  }

  /** Every node of a path but the last has a predecessor, the next one of the path. */
  lemma PathLinksUntilRoot(node: Node, chain: seq<Node>, k: int)
    requires IsPath(node, chain) && 0 <= k < |chain|
    ensures k < |chain| - 1 ==> chain[k].mapLast == chain[k + 1]
    ensures chain[k].mapLast == null ==> k == |chain| - 1
  {
  }

  /** A path never meets the same node twice. */
  lemma PathDistinct(node: Node, chain: seq<Node>)
    requires IsPath(node, chain)
    ensures forall i, j :: 0 <= i < j < |chain| ==> chain[i] != chain[j]
  {
    forall i, j | 0 <= i < j < |chain|
      ensures chain[i] != chain[j]
    {
      PathTailsDiffer(node, chain, i, j);
    }
  }

  lemma {:induction false} PathTailsDiffer(node: Node, chain: seq<Node>, i: int, j: int)
    requires IsPath(node, chain) && 0 <= i < j < |chain|
    ensures chain[i] != chain[j]
    decreases |chain| - j
  {
    assert chain[i].mapLast == chain[i + 1];
    if j < |chain| - 1 {
      PathTailsDiffer(node, chain, i + 1, j + 1);
      assert chain[j].mapLast == chain[j + 1];
    }
  }

  /** Starting at `front` and following `queueNext` meets exactly the distinct nodes `ns`, in order. */
  predicate Linked(front: Node?, ns: seq<Node>)
    reads ns
  {
    && (if |ns| == 0 then front == null else front == ns[0])
    && (forall i :: 0 <= i < |ns| - 1 ==> ns[i].queueNext == ns[i + 1])
    && (|ns| > 0 ==> ns[|ns| - 1].queueNext == null)
    && (forall i, j :: 0 <= i < j < |ns| ==> ns[i] != ns[j])
  }

  class Queue {
    var front: Node?
    const goal: Point
    const visited: array<int>
    var firstDiagonal: bool
    ghost var nodes: seq<Node>

    /** `front` and `queueNext` enumerate `nodes`, which are distinct, and the visited table is full size. */
    ghost predicate Valid()
      reads this, nodes
    {
      visited.Length == Capacity && Linked(front, nodes)
    }

    /**
     * Seeds the search at `start`: four nodes at `start`, all scored with
     * the Chebyshev distance to `goal`, searching the four diagonals in the
     * order of the 16-point bearing of `goal`, queued in that order; the
     * start cell is closed.
     */
    constructor (start: Point, goal: Point)
      requires InGrid(start)
      ensures Valid() && fresh(visited) && this.goal == goal && firstDiagonal
      ensures forall c :: 0 <= c < Capacity ==> visited[c] == if c == Cell(start) then Closed else Unvisited
      ensures Seeds(nodes, start, Chebyshev(goal, start), SeedOrder(Bearing16(start, goal)))
    {
      var marks := NewTable(start);
      var score := Chebyshev(goal, start);
      var order := SeedOrder(Bearing16(start, goal));
      var seeds := NewSeeds(start, score, order);
      visited := marks;
      firstDiagonal := true;
      this.goal := goal;
      front := seeds[0];
      nodes := seeds;
    }

    /** The heuristic: the Chebyshev distance from `a` to the goal. */
    function Heuristic(a: Point): (h: int)
      ensures h >= 0 && (h == 0 <==> a == goal)
      ensures h >= Abs(goal.x - a.x) && h >= Abs(goal.y - a.y)
      ensures h == Abs(goal.x - a.x) || h == Abs(goal.y - a.y)
    {
      Max(Abs(goal.x - a.x), Abs(goal.y - a.y))
    }

    /**
     * Takes the front node off the queue. An empty queue gives null and
     * stays empty; taking a node that has no predecessor (a seed) clears
     * `firstDiagonal`.
     */
    method Pop() returns (top: Node?)
      requires Valid()
      modifies this
      ensures Valid()
      ensures old(nodes) == [] ==> top == null && nodes == [] && firstDiagonal == old(firstDiagonal)
      ensures old(nodes) != [] ==> top == old(nodes[0]) && nodes == old(nodes[1..])
      ensures old(nodes) != [] ==> firstDiagonal == (old(firstDiagonal) && top.mapLast != null)
    {
      if front == null {
        top := null;
      } else if front.mapLast == null {
        top := front;
        front := front.queueNext;
        firstDiagonal := false;
        nodes := nodes[1..];
      } else {
        top := front;
        front := front.queueNext;
        nodes := nodes[1..];
      }
    }

    /**
     * Offers the cell `newNode`, reached from `lastNode` through `waypoint`
     * and searching `direction`, under the duplicate-suppression rule of its
     * cell. When admitted, a new node scored with the heuristic is linked
     * after `lastNode` on the path and queued at `InsertPosition`.
     */
    method Offer(newNode: Point, direction: int, waypoint: seq<int>, lastNode: Node)
      requires Valid() && InGrid(newNode)
      modifies this, visited, lastNode, nodes
      ensures Valid() && firstDiagonal == old(firstDiagonal)
      ensures visited[..] == old(visited[..])[Cell(newNode) := Mark(old(visited[Cell(newNode)]), direction)]
      ensures !Admits(old(visited[Cell(newNode)]), direction) ==>
        nodes == old(nodes) && front == old(front) && unchanged(lastNode) && unchanged(nodes)
      ensures forall n :: n in old(nodes) ==>
        && n.mapLast == old(n.mapLast) && n.direction == old(n.direction) && n.waypoint == old(n.waypoint)
        && (n != lastNode ==> n.mapNext == old(n.mapNext))
      ensures lastNode.mapLast == old(lastNode.mapLast) && lastNode.direction == old(lastNode.direction)
      ensures lastNode.waypoint == old(lastNode.waypoint)
      ensures lastNode !in old(nodes) ==> lastNode.queueNext == old(lastNode.queueNext)
      ensures Admits(old(visited[Cell(newNode)]), direction) ==>
        var p := InsertPosition(Scores(old(nodes)), Heuristic(newNode));
        && |nodes| == |old(nodes)| + 1
        && nodes == InsertAt(old(nodes), p, nodes[p])
        && fresh(nodes[p]) && lastNode.mapNext == nodes[p]
        && nodes[p].location == newNode && nodes[p].score == Heuristic(newNode)
        && nodes[p].direction == direction && nodes[p].waypoint == waypoint
        && nodes[p].mapLast == lastNode && nodes[p].mapNext == null
    {
      var index := newNode.y * 256 + newNode.x;
      assert index == Cell(newNode);
      var visitedDirection := visited[index];
      if visitedDirection == 0 {
        Admit(index, direction, newNode, direction, waypoint, lastNode);
      } else if visitedDirection != direction && visitedDirection > 0 {
        Admit(index, -1, newNode, direction, waypoint, lastNode);
      }
    }

    /**
     * The body shared by both admitting branches of `offer`: the cell at
     * `index` is marked `mark`, and a node scored with the heuristic is
     * linked after `lastNode` and queued.
     */
    method Admit(index: int, mark: int, newNode: Point, direction: int, waypoint: seq<int>, lastNode: Node)
      requires Valid() && 0 <= index < visited.Length
      modifies this, visited, lastNode, nodes
      ensures Valid() && firstDiagonal == old(firstDiagonal)
      ensures visited[..] == old(visited[..])[index := mark]
      ensures forall n :: n in old(nodes) ==>
        && n.mapLast == old(n.mapLast) && n.direction == old(n.direction) && n.waypoint == old(n.waypoint)
        && (n != lastNode ==> n.mapNext == old(n.mapNext))
      ensures lastNode.mapLast == old(lastNode.mapLast) && lastNode.direction == old(lastNode.direction)
      ensures lastNode.waypoint == old(lastNode.waypoint)
      ensures lastNode !in old(nodes) ==> lastNode.queueNext == old(lastNode.queueNext)
      ensures var p := InsertPosition(Scores(old(nodes)), Heuristic(newNode));
        && |nodes| == |old(nodes)| + 1
        && nodes == InsertAt(old(nodes), p, nodes[p])
        && fresh(nodes[p]) && lastNode.mapNext == nodes[p]
        && nodes[p].location == newNode && nodes[p].score == Heuristic(newNode)
        && nodes[p].direction == direction && nodes[p].waypoint == waypoint
        && nodes[p].mapLast == lastNode && nodes[p].mapNext == null
    {
      SetMark(index, mark);
      var node := new Node.Link(newNode, waypoint, lastNode, direction,
        Max(Abs(goal.x - newNode.x), Abs(goal.y - newNode.y)));
      Enqueue(node);
    }

    /** Records `mark` for the cell at linear index `index`. */
    method SetMark(index: int, mark: int)
      requires 0 <= index < visited.Length
      modifies visited
      ensures visited[..] == old(visited[..])[index := mark]
    {
      visited[index] := mark;
    }

    /**
     * The queueing shared by both admitting branches of `offer`: into an
     * empty queue as its front; otherwise walked past the front and every
     * following node scoring below it, and spliced in there.
     */
    method Enqueue(node: Node)
      requires Valid() && node !in nodes && node.queueNext == null
      modifies this, nodes, node
      ensures Valid() && firstDiagonal == old(firstDiagonal)
      ensures nodes == InsertAt(old(nodes), InsertPosition(Scores(old(nodes)), node.score), node)
      ensures forall n :: n in old(nodes) || n == node ==>
        && n.mapNext == old(n.mapNext) && n.mapLast == old(n.mapLast)
        && n.direction == old(n.direction) && n.waypoint == old(n.waypoint)
    {
      if front == null {
        front := node;
        nodes := [node];
      } else {
        var last := front;
        var next := last.queueNext;
        ghost var j := 0;
        while next != null && next.score < node.score
          invariant 0 <= j < |nodes| && last == nodes[j]
          invariant next == if j + 1 < |nodes| then nodes[j + 1] else null
          invariant forall i :: 0 <= i < j ==> Scores(nodes)[1..][i] < node.score
          decreases |nodes| - j
        {
          last := next;
          next := next.queueNext;
          j := j + 1;
        }
        SkipIsFirstStop(Scores(nodes)[1..], node.score, j);
        Splice(last, node, j);
      }
    }

    /** Links `node` in behind `nodes[j]`. */
    method Splice(last: Node, node: Node, ghost j: int)
      requires Valid() && node !in nodes && 0 <= j < |nodes| && last == nodes[j]
      modifies this, nodes, node
      ensures Valid() && firstDiagonal == old(firstDiagonal)
      ensures nodes == InsertAt(old(nodes), j + 1, node)
      ensures forall n :: n in old(nodes) || n == node ==>
        && n.mapNext == old(n.mapNext) && n.mapLast == old(n.mapLast)
        && n.direction == old(n.direction) && n.waypoint == old(n.waypoint)
    {
      node.queueNext := last.queueNext;
      last.queueNext := node;
      nodes := nodes[..j + 1] + [node] + nodes[j + 1..];
    }

    /**
     * Walks the `mapLast` path from `node` back to its root, setting each
     * predecessor's `mapNext` to its successor, and returns a copy of the
     * root.
     */
    method Retrace(node: Node, ghost chain: seq<Node>) returns (r: Node)
      requires IsPath(node, chain)
      modifies chain
      ensures IsPath(node, chain)
      ensures forall k :: 1 <= k < |chain| ==> chain[k].mapNext == chain[k - 1]
      ensures node.mapNext == old(node.mapNext)
      ensures forall k :: 0 <= k < |chain| ==>
        chain[k].direction == old(chain[k].direction) && chain[k].waypoint == old(chain[k].waypoint)
        && chain[k].queueNext == old(chain[k].queueNext)
      ensures fresh(r) && r.mapLast == null && r.queueNext == null
      ensures var root := chain[|chain| - 1];
        r.location == root.location && r.score == root.score && r.direction == root.direction
        && r.waypoint == root.waypoint && r.mapNext == root.mapNext
    {
      PathDistinct(node, chain);
      var cur := node;
      var next := node.mapLast;
      ghost var k := 0;
      while next != null
        invariant 0 <= k < |chain| && cur == chain[k] && next == cur.mapLast
        invariant IsPath(node, chain)
        invariant forall i :: 1 <= i <= k ==> chain[i].mapNext == chain[i - 1]
        invariant node.mapNext == old(node.mapNext)
        invariant forall i :: 0 <= i < |chain| ==>
          chain[i].direction == old(chain[i].direction) && chain[i].waypoint == old(chain[i].waypoint)
          && chain[i].queueNext == old(chain[i].queueNext)
        decreases |chain| - k
      {
        PathLinksUntilRoot(node, chain, k);
        assert next == chain[k + 1];
        next.mapNext := cur;
        cur := next;
        next := next.mapLast;
        k := k + 1;
      }
      PathLinksUntilRoot(node, chain, k);
      r := new Node.Copy(cur);
    }
  }

  /**
   * `ns` are four seeds at `start`, all scored
   * `score`, searching the directions of `order` in turn, queued in list
   * order, with no path links and no waypoints.
   */
  predicate Seeds(ns: seq<Node>, start: Point, score: int, order: seq<int>)
    reads ns
  {
    && |ns| == 4 && |order| == 4
    && (forall k :: 0 <= k < 4 ==>
         && ns[k].location == start && ns[k].score == score && ns[k].direction == order[k]
         && ns[k].waypoint == [] && ns[k].mapLast == null && ns[k].mapNext == null)
    && ns[0].queueNext == ns[1] && ns[1].queueNext == ns[2] && ns[2].queueNext == ns[3]
    && ns[3].queueNext == null
  }

  /** Four new seeds, linked `front -> next -> next2 -> next3`. */
  method NewSeeds(start: Point, score: int, order: seq<int>) returns (ns: seq<Node>)
    requires |order| == 4
    ensures Seeds(ns, start, score, order) && Linked(ns[0], ns)
    ensures forall k :: 0 <= k < 4 ==> fresh(ns[k])
  {
    var next3 := NewSeed(start, score, order[3], null);
    var next2 := NewSeed(start, score, order[2], next3);
    var next := NewSeed(start, score, order[1], next2);
    var front := NewSeed(start, score, order[0], next);
    ns := [front, next, next2, next3];
  }

  /** One seed at `start` searching `direction`, queued ahead of `queueNext`. */
  method NewSeed(start: Point, score: int, direction: int, queueNext: Node?) returns (n: Node)
    ensures fresh(n) && n.location == start && n.score == score && n.direction == direction
    ensures n.waypoint == [] && n.mapLast == null && n.mapNext == null && n.queueNext == queueNext
  {
    n := new Node.Seed(start, score);
    n.direction := direction;
    n.queueNext := queueNext;
  }
}
