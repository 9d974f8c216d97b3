# Jump Point Search path planner: frontier structures and grid helpers

This project models the core of a Battlecode path planner built on Jump Point
Search over a 256x256 grid, and proves properties of that model. The planner
keeps a frontier of jump points. Each jump point is a grid cell from which
one diagonal is searched. The planner also keeps a visited table indexed by
`y*256 + x`. A cell's entry there is 0 while the cell is unvisited, -1 once it
is closed, and otherwise the diagonal direction (1, 3, 5 or 7) that first
reached it.

The model covers:

- `Compass` (`compass.dfy`): the grid geometry shared by all files.
  - the cell index;
  - Java's truncating division;
  - the Chebyshev distance;
  - the 8-direction step;
  - the diagonal-only compass;
  - the 16-point bearing built from the truncated quotient `dy/dx`;
  - the order in which the four start points of a search are seeded.
- `Visited` (`visited.dfy`): the three-way duplicate-suppression rule that both frontiers apply.
- `HeapSeq` (`heapseq.dfy`): the slot-array algorithms of the binary heap, as functions on sequences.
  - the sift-up and sift-down loops exactly as written;
  - textbook versions proved to keep heap order.
- `PriorityHeap` (`heap.dfy`): the 1-based array heap of jump points (`Heap.java`).
  - the constructor that seeds four start points;
  - `remove`, the two `insert` variants, `retrace` and `retraceNoLink`.
  - Every method is imperative over the `points` and `visited` arrays. It is proved against the `HeapSeq` functions.
- `Nodes` and `LinkedQueue` (`node.dfy`, `queue.dfy`): the older planner's frontier (`navigation/Node.java`, `navigation/Queue.java`).
  - The frontier is a score-ordered singly linked list of nodes.
  - Nodes have the waypoint walk `traverseNode`.
  - The queue has `heuristic`, `pop`, `offer` and `retrace`.
  - Its path facts (`IsPath`, `PathDistinct`, `PathTailsDiffer`, `PathLinksUntilRoot`) mirror the heap's (`IsChain`, `ChainDistinct`, `ChainTailsDiffer`, `ChainLinksUntilRoot`). The two classes have different fields, so each has its own copy.
- `JumpPoints` (`jumppoint.dfy`): the refactored jump point class (`Refactor/JumpPoint.java`).
  - `move` works in place on the location array;
  - the compasses, `equals`, and the constructors.
- `Planner` (`navigation.dfy`): the static helpers `directionTo` and `move` of `Navigation.java`, and one step of the north-east diagonal scan of `getPath`.
  - The scan step covers the goal-in-sight test and the row and column successor rules.
  - The bit-grid probes are not modelled: they are passed in as functions returning non-negative counts.

Java `int` arithmetic is modelled with unbounded integers. Every coordinate the
model computes with comes from the 256x256 grid, so no operation overflows.

## Model

| member | source | states |
|---|---|---|
| Compass.Cell | Heap.java:39 | the visited index `y*256+x` of a grid point lies in 0..65535 and gives back `y` and `x` by division and remainder |
| Compass.CellInjective | navigation/Queue.java:118 | two grid points share a visited entry exactly when they are the same point |
| Compass.JavaDivTruncates | navigation/Node.java:135 | Java's quotient `dy/dx`: its magnitude times `|dx|` is at most `|dy|` and within `|dx|` of it, with the sign of `dy*dx` |
| Compass.JavaDivVersusEuclidean | navigation/Node.java:135 | Java's quotient equals the Euclidean one unless the dividend is negative and leaves a remainder, in which case it is one more |
| Compass.Chebyshev | navigation/Queue.java:87-89 | the distance `max(|dx|,|dy|)` is zero exactly for equal points and bounds both coordinate gaps |
| Compass.ChebyshevMetric | navigation/Queue.java:87-89 | the heuristic's distance is symmetric and obeys the triangle inequality |
| Compass.Offset | Refactor/JumpPoint.java:84-120 | each code 0..7 is a unit step, diagonal exactly for odd codes; any other code is no step |
| Compass.OffsetRotates | Refactor/JumpPoint.java:87-114 | adding two to a direction code turns its step a quarter clockwise |
| Compass.StepInverse | Refactor/JumpPoint.java:87-114 | `move(d)` followed by `move((d+4)%8)` returns to the starting cell |
| Compass.StepChangesDistanceByAtMostOne | Navigation.java:254-286 | one step changes the Chebyshev distance to any target by at most one |
| Compass.Diagonal | navigation/Node.java:67-82 | the diagonal compass returns 1, 3, 5 or 7; it steps east exactly when the target is east and south exactly when the target is south |
| Compass.Bearing16 | navigation/Node.java:128-430 | the 16-point compass returns an odd code in 1..15, and 9 or 1 (south or not) on the start's north-south line |
| Compass.RingDistance16 | Heap.java:41-91 | a reference definition, not a model of these lines: the rose distance between two 16-point codes lies in 0..8; `SeedOrderByDistance` uses it to explain the switch table of these lines |
| Compass.SeedOrder | Heap.java:41-91 | one direction list of four for every bearing |
| Compass.SeedOrderIsPermutation | navigation/Queue.java:31-80 | for every bearing the four seeds search the four diagonals, each exactly once |
| Compass.SeedOrderByDistance | Heap.java:41-91 | for every bearing the four seed diagonals lie at rose distances 1, 3, 5, 7 from the bearing, in that order |
| Compass.FirstSeedFacesGoal | Heap.java:41-91 | off the start's north-south line, the first seed searches the diagonal that the diagonal compass picks toward the goal |
| Compass.BearingOctant | navigation/Node.java:128-430 | off the north-south line, the bearing is the steep code of its quadrant (NNE, SSE, SSW, NNW) exactly when the north-south gap is at least the east-west gap, which the truncated quotient `dy/dx` decides |
| Compass.ShallowSouthwestIsWestSouthwest | navigation/Node.java:135 | a goal two west and one south has truncated quotient 0 and bearing WSW (11), where the Euclidean quotient would be -1 |
| Compass.BearingQuadrant | navigation/Node.java:128-430 | off the north-south line, the bearing is in the east half exactly when the goal is east, and in the south half exactly when the goal is south |
| Compass.LastSeedOpposesFirst | navigation/Queue.java:31-80 | the fourth seed searches the diagonal opposite to the first |
| Visited.Mark | Heap.java:155-185 | the new mark: the direction on an unvisited cell; closed (-1) when a different positive direction arrives; otherwise unchanged |
| Visited.AtMostTwicePerCell | navigation/Queue.java:118-164 | for any sequence of arrivals, a cell enters the frontier at most twice, in distinct directions, never again in its first direction, and never once closed |
| Visited.NewTable | Heap.java:25-39 | a new table of 65536 entries, all unvisited except the start cell, which is closed |
| HeapSeq.Swap | Heap.java:126-131 | exchanging two slots swaps their contents and leaves every other slot |
| HeapSeq.SwapKeepsLive | Heap.java:126-131 | exchanging two live slots keeps the heap's multiset |
| HeapSeq.SiftUpAsWritten | Heap.java:167-182 | the as-written sift-up keeps slot 0, every slot below `i`, and the multiset of live slots |
| HeapSeq.InsertAsWritten | Heap.java:165-182 | insert puts the new point in slot `n+1`; the live multiset grows by exactly that point |
| HeapSeq.SiftUpExistingAsWritten | Heap.java:215-228 | the sift-up of the put-back variant keeps slot 0, every slot below `i`, and the live multiset |
| HeapSeq.InsertExistingAsWritten | Heap.java:213-229 | putting a point back grows the live multiset by exactly that point |
| HeapSeq.SiftDownAsWritten | Heap.java:110-140 | the as-written sift-down keeps slot 0, every slot from `n` on, and the live multiset |
| HeapSeq.RemoveAsWritten | Heap.java:105-143 | remove clears slot `n`; the live multiset plus the old root equals the old live multiset |
| HeapSeq.RootReplacedByLast | Heap.java:106-108 | moving the last slot to the root and clearing it loses exactly the old root |
| HeapSeq.RootIsMinimum | Heap.java:103 | in an ordered heap the root's score is the least of all |
| HeapSeq.SiftUpStep | Heap.java:170-182 | swapping a child scoring below its parent moves the one order violation up a level |
| HeapSeq.SiftUp | Heap.java:170-182 | the textbook sift-up keeps the live multiset and restores heap order |
| HeapSeq.Push | Heap.java:153-207 | correct insertion: the live multiset grows by the new point, and heap order is kept |
| HeapSeq.SmallerChild | Heap.java:117-136 | the child chosen is a live child of `i` whose score is the least of its children |
| HeapSeq.SiftDownStep | Heap.java:124-136 | swapping with the smaller child moves the one order violation down a level |
| HeapSeq.SiftDown | Heap.java:110-140 | the textbook sift-down keeps the live multiset and restores heap order |
| HeapSeq.Pop | Heap.java:105-143 | correct removal: the old root is removed from the multiset, slot `n` is cleared, and heap order is kept |
| HeapSeq.InsertAsWrittenLosesOrder | Heap.java:167 | inserting 0 into the ordered heap (1, 5) as written leaves 0 below the root's 1; `Push` keeps order |
| HeapSeq.InsertExistingAsWrittenLosesOrder | Heap.java:215 | putting back 0 into the ordered heap (1, 5) as written leaves 0 below 1; `Push` keeps order |
| HeapSeq.RemoveAsWrittenLosesOrder | Heap.java:110-113 | removing from the ordered heap (1, 5, 6, 7) as written leaves 7 at the root; `Pop` keeps order |
| PriorityHeap.JumpPoint.constructor | Heap.java:33-36 | a jump point at `(x, y)` with the given score and no links |
| PriorityHeap.ChainDistinct | Heap.java:238-246 | a `mapLast` chain never meets the same jump point twice |
| PriorityHeap.ChainTailsDiffer | Heap.java:238-246 | two positions of a `mapLast` chain hold different jump points |
| PriorityHeap.ChainLinksUntilRoot | Heap.java:240-244 | every chain element but the last has the next one as its `mapLast`; only the last has none |
| PriorityHeap.Heap.constructor | Heap.java:24-99 | size 4; the start cell is closed and every other cell unvisited; slots 1..4 hold new start points scored from the Chebyshev distance plus 0..3 and searching the `SeedOrder` of the goal's bearing, with no `mapLast` or `mapNext` link; the heap is ordered |
| PriorityHeap.Heap.NewSeeds | Heap.java:33-98 | a new slot array, slot 0 empty, with the four start points in slots 1..4: at the start, scored `score` to `score + 3`, searching the directions of `order`, with no path links |
| PriorityHeap.Heap.NewSeed | Heap.java:33-36 | a new jump point at the start with the given score and direction and no `mapLast` or `mapNext` link |
| PriorityHeap.Heap.Remove | Heap.java:105-143 | returns the old root (non-null); size drops by one; the slots become `RemoveAsWritten` of the old slots; the contents lose exactly the returned point |
| PriorityHeap.Heap.MoveLastToRoot | Heap.java:106-107 | the last jump point takes the root's slot, its own slot is cleared, and the size drops by one |
| PriorityHeap.Heap.SiftDownFromRoot | Heap.java:110-140 | the loop leaves the slots as `SiftDownAsWritten` from slot 2 |
| PriorityHeap.Heap.Insert | Heap.java:153-207 | the cell's mark becomes `Mark` of the old one. When admitted, size grows by one, the slots become `InsertAsWritten` and the contents gain the new point. Otherwise slots and size are unchanged |
| PriorityHeap.Heap.SetMark | Heap.java:158 | one visited entry is replaced, no other |
| PriorityHeap.Heap.AppendAndSiftUp | Heap.java:165-182 | size grows by one; the slots become `InsertAsWritten`; the contents gain exactly the new point |
| PriorityHeap.Heap.SiftUpFromLast | Heap.java:167-182 | the loop leaves the slots as `SiftUpAsWritten` from slot `size-1` with that slot's score |
| PriorityHeap.Heap.InsertExisting | Heap.java:213-229 | size grows by one; the slots become `InsertExistingAsWritten`; the contents gain exactly the point put back |
| PriorityHeap.Heap.SiftUpExistingFromLast | Heap.java:215-228 | the loop leaves the slots as `SiftUpExistingAsWritten` from slot `size-1` |
| PriorityHeap.Heap.Retrace | Heap.java:238-246 | returns the chain's root, which has no `mapLast`; each chain element's `mapNext` becomes its successor on the chain; `jp`'s own `mapNext` is untouched; every chain element keeps its direction; nothing outside the chain is written |
| PriorityHeap.Heap.RetraceNoLink | Heap.java:253-265 | returns the root of the chain and writes nothing |
| PriorityHeap.Heap.Exchange | Heap.java:126-131 | two occupied slots are swapped |
| Nodes.Node.Copy | navigation/Node.java:16-23 | the copy shares links, location, waypoint, direction and score, and is in no queue |
| Nodes.Node.Seed | navigation/Node.java:30-34 | a node at the coordinates with no waypoint, no links and the given score |
| Nodes.Node.WithWaypoint | navigation/Node.java:42-46 | a node at the coordinates with the given waypoint and score, unlinked |
| Nodes.Node.Link | navigation/Node.java:48-55 | links the new node after `last` in both directions; of `last` only `mapNext` changes |
| Nodes.Node.DirectionTo | navigation/Node.java:67-82 | returns 1, 3, 5 or 7: 3 exactly when the target is east and south, 7 exactly when it is neither, 1 and 5 likewise |
| Nodes.Node.Bearing | navigation/Node.java:128-430 | an odd code in 1..15; 9 for a target due south and 1 otherwise on the node's north-south line |
| Nodes.Node.TraverseNode | navigation/Node.java:84-117 | the position array and waypoint become those `TraverseStep` gives; the same array is returned; links and direction are unchanged |
| Nodes.FourWaypointWalk | navigation/Node.java:96-105 | with two waypoint pairs the walk visits the second pair, then the first (shrinking the waypoint), then the location, then reports (-1,-1) |
| Nodes.TwoWaypointWalk | navigation/Node.java:86-95 | with one pair the walk visits it, clears the waypoint at the location, then reports (-1,-1) |
| Nodes.NoWaypointWalk | navigation/Node.java:106-113 | with no waypoint the walker goes to the location, or to (-1,-1) when already there |
| Nodes.WaypointsNeverGrow | navigation/Node.java:84-117 | any number of walk steps only shed waypoints |
| Nodes.WalkReachesLocation | navigation/Node.java:84-117 | from any position and waypoint the walker stands on the node's location within three steps |
| LinkedQueue.Skip | navigation/Queue.java:135-138 | the walk passes exactly the leading nodes scoring below the new one and stops at the first that does not |
| LinkedQueue.InsertPosition | navigation/Queue.java:130-141 | the new node goes to the front of an empty queue and never ahead of an existing front |
| LinkedQueue.SkipIsFirstStop | navigation/Queue.java:135-138 | any position that stops at the first score not below the new one is the walk's |
| LinkedQueue.InsertKeepsSorted | navigation/Queue.java:130-141 | inserting where the walk stops keeps a non-decreasing list non-decreasing |
| LinkedQueue.OfferKeepsTailSorted | navigation/Queue.java:130-141 | offer keeps the front and keeps the part behind it in score order |
| LinkedQueue.PathLinksUntilRoot | navigation/Queue.java:168-172 | every path element but the last has the next as `mapLast`; only the last has none |
| LinkedQueue.PathDistinct | navigation/Queue.java:167-175 | a `mapLast` path never meets a node twice |
| LinkedQueue.PathTailsDiffer | navigation/Queue.java:167-175 | two positions of a path hold different nodes |
| LinkedQueue.Queue.constructor | navigation/Queue.java:19-84 | a new table with only the start closed; four seeds at the start, all scored with the Chebyshev distance, in `SeedOrder` of the goal's bearing, linked front to last; `firstDiagonal` set |
| LinkedQueue.Queue.Heuristic | navigation/Queue.java:87-89 | non-negative, zero exactly at the goal, at least each coordinate gap and equal to one of them |
| LinkedQueue.Queue.Pop | navigation/Queue.java:95-108 | empty: null and still empty. Otherwise: the old front, and the queue loses exactly it. `firstDiagonal` is cleared exactly when the popped node has no `mapLast` |
| LinkedQueue.Queue.Offer | navigation/Queue.java:117-165 | the cell's mark becomes `Mark` of the old one. When admitted, a new node is scored with the heuristic, linked after `lastNode`, and inserted at `InsertPosition`, with no `mapNext` yet. Otherwise the queue, its nodes and `lastNode` are unchanged. Either way `firstDiagonal` is kept, queued nodes keep their path links, direction and waypoint (except `lastNode.mapNext`), and `lastNode` keeps its `mapLast`, direction and waypoint |
| LinkedQueue.Queue.Admit | navigation/Queue.java:120-141 | the cell's visited entry becomes the given mark, and a new node, with no `mapNext` yet, is linked after `lastNode` and queued at `InsertPosition`; `firstDiagonal` and every queued node's `mapLast`, direction and waypoint are kept, and so is every `mapNext` but `lastNode`'s |
| LinkedQueue.Queue.SetMark | navigation/Queue.java:122 | one visited entry is replaced, no other |
| LinkedQueue.Queue.Enqueue | navigation/Queue.java:130-141 | the queue becomes the old one with the node inserted at `InsertPosition`; path links are untouched |
| LinkedQueue.Queue.Splice | navigation/Queue.java:139-140 | the node is linked in right behind the `j`-th node |
| LinkedQueue.Queue.Retrace | navigation/Queue.java:167-175 | each path element's `mapNext` becomes its successor, and its direction, waypoint and `queueNext` are kept; returns a fresh copy of the root, outside any queue and with no `mapLast` |
| LinkedQueue.NewSeeds | navigation/Queue.java:24-84 | four fresh seeds at the start with the given score and directions, linked front to last |
| LinkedQueue.NewSeed | navigation/Queue.java:25-28 | one fresh seed with the given direction and queue successor |
| JumpPoints.JumpPoint.Copy | Refactor/JumpPoint.java:21-28 | shares links, location array, waypoint, direction and score; the distance starts at 0 |
| JumpPoints.JumpPoint.Trailing | Refactor/JumpPoint.java:30-39 | a point at `lastCoords` whose `mapLast` is a new point at a copy of `jp`'s coordinates, with no links of its own (no forward link back to the new point), an empty waypoint and zero score, distance and direction; the waypoint is `jp`'s |
| JumpPoints.JumpPoint.FromCoords | Refactor/JumpPoint.java:36-39 | a fresh copy of the coordinates, empty waypoint, no links |
| JumpPoints.JumpPoint.Scored | Refactor/JumpPoint.java:46-51 | `score == distance == s`, an empty waypoint, and a fresh copy of the coordinates |
| JumpPoints.JumpPoint.WithWaypoint | Refactor/JumpPoint.java:59-63 | the coordinates, waypoint and score given, unlinked |
| JumpPoints.JumpPoint.Link | Refactor/JumpPoint.java:74-82 | `last.mapNext` becomes the new point; direction, distance and score as given; nothing else of `last` changes |
| JumpPoints.JumpPoint.Move | Refactor/JumpPoint.java:84-120 | returns true exactly for codes 0..7 and moves the location one step that way; other codes leave it |
| JumpPoints.JumpPoint.DirectionTo | Refactor/JumpPoint.java:133-148 | returns 1, 3, 5 or 7, east exactly when the target is east and south exactly when it is south |
| JumpPoints.JumpPoint.Bearing | Refactor/JumpPoint.java:186-488 | an odd code in 1..15, 9 or 1 on the location's north-south line |
| JumpPoints.EqualsIsLocationEquality | Refactor/JumpPoint.java:150-157 | `equals` is false for null, reflexive, symmetric and transitive, true exactly when the locations match, and agrees with `equals(int[])` |
| Planner.DirectionTo | Navigation.java:218-252 | -1 exactly when the location is the target, otherwise a code in 0..7 |
| Planner.DiagonalStepClosesBothGaps | Navigation.java:224-250 | when both coordinates differ, the chosen step closes each gap by exactly one |
| Planner.AxisStepStalls | Navigation.java:225-232 | for a target due south or due east, the step as written leaves the Chebyshev distance unchanged |
| Planner.DueSouthGetsEast | Navigation.java:229 | from (0,0) toward (0,5) the code is 2 (east), and the distance stays 5 |
| Planner.IntendedDirectionTo | Navigation.java:218-252 | the corrected compass: -1 exactly at the target, otherwise a code in 0..7 |
| Planner.IntendedStepApproaches | Navigation.java:218-252 | each corrected step brings a distinct target exactly one step nearer |
| Planner.DirectionToSwapsAxisCodes | Navigation.java:225-232 | the code as written differs from the corrected one exactly for targets due south or due east, where 2 and 4 are swapped |
| Planner.Move | Navigation.java:254-286 | the same array is returned, moved one step for codes 0..7 and unchanged for any other code |
| Planner.GoalInSight | Navigation.java:343-371 | the goal test at one scan position: it can hold only when the goal shares the location's row or column |
| Planner.GoalInSightIsStraightReach | Navigation.java:343-371 | the goal test holds exactly when the goal is on the location's column within the column's walkable span, or on its row within the row's |
| Planner.RowSuccessor | Navigation.java:378-403 | no successor when `dX == -1`; one exactly when `dX >= 0` and `dX - voids >= -1` or `dX < -1` and `dX + voids < 0`, at the positions, waypoints and directions of the source; it is reached by a run along a row, and its distance is that run's signed length plus the diagonal and base distances |
| Planner.SuccessorsKeepScanHeading | Navigation.java:378-430 | a row successor searches an eastward diagonal from the location's row or the row south of it, south-east exactly on the location's row; a column successor searches a northward diagonal from the location's column or the column west of it, north-west exactly on the location's column |
| Planner.ColumnSuccessor | Navigation.java:405-430 | the same rule along the column, with direction 7 or 1, reached by a run up a column |
| Planner.NortheastStep | Navigation.java:374-434 | one scan step: the position moves one cell north-east, the diagonal count grows by one, and at most two successors are emitted |
| Planner.NortheastStepAdvances | Navigation.java:374-434 | a scan step moves one cell north-east, counts one diagonal step, keeps non-negative spans, and emits at most two successors, each along a row or a column with the distance accounting above |

## Left out

- `Navigation.getPath`'s search loop is not modelled as a loop. Its probes are bit-grid functions of the map (`NavTools`, `Map`), which is not part of this model, and its bounds rely on catching `ArrayIndexOutOfBoundsException`. The model covers one north-east scan step (`Planner.NortheastStep`) and the goal test.
- The empty-frontier exit of `getPath` (`searching = false`, return null) and the closing of the path when the goal is in sight depend on the loop. They are not modelled.
- The SE, SW and NW branches of the scan are not modelled. The NW branch's braces do not balance.
- The bytecode budget checks (`Clock.getBytecodesLeft`) and the console timing output are host scheduling and I/O. They are not modelled.
- `Navigation.run` and `tryMove` are not modelled. They are agent behaviour around the planner.
- `JumpPoint.sameBranch` is not modelled. It can dereference a null root and states no contract.
- `navigation/TestMaps.java` is fixture data.
- The `JumpPoint` class that `Heap.java` uses is not part of this model. The heap's jump point has `x`, `y`, `score`, `direction`, `mapLast` and `mapNext`.
  - Its two-argument `directionTo`, which picks the seed order, is taken to be the 16-point bearing. That is what the queue's `Node.directionTo(int[])` computes.
- `Heap.insert(JumpPoint)` refers to `xLoc`, `yLoc` and `direction`, which are not declared. They are modelled as the new point's `x`, `y` and `direction`.
- PriorityHeap.Heap.Insert: requires a heap of size at least 1 when the point is admitted. On an empty heap the source reads the score of the empty slot 0 and fails with a null dereference.
- PriorityHeap.Heap.Insert: requires room for the new point (`size + 1 < Capacity`) when it is admitted. On a full heap the source has already written the visited mark and incremented `size` when `points[++size]` throws `ArrayIndexOutOfBoundsException`, which `getPath` catches (Navigation.java:440). The model does not capture that exception, the mark left behind or the corrupted `size`.
- PriorityHeap.Heap.InsertExisting: requires room for the point (`size + 1 < Capacity`). On a full heap the source increments `size` and then throws at `points[++size]` (Heap.java:214). The model does not capture that exception or the corrupted `size`.
- PriorityHeap.Heap.Insert: states the slots after the insertion as written, not heap order. The as-written sift-up does not keep heap order (see Findings).
- PriorityHeap.Heap.InsertExisting: states the slots after the insertion as written, not heap order, for the same reason.
- PriorityHeap.Heap.Remove: states the slots after the removal as written, not heap order, for the same reason.
- Nodes.Node: the location is held as a `Point` value, because no method writes it. The copy constructor therefore shares a value, not an array.
- LinkedQueue.Queue.constructor: the seeds are built back to front, not front to back. The resulting links, directions and scores are the same as the source's.
- Navigation.java's `move` and `directionTo` take the location array. `Planner.DirectionTo` takes the location as a `Point`, because it only reads it.

## Findings

| source | as written | input that shows it | evidently intended | confidence | as-written member | corrected member |
|---|---|---|---|---|---|---|
| Heap.java:167 | the sift-up of `insert(JumpPoint)` starts at slot `size-1`, never comparing the new point with its parent | heap (1, 5), insert a point scored 0: the heap stays (1, 5, 0) | sift up from slot `size`, so the heap stays ordered | high, not executed | HeapSeq.InsertAsWrittenLosesOrder | HeapSeq.Push |
| Heap.java:215 | the sift-up of `insert(JumpPoint, boolean)` also starts at slot `size-1` | heap (1, 5), put back a point scored 0: the heap stays (1, 5, 0) | sift up from slot `size` | high, not executed | HeapSeq.InsertExistingAsWrittenLosesOrder | HeapSeq.Push |
| Heap.java:110-113 | the sift-down of `remove` runs only while the left child is below slot `size-1`, so a heap of three is never sifted | heap (1, 5, 6, 7), remove: the heap becomes (7, 5, 6) | sift down while a child is live | high, not executed | HeapSeq.RemoveAsWrittenLosesOrder | HeapSeq.Pop |
| Navigation.java:229-232 | `directionTo` returns 2 (east) for a target due south and 4 (south) for a target due east | from (0, 0) toward (0, 5): code 2, and the step to (1, 0) leaves the distance at 5 | 4 for due south and 2 for due east, so every step gets one cell nearer | high, not executed | Planner.AxisStepStalls | Planner.IntendedStepApproaches |
