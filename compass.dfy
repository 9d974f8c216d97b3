/**
 * Grid geometry shared by every part of the planner: points on the 256x256
 * grid, the linear cell index used by the visited tables, Java's truncating
 * integer division, the Chebyshev metric, the 8-direction step offsets, the
 * diagonal-only compass, the 16-point bearing and the order in which the four
 * start points of a search are seeded.
 *
 * Direction codes follow the source: 0 = N, 1 = NE, 2 = E, 3 = SE, 4 = S,
 * 5 = SW, 6 = W, 7 = NW, with y growing towards the south.
 */
module Compass {

  datatype Point = Point(x: int, y: int)

  /** Width and height of the grid the visited tables are sized for. */
  const GridSize: int := 256

  /** Number of entries of a visited table (and of the heap's slot array). */
  const Capacity: int := 65536

  predicate InGrid(p: Point) {
    0 <= p.x < GridSize && 0 <= p.y < GridSize
  }

  /** The linear index `y*256 + x` the source uses for its visited tables. */
  function Cell(p: Point): (c: int)
    requires InGrid(p)
    ensures 0 <= c < Capacity
    ensures c / GridSize == p.y && c % GridSize == p.x
  {
    p.y * GridSize + p.x
  }

  /** Two grid points share a visited entry only if they are the same point. */
  lemma CellInjective(p: Point, q: Point)
    requires InGrid(p) && InGrid(q)
    ensures Cell(p) == Cell(q) <==> p == q
  {
  }

  function Abs(n: int): nat {
    if n < 0 then -n else n
  }

  function Max(a: int, b: int): int {
    if a < b then b else a
  }

  /**
   * Java's `a / b` on int: the quotient truncated toward zero (Dafny's own
   * `/` is Euclidean and differs for negative operands).
   */
  function JavaDiv(a: int, b: int): int
    requires b != 0
  {
    var m := Abs(a) / Abs(b);
    if (a < 0) == (b < 0) then m else -m
  }

  /** The truncated quotient is the largest multiple of `b` not beyond `a` in magnitude, signed like `a*b`. */
  lemma JavaDivTruncates(a: int, b: int)
    requires b != 0
    ensures var q := JavaDiv(a, b);
      && Abs(q) * Abs(b) <= Abs(a) < (Abs(q) + 1) * Abs(b)
      && (q > 0 ==> (a > 0 <==> b > 0))
      && (q < 0 ==> (a > 0 <==> b < 0))
      && (a == 0 ==> q == 0)
  {
    var q, m := JavaDiv(a, b), Abs(a) / Abs(b);
    DivBounds(Abs(a), Abs(b));
    if (a < 0) == (b < 0) {
      assert q == m;
    } else {
      assert q == -m;
    }
    assert Abs(q) * Abs(b) == m * Abs(b);
  }

  lemma DivBounds(n: nat, d: nat)
    requires d > 0
    ensures (n / d) * d <= n < (n / d + 1) * d
    ensures n / d > 0 ==> n >= d
  {
    var m, r := n / d, n % d;
    assert n == m * d + r;
    assert (m + 1) * d == m * d + d;
    if m > 0 {
      assert m * d >= d;
    }
  }

  /** Java's quotient differs from Dafny's exactly when a negative dividend leaves a remainder. */
  lemma JavaDivVersusEuclidean(a: int, b: int)
    requires b > 0
    ensures JavaDiv(a, b) == if a >= 0 || a % b == 0 then a / b else a / b + 1
  {
    if a < 0 {
      var m, r := (-a) / b, (-a) % b;
      assert JavaDiv(a, b) == -m;
      if r == 0 {
        DivUnique(a, b, -m, 0);
      } else {
        DivUnique(a, b, -m - 1, b - r);
      }
    }
  }

  /** Euclidean division is determined by `a == q*b + r` with `0 <= r < b`. */
  lemma DivUnique(a: int, b: int, q: int, r: int)
    requires b > 0 && 0 <= r < b && a == q * b + r
    ensures a / b == q && a % b == r
  {
    var d := q - (a / b);
    assert d * b == a % b - r;
    MulSign(d, b);
  }

  lemma MulSign(d: int, b: int)
    requires b > 0
    ensures d >= 1 ==> d * b >= b
    ensures d <= -1 ==> d * b <= -b
  {
    if d >= 1 {
      assert d * b == (d - 1) * b + b;
    } else if d <= -1 {
      assert d * b == (d + 1) * b - b;
    }
  }

  /** The Chebyshev distance `max(|dx|, |dy|)`: the number of 8-way steps between two points. */
  function Chebyshev(a: Point, b: Point): (d: nat)
    ensures d == 0 <==> a == b
    ensures Abs(a.x - b.x) <= d && Abs(a.y - b.y) <= d
  {
    Max(Abs(a.x - b.x), Abs(a.y - b.y))
  }

  /** The Chebyshev distance is a metric: symmetric, and the triangle inequality holds. */
  lemma ChebyshevMetric(a: Point, b: Point, c: Point)
    ensures Chebyshev(a, b) == Chebyshev(b, a)
    ensures Chebyshev(a, c) <= Chebyshev(a, b) + Chebyshev(b, c)
  {
  }

  /** Offset of one step in compass direction `d`; no offset for a code outside 0..7. */
  function Offset(d: int): (o: Point)
    ensures 0 <= d < 8 ==> Chebyshev(Point(0, 0), o) == 1
    ensures 0 <= d < 8 ==> (d % 2 == 1 <==> o.x != 0 && o.y != 0)
    ensures !(0 <= d < 8) ==> o == Point(0, 0)
  {
    match d
    case 0 => Point(0, -1)
    case 1 => Point(1, -1)
    case 2 => Point(1, 0)
    case 3 => Point(1, 1)
    case 4 => Point(0, 1)
    case 5 => Point(-1, 1)
    case 6 => Point(-1, 0)
    case 7 => Point(-1, -1)
    case _ => Point(0, 0)
  }

  /** The point one step from `p` in direction `d` (`p` itself for a code outside 0..7). */
  function Step(p: Point, d: int): Point {
    Point(p.x + Offset(d).x, p.y + Offset(d).y)
  }

  /** Turning two codes clockwise turns the step offset by a quarter. */
  lemma OffsetRotates(d: int)
    requires 0 <= d < 8
    ensures Offset((d + 2) % 8) == Point(-Offset(d).y, Offset(d).x)
  {
  }

  /** A step followed by a step in the opposite direction returns to the start. */
  lemma StepInverse(p: Point, d: int)
    requires 0 <= d < 8
    ensures Step(Step(p, d), (d + 4) % 8) == p
  {
  }

  /** One step changes the Chebyshev distance to any target by at most one. */
  lemma StepChangesDistanceByAtMostOne(p: Point, d: int, target: Point)
    ensures Chebyshev(p, target) - 1 <= Chebyshev(Step(p, d), target) <= Chebyshev(p, target) + 1
  {
    var o := Offset(d);
    assert -1 <= o.x <= 1 && -1 <= o.y <= 1;
  }

  /**
   * The diagonal-only compass of `directionTo(x, y)`: the diagonal code
   * (1, 3, 5 or 7) whose step goes east exactly when the target lies east of
   * `from`, and south exactly when the target lies south of it.
   */
  function Diagonal(from: Point, to: Point): (r: int)
    ensures r in {1, 3, 5, 7}
    ensures Offset(r).x > 0 <==> to.x > from.x
    ensures Offset(r).y > 0 <==> to.y > from.y
  {
    if from.x - to.x < 0 then
      if from.y - to.y < 0 then 3 else 1
    else if from.y - to.y < 0 then 5
    else 7
  }

  /**
   * The 16-point bearing of `directionTo(int[])`: NNE = 1, ENE = 3, ESE = 5,
   * SSE = 7, SSW = 9, WSW = 11, WNW = 13, NNW = 15, chosen from the truncated
   * quotient dy/dx.
   */
  function Bearing16(from: Point, to: Point): (r: int)
    ensures r % 2 == 1 && 1 <= r <= 15
    ensures from.x == to.x ==> r == if from.y - to.y < 0 then 9 else 1
  {
    var dx := from.x - to.x;
    var dy := from.y - to.y;
    if dx != 0 then
      var q := JavaDiv(dy, dx);
      if -256 <= q <= -1 then
        if dy < 0 then 9 else 1
      else if q == 0 then
        if dx < 0 then (if dy < 0 then 5 else 3)
        else if dy < 0 then 11 else 13
      else if dx < 0 then 7 else 15
    else if dy < 0 then 9 else 1
  }

  /** Circular distance between two positions on the 16-point compass rose. */
  function RingDistance16(a: int, b: int): (d: int)
    ensures 0 <= d <= 8
  {
    var m := (a - b) % 16;
    if m <= 8 then m else 16 - m
  }

  /** The directions of the four start points, best first. */
  function SeedOrder(bearing: int): (r: seq<int>)
    ensures |r| == 4
  {
    if bearing == 1 then [1, 7, 3, 5]
    else if bearing == 3 then [1, 3, 7, 5]
    else if bearing == 5 then [3, 1, 5, 7]
    else if bearing == 7 then [3, 5, 1, 7]
    else if bearing == 9 then [5, 3, 7, 1]
    else if bearing == 11 then [5, 7, 3, 1]
    else if bearing == 13 then [7, 5, 1, 3]
    else [7, 1, 5, 3]
  }

  /**
   * Whatever the bearing, the four start points search the four diagonals,
   * each exactly once: every diagonal occurs and no two seeds share one.
   */
  lemma SeedOrderIsPermutation(bearing: int)
    ensures var r := SeedOrder(bearing);
      && (forall d :: d in r <==> d in {1, 3, 5, 7})
      && (forall i, j :: 0 <= i < j < 4 ==> r[i] != r[j])
  {
  }

  /** The four diagonals of `r` lie at rose distances 1, 3, 5 and 7 from `bearing`, in that order. */
  predicate RankedByDistance(bearing: int, r: seq<int>)
    requires |r| == 4
  {
    && RingDistance16(bearing, 2 * r[0]) == 1
    && RingDistance16(bearing, 2 * r[1]) == 3
    && RingDistance16(bearing, 2 * r[2]) == 5
    && RingDistance16(bearing, 2 * r[3]) == 7
  }

  /**
   * Diagonal `d` sits at position `2*d` of the 16-point rose, so for every
   * bearing the start points come in increasing distance from it.
   */
  lemma SeedOrderByDistance(bearing: int)
    requires bearing in {1, 3, 5, 7, 9, 11, 13, 15}
    ensures RankedByDistance(bearing, SeedOrder(bearing))
  {
    if bearing == 1 { assert RankedByDistance(1, [1, 7, 3, 5]); }
    else if bearing == 3 { assert RankedByDistance(3, [1, 3, 7, 5]); }
    else if bearing == 5 { assert RankedByDistance(5, [3, 1, 5, 7]); }
    else if bearing == 7 { assert RankedByDistance(7, [3, 5, 1, 7]); }
    else if bearing == 9 { assert RankedByDistance(9, [5, 3, 7, 1]); }
    else if bearing == 11 { assert RankedByDistance(11, [5, 7, 3, 1]); }
    else if bearing == 13 { assert RankedByDistance(13, [7, 5, 1, 3]); }
    else { assert RankedByDistance(15, [7, 1, 5, 3]); }
  }

  /**
   * On the grid, the first start point searches toward the goal: unless the
   * goal is due north or south, its direction is the diagonal compass's.
   */
  lemma FirstSeedFacesGoal(from: Point, to: Point)
    requires InGrid(from) && InGrid(to) && from.x != to.x
    ensures SeedOrder(Bearing16(from, to))[0] == Diagonal(from, to)
  {
    BearingQuadrant(from, to);
  }

  /**
   * Off the north-south line, the bearing's half tells east from west and
   * its quarter tells south from north, as the diagonal compass does.
   */
  lemma BearingQuadrant(from: Point, to: Point)
    requires InGrid(from) && InGrid(to) && from.x != to.x
    ensures var b := Bearing16(from, to);
      && (b <= 7 <==> to.x > from.x)
      && (5 <= b <= 11 <==> to.y > from.y)
  {
    var dx := from.x - to.x;
    var dy := from.y - to.y;
    var q := JavaDiv(dy, dx);
    JavaDivTruncates(dy, dx);
    QuotientBound(q, dx, dy);
    assert -256 <= q;
  }

  /**
   * Off the north-south line, the bearing names the steep code of its
   * quadrant (NNE, SSE, SSW or NNW) exactly when the goal is at least as far
   * away north-south as east-west; otherwise it names the shallow one.
   */
  lemma BearingOctant(from: Point, to: Point)
    requires from.x != to.x
    ensures Bearing16(from, to) in {1, 7, 9, 15} <==> Abs(from.y - to.y) >= Abs(from.x - to.x)
  {
    BearingSteepWhenQuotientNonzero(from, to);
    JavaDivZero(from.y - to.y, from.x - to.x);
  }

  /** The bearing is a steep code exactly when the truncated quotient `dy/dx` is not 0. */
  lemma BearingSteepWhenQuotientNonzero(from: Point, to: Point)
    requires from.x != to.x
    ensures Bearing16(from, to) in {1, 7, 9, 15} <==> JavaDiv(from.y - to.y, from.x - to.x) != 0
  {
  }

  /** The truncated quotient is 0 exactly when the dividend is smaller in magnitude than the divisor. */
  lemma JavaDivZero(a: int, b: int)
    requires b != 0
    ensures JavaDiv(a, b) == 0 <==> Abs(a) < Abs(b)
  {
    var q := JavaDiv(a, b);
    JavaDivTruncates(a, b);
    if q != 0 {
      assert Abs(q) * Abs(b) >= Abs(b);
    }
  }

  /**
   * The input where truncation decides the code: a goal two west and one
   * south gives the truncated quotient 0 and WSW (11), where the Euclidean
   * quotient -1 would have given SSW (9).
   */
  lemma ShallowSouthwestIsWestSouthwest()
    ensures JavaDiv(-1, 2) == 0 && -1 / 2 == -1
    ensures Bearing16(Point(2, 0), Point(0, 1)) == 11
  {
  }

  lemma QuotientBound(q: int, dx: int, dy: int)
    requires dx != 0 && Abs(q) * Abs(dx) <= Abs(dy)
    ensures Abs(q) <= Abs(dy)
  {
    assert Abs(q) * Abs(dx) >= Abs(q) * 1;
  }

  /** The last start point searches the diagonal opposite to the first. */
  lemma LastSeedOpposesFirst(bearing: int)
    ensures SeedOrder(bearing)[3] == (SeedOrder(bearing)[0] + 4) % 8
  {
    if bearing == 1 { assert SeedOrder(bearing) == [1, 7, 3, 5] && (1 + 4) % 8 == 5; }
    else if bearing == 3 { assert SeedOrder(bearing) == [1, 3, 7, 5] && (1 + 4) % 8 == 5; }
    else if bearing == 5 { assert SeedOrder(bearing) == [3, 1, 5, 7] && (3 + 4) % 8 == 7; }
    else if bearing == 7 { assert SeedOrder(bearing) == [3, 5, 1, 7] && (3 + 4) % 8 == 7; }
    else if bearing == 9 { assert SeedOrder(bearing) == [5, 3, 7, 1] && (5 + 4) % 8 == 1; }
    else if bearing == 11 { assert SeedOrder(bearing) == [5, 7, 3, 1] && (5 + 4) % 8 == 1; }
    else if bearing == 13 { assert SeedOrder(bearing) == [7, 5, 1, 3] && (7 + 4) % 8 == 3; }
    else { assert SeedOrder(bearing) == [7, 1, 5, 3] && (7 + 4) % 8 == 3; }
  }
}
