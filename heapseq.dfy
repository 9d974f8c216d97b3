/**
 * The slot-array algorithms of the jump-point heap, stated on sequences.
 *
 * The heap is 1-based: slot 0 is unused and slots 1..n hold the elements,
 * the children of slot k being 2k and 2k+1. Each function is generic in the
 * element type and takes the priority as a `key` function, so the same
 * definition describes the heap of jump points and small integer examples.
 *
 * The `AsWritten` functions follow the swap loops of the heap class line by
 * line; `SiftUp`, `Push`, `SiftDown` and `Pop` are the textbook versions,
 * proved to keep heap order.
 */
module HeapSeq {

  /** The elements of a heap of size `n`: slots 1..n. */
  function Live<T>(s: seq<T>, n: int): seq<T>
    requires 0 <= n < |s|
  {
    s[1..n + 1]
  }

  /** Every parent's key is at most its child's: the root holds a minimum. */
  predicate Ordered<T>(s: seq<T>, n: int, key: T -> int)
    requires n < |s|
  {
    forall k :: 2 <= k <= n ==> key(s[k / 2]) <= key(s[k])
  }

  function Swap<T>(s: seq<T>, i: int, j: int): (r: seq<T>)
    requires 0 <= i < |s| && 0 <= j < |s|
    ensures |r| == |s| && r[i] == s[j] && r[j] == s[i]
    ensures forall k :: 0 <= k < |s| && k != i && k != j ==> r[k] == s[k]
  {
    s[i := s[j]][j := s[i]]
  }

  /** Exchanging two live slots leaves the heap's elements as they were. */
  lemma SwapKeepsLive<T>(s: seq<T>, i: int, j: int, n: int)
    requires 1 <= i <= n && 1 <= j <= n && n < |s|
    ensures multiset(Live(Swap(s, i, j), n)) == multiset(Live(s, n))
  {
    var w := Live(s, n);
    assert Live(Swap(s, i, j), n) == w[i - 1 := w[j - 1]][j - 1 := w[i - 1]];
  }

  /**
   * The sift-up of `insert(JumpPoint)` as written: it starts from slot `i`
   * with the comparison key `key1`, stops once `i <= 2`, and after a swap
   * carries on with the key of the parent that moved down.
   */
  function SiftUpAsWritten<T>(s: seq<T>, n: int, i: int, key1: int, key: T -> int): (r: seq<T>)
    requires 0 <= i <= n < |s|
    ensures |r| == |s| && r[0] == s[0]
    ensures forall k :: i < k < |s| ==> r[k] == s[k]
    ensures multiset(Live(r, n)) == multiset(Live(s, n))
    decreases i
  {
    if i <= 2 then s
    else
      var p := i / 2;
      var key2 := key(s[p]);
      if key1 < key2 then
        SwapKeepsLive(s, p, i, n);
        SiftUpAsWritten(Swap(s, p, i), n, p, key2, key)
      else s
  }

  /**
   * `insert(JumpPoint)` on the slots: the new element goes to slot n+1 and
   * the sift-up starts at slot n with that slot's key.
   */
  function InsertAsWritten<T>(s: seq<T>, n: int, x: T, key: T -> int): (r: seq<T>)
    requires 1 <= n && n + 1 < |s|
    ensures |r| == |s| && r[0] == s[0] && r[n + 1] == x
    ensures forall k :: n + 1 < k < |s| ==> r[k] == s[k]
    ensures multiset(Live(r, n + 1)) == multiset(Live(s, n)) + multiset{x}
  {
    var t := s[n + 1 := x];
    assert Live(t, n + 1) == Live(s, n) + [x];
    SiftUpAsWritten(t, n + 1, n, key(t[n]), key)
  }

  /** The sift-up of `insert(JumpPoint, boolean)` as written: it compares the keys of the two slots. */
  function SiftUpExistingAsWritten<T>(s: seq<T>, n: int, i: int, key: T -> int): (r: seq<T>)
    requires 0 <= i <= n < |s|
    ensures |r| == |s| && r[0] == s[0]
    ensures forall k :: i < k < |s| ==> r[k] == s[k]
    ensures multiset(Live(r, n)) == multiset(Live(s, n))
    decreases i
  {
    if i <= 2 then s
    else
      var p := i / 2;
      if key(s[i]) < key(s[p]) then
        SwapKeepsLive(s, p, i, n);
        SiftUpExistingAsWritten(Swap(s, p, i), n, p, key)
      else s
  }

  /** `insert(JumpPoint, boolean)` on the slots. */
  function InsertExistingAsWritten<T>(s: seq<T>, n: int, x: T, key: T -> int): (r: seq<T>)
    requires 0 <= n && n + 1 < |s|
    ensures |r| == |s| && r[0] == s[0] && r[n + 1] == x
    ensures forall k :: n + 1 < k < |s| ==> r[k] == s[k]
    ensures multiset(Live(r, n + 1)) == multiset(Live(s, n)) + multiset{x}
  {
    var t := s[n + 1 := x];
    assert Live(t, n + 1) == Live(s, n) + [x];
    SiftUpExistingAsWritten(t, n + 1, n, key)
  }

  /**
   * The sift-down of `remove` as written, for a heap of size `n`: `i` is the
   * left child under inspection and the loop runs while `i < n - 1`, so the
   * right child is always a live slot below n.
   */
  function SiftDownAsWritten<T>(s: seq<T>, n: int, i: int, key: T -> int): (r: seq<T>)
    requires 2 <= i && 0 <= n < |s|
    ensures |r| == |s| && r[0] == s[0]
    ensures forall k :: n <= k < |s| ==> r[k] == s[k]
    ensures multiset(Live(r, n)) == multiset(Live(s, n))
    decreases n - i
  {
    if i >= n - 1 then s
    else
      var p := i / 2;
      var left, right, parent := key(s[i]), key(s[i + 1]), key(s[p]);
      // The child swapped with the parent: the left one, else the right one, else none (0).
      var c := if left < right && left < parent then i else if right < parent then i + 1 else 0;
      if c == 0 then s
      else
        SwapKeepsLive(s, c, p, n);
        SiftDownAsWritten(Swap(s, c, p), n, c * 2, key)
  }

  /** One iteration of the as-written sift-down, as the loop of `remove` takes it. */
  lemma SiftDownAsWrittenStep<T>(s: seq<T>, n: int, i: int, key: T -> int)
    requires 2 <= i < n - 1 && n < |s|
    ensures var p := i / 2;
      SiftDownAsWritten(s, n, i, key) ==
        if key(s[i]) < key(s[i + 1]) && key(s[i]) < key(s[p]) then SiftDownAsWritten(Swap(s, i, p), n, i * 2, key)
        else if key(s[i + 1]) < key(s[p]) then SiftDownAsWritten(Swap(s, i + 1, p), n, (i + 1) * 2, key)
        else s
  {
  }

  /**
   * `remove` on the slots of a heap of size `n`: the last element moves to
   * the root, its old slot is cleared to `empty`, and the sift-down starts
   * at the root's left child.
   */
  function RemoveAsWritten<T>(s: seq<T>, n: int, empty: T, key: T -> int): (r: seq<T>)
    requires 1 <= n < |s|
    ensures |r| == |s| && r[0] == s[0] && r[n] == empty
    ensures forall k :: n < k < |s| ==> r[k] == s[k]
    ensures multiset(Live(r, n - 1)) + multiset{s[1]} == multiset(Live(s, n))
  {
    var t := s[1 := s[n]][n := empty];
    RootReplacedByLast(s, n, empty);
    SiftDownAsWritten(t, n - 1, 2, key)
  }

  lemma RootReplacedByLast<T>(s: seq<T>, n: int, empty: T)
    requires 1 <= n < |s|
    ensures multiset(Live(s[1 := s[n]][n := empty], n - 1)) + multiset{s[1]} == multiset(Live(s, n))
  {
    var t := s[1 := s[n]][n := empty];
    if n >= 2 {
      assert Live(s, n) == [s[1]] + s[2..n] + [s[n]];
      assert Live(t, n - 1) == [s[n]] + s[2..n];
    } else {
      assert Live(s, n) == [s[1]];
    }
  }

  /** In an ordered heap the root's key is the least of all. */
  lemma {:induction false} RootIsMinimum<T>(s: seq<T>, n: int, key: T -> int, k: int)
    requires n < |s| && Ordered(s, n, key) && 1 <= k <= n
    ensures key(s[1]) <= key(s[k])
    decreases k
  {
    if k > 1 {
      RootIsMinimum(s, n, key, k / 2);
    }
  }

  /** Heap order holds everywhere except on the edge from slot `i` up to its parent. */
  predicate OrderedExceptUp<T>(s: seq<T>, n: int, i: int, key: T -> int)
    requires 1 <= i <= n < |s|
  {
    && (forall k :: 2 <= k <= n && k != i ==> key(s[k / 2]) <= key(s[k]))
    && (i >= 2 ==> forall k :: 2 <= k <= n && k / 2 == i ==> key(s[i / 2]) <= key(s[k]))
  }

  lemma SiftUpStep<T>(s: seq<T>, n: int, i: int, key: T -> int)
    requires 2 <= i <= n < |s| && key(s[i]) < key(s[i / 2])
    ensures OrderedExceptUp(s, n, i, key) ==> OrderedExceptUp(Swap(s, i / 2, i), n, i / 2, key)
  {
    if !OrderedExceptUp(s, n, i, key) {
      return;
    }
    var p := i / 2;
    var t := Swap(s, p, i);
    forall k | 2 <= k <= n && k != p
      ensures key(t[k / 2]) <= key(t[k])
    {
      if k == i {
      } else if k / 2 == i {
        assert t[k] == s[k];
      } else if k / 2 == p {
        assert key(s[p]) <= key(s[k]);
      } else {
        assert t[k] == s[k] && t[k / 2] == s[k / 2];
      }
    }
    if p >= 2 {
      forall k | 2 <= k <= n && k / 2 == p
        ensures key(t[p / 2]) <= key(t[k])
      {
        assert t[p / 2] == s[p / 2] && key(s[p / 2]) <= key(s[p]);
        if k != i {
          assert t[k] == s[k] && key(s[p]) <= key(s[k]);
        }
      }
    }
  }

  /** The textbook sift-up: it moves the element at slot `i` up while it is smaller than its parent. */
  function SiftUp<T>(s: seq<T>, n: int, i: int, key: T -> int): (r: seq<T>)
    requires 1 <= i <= n < |s|
    ensures |r| == |s| && r[0] == s[0]
    ensures forall k :: n < k < |s| ==> r[k] == s[k]
    ensures multiset(Live(r, n)) == multiset(Live(s, n))
    ensures OrderedExceptUp(s, n, i, key) ==> Ordered(r, n, key)
    decreases i
  {
    if i == 1 then s
    else
      var p := i / 2;
      if key(s[i]) < key(s[p]) then
        SwapKeepsLive(s, p, i, n);
        SiftUpStep(s, n, i, key);
        SiftUp(Swap(s, p, i), n, p, key)
      else s
  }

  /** Insertion as evidently intended: append at slot n+1 and sift up from there. */
  function Push<T>(s: seq<T>, n: int, x: T, key: T -> int): (r: seq<T>)
    requires 0 <= n && n + 1 < |s| && Ordered(s, n, key)
    ensures |r| == |s| && r[0] == s[0]
    ensures forall k :: n + 1 < k < |s| ==> r[k] == s[k]
    ensures multiset(Live(r, n + 1)) == multiset(Live(s, n)) + multiset{x}
    ensures Ordered(r, n + 1, key)
  {
    var t := s[n + 1 := x];
    assert Live(t, n + 1) == Live(s, n) + [x];
    assert OrderedExceptUp(t, n + 1, n + 1, key) by {
      forall k | 2 <= k <= n + 1 && k != n + 1
        ensures key(t[k / 2]) <= key(t[k])
      {
        assert t[k] == s[k] && t[k / 2] == s[k / 2];
      }
    }
    SiftUp(t, n + 1, n + 1, key)
  }

  /** Heap order holds everywhere except on the edges from slot `i` down to its children. */
  predicate OrderedExceptDown<T>(s: seq<T>, n: int, i: int, key: T -> int)
    requires 1 <= i && n < |s|
  {
    && (forall k :: 2 <= k <= n && k / 2 != i ==> key(s[k / 2]) <= key(s[k]))
    && (2 <= i <= n ==> forall k :: 2 <= k <= n && k / 2 == i ==> key(s[i / 2]) <= key(s[k]))
  }

  /** The child of slot `i` with the smaller key (the left one on a tie). */
  function SmallerChild<T>(s: seq<T>, n: int, i: int, key: T -> int): (m: int)
    requires 1 <= i && 2 * i <= n < |s|
    ensures m / 2 == i && 2 <= m <= n
    ensures forall k :: 2 <= k <= n && k / 2 == i ==> key(s[m]) <= key(s[k])
  {
    if 2 * i + 1 <= n && key(s[2 * i + 1]) < key(s[2 * i]) then 2 * i + 1 else 2 * i
  }

  lemma SiftDownStep<T>(s: seq<T>, n: int, i: int, key: T -> int)
    requires 1 <= i && 2 * i <= n < |s| && key(s[SmallerChild(s, n, i, key)]) < key(s[i])
    ensures OrderedExceptDown(s, n, i, key) ==>
              OrderedExceptDown(Swap(s, i, SmallerChild(s, n, i, key)), n, SmallerChild(s, n, i, key), key)
  {
    if !OrderedExceptDown(s, n, i, key) {
      return;
    }
    var m := SmallerChild(s, n, i, key);
    var t := Swap(s, i, m);
    forall k | 2 <= k <= n && k / 2 != m
      ensures key(t[k / 2]) <= key(t[k])
    {
      if k == m {
      } else if k / 2 == i {
        assert t[k] == s[k];
      } else if k == i {
        assert t[i / 2] == s[i / 2];
      } else {
        assert t[k] == s[k] && t[k / 2] == s[k / 2];
      }
    }
    forall k | 2 <= k <= n && k / 2 == m
      ensures key(t[m / 2]) <= key(t[k])
    {
      assert t[k] == s[k] && key(s[m]) <= key(s[k]);
    }
  }

  /** The textbook sift-down: it moves the element at slot `i` down while a child is smaller. */
  function SiftDown<T>(s: seq<T>, n: int, i: int, key: T -> int): (r: seq<T>)
    requires 1 <= i && 0 <= n < |s|
    ensures |r| == |s| && r[0] == s[0]
    ensures forall k :: n < k < |s| ==> r[k] == s[k]
    ensures multiset(Live(r, n)) == multiset(Live(s, n))
    ensures OrderedExceptDown(s, n, i, key) ==> Ordered(r, n, key)
    decreases n - i
  {
    if 2 * i > n then s
    else
      var m := SmallerChild(s, n, i, key);
      if key(s[m]) < key(s[i]) then
        SwapKeepsLive(s, i, m, n);
        SiftDownStep(s, n, i, key);
        SiftDown(Swap(s, i, m), n, m, key)
      else s
  }

  /** Removal as evidently intended: the last element moves to the root and sifts down through every slot. */
  function Pop<T>(s: seq<T>, n: int, empty: T, key: T -> int): (r: seq<T>)
    requires 1 <= n < |s| && Ordered(s, n, key)
    ensures |r| == |s| && r[0] == s[0] && r[n] == empty
    ensures forall k :: n < k < |s| ==> r[k] == s[k]
    ensures multiset(Live(r, n - 1)) + multiset{s[1]} == multiset(Live(s, n))
    ensures Ordered(r, n - 1, key)
  {
    var t := s[1 := s[n]][n := empty];
    RootReplacedByLast(s, n, empty);
    assert OrderedExceptDown(t, n - 1, 1, key) by {
      forall k | 2 <= k <= n - 1 && k / 2 != 1
        ensures key(t[k / 2]) <= key(t[k])
      {
        assert t[k] == s[k] && t[k / 2] == s[k / 2];
      }
    }
    SiftDown(t, n - 1, 1, key)
  }

  function Id(x: int): int { x }

  /**
   * `insert(JumpPoint)` can leave the heap unordered: inserting key 0 into
   * the ordered heap (1, 5) leaves 0 at slot 3 under the root's 1.
   */
  lemma InsertAsWrittenLosesOrder()
    ensures Ordered([0, 1, 5, 0], 2, Id)
    ensures !Ordered(InsertAsWritten([0, 1, 5, 0], 2, 0, Id), 3, Id)
    ensures Ordered(Push([0, 1, 5, 0], 2, 0, Id), 3, Id)
  {
    var r := InsertAsWritten([0, 1, 5, 0], 2, 0, Id);
    assert r == SiftUpAsWritten([0, 1, 5, 0], 3, 2, 5, Id) == [0, 1, 5, 0];
    assert Id(r[3 / 2]) > Id(r[3]);
  }

  /**
   * `insert(JumpPoint, boolean)` can leave the heap unordered in the same
   * way: the point put back at slot 3 is never compared with its parent.
   */
  lemma InsertExistingAsWrittenLosesOrder()
    ensures Ordered([0, 1, 5, 0], 2, Id)
    ensures !Ordered(InsertExistingAsWritten([0, 1, 5, 0], 2, 0, Id), 3, Id)
    ensures Ordered(Push([0, 1, 5, 0], 2, 0, Id), 3, Id)
  {
    var r := InsertExistingAsWritten([0, 1, 5, 0], 2, 0, Id);
    assert r == SiftUpExistingAsWritten([0, 1, 5, 0], 3, 2, Id) == [0, 1, 5, 0];
    assert Id(r[3 / 2]) > Id(r[3]);
  }

  /**
   * `remove` can leave the heap unordered: removing from the ordered heap
   * (1, 5, 6, 7) puts 7 at the root and never compares it with its children.
   */
  lemma RemoveAsWrittenLosesOrder()
    ensures Ordered([0, 1, 5, 6, 7], 4, Id)
    ensures !Ordered(RemoveAsWritten([0, 1, 5, 6, 7], 4, 0, Id), 3, Id)
    ensures Ordered(Pop([0, 1, 5, 6, 7], 4, 0, Id), 3, Id)
  {
    var r := RemoveAsWritten([0, 1, 5, 6, 7], 4, 0, Id);
    assert r == SiftDownAsWritten([0, 7, 5, 6, 0], 3, 2, Id) == [0, 7, 5, 6, 0];
    assert Id(r[2 / 2]) > Id(r[2]);
  }
}
