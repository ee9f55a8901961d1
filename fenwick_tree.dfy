/** A growable Fenwick (binary indexed) tree over count positions 0..Size()-1.
    The node vector `tree` is a sequence field the methods reassign (the C++
    `std::vector` that is resized and written in place).  The logical content is the ghost
    sequence `counts`; node i (1 <= i <= Size()) holds the sum of the counts at
    positions i - Lowbit(i) .. i - 1, and tree[0] is never used. */
module Fenwick {
  import opened PrefixSums
  import opened LowBits

  /** What node i stands for: the counts at positions i - Lowbit(i) .. i - 1. */
  ghost function Node(c: seq<int>, i: nat): (r: int)
    requires 1 <= i <= |c|
  {
    SumRange(c, i - Lowbit(i), i)
  }

  /** Nodes 1..k of t hold the sums they stand for. */
  ghost predicate Nodes(t: seq<int>, c: seq<int>, k: nat) {
    k <= |c| < |t| &&
    forall i :: 1 <= i <= k ==> t[i] == Node(c, i)
  }

  /** The state of Add's update loop over nodes t, when the counts c0 became c
      by raising position idx by x: node i covers idx, the nodes below i already
      hold their sums over c, and the nodes from i on still hold their sums over c0. */
  ghost predicate Climb(t: seq<int>, c0: seq<int>, c: seq<int>, idx: nat, i: nat) {
    |t| == |c0| + 1 && |c| == |c0| &&
    1 <= i && i - Lowbit(i) <= idx < i &&
    (forall j :: 1 <= j < i && j <= |c| ==> t[j] == Node(c, j)) &&
    (forall j :: i <= j <= |c0| ==> t[j] == Node(c0, j))
  }

  /** One step of the update loop: node i gains x, the nodes strictly between i
      and i + Lowbit(i) do not cover idx, and the next node on the chain does. */
  lemma ClimbStep(t: seq<int>, c0: seq<int>, c: seq<int>, idx: nat, x: int, i: nat)
    requires idx < |c0| && c == c0[idx := c0[idx] + x]
    requires Climb(t, c0, c, idx, i) && i <= |c0|
    ensures Climb(t[i := t[i] + x], c0, c, idx, i + Lowbit(i))
  {
    LowbitNext(i);
    ClimbBelow(t, c0, c, idx, x, i);
  }

  /** After the step, every node below the next one on the chain holds its sum
      over the new counts. */
  lemma ClimbBelow(t: seq<int>, c0: seq<int>, c: seq<int>, idx: nat, x: int, i: nat)
    requires idx < |c0| && c == c0[idx := c0[idx] + x]
    requires Climb(t, c0, c, idx, i) && i <= |c0|
    ensures forall j :: 1 <= j < i + Lowbit(i) && j <= |c| ==> t[i := t[i] + x][j] == Node(c, j)
  {
    NodeRaised(c0, idx, x, i);
    forall j | i < j < i + Lowbit(i) && j <= |c0|
      ensures Node(c, j) == Node(c0, j)
    {
      LowbitInside(i, j - i);
      NodeUntouched(c0, idx, x, j);
    }
  }

  /** A node covering idx gains x when the count at idx does. */
  lemma NodeRaised(c0: seq<int>, idx: nat, x: int, i: nat)
    requires idx < |c0| && 1 <= i <= |c0| && i - Lowbit(i) <= idx < i
    ensures Node(c0[idx := c0[idx] + x], i) == Node(c0, i) + x
  {
    SumRangeUpdate(c0, idx, x, i - Lowbit(i), i);
  }

  /** A node not covering idx keeps its sum when the count at idx changes. */
  lemma NodeUntouched(c0: seq<int>, idx: nat, x: int, j: nat)
    requires idx < |c0| && 1 <= j <= |c0| && !(j - Lowbit(j) <= idx < j)
    ensures Node(c0[idx := c0[idx] + x], j) == Node(c0, j)
  {
    SumRangeUpdate(c0, idx, x, j - Lowbit(j), j);
  }

  /** The state of UpperBound's descent: positions below idx have been passed
      (their sum is at most x, and rest is what is left of x), idx is a multiple
      of 2 * lmb, and the answer lies below idx + span. */
  ghost predicate Descent(c: seq<int>, x: int, idx: nat, rest: int, lmb: nat, k: nat, span: nat) {
    idx <= |c| &&
    rest == x - SumRange(c, 0, idx) &&
    (idx == 0 || SumRange(c, 0, idx) <= x) &&
    (lmb >= 1 ==> lmb == Pow2(k) && span == 2 * lmb && Aligned(idx, k + 1)) &&
    (lmb == 0 ==> span == 1) &&
    (idx + span > |c| || SumRange(c, 0, idx + span) > x)
  }

  /** One step of the descent: node idx + lmb covers exactly idx .. idx + lmb - 1,
      so taking it when its sum fits in rest keeps the descent state. */
  lemma DescentStep(t: seq<int>, c: seq<int>, x: int, idx: nat, rest: int, lmb: nat, k: nat, span: nat)
    requires |t| == |c| + 1 && Nodes(t, c, |c|)
    requires Descent(c, x, idx, rest, lmb, k, span) && lmb >= 1
    ensures var take := idx + lmb < |t| && t[idx + lmb] <= rest;
            Descent(c, x, if take then idx + lmb else idx, if take then rest - t[idx + lmb] else rest,
                    lmb / 2, if k > 0 then k - 1 else 0, lmb)
  {
    AlignedLowbit(idx, k);
    if idx + lmb < |t| {
      SumRangeSplit(c, 0, idx, idx + lmb);
    }
  }

  class FenwickTree {
    var tree: seq<int>
    var total: int
    ghost var counts: seq<int>

    ghost predicate Valid()
      reads this
    {
      |tree| == |counts| + 1 &&
      Nodes(tree, counts, |counts|) &&
      total == SumAll(counts)
    }

    /** The empty tree. */
    constructor Empty()
      ensures Valid()
      ensures counts == []
    {
      tree := [0];
      total := 0;
      counts := [];
    }

    /** A tree of `size` positions, all counting 0. */
    constructor OfSize(size: nat)
      ensures Valid()
      ensures counts == Zeros(size)
    {
      tree := Zeros(size + 1);
      total := 0;
      counts := Zeros(size);
      new;
      forall i | 1 <= i <= size
        ensures Node(counts, i) == 0
      {
        SumRangeOfZeros(counts, i - Lowbit(i), i);
      }
      SumRangeOfZeros(counts, 0, size);
    }

    /** Number of positions. */
    function Size(): (n: nat)
      requires Valid()
      reads this
      ensures n == |counts|
    {
      |tree| - 1
    }

    /** The running total, kept up to date by Add. */
    function Total(): (r: int)
      requires Valid()
      reads this
      ensures r == SumAll(counts)
    {
      total
    }

    /** The prefix-sum loop over nodes 1..k. */
    method SumWithin(rb: int, ghost k: nat) returns (res: int)
      requires Nodes(tree, counts, k) && rb < k
      ensures res == Prefix(counts, rb)
    {
      var r := rb + 1;
      res := 0;
      while r > 0
        invariant r <= k
        invariant res + SumRange(counts, 0, Clamp(counts, r)) == Prefix(counts, rb)
        decreases r
      {
        SumRangeSplit(counts, 0, r - Lowbit(r), r);
        res := res + tree[r];
        r := r - Lowbit(r);
      }
    }

    /** Sum of the counts at positions 0..rb; positions at or past Size() count 0. */
    method Sum(rb: int) returns (res: int)
      requires Valid()
      ensures res == Prefix(counts, rb)
    {
      var r := rb;
      if r >= Size() {
        r := Size() - 1;
      }
      res := SumWithin(r, Size());
    }

    /** Sum of the counts at positions lb..rb, 0 when the segment is empty. */
    method RangeSum(lb: int, rb: int) returns (res: int)
      requires Valid()
      ensures rb < lb ==> res == 0
      ensures lb <= rb ==> res == SumRange(counts, Clamp(counts, lb), Clamp(counts, rb + 1))
      ensures lb <= rb ==> res == Prefix(counts, rb) - Prefix(counts, lb - 1)
    {
      if rb < lb {
        return 0;
      }
      var sumRb := Sum(rb);
      var sumLb := Sum(lb - 1);
      SumRangeSplit(counts, 0, Clamp(counts, lb), Clamp(counts, rb + 1));
      res := sumRb - sumLb;
    }

    /** Grow to newSize positions: the new positions count 0 and their nodes are
        back-filled from the sums over the old positions. */
    method Resize(newSize: nat)
      requires Valid() && newSize >= Size()
      modifies this
      ensures Valid()
      ensures counts == Grown(old(counts), newSize)
    {
      var oldSize := Size() + 1;
      ghost var c0 := counts;
      tree := tree + Zeros(newSize + 1 - oldSize);
      counts := Grown(c0, newSize);
      forall i | 1 <= i < oldSize
        ensures tree[i] == Node(counts, i)
      {
        SumRangeAgree(c0, counts, i - Lowbit(i), i);
      }
      GrownPrefix(c0, newSize, newSize);
      BackFill(oldSize - 1);
    }

    /** The back-fill loop of Resize: nodes 1..m are already right and every
        later node and position is 0; each later node gets its sum over the
        positions below m, as the difference of two prefix sums. */
    method BackFill(m: nat)
      requires |tree| == |counts| + 1 && Nodes(tree, counts, m) && total == SumAll(counts)
      requires forall i :: m < i < |tree| ==> tree[i] == 0
      requires forall j :: m <= j < |counts| ==> counts[j] == 0
      modifies this
      ensures Valid() && counts == old(counts)
    {
      ghost var c0 := counts;
      var idx := m + 1;
      while idx < |tree|
        invariant m + 1 <= idx <= |tree| == |counts| + 1
        invariant counts == c0 && total == SumAll(counts)
        invariant Nodes(tree, counts, idx - 1)
        invariant forall i :: idx <= i < |tree| ==> tree[i] == 0
      {
        var lo, hi := idx - Lowbit(idx), m - 1;
        var sum := 0;
        if lo <= hi {
          var sumHi := SumWithin(hi, m);
          var sumLo := SumWithin(lo - 1, m);
          sum := sumHi - sumLo;
        }
        NewNode(counts, m, lo, idx);
        tree := tree[idx := tree[idx] + sum];
        idx := idx + 1;
      }
    }

    /** Add x to the count at position idx, growing the tree to reach it. */
    method Add(idx: int, x: int)
      requires Valid() && idx >= 0
      modifies this
      ensures Valid()
      ensures counts == AddAt(old(counts), idx, x)
    {
      if idx >= Size() {
        Resize(idx + 1);
      }
      AddWithin(idx, x);
    }

    /** The update loop of Add, for a position the tree already holds: every node
        on the chain idx + 1, then i + Lowbit(i), ... covers idx and gains x,
        and no other node does. */
    method AddWithin(idx: nat, x: int)
      requires Valid() && idx < Size()
      modifies this
      ensures Valid()
      ensures counts == old(counts)[idx := old(counts)[idx] + x]
    {
      ghost var c0 := counts;
      ghost var n := Size();
      counts := c0[idx := c0[idx] + x];
      forall j | 1 <= j <= idx
        ensures Node(counts, j) == Node(c0, j)
      {
        NodeUntouched(c0, idx, x, j);
      }
      assert Climb(tree, c0, counts, idx, idx + 1);
      var i := idx + 1;
      while i < |tree|
        invariant |tree| == n + 1 && counts == c0[idx := c0[idx] + x] && total == SumAll(c0)
        invariant Climb(tree, c0, counts, idx, i)
        decreases n + 1 - i
      {
        ClimbStep(tree, c0, counts, idx, x, i);
        tree := tree[i := tree[i] + x];
        i := i + Lowbit(i);
      }
      SumRangeUpdate(c0, idx, x, 0, n);
      total := total + x;
    }

    /** The first position whose prefix sum exceeds x, found by descending over
        powers of two; Size() when no prefix sum does. */
    method UpperBound(x: int) returns (idx: nat)
      requires Valid()
      ensures idx <= Size()
      ensures idx == 0 || Prefix(counts, idx - 1) <= x
      ensures idx == Size() || Prefix(counts, idx) > x
      ensures NonNeg(counts) ==> idx == FirstAbove(counts, x)
    {
      idx := 0;
      var rest := x;
      var lmb := BitFloor(|tree|);
      ghost var k := Log2(|tree|);
      ghost var span := 2 * lmb;
      AlignedZero(k + 1);
      while lmb >= 1
        invariant Descent(counts, x, idx, rest, lmb, k, span)
        decreases lmb
      {
        DescentStep(tree, counts, x, idx, rest, lmb, k, span);
        if idx + lmb < |tree| && tree[idx + lmb] <= rest {
          idx := idx + lmb;
          rest := rest - tree[idx];
        }
        span := lmb;
        if k > 0 {
          k := k - 1;
        }
        lmb := lmb / 2;
      }
      if NonNeg(counts) {
        FirstAboveUnique(counts, x, idx);
      }
    }
  }

  /** The prefix sums of the counts [0,3,5,1,4,3,2,4,0,1]. */
  lemma ExamplePrefixes(c: seq<int>)
    requires c == [0, 3, 5, 1, 4, 3, 2, 4, 0, 1]
    ensures Prefix(c, -1) == 0 && Prefix(c, 0) == 0 && Prefix(c, 1) == 3 && Prefix(c, 2) == 8
    ensures Prefix(c, 3) == 9 && Prefix(c, 4) == 13 && Prefix(c, 5) == 16 && Prefix(c, 6) == 18
    ensures Prefix(c, 7) == 22 && Prefix(c, 8) == 22 && Prefix(c, 9) == 23
  {
    PrefixStep(c, 0);
    PrefixStep(c, 1);
    PrefixStep(c, 2);
    PrefixStep(c, 3);
    PrefixStep(c, 4);
    PrefixStep(c, 5);
    PrefixStep(c, 6);
    PrefixStep(c, 7);
    PrefixStep(c, 8);
    PrefixStep(c, 9);
  }

  /** The first position whose prefix sum exceeds x on those counts. */
  lemma UpperBoundExample(c: seq<int>)
    requires c == [0, 3, 5, 1, 4, 3, 2, 4, 0, 1]
    ensures FirstAbove(c, -1) == 0 && FirstAbove(c, 0) == 1 && FirstAbove(c, 1) == 1 && FirstAbove(c, 3) == 2
    ensures FirstAbove(c, 15) == 5 && FirstAbove(c, 18) == 7 && FirstAbove(c, 21) == 7
    ensures FirstAbove(c, 22) == 9 && FirstAbove(c, 23) == 10
  {
    ExamplePrefixes(c);
    assert NonNeg(c);
    FirstAboveUnique(c, -1, 0);
    FirstAboveUnique(c, 0, 1);
    FirstAboveUnique(c, 1, 1);
    FirstAboveUnique(c, 3, 2);
    FirstAboveUnique(c, 15, 5);
    FirstAboveUnique(c, 18, 7);
    FirstAboveUnique(c, 21, 7);
    FirstAboveUnique(c, 22, 9);
    FirstAboveUnique(c, 23, 10);
  }
}
