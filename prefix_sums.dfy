/** Logical view of a growable counting structure: a sequence of counts at
    positions 0..|c|-1, where every position past the end counts as 0.
    Everything the Fenwick tree computes is stated in terms of these sums. */
module PrefixSums {

  /** Sum of the counts c[lo], ..., c[hi-1]. */
  function SumRange(c: seq<int>, lo: int, hi: int): (r: int)
    requires 0 <= lo <= hi <= |c|
    decreases hi - lo
  {
    if lo == hi then 0 else SumRange(c, lo, hi - 1) + c[hi - 1]
  }

  /** Sum of all counts. */
  function SumAll(c: seq<int>): (r: int) {
    SumRange(c, 0, |c|)
  }

  /** The number of positions of c that lie before position i (i is clamped to 0..|c|). */
  function Clamp(c: seq<int>, i: int): (r: nat)
    ensures r <= |c|
    ensures 0 <= i <= |c| ==> r == i
  {
    if i < 0 then 0 else if i > |c| then |c| else i
  }

  /** The count at an arbitrary position: 0 outside 0..|c|-1. */
  function At(c: seq<int>, p: int): (r: int) {
    if 0 <= p < |c| then c[p] else 0
  }

  /** Sum of the counts at positions 0..rb (nothing when rb < 0). */
  function Prefix(c: seq<int>, rb: int): (r: int) {
    SumRange(c, 0, Clamp(c, rb + 1))
  }

  predicate NonNeg(c: seq<int>) {
    forall i :: 0 <= i < |c| ==> c[i] >= 0
  }

  function Zeros(n: nat): (z: seq<int>)
    ensures |z| == n && forall i :: 0 <= i < n ==> z[i] == 0
  {
    seq(n, _ => 0)
  }

  /** c extended with zero counts up to length n (unchanged when already that long). */
  function Grown(c: seq<int>, n: nat): (g: seq<int>)
    ensures |g| == if n > |c| then n else |c|
  {
    if n > |c| then c + Zeros(n - |c|) else c
  }

  /** Growing keeps the old counts and adds zero counts after them. */
  lemma GrownAt(c: seq<int>, n: nat)
    ensures forall i :: 0 <= i < |c| ==> Grown(c, n)[i] == c[i]
    ensures forall i :: |c| <= i < |Grown(c, n)| ==> Grown(c, n)[i] == 0
  {
  }

  /** The counts after adding x at position p, growing the sequence to reach p. */
  function AddAt(c: seq<int>, p: nat, x: int): (r: seq<int>)
    ensures |r| == if p < |c| then |c| else p + 1
  {
    var g := Grown(c, p + 1);
    g[p := g[p] + x]
  }

  /** The smallest position whose prefix sum exceeds x, or |c| if there is none:
      the linear-scan reference for the Fenwick tree's descent. */
  function FirstAbove(c: seq<int>, x: int): (r: nat)
    ensures r <= |c|
    ensures r < |c| ==> Prefix(c, r) > x
    ensures forall p :: 0 <= p < r ==> Prefix(c, p) <= x
  {
    FirstAboveFrom(c, x, 0)
  }

  function FirstAboveFrom(c: seq<int>, x: int, p: nat): (r: nat)
    requires p <= |c|
    requires forall q :: 0 <= q < p ==> Prefix(c, q) <= x
    ensures p <= r <= |c|
    ensures r < |c| ==> Prefix(c, r) > x
    ensures forall q :: 0 <= q < r ==> Prefix(c, q) <= x
    decreases |c| - p
  {
    if p == |c| then p
    else if Prefix(c, p) > x then p
    else FirstAboveFrom(c, x, p + 1)
  }

  // ---------------------------------------------------------------------------
  // Lemmas about range sums

  lemma {:induction false} SumRangeSplit(c: seq<int>, lo: int, mid: int, hi: int)
    requires 0 <= lo <= mid <= hi <= |c|
    ensures SumRange(c, lo, hi) == SumRange(c, lo, mid) + SumRange(c, mid, hi)
    decreases hi - mid
  {
    if mid < hi {
      SumRangeSplit(c, lo, mid, hi - 1);
    }
  }

  /** A range sum only depends on the counts inside the range. */
  lemma {:induction false} SumRangeAgree(c: seq<int>, d: seq<int>, lo: int, hi: int)
    requires 0 <= lo <= hi <= |c| && hi <= |d|
    requires forall i :: lo <= i < hi ==> c[i] == d[i]
    ensures SumRange(c, lo, hi) == SumRange(d, lo, hi)
    decreases hi - lo
  {
    if lo < hi {
      SumRangeAgree(c, d, lo, hi - 1);
    }
  }

  lemma {:induction false} SumRangeOfZeros(c: seq<int>, lo: int, hi: int)
    requires 0 <= lo <= hi <= |c|
    requires forall i :: lo <= i < hi ==> c[i] == 0
    ensures SumRange(c, lo, hi) == 0
    decreases hi - lo
  {
    if lo < hi {
      SumRangeOfZeros(c, lo, hi - 1);
    }
  }

  lemma {:induction false} SumRangeNonNeg(c: seq<int>, lo: int, hi: int)
    requires NonNeg(c) && 0 <= lo <= hi <= |c|
    ensures SumRange(c, lo, hi) >= 0
    decreases hi - lo
  {
    if lo < hi {
      SumRangeNonNeg(c, lo, hi - 1);
    }
  }

  /** Raising one count by x raises exactly the range sums that contain it, by x. */
  lemma {:induction false} SumRangeUpdate(c: seq<int>, p: int, x: int, lo: int, hi: int)
    requires 0 <= p < |c| && 0 <= lo <= hi <= |c|
    ensures SumRange(c[p := c[p] + x], lo, hi) == SumRange(c, lo, hi) + (if lo <= p < hi then x else 0)
    decreases hi - lo
  {
    if lo < hi {
      SumRangeUpdate(c, p, x, lo, hi - 1);
    }
  }

  /** A range reaching past m, with only zeros from m on, sums the counts from
      lo up to m (nothing when lo >= m). */
  lemma NewNode(c: seq<int>, m: nat, lo: nat, hi: nat)
    requires lo <= hi <= |c| && m <= hi
    requires forall j :: m <= j < |c| ==> c[j] == 0
    ensures SumRange(c, lo, hi) == if lo < m then SumRange(c, 0, m) - SumRange(c, 0, lo) else 0
  {
    if lo < m {
      SumRangeSplit(c, 0, lo, m);
      SumRangeSplit(c, lo, m, hi);
      SumRangeOfZeros(c, m, hi);
    } else {
      SumRangeOfZeros(c, lo, hi);
    }
  }

  // ---------------------------------------------------------------------------
  // Lemmas about prefix sums

  /** Prefix(c, -1) == 0, and each prefix sum adds the count at its last position. */
  lemma PrefixStep(c: seq<int>, p: int)
    ensures Prefix(c, -1) == 0
    ensures Prefix(c, p) == Prefix(c, p - 1) + At(c, p)
  {
  }

  /** With non-negative counts, prefix sums never decrease. */
  lemma PrefixMonotone(c: seq<int>, a: int, b: int)
    requires NonNeg(c) && a <= b
    ensures Prefix(c, a) <= Prefix(c, b)
  {
    SumRangeSplit(c, 0, Clamp(c, a + 1), Clamp(c, b + 1));
    SumRangeNonNeg(c, Clamp(c, a + 1), Clamp(c, b + 1));
  }

  /** Past the last position the prefix sum is the total. */
  lemma PrefixBeyondEnd(c: seq<int>, rb: int)
    requires rb >= |c| - 1
    ensures Prefix(c, rb) == SumAll(c)
  {
  }

  /** Growing with zeros changes no prefix sum, hence no range sum and not the total. */
  lemma GrownPrefix(c: seq<int>, n: nat, rb: int)
    ensures Prefix(Grown(c, n), rb) == Prefix(c, rb)
    ensures SumAll(Grown(c, n)) == SumAll(c)
  {
    var g := Grown(c, n);
    GrownAt(c, n);
    SumRangeAgree(c, g, 0, Clamp(c, rb + 1));
    if Clamp(g, rb + 1) > |c| {
      SumRangeSplit(g, 0, |c|, Clamp(g, rb + 1));
      SumRangeOfZeros(g, |c|, Clamp(g, rb + 1));
    }
    SumRangeAgree(c, g, 0, |c|);
    SumRangeSplit(g, 0, |c|, |g|);
    SumRangeOfZeros(g, |c|, |g|);
  }

  /** Adding x at p changes the count at p by x and no other count. */
  lemma AddAtAt(c: seq<int>, p: nat, x: int, j: int)
    ensures At(AddAt(c, p, x), j) == At(c, j) + (if j == p then x else 0)
  {
    GrownAt(c, p + 1);
  }

  /** Adding x at p raises Prefix(j) by x exactly when j >= p, and the total by x. */
  lemma AddAtPrefix(c: seq<int>, p: nat, x: int, j: int)
    ensures Prefix(AddAt(c, p, x), j) == Prefix(c, j) + (if j >= p then x else 0)
    ensures SumAll(AddAt(c, p, x)) == SumAll(c) + x
  {
    var g := Grown(c, p + 1);
    GrownPrefix(c, p + 1, j);
    SumRangeUpdate(g, p, x, 0, Clamp(g, j + 1));
    GrownPrefix(c, p + 1, |g|);
    SumRangeUpdate(g, p, x, 0, |g|);
  }

  lemma AddAtNonNeg(c: seq<int>, p: nat, x: int)
    requires NonNeg(c) && x >= 0
    ensures NonNeg(AddAt(c, p, x))
  {
    GrownAt(c, p + 1);
  }

  /** Any position satisfying the local condition the Fenwick descent establishes
      is the linear-scan answer, provided the counts are non-negative. */
  lemma FirstAboveUnique(c: seq<int>, x: int, r: nat)
    requires NonNeg(c) && r <= |c|
    requires r == 0 || Prefix(c, r - 1) <= x
    requires r == |c| || Prefix(c, r) > x
    ensures r == FirstAbove(c, x)
  {
    var f := FirstAbove(c, x);
    if f < r {
      // f's prefix exceeds x, yet it is at most r's, which does not
      PrefixMonotone(c, f, r - 1);
    }
  }

  /** When every count but the one at p is 0, the total is the count at p and
      nothing comes before it. */
  lemma OneNonZero(c: seq<int>, p: nat)
    requires forall q :: 0 <= q < |c| && q != p ==> c[q] == 0
    ensures SumAll(c) == At(c, p) && Prefix(c, p - 1) == 0
  {
    SumRangeOfZeros(c, 0, Clamp(c, p));
    if p < |c| {
      SumRangeSplit(c, 0, p, |c|);
      SumRangeSplit(c, p, p + 1, |c|);
      SumRangeOfZeros(c, p + 1, |c|);
    } else {
      SumRangeOfZeros(c, 0, |c|);
    }
  }

  /** ... and then every draw below the total lands on p. */
  lemma OneNonZeroDraw(c: seq<int>, p: nat, x: int)
    requires forall q :: 0 <= q < |c| && q != p ==> c[q] == 0
    requires 0 <= x < SumAll(c)
    ensures FirstAbove(c, x) == p
  {
    OneNonZero(c, p);
    PrefixStep(c, p);
    assert NonNeg(c);
    FirstAboveUnique(c, x, p);
  }

  /** A draw below the total lands on a position inside the counts whose
      prefix sums bracket it, so that position has a positive count. */
  lemma DrawLands(c: seq<int>, x: int)
    requires 0 <= x < SumAll(c)
    ensures FirstAbove(c, x) < |c|
    ensures Prefix(c, FirstAbove(c, x) - 1) <= x < Prefix(c, FirstAbove(c, x))
    ensures c[FirstAbove(c, x)] > 0
  {
    var r := FirstAbove(c, x);
    PrefixBeyondEnd(c, |c| - 1);
    assert Prefix(c, |c| - 1) > x;
    PrefixStep(c, r);
  }
}
