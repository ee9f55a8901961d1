/** The order-N chain: for every state it counts the transitions to each state
    that follows within N + 1 steps, one row per (source, depth), and predicts
    from the rows of the whole memory window summed over depths. */
module Rember {
  import opened PrefixSums
  import opened Memory
  import opened Counters

  function Max(a: int, b: int): (r: int) {
    if a >= b then a else b
  }

  /** The largest of s[0], ..., s[i-1]. */
  function MaxOf(s: seq<int>, i: nat): (r: int)
    requires 1 <= i <= |s|
  {
    if i > 1 then Max(MaxOf(s, i - 1), s[i - 1]) else s[0]
  }

  /** MaxOf is an upper bound of s[..i] that s[..i] attains. */
  lemma {:induction false} MaxOfBounds(s: seq<int>, i: nat)
    requires 1 <= i <= |s|
    ensures forall j :: 0 <= j < i ==> s[j] <= MaxOf(s, i)
    ensures exists j :: 0 <= j < i && s[j] == MaxOf(s, i)
  {
    if i > 1 {
      MaxOfBounds(s, i - 1);
      var j :| 0 <= j < i - 1 && s[j] == MaxOf(s, i - 1);
      if MaxOf(s, i - 1) < s[i - 1] {
        assert s[i - 1] == MaxOf(s, i);
      } else {
        assert s[j] == MaxOf(s, i);
      }
    } else {
      assert s[0] == MaxOf(s, i);
    }
  }

  // ---------------------------------------------------------------------------
  // The trailing window

  /** The last min(i, n) elements of s[..i], most recent first. */
  function Window(s: seq<int>, i: nat, n: nat): (w: seq<int>)
    requires i <= |s|
    ensures |w| == Min(i, n)
  {
    if i > 0 && n > 0 then [s[i - 1]] + Window(s, i - 1, n - 1) else []
  }

  /** Depth d of the window is the element d + 1 steps back from position i. */
  lemma {:induction false} WindowAt(s: seq<int>, i: nat, n: nat, d: nat)
    requires i <= |s| && d < Min(i, n)
    ensures Window(s, i, n)[d] == s[i - 1 - d]
  {
    if d > 0 {
      WindowAt(s, i - 1, n - 1, d - 1);
    }
  }

  /** A smaller window is a prefix of a larger one. */
  lemma {:induction false} WindowShrink(s: seq<int>, i: nat, n: nat)
    requires i <= |s| && n >= 1
    ensures Window(s, i, n - 1) == Take(Window(s, i, n), n - 1)
  {
    if i > 0 && n > 1 {
      WindowShrink(s, i - 1, n - 1);
    }
  }

  /** Reading one more element pushes it onto the window. */
  lemma WindowStep(s: seq<int>, i: nat, n: nat)
    requires 1 <= n && i < |s|
    ensures Window(s, i + 1, n) == Pushed(Window(s, i, n), s[i], n)
  {
    WindowShrink(s, i, n);
    TakeAppend([s[i]], Window(s, i, n), n);
  }

  /** Pushing the reversed window one state at a time, oldest first, puts the
      window in front of the old memory. */
  lemma WindowPushed(m: seq<int>, w: seq<int>, ms: nat)
    requires |m| <= ms
    ensures PushedAll(m, Reversed(w), |w|, ms) == Take(w + m, ms)
  {
    PushedAllClosed(m, Reversed(w), |w|, ms);
    assert Reversed(w)[..|w|] == Reversed(w);
    ReversedTwice(w);
  }

  // ---------------------------------------------------------------------------
  // Counting lagged transitions

  /** Rows (w[d], d) for every depth d below d0 get one count at position p. */
  function BumpDepths(t: map<(int, int), seq<int>>, w: seq<int>, p: nat, d0: nat): (r: map<(int, int), seq<int>>)
    requires d0 <= |w|
  {
    if d0 > 0 then Bump(BumpDepths(t, w, p, d0 - 1), (w[d0 - 1], d0 - 1), p) else t
  }

  /** The table after feeding s[..i] with window size n: each element after the
      first is counted once at every depth of the window that precedes it. */
  function FeedLagged(t: map<(int, int), seq<int>>, s: seq<int>, i: nat, n: nat): (r: map<(int, int), seq<int>>)
    requires Targets(s) && i <= |s|
  {
    if i < 2 then t
    else
      var w := Window(s, i - 1, n);
      BumpDepths(FeedLagged(t, s, i - 1, n), w, s[i - 1], |w|)
  }

  /** The transition of lag d that ends at position i of s. */
  function LagAt(s: seq<int>, i: int, d: nat): (pair: (int, int))
    requires d < i < |s|
  {
    (s[i - 1 - d], s[i])
  }

  /** The positions 1 <= j < i of s where k occurs d + 1 steps before p, within
      the window. */
  function Lags(s: seq<int>, i: nat, n: nat, d: nat, k: int, p: int): (js: set<int>)
    requires i <= |s|
  {
    set j | 1 <= j < i && d < Min(j, n) && LagAt(s, j, d) == (k, p)
  }

  /** The last depth below d0 adds one count at (w[d0 - 1], d0 - 1). */
  lemma BumpDepthsStep(t: map<(int, int), seq<int>>, w: seq<int>, p: nat, d0: nat, k: int, d: nat, q: int)
    requires 0 < d0 <= |w|
    ensures CountIn(BumpDepths(t, w, p, d0), (k, d), q) ==
            CountIn(BumpDepths(t, w, p, d0 - 1), (k, d), q) + (if d == d0 - 1 && w[d] == k && q == p then 1 else 0)
  {
    var key := (w[d0 - 1], d0 - 1);
    BumpCount(BumpDepths(t, w, p, d0 - 1), key, p, (k, d), q);
    assert ((k, d) == key) == (d == d0 - 1 && w[d0 - 1] == k);
  }

  /** Bumping the depths below d0 adds one count at (w[d], d) for each such d. */
  lemma {:induction false} BumpDepthsCount(t: map<(int, int), seq<int>>, w: seq<int>, p: nat, d0: nat, k: int, d: nat, q: int)
    requires d0 <= |w|
    ensures CountIn(BumpDepths(t, w, p, d0), (k, d), q) ==
            CountIn(t, (k, d), q) + (if d < d0 && w[d] == k && q == p then 1 else 0)
  {
    if d0 > 0 {
      BumpDepthsCount(t, w, p, d0 - 1, k, d, q);
      BumpDepthsStep(t, w, p, d0, k, d, q);
    }
  }

  /** Position i adds itself to the lags before it, or nothing. */
  lemma LagsSnoc(s: seq<int>, i: nat, n: nat, d: nat, k: int, p: int)
    requires 1 <= i < |s|
    ensures |Lags(s, i + 1, n, d, k, p)| == |Lags(s, i, n, d, k, p)| +
            (if d < Min(i, n) && LagAt(s, i, d) == (k, p) then 1 else 0)
  {
    if d < Min(i, n) && LagAt(s, i, d) == (k, p) {
      assert Lags(s, i + 1, n, d, k, p) == Lags(s, i, n, d, k, p) + {i};
    } else {
      assert Lags(s, i + 1, n, d, k, p) == Lags(s, i, n, d, k, p);
    }
  }

  /** Element i is counted at row (k, d) exactly when k lies d + 1 steps before
      it, inside the window. */
  lemma FeedLaggedLast(t: map<(int, int), seq<int>>, s: seq<int>, i: nat, n: nat, k: int, d: nat, p: int)
    requires Targets(s) && 1 <= i < |s|
    ensures CountIn(FeedLagged(t, s, i + 1, n), (k, d), p) ==
            CountIn(FeedLagged(t, s, i, n), (k, d), p) +
            (if d < Min(i, n) && LagAt(s, i, d) == (k, p) then 1 else 0)
  {
    var w := Window(s, i, n);
    var t' := FeedLagged(t, s, i, n);
    assert FeedLagged(t, s, i + 1, n) == BumpDepths(t', w, s[i], |w|);
    BumpDepthsCount(t', w, s[i], |w|, k, d, p);
    if d < Min(i, n) {
      WindowAt(s, i, n, d);
    }
  }

  /** Feeding s[..i] adds, at position p of row (k, d), one count for every
      1 <= j < i with d < min(j, n), s[j - 1 - d] == k and s[j] == p, and
      nothing else. */
  lemma {:induction false} FeedLaggedCount(t: map<(int, int), seq<int>>, s: seq<int>, i: nat, n: nat, k: int, d: nat, p: int)
    requires Targets(s) && i <= |s|
    ensures CountIn(FeedLagged(t, s, i, n), (k, d), p) == CountIn(t, (k, d), p) + |Lags(s, i, n, d, k, p)|
  {
    if i >= 2 {
      FeedLaggedCount(t, s, i - 1, n, k, d, p);
      FeedLaggedLast(t, s, i - 1, n, k, d, p);
      LagsSnoc(s, i - 1, n, d, k, p);
    } else {
      assert Lags(s, i, n, d, k, p) == {};
    }
  }

  /** Depths stay below the window size n and positions at most mx. */
  ghost predicate TableOk(t: map<(int, int), seq<int>>, n: nat, mx: int) {
    (forall key :: key in t ==> 0 <= key.1 < n) && RowsWithin(t, mx + 1)
  }

  lemma {:induction false} BumpDepthsKeeps(t: map<(int, int), seq<int>>, w: seq<int>, p: nat, d0: nat, n: nat, mx: int)
    requires d0 <= |w| && d0 <= n && p <= mx
    requires TableOk(t, n, mx)
    ensures TableOk(BumpDepths(t, w, p, d0), n, mx)
  {
    if d0 > 0 {
      BumpDepthsKeeps(t, w, p, d0 - 1, n, mx);
      BumpKeeps(BumpDepths(t, w, p, d0 - 1), (w[d0 - 1], d0 - 1), p, mx + 1);
    }
  }

  /** Feeding codes no larger than mx keeps depths and positions in range. */
  lemma {:induction false} FeedLaggedKeeps(t: map<(int, int), seq<int>>, s: seq<int>, i: nat, n: nat, mx: int)
    requires Targets(s) && i <= |s| && TableOk(t, n, mx)
    requires forall j :: 1 <= j < i ==> s[j] <= mx
    ensures TableOk(FeedLagged(t, s, i, n), n, mx)
  {
    if i >= 2 {
      var w := Window(s, i - 1, n);
      FeedLaggedKeeps(t, s, i - 1, n, mx);
      BumpDepthsKeeps(FeedLagged(t, s, i - 1, n), w, s[i - 1], |w|, n, mx);
    }
  }

  /** Counting at every depth of the window keeps non-negative counts non-negative. */
  lemma {:induction false} BumpDepthsNonNeg(t: map<(int, int), seq<int>>, w: seq<int>, p: nat, d0: nat)
    requires d0 <= |w| && AllNonNeg(t)
    ensures AllNonNeg(BumpDepths(t, w, p, d0))
  {
    if d0 > 0 {
      BumpDepthsNonNeg(t, w, p, d0 - 1);
      BumpKeeps(BumpDepths(t, w, p, d0 - 1), (w[d0 - 1], d0 - 1), p, 0);
    }
  }

  /** Feeding only adds counts, so non-negative counts stay non-negative. */
  lemma {:induction false} FeedLaggedNonNeg(t: map<(int, int), seq<int>>, s: seq<int>, i: nat, n: nat)
    requires Targets(s) && i <= |s| && AllNonNeg(t)
    ensures AllNonNeg(FeedLagged(t, s, i, n))
  {
    if i >= 2 {
      var w := Window(s, i - 1, n);
      FeedLaggedNonNeg(t, s, i - 1, n);
      BumpDepthsNonNeg(FeedLagged(t, s, i - 1, n), w, s[i - 1], |w|);
    }
  }

  /** The trailing window after reading x: its oldest entry dropped when it
      holds n entries, x pushed in front. */
  function Slid(w: seq<int>, x: int, n: nat): (r: seq<int>)
    ensures 1 <= n && |w| <= n ==> r == Pushed(w, x, n)
  {
    if |w| >= n && |w| > 0 then [x] + w[..|w| - 1] else [x] + w
  }

  /** Sliding the window over s[i] is reading one more element. */
  lemma SlidWindow(s: seq<int>, i: nat, n: nat)
    requires 1 <= n && i < |s|
    ensures Slid(Window(s, i, n), s[i], n) == Window(s, i + 1, n)
  {
    PopPush(Window(s, i, n), s[i], n);
    WindowStep(s, i, n);
  }

  /** One step of the counting loop: the window drops its oldest entry when
      full and takes s[i] in front, the table counts s[i] at every depth of
      the window, and the maximum takes s[i] in. */
  lemma LaggedStep(t: map<(int, int), seq<int>>, s: seq<int>, i: nat, n: nat)
    requires Targets(s) && 1 <= n && 1 <= i < |s|
    ensures var w := Window(s, i, n);
            Slid(w, s[i], n) == Window(s, i + 1, n) &&
            FeedLagged(t, s, i + 1, n) == BumpDepths(FeedLagged(t, s, i, n), w, s[i], |w|)
    ensures MaxOf(s, i + 1) == Max(MaxOf(s, i), s[i])
  {
    SlidWindow(s, i, n);
  }

  /** Feeding a whole sequence keeps the table in range of the raised maximum. */
  lemma FeedKeeps(t: map<(int, int), seq<int>>, s: seq<int>, n: nat, m0: int)
    requires Targets(s) && |s| >= 1 && TableOk(t, n, m0)
    ensures TableOk(FeedLagged(t, s, |s|, n), n, Max(m0, MaxOf(s, |s|)))
  {
    var mx := Max(m0, MaxOf(s, |s|));
    MaxOfBounds(s, |s|);
    assert TableOk(t, n, mx);
    FeedLaggedKeeps(t, s, |s|, n, mx);
  }

  // ---------------------------------------------------------------------------
  // Sums across the depths of a memory window

  /** The row consulted at depth d of memory mem. */
  function RowAt(t: map<(int, int), seq<int>>, mem: seq<int>, d: nat): (row: seq<int>)
    requires d < |mem|
  {
    Row(t, (mem[d], d))
  }

  /** The totals of the rows at depths below j of mem, summed. */
  function AggTotal(t: map<(int, int), seq<int>>, mem: seq<int>, j: nat): (r: int)
    requires j <= |mem|
  {
    if j > 0 then AggTotal(t, mem, j - 1) + SumAll(RowAt(t, mem, j - 1)) else 0
  }

  /** The prefix sums up to position c of the rows at depths below j, summed. */
  function Across(t: map<(int, int), seq<int>>, mem: seq<int>, j: nat, c: int): (r: int)
    requires j <= |mem|
  {
    if j > 0 then Across(t, mem, j - 1, c) + Prefix(RowAt(t, mem, j - 1), c) else 0
  }

  /** The counts at position c of the rows at depths below j, summed. */
  function AggCount(t: map<(int, int), seq<int>>, mem: seq<int>, j: nat, c: int): (r: int)
    requires j <= |mem|
  {
    if j > 0 then AggCount(t, mem, j - 1, c) + At(RowAt(t, mem, j - 1), c) else 0
  }

  /** Across(-1) is 0, and each step of c adds the counts at c. */
  lemma {:induction false} AcrossStep(t: map<(int, int), seq<int>>, mem: seq<int>, j: nat, c: int)
    requires j <= |mem|
    ensures Across(t, mem, j, -1) == 0
    ensures Across(t, mem, j, c) == Across(t, mem, j, c - 1) + AggCount(t, mem, j, c)
  {
    if j > 0 {
      AcrossStep(t, mem, j - 1, c);
      PrefixStep(RowAt(t, mem, j - 1), c);
    }
  }

  /** With non-negative counts, the summed prefix never decreases. */
  lemma {:induction false} AcrossMonotone(t: map<(int, int), seq<int>>, mem: seq<int>, j: nat, a: int, b: int)
    requires j <= |mem| && AllNonNeg(t) && a <= b
    ensures Across(t, mem, j, a) <= Across(t, mem, j, b)
  {
    if j > 0 {
      AcrossMonotone(t, mem, j - 1, a, b);
      PrefixMonotone(RowAt(t, mem, j - 1), a, b);
    }
  }

  /** Once c reaches past every row, the summed prefix is the summed total. */
  lemma {:induction false} AcrossFull(t: map<(int, int), seq<int>>, mem: seq<int>, j: nat, c: int)
    requires j <= |mem| && c >= 0 && RowsWithin(t, c + 1)
    ensures Across(t, mem, j, c) == AggTotal(t, mem, j)
  {
    if j > 0 {
      var key := (mem[j - 1], j - 1);
      AcrossFull(t, mem, j - 1, c);
      assert key in t ==> |t[key]| <= c + 1;
      PrefixBeyondEnd(RowAt(t, mem, j - 1), c);
    }
  }

  /** Where the binary search stops: every code before lb is at most x, and
      lb exceeds x unless it is the last code mx; when x is below the summed
      total, lb exceeds x in any case. */
  lemma SearchDone(t: map<(int, int), seq<int>>, mem: seq<int>, mx: int, x: int, lb: int)
    requires AllNonNeg(t) && RowsWithin(t, mx + 1) && 0 <= lb <= mx
    requires lb == 0 || Across(t, mem, |mem|, lb - 1) <= x
    requires lb == mx || Across(t, mem, |mem|, lb) > x
    ensures forall c :: 0 <= c < lb ==> Across(t, mem, |mem|, c) <= x
    ensures x < AggTotal(t, mem, |mem|) ==> Across(t, mem, |mem|, lb) > x
  {
    forall c | 0 <= c < lb
      ensures Across(t, mem, |mem|, c) <= x
    {
      AcrossMonotone(t, mem, |mem|, c, lb - 1);
    }
    if lb == mx {
      AcrossFull(t, mem, |mem|, mx);
    }
  }

  class RemberChain {
    const base: BaseChain
    const transitions: TransitCounters<(int, int)>
    /** The largest code ever fed. */
    var maxState: int

    ghost predicate Valid()
      reads this, base, transitions, transitions.Repr
    {
      this !in transitions.Repr && base !in transitions.Repr &&
      base.Valid() && transitions.Valid() &&
      maxState >= 0 && TableOk(transitions.table, base.memorySize, maxState)
    }

    /** A chain remembering memorizePrevious states besides the current one. */
    constructor(memorizePrevious: nat)
      ensures Valid() && fresh(base) && fresh(transitions.Repr)
      ensures base.memorySize == memorizePrevious + 1 && base.memory == []
      ensures maxState == 0 && transitions.table == map[]
    {
      base := new BaseChain(memorizePrevious + 1);
      transitions := new TransitCounters();
      maxState := 0;
    }

    /** Count every lagged transition of s, raise maxState to the largest code
        of s, then move to the trailing window of s if asked to or if the memory
        is still empty. */
    method FeedSequence(s: seq<int>, update: bool)
      requires Valid() && Targets(s)
      modifies this, base, transitions.Repr
      ensures Valid() && fresh(transitions.Repr - old(transitions.Repr))
      ensures transitions.table == FeedLagged(old(transitions.table), s, |s|, base.memorySize)
      ensures maxState == if s == [] then old(maxState) else Max(old(maxState), MaxOf(s, |s|))
      ensures base.memory ==
              if s != [] && (update || old(base.memory) == [])
              then Take(Window(s, |s|, base.memorySize) + old(base.memory), base.memorySize)
              else old(base.memory)
    {
      if |s| == 0 {
        return;
      }
      var last, mx := CountLagged(s, maxState);
      FeedKeeps(old(transitions.table), s, base.memorySize, maxState);
      maxState := mx;
      if update || base.memory == [] {
        WindowPushed(base.memory, last, base.memorySize);
        base.UpdateMemoryRange(Reversed(last));
      }
    }

    /** The counting loop of FeedSequence; returns the trailing window and the
        running maximum m0 raised to the largest code of s. */
    method CountLagged(s: seq<int>, m0: int) returns (last: seq<int>, mx: int)
      requires transitions.Valid()
      requires Targets(s) && |s| >= 1 && base.memorySize >= 1
      modifies transitions.Repr
      ensures transitions.Valid() && fresh(transitions.Repr - old(transitions.Repr))
      ensures transitions.table == FeedLagged(old(transitions.table), s, |s|, base.memorySize)
      ensures last == Window(s, |s|, base.memorySize)
      ensures mx == Max(m0, MaxOf(s, |s|))
    {
      ghost var t0 := transitions.table;
      ghost var r0 := transitions.Repr;
      last := [s[0]];
      mx := Max(m0, s[0]);
      var i := 1;
      while i < |s|
        invariant 1 <= i <= |s|
        invariant transitions.Valid() && fresh(transitions.Repr - r0)
        invariant last == Window(s, i, base.memorySize)
        invariant transitions.table == FeedLagged(t0, s, i, base.memorySize)
        invariant mx == Max(m0, MaxOf(s, i))
      {
        LaggedStep(t0, s, i, base.memorySize);
        CountFrom(last, s[i]);
        last := Slid(last, s[i], base.memorySize);
        mx := Max(mx, s[i]);
        i := i + 1;
      }
    }

    /** The inner loop of the counting: one count at p in row (w[d], d) for every depth d. */
    method CountFrom(w: seq<int>, p: nat)
      requires transitions.Valid()
      modifies transitions.Repr
      ensures transitions.Valid() && fresh(transitions.Repr - old(transitions.Repr))
      ensures transitions.table == BumpDepths(old(transitions.table), w, p, |w|)
    {
      ghost var t0 := transitions.table;
      ghost var r0 := transitions.Repr;
      var depth := 0;
      while depth < |w|
        invariant 0 <= depth <= |w|
        invariant transitions.Valid() && fresh(transitions.Repr - r0)
        invariant transitions.table == BumpDepths(t0, w, p, depth)
      {
        assert BumpDepths(t0, w, p, depth + 1) == Bump(transitions.table, (w[depth], depth), p);
        transitions.Record((w[depth], depth), p);
        depth := depth + 1;
      }
    }

    /** The totals of the rows (mem[d], d), summed over the depths d of mem. */
    method SumTotals(mem: seq<int>) returns (sum: int)
      requires transitions.Valid()
      ensures sum == AggTotal(transitions.table, mem, |mem|)
    {
      sum := 0;
      var depth := 0;
      while depth < |mem|
        invariant 0 <= depth <= |mem|
        invariant sum == AggTotal(transitions.table, mem, depth)
      {
        var part := transitions.Total((mem[depth], depth));
        sum := sum + part;
        depth := depth + 1;
      }
    }

    /** The prefix sums up to position c of the rows (mem[d], d), summed over
        the depths d of mem. */
    method SumPrefixes(mem: seq<int>, c: int) returns (sum: int)
      requires transitions.Valid()
      ensures sum == Across(transitions.table, mem, |mem|, c)
    {
      sum := 0;
      var depth := 0;
      while depth < |mem|
        invariant 0 <= depth <= |mem|
        invariant sum == Across(transitions.table, mem, depth, c)
      {
        var part := transitions.Sum((mem[depth], depth), c);
        sum := sum + part;
        depth := depth + 1;
      }
    }

    /** Binary search over the codes 0..maxState for the first code whose
        prefix sum across the depths of the memory exceeds x. */
    method UpperBound(x: int) returns (lb: int)
      requires Valid()
      ensures var t := transitions.table;
              var mem := base.memory;
              0 <= lb <= maxState &&
              (forall c :: 0 <= c < lb ==> Across(t, mem, |mem|, c) <= x) &&
              (lb == maxState || Across(t, mem, |mem|, lb) > x) &&
              (x < AggTotal(t, mem, |mem|) ==> Across(t, mem, |mem|, lb) > x)
    {
      ghost var t := transitions.table;
      ghost var mem := base.memory;
      lb := 0;
      var rb := maxState;
      while lb < rb
        invariant 0 <= lb <= rb <= maxState
        invariant lb == 0 || Across(t, mem, |mem|, lb - 1) <= x
        invariant rb == maxState || Across(t, mem, |mem|, rb) > x
        decreases rb - lb
      {
        var md := lb + (rb - lb) / 2;
        var sum := SumPrefixes(base.memory, md);
        if sum <= x {
          lb := md + 1;
        } else {
          rb := md;
        }
      }
      SearchDone(t, mem, maxState, x, lb);
    }

    /** Sample the next state: draw % (the summed totals of the memory's rows)
        lands on the first code whose summed prefix exceeds it. */
    method PredictState(draw: nat, update: bool) returns (next: int)
      requires Valid() && base.memory != []
      requires AggTotal(transitions.table, base.memory, |base.memory|) > 0
      modifies base
      ensures Valid()
      ensures transitions.table == old(transitions.table) && maxState == old(maxState)
      ensures var t := transitions.table;
              var mem := old(base.memory);
              var x := draw % AggTotal(t, mem, |mem|);
              0 <= next <= maxState &&
              Across(t, mem, |mem|, next - 1) <= x < Across(t, mem, |mem|, next) &&
              (forall c :: 0 <= c < next ==> Across(t, mem, |mem|, c) <= x) &&
              AggCount(t, mem, |mem|, next) > 0
      ensures base.memory == if update then Pushed(old(base.memory), next, base.memorySize) else old(base.memory)
    {
      var total := SumTotals(base.memory);
      var x := draw % total;
      next := UpperBound(x);
      AcrossStep(transitions.table, base.memory, |base.memory|, next);
      if update {
        base.UpdateMemory(next);
      }
    }
  }

  /** The memory after feeding with updates, window size 2 and then 3: the
      trailing window of the fed range goes in front of the old memory. */
  lemma FeedMemoryExample(s: seq<int>)
    requires s == [0, 2, 1, 4, 2, 4, 3, 2, 2, 3, 0]
    ensures Take(Window([0, 1, 0, 1, 0, 1, 0], 7, 2) + [], 2) == [0, 1]
    ensures Take(Window([0], 1, 2) + [0, 1], 2) == [0, 0]
    ensures Take(Window(s, 11, 3) + [], 3) == [0, 3, 2]
    ensures Take(Window(s[1..5], 4, 3) + [0, 3, 2], 3) == [2, 4, 1]
    ensures Take(Window(s[5..8], 3, 3) + [2, 4, 1], 3) == [2, 3, 4]
    ensures Take(Window(s[8..10], 2, 3) + [2, 3, 4], 3) == [3, 2, 2]
    ensures Take(Window(s[10..11], 1, 3) + [3, 2, 2], 3) == [0, 3, 2]
  {
    assert s[1..5] == [2, 1, 4, 2] && s[5..8] == [4, 3, 2];
    assert s[8..10] == [2, 3] && s[10..11] == [0];
    assert Window([0, 1, 0, 1, 0, 1, 0], 7, 2) == [0, 1];
    assert Window(s, 9, 1) == [s[8]];
    assert Window(s, 10, 2) == [s[9], s[8]];
    assert Window(s, 11, 3) == [0, 3, 2];
    assert Window([2, 1, 4, 2], 4, 3) == [2, 4, 1];
    assert Window([4, 3, 2], 3, 3) == [2, 3, 4];
    assert Window([2, 3], 2, 3) == [3, 2];
  }

  /** Fed with 5,0,5 and one state of memory, the memory is [5], whose row
      (5, 0) has a single position while the largest code is 5: the binary
      search's first probe, code 2, lies past the end of that row. */
  lemma ShortRowProbe(s: seq<int>)
    requires s == [5, 0, 5]
    ensures var t := FeedLagged(map[], s, |s|, 1);
            var mem := Take(Window(s, |s|, 1) + [], 1);
            var mx := Max(0, MaxOf(s, |s|));
            mem == [5] && mx == 5 && AggTotal(t, mem, 1) == 1 &&
            |RowAt(t, mem, 0)| == 1 && 0 + (mx - 0) / 2 >= |RowAt(t, mem, 0)|
  {
    assert Window(s, 1, 1) == [5] && Window(s, 2, 1) == [0] && Window(s, 3, 1) == [5];
    var t1 := FeedLagged(map[], s, 2, 1);
    assert FeedLagged(map[], s, 1, 1) == map[];
    assert t1 == BumpDepths(map[], [5], 0, 1);
    assert BumpDepths(map[], [5], 0, 0) == map[];
    assert t1 == Bump(map[], (5, 0), 0);
    assert Grown([], 1) == [0] && [0][0 := 1] == [1];
    assert AddAt([], 0, 1) == [1];
    assert t1 == map[(5, 0) := [1]];
    var t := FeedLagged(map[], s, 3, 1);
    assert t == BumpDepths(t1, [0], 5, 1);
    assert BumpDepths(t1, [0], 5, 0) == t1;
    assert t == Bump(t1, (0, 0), 5);
    assert Row(t, (5, 0)) == [1];
    var mem := Take(Window(s, |s|, 1) + [], 1);
    assert mem == [5];
    assert RowAt(t, mem, 0) == [1];
    assert SumAll([1]) == 1;
    assert AggTotal(t, mem, 1) == AggTotal(t, mem, 0) + SumAll(RowAt(t, mem, 0));
    assert MaxOf(s, 2) == 5;
  }
}
