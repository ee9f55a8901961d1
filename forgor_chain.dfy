/** The memoryless chain: for every source code it counts the transitions to
    each target code in one Fenwick row, and predicts from the row of the
    current state alone. */
module Forgor {
  import opened PrefixSums
  import opened Memory
  import opened Counters

  /** The table after counting each adjacent pair of s[..i], in order. */
  function FeedPairs(t: map<int, seq<int>>, s: seq<int>, i: nat): (r: map<int, seq<int>>)
    requires Targets(s) && i <= |s|
  {
    if i < 2 then t
    else Bump(FeedPairs(t, s, i - 1), s[i - 2], s[i - 1])
  }

  /** The transition that ends at position i of s. */
  function PairAt(s: seq<int>, i: int): (pair: (int, int))
    requires 1 <= i < |s|
  {
    (s[i - 1], s[i])
  }

  /** The positions 1 <= j < i of s where a transition from k to p ends. */
  function Pairs(s: seq<int>, i: nat, k: int, p: int): (js: set<int>)
    requires i <= |s|
  {
    set j | 1 <= j < i && PairAt(s, j) == (k, p)
  }

  /** Position i adds itself to the pairs before it, or nothing. */
  lemma PairsSnoc(s: seq<int>, i: nat, k: int, p: int)
    requires 1 <= i < |s|
    ensures |Pairs(s, i + 1, k, p)| == |Pairs(s, i, k, p)| + (if PairAt(s, i) == (k, p) then 1 else 0)
  {
    if PairAt(s, i) == (k, p) {
      assert Pairs(s, i + 1, k, p) == Pairs(s, i, k, p) + {i};
    } else {
      assert Pairs(s, i + 1, k, p) == Pairs(s, i, k, p);
    }
  }

  /** Feeding s[..i] adds, at position p of row k, one count per adjacent pair
      (k, p) of s[..i], and nothing else. */
  lemma {:induction false} FeedPairsCount(t: map<int, seq<int>>, s: seq<int>, i: nat, k: int, p: int)
    requires Targets(s) && i <= |s|
    ensures CountIn(FeedPairs(t, s, i), k, p) == CountIn(t, k, p) + |Pairs(s, i, k, p)|
  {
    if i >= 2 {
      FeedPairsCount(t, s, i - 1, k, p);
      BumpCount(FeedPairs(t, s, i - 1), s[i - 2], s[i - 1], k, p);
      PairsSnoc(s, i - 1, k, p);
    } else {
      assert Pairs(s, i, k, p) == {};
    }
  }

  class ForgorChain {
    const base: BaseChain
    const transitions: TransitCounters<int>

    /** The memory window holds one state, and the rows are separate from it. */
    ghost predicate Valid()
      reads base, transitions, transitions.Repr
    {
      base !in transitions.Repr &&
      base.Valid() && base.memorySize == 1 && transitions.Valid()
    }

    constructor()
      ensures Valid() && fresh(base) && fresh(transitions.Repr)
      ensures base.memory == [] && transitions.table == map[]
    {
      base := new BaseChain(1);
      transitions := new TransitCounters();
    }

    /** Count every adjacent pair of s, then move to the last state of s if
        asked to or if the memory is still empty. */
    method FeedSequence(s: seq<int>, update: bool)
      requires Valid() && Targets(s)
      modifies base, transitions.Repr
      ensures Valid() && fresh(transitions.Repr - old(transitions.Repr))
      ensures transitions.table == FeedPairs(old(transitions.table), s, |s|)
      ensures base.memory == if |s| > 0 && (update || old(base.memory) == []) then [s[|s| - 1]] else old(base.memory)
      ensures |base.memory| <= 1
    {
      if |s| == 0 {
        return;
      }
      CountPairs(s);
      if update || base.memory == [] {
        base.UpdateMemory(s[|s| - 1]);
      }
    }

    /** The counting loop of FeedSequence: one count per adjacent pair, in order. */
    method CountPairs(s: seq<int>)
      requires transitions.Valid() && Targets(s) && |s| >= 1
      modifies transitions.Repr
      ensures transitions.Valid() && fresh(transitions.Repr - old(transitions.Repr))
      ensures transitions.table == FeedPairs(old(transitions.table), s, |s|)
    {
      ghost var t0 := transitions.table;
      ghost var r0 := transitions.Repr;
      var state := s[0];
      var i := 1;
      while i < |s|
        invariant 1 <= i <= |s|
        invariant transitions.Valid() && fresh(transitions.Repr - r0)
        invariant state == s[i - 1]
        invariant transitions.table == FeedPairs(t0, s, i)
      {
        assert FeedPairs(t0, s, i + 1) == Bump(transitions.table, state, s[i]);
        transitions.Record(state, s[i]);
        state := s[i];
        i := i + 1;
      }
    }

    /** Sample the next state from the row of the current state: draw % total
        lands on the first position whose prefix sum exceeds it. */
    method PredictState(draw: nat, update: bool) returns (next: int)
      requires Valid() && base.memory != []
      requires SumAll(Row(transitions.table, base.memory[0])) > 0
      modifies base
      ensures Valid()
      ensures transitions.table == old(transitions.table)
      ensures var row := Row(transitions.table, old(base.memory)[0]);
              var x := draw % SumAll(row);
              next == FirstAbove(row, x) && 0 <= next < |row| &&
              Prefix(row, next - 1) <= x < Prefix(row, next) && row[next] > 0
      ensures base.memory == if update then [next] else old(base.memory)
    {
      var from := base.memory[0];
      var total := transitions.Total(from);
      var x := draw % total;
      next := transitions.UpperBound(from, x);
      DrawLands(Row(transitions.table, from), x);
      if update {
        base.UpdateMemory(next);
      }
    }
  }

  /** Every occurrence of k before the last position of s is followed by p. */
  predicate AlwaysFollowed(s: seq<int>, k: int, p: int) {
    forall j :: 1 <= j < |s| && s[j - 1] == k ==> s[j] == p
  }

  /** Fed into empty rows, each adjacent pair of s is counted at least once. */
  lemma FeedPairsSeen(s: seq<int>, j: nat)
    requires Targets(s) && 1 <= j < |s|
    ensures CountIn(FeedPairs(map[], s, |s|), s[j - 1], s[j]) >= 1
  {
    FeedPairsCount(map[], s, |s|, s[j - 1], s[j]);
    assert j in Pairs(s, |s|, s[j - 1], s[j]);
  }

  /** When k is always followed by p, the row of k counts at p only, so every
      draw from that row predicts p; when k occurs before the last position,
      the row has a positive total. */
  lemma {:induction false} FollowedPredicts(s: seq<int>, k: int, p: nat)
    requires Targets(s) && AlwaysFollowed(s, k, p)
    ensures var row := Row(FeedPairs(map[], s, |s|), k);
            (forall x :: 0 <= x < SumAll(row) ==> FirstAbove(row, x) == p) &&
            (|s| >= 1 && k in s[..|s| - 1] ==> SumAll(row) > 0)
  {
    var t := FeedPairs(map[], s, |s|);
    var row := Row(t, k);
    forall q | 0 <= q < |row| && q != p
      ensures row[q] == 0
    {
      FeedPairsCount(map[], s, |s|, k, q);
      assert Pairs(s, |s|, k, q) == {};
    }
    forall x | 0 <= x < SumAll(row)
      ensures FirstAbove(row, x) == p
    {
      OneNonZeroDraw(row, p, x);
    }
    OneNonZero(row, p);
    if |s| >= 1 && k in s[..|s| - 1] {
      var i :| 0 <= i < |s| - 1 && s[i] == k;
      FeedPairsSeen(s, i + 1);
    }
  }

  /** In the cycle 0,1,2,0,1,2,0,1,2 each state is always followed by the next
      one round the cycle, and each occurs before the end. */
  lemma CycleFollowed(s: seq<int>)
    requires s == [0, 1, 2, 0, 1, 2, 0, 1, 2]
    ensures Targets(s)
    ensures AlwaysFollowed(s, 2, 0) && AlwaysFollowed(s, 0, 1) && AlwaysFollowed(s, 1, 2)
    ensures 2 in s[..|s| - 1] && 0 in s[..|s| - 1] && 1 in s[..|s| - 1]
  {
    assert s[..|s| - 1] == [0, 1, 2, 0, 1, 2, 0, 1];
  }

  /** Fed with 0,1,2,0,1,2,0,1,2, the chain predicts 0 from 2, 1 from 0 and 2
      from 1 whatever the draw, so the predicted walk from 2 is 0, 1, 2, 0, ... */
  lemma CycleExample(s: seq<int>)
    requires s == [0, 1, 2, 0, 1, 2, 0, 1, 2]
    ensures var t := FeedPairs(map[], s, |s|);
            SumAll(Row(t, 2)) > 0 && SumAll(Row(t, 0)) > 0 && SumAll(Row(t, 1)) > 0 &&
            (forall x :: 0 <= x < SumAll(Row(t, 2)) ==> FirstAbove(Row(t, 2), x) == 0) &&
            (forall x :: 0 <= x < SumAll(Row(t, 0)) ==> FirstAbove(Row(t, 0), x) == 1) &&
            (forall x :: 0 <= x < SumAll(Row(t, 1)) ==> FirstAbove(Row(t, 1), x) == 2)
  {
    CycleFollowed(s);
    FollowedPredicts(s, 2, 0);
    FollowedPredicts(s, 0, 1);
    FollowedPredicts(s, 1, 2);
  }
}
