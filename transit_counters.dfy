/** Transition counters: one Fenwick row of counts per key (a source code for the
    memoryless chain, a pair (source code, depth) for the order-N chain).
    The logical view is a table from keys to count sequences, where a key with
    no row reads as an empty row. */
module Counters {
  import opened PrefixSums
  import opened Fenwick

  /** The counts of row k; a missing row counts 0 everywhere. */
  function Row<K>(t: map<K, seq<int>>, k: K): (row: seq<int>) {
    if k in t then t[k] else []
  }

  /** The count at position p of row k. */
  function CountIn<K>(t: map<K, seq<int>>, k: K, p: int): (r: int) {
    At(Row(t, k), p)
  }

  /** One more transition from k to p. */
  function Bump<K>(t: map<K, seq<int>>, k: K, p: nat): (r: map<K, seq<int>>) {
    t[k := AddAt(Row(t, k), p, 1)]
  }

  /** Every element after the first of a fed sequence is a target, hence a
      position in a row, so it must be a code (non-negative). */
  predicate Targets(s: seq<int>) {
    forall i :: 1 <= i < |s| ==> s[i] >= 0
  }

  predicate AllNonNeg<K>(t: map<K, seq<int>>) {
    forall k :: k in t ==> NonNeg(t[k])
  }

  /** Every row has at most n positions. */
  predicate RowsWithin<K>(t: map<K, seq<int>>, n: int) {
    forall k :: k in t ==> |t[k]| <= n
  }

  /** Bumping (k, p) adds exactly one count, at position p of row k. */
  lemma BumpCount<K>(t: map<K, seq<int>>, k: K, p: nat, l: K, q: int)
    ensures CountIn(Bump(t, k, p), l, q) == CountIn(t, l, q) + (if l == k && q == p then 1 else 0)
  {
    if l == k {
      AddAtAt(Row(t, k), p, 1, q);
    }
  }

  /** Bumping keeps the counts non-negative and the rows within p + 1 positions
      of whatever bound they had. */
  lemma BumpKeeps<K>(t: map<K, seq<int>>, k: K, p: nat, n: int)
    ensures AllNonNeg(t) ==> AllNonNeg(Bump(t, k, p))
    ensures RowsWithin(t, n) && p < n ==> RowsWithin(Bump(t, k, p), n)
  {
    if AllNonNeg(t) {
      AddAtNonNeg(Row(t, k), p, 1);
    }
  }

  /** Opening row k and then adding at p is one bump. */
  lemma OpenThenAdd<K>(t: map<K, seq<int>>, k: K, p: nat)
    ensures t[k := Row(t, k)][k := AddAt(Row(t, k), p, 1)] == Bump(t, k, p)
  {
  }

  class TransitCounters<K(==)> {
    var counters: map<K, FenwickTree>
    /** The counts of every row. */
    ghost var table: map<K, seq<int>>
    ghost var Repr: set<object>

    /** Each key has its own row object, whose counts the table records. */
    ghost predicate Valid()
      reads this, Repr
    {
      this in Repr &&
      counters.Keys == table.Keys &&
      (forall k :: k in counters ==>
         counters[k] in Repr && counters[k].Valid() && counters[k].counts == table[k]) &&
      (forall k, l :: k in counters && l in counters && k != l ==> counters[k] != counters[l]) &&
      AllNonNeg(table)
    }

    constructor()
      ensures Valid() && fresh(Repr)
      ensures table == map[]
    {
      counters := map[];
      table := map[];
      Repr := {this};
    }

    /** Count one transition from k to position p (creating the row of k on first use). */
    method Record(k: K, p: nat)
      requires Valid()
      modifies Repr
      ensures Valid() && fresh(Repr - old(Repr))
      ensures table == Bump(old(table), k, p)
    {
      ghost var t0 := table;
      Open(k);
      AddInRow(k, p);
      OpenThenAdd(t0, k, p);
    }

    /** Record for a key whose row exists: only that row changes. */
    method AddInRow(k: K, p: nat)
      requires Valid() && k in counters
      modifies Repr
      ensures Valid() && Repr == old(Repr)
      ensures table == old(table)[k := AddAt(old(table)[k], p, 1)]
    {
      var row := counters[k];
      row.Add(p, 1);
      table := table[k := row.counts];
      AddAtNonNeg(old(table)[k], p, 1);
    }

    /** Make sure k has a row, creating an empty one if needed (the map's insert-on-read). */
    method Open(k: K)
      requires Valid()
      modifies this
      ensures Valid() && fresh(Repr - old(Repr))
      ensures k in counters
      ensures table == old(table)[k := Row(old(table), k)]
    {
      if k !in counters {
        var row := new FenwickTree.Empty();
        counters := counters[k := row];
        table := table[k := []];
        Repr := Repr + {row};
      }
    }

    /** The total of row k. */
    method Total(k: K) returns (r: int)
      requires Valid()
      ensures r == SumAll(Row(table, k))
    {
      if k in counters {
        r := counters[k].Total();
      } else {
        r := 0;
      }
    }

    /** The prefix sum of row k over positions 0..c. */
    method Sum(k: K, c: int) returns (r: int)
      requires Valid()
      ensures r == Prefix(Row(table, k), c)
    {
      if k in counters {
        r := counters[k].Sum(c);
      } else {
        r := 0;
      }
    }

    /** The first position of row k whose prefix sum exceeds x. */
    method UpperBound(k: K, x: int) returns (r: nat)
      requires Valid()
      ensures r == FirstAbove(Row(table, k), x)
    {
      if k in counters {
        r := counters[k].UpperBound(x);
      } else {
        r := 0;
      }
    }
  }
}
