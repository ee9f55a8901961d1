/** The memory window shared by both chains: a bounded deque of recent states,
    the most recent first, that forgets its oldest entry once it is full. */
module Memory {

  function Min(a: int, b: int): (r: int) {
    if a <= b then a else b
  }

  /** The first n elements of s (all of s when it is shorter). */
  function Take(s: seq<int>, n: nat): (r: seq<int>)
    ensures |r| == Min(|s|, n)
  {
    if n <= |s| then s[..n] else s
  }

  function Reversed(s: seq<int>): (r: seq<int>)
    ensures |r| == |s|
  {
    seq(|s|, i requires 0 <= i < |s| => s[|s| - 1 - i])
  }

  /** The window after one push of x: x in front, at most ms entries kept. */
  function Pushed(m: seq<int>, x: int, ms: nat): (r: seq<int>) {
    Take([x] + m, ms)
  }

  /** The window after pushing xs[0], ..., xs[i-1], one after the other. */
  function PushedAll(m: seq<int>, xs: seq<int>, i: nat, ms: nat): (w: seq<int>)
    requires i <= |xs|
  {
    if i > 0 then Pushed(PushedAll(m, xs, i - 1, ms), xs[i - 1], ms) else m
  }

  /** Truncating the tail before truncating the whole changes nothing. */
  lemma TakeAppend(a: seq<int>, b: seq<int>, n: nat)
    ensures Take(a + Take(b, n), n) == Take(a + b, n)
  {
    var l := Take(a + Take(b, n), n);
    var r := Take(a + b, n);
    assert |l| == |r|;
    forall i | 0 <= i < |l|
      ensures l[i] == r[i]
    {
      if i >= |a| {
        assert l[i] == Take(b, n)[i - |a|];
      }
    }
  }

  /** Reversing a prefix puts its last element in front of the reversed
      shorter prefix. */
  lemma ReversedPrefix(s: seq<int>, i: nat)
    requires 0 < i <= |s|
    ensures Reversed(s[..i]) == [s[i - 1]] + Reversed(s[..i - 1])
  {
    var r := [s[i - 1]] + Reversed(s[..i - 1]);
    assert forall j :: 0 <= j < i ==> Reversed(s[..i])[j] == r[j];
  }

  lemma ReversedTwice(s: seq<int>)
    ensures Reversed(Reversed(s)) == s
  {
    assert forall i :: 0 <= i < |s| ==> Reversed(Reversed(s))[i] == s[i];
  }

  /** Dropping the last entry of a full window and pushing x in front is the
      truncated push. */
  lemma PopPush(m: seq<int>, x: int, ms: nat)
    requires 1 <= ms && |m| <= ms
    ensures (if |m| >= ms then [x] + m[..|m| - 1] else [x] + m) == Pushed(m, x, ms)
  {
  }

  /** One more push extends the closed form of the window by one element. */
  lemma PushedAllStep(m: seq<int>, xs: seq<int>, i: nat, ms: nat)
    requires 0 < i <= |xs|
    requires PushedAll(m, xs, i - 1, ms) == Take(Reversed(xs[..i - 1]) + m, ms)
    ensures PushedAll(m, xs, i, ms) == Take(Reversed(xs[..i]) + m, ms)
  {
    var before := Reversed(xs[..i - 1]) + m;
    TakeAppend([xs[i - 1]], before, ms);
    ReversedPrefix(xs, i);
    assert [xs[i - 1]] + before == Reversed(xs[..i]) + m;
  }

  /** Pushing a range one element at a time leaves its last element in front:
      the window is the reversed range followed by the old window, truncated. */
  lemma {:induction false} PushedAllClosed(m: seq<int>, xs: seq<int>, i: nat, ms: nat)
    requires |m| <= ms && i <= |xs|
    ensures PushedAll(m, xs, i, ms) == Take(Reversed(xs[..i]) + m, ms)
  {
    if i == 0 {
      assert xs[..0] == [];
    } else {
      PushedAllClosed(m, xs, i - 1, ms);
      PushedAllStep(m, xs, i, ms);
    }
  }

  /** The memory of a chain. */
  class BaseChain {
    const memorySize: nat
    /** The most recently seen (or predicted) state first. */
    var memory: seq<int>

    ghost predicate Valid()
      reads this
    {
      memorySize >= 1 && |memory| <= memorySize
    }

    constructor(memorySize: nat)
      requires memorySize >= 1
      ensures Valid()
      ensures this.memorySize == memorySize && memory == []
    {
      this.memorySize := memorySize;
      memory := [];
    }

    function GetMemorySize(): (r: nat)
      reads this
      ensures Valid() ==> r >= 1 && |memory| <= r
    {
      memorySize
    }

    function GetMemory(): (r: seq<int>)
      reads this
      ensures Valid() ==> |r| <= GetMemorySize()
    {
      memory
    }

    /** Push state to the front, dropping the oldest entry when the window is full. */
    method UpdateMemory(state: int)
      requires Valid()
      modifies this
      ensures Valid()
      ensures memory == Pushed(old(memory), state, memorySize)
      ensures memory[0] == state
      ensures memory[1..] == old(memory)[..Min(|old(memory)|, memorySize - 1)]
    {
      PopPush(memory, state, memorySize);
      if |memory| >= memorySize {
        memory := memory[..|memory| - 1];
      }
      memory := [state] + memory;
    }

    /** Push every element of xs in order, so that the last one ends in front. */
    method UpdateMemoryRange(xs: seq<int>)
      requires Valid()
      modifies this
      ensures Valid()
      ensures memory == PushedAll(old(memory), xs, |xs|, memorySize)
    {
      ghost var m0 := memory;
      var i := 0;
      while i < |xs|
        invariant 0 <= i <= |xs|
        invariant Valid()
        invariant memory == PushedAll(m0, xs, i, memorySize)
      {
        PopPush(memory, xs[i], memorySize);
        assert PushedAll(m0, xs, i + 1, memorySize) == Pushed(memory, xs[i], memorySize);
        if |memory| >= memorySize {
          memory := memory[..|memory| - 1];
        }
        memory := [xs[i]] + memory;
        i := i + 1;
      }
    }
  }

  /** The window of size 3 fed with [0,3,2], [4,5], [1], then 0. */
  lemma WindowExample()
    ensures PushedAll([], [0, 3, 2], 3, 3) == [2, 3, 0]
    ensures PushedAll([2, 3, 0], [4, 5], 2, 3) == [5, 4, 2]
    ensures PushedAll([5, 4, 2], [1], 1, 3) == [1, 5, 4]
    ensures Pushed([1, 5, 4], 0, 3) == [0, 1, 5]
  {
  }
}
