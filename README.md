# evolv sampling core in Dafny

This project models the weighted-sampling and transition-counting engine of
evolv, a small library of Markov chains over arbitrary states, and proves what
that engine promises. It covers six parts:

- **Fenwick tree** (`fenwick_tree.dfy`; pure helpers in `prefix_sums.dfy` and
  `low_bits.dfy`). A growable binary indexed tree over count positions. The
  class keeps the node vector `tree` and the running `total`. A ghost
  sequence `counts` holds the logical counts. The invariant `Valid` says that
  node `i` holds the sum of the counts at positions `i - lowbit(i) .. i - 1`,
  and that `total` is the sum of all counts. The prefix-sum loop, the
  `Resize` back-fill loop, the `Add` update loop and the `UpperBound` descent
  are each proved against the logical counts.
- **Memory window** (`base_chain.dfy`). The bounded deque of recent states,
  most recent first. Pushing past capacity evicts the oldest entry.
- **Transition rows** (`transit_counters.dfy`). A map from keys to Fenwick
  rows, with a ghost table recording every row's counts. A missing row reads
  as an empty row.
- **Memoryless chain** (`forgor_chain.dfy`). Each adjacent pair of a fed
  sequence counts one transition. A prediction samples the row of the current
  state.
- **Order-N chain** (`rember_chain.dfy`). For every depth `d` below the
  memory size, the source `d + 1` steps back counts one transition, in row
  `(source, d)`. A prediction binary-searches the codes `0..maxState` over the
  prefix sums of the memory's rows, summed across depths.
- **State coder** (`state_coder.dfy`). A bijection between states and the
  dense codes `0, 1, 2, ...`, with codes handed out in order of first
  appearance.

The random engine is not modelled. Each prediction takes the raw random number
as a parameter `draw` and reduces it modulo the total, as the code does.
Feeding takes the already-encoded sequence as a `seq<int>`.

## Model

| member | source | states |
|---|---|---|
| `Fenwick.FenwickTree.Empty` | src/impl/fenwick_tree.h:17-18 | the default tree is valid and holds no positions, so its size and total are 0 |
| `Fenwick.FenwickTree.OfSize` | src/impl/fenwick_tree.h:21-23 | a tree of a given size is valid and holds that many zero counts |
| `PrefixSums.SumRangeOfZeros` | test/test_fenwick_tree.h:16-22 | every range sum over zero counts is 0 |
| `Fenwick.FenwickTree.Size` | src/impl/fenwick_tree.h:26-28 | the size is the number of logical positions, one less than the node vector's length |
| `Fenwick.FenwickTree.SumWithin` | src/impl/fenwick_tree.h:44-51 | the prefix-sum loop, as written, returns the sum of the counts at positions 0..rb whenever rb is below the number of valid nodes |
| `Fenwick.FenwickTree.Sum` | src/impl/fenwick_tree.h:44-51 | returns the sum of the counts at positions 0..rb, which is 0 for rb = -1; positions at or past the size count 0 |
| `Fenwick.FenwickTree.RangeSum` | src/impl/fenwick_tree.h:54-62 | returns 0 when rb < lb, and otherwise Sum(rb) - Sum(lb - 1), which is the sum of the counts at positions lb..rb |
| `Fenwick.FenwickTree.Total` | src/impl/fenwick_tree.h:64-66 | the running total equals the sum of all logical counts |
| `Fenwick.FenwickTree.Resize` | src/impl/fenwick_tree.h:32-41 | growing keeps every old count, adds zero counts up to the new size, and restores the node invariant |
| `Fenwick.FenwickTree.BackFill` | src/impl/fenwick_tree.h:36-40 | the back-fill loop sets each new node to the sum of the old positions it covers, keeping the counts, so the tree is valid afterwards |
| `PrefixSums.NewNode` | src/impl/fenwick_tree.h:37 | a new node's range over zero-padded counts sums to the difference of two prefix sums over the old positions, or to 0 when the range lies past them |
| `PrefixSums.GrownPrefix` | src/impl/fenwick_tree.h:32-41 | growing with zero counts changes no prefix sum and not the total |
| `Fenwick.FenwickTree.Add` | src/impl/fenwick_tree.h:69-78 | the count at idx rises by x, growing the tree to idx + 1 positions first; no other count changes and the total rises by x |
| `Fenwick.FenwickTree.AddWithin` | src/impl/fenwick_tree.h:73-77 | the update loop raises exactly the count at idx by x and keeps every node right |
| `Fenwick.ClimbStep` | src/impl/fenwick_tree.h:74-76 | one step idx += lowbit(idx) keeps the update loop's invariant: the nodes below are right for the new counts, and the nodes from idx on are right for the old counts |
| `PrefixSums.AddAtPrefix` | src/impl/fenwick_tree.h:69-78 | after Add(idx, x), Sum(j) grows by x exactly when j >= idx, and the total grows by x |
| `PrefixSums.AddAtAt` | src/impl/fenwick_tree.h:69-78 | after Add(idx, x), the count at idx grows by x and every other count is unchanged |
| `PrefixSums.PrefixBeyondEnd` | src/impl/fenwick_tree.h:64-66 | the total equals Sum(Size() - 1), and every prefix that reaches the end |
| `PrefixSums.PrefixMonotone` | src/impl/fenwick_tree.h:44-51 | with non-negative counts, Sum is non-decreasing in rb |
| `Fenwick.FenwickTree.UpperBound` | src/impl/fenwick_tree.h:81-91 | returns a position p <= Size() with Sum(p - 1) <= x, and Sum(p) > x unless p == Size(); with non-negative counts, p is the first position whose prefix sum exceeds x |
| `Fenwick.DescentStep` | src/impl/fenwick_tree.h:84-88 | one halving step of the descent keeps its invariant: the positions passed sum to at most x, and the answer lies within the next span |
| `LowBits.Lowbit` | src/impl/fenwick_tree.h:47 | the step `rb & -rb` of a positive index is between 1 and the index, so the loops move and stay in range |
| `LowBits.LowbitLowest` | src/impl/fenwick_tree.h:74 | the step `idx & -idx` is a power of two and the index is an odd multiple of it: it is the index's lowest set bit |
| `LowBits.BitFloor` | src/impl/fenwick_tree.h:83 | the starting step is the largest power of two not above the node vector's length |
| `PrefixSums.FirstAboveUnique` | src/impl/fenwick_tree.h:81-91 | with non-negative counts, any position bracketed by the prefix sums around x is the first position above x |
| `PrefixSums.DrawLands` | src/impl/fenwick_tree.h:81-91 | for 0 <= x < total, the first position above x lies inside the row, is bracketed by the prefix sums, and has a positive count |
| `Fenwick.ExamplePrefixes` | test/test_fenwick_tree.h:78-89 | the prefix sums of the counts 0,3,5,1,4,3,2,4,0,1 |
| `Fenwick.UpperBoundExample` | test/test_fenwick_tree.h:100-110 | on those counts, UpperBound gives 0, 1, 1, 2, 5, 7, 7, 9, 10 for x = -1, 0, 1, 3, 15, 18, 21, 22, 23 |
| `Memory.BaseChain.constructor` | src/impl/base_chain.h:28-30 | the window starts empty with the given capacity |
| `Memory.BaseChain.GetMemorySize` | src/impl/base_chain.h:32-34 | returns the capacity, which is at least 1 and bounds the window |
| `Memory.BaseChain.GetMemory` | src/impl/base_chain.h:37-39 | returns the window, whose length is within the capacity |
| `Memory.BaseChain.UpdateMemory` | src/impl/base_chain.h:43-50 | the state goes in front; the rest is the old window cut to capacity - 1 entries, so the length stays within the capacity |
| `Memory.BaseChain.UpdateMemoryRange` | src/impl/base_chain.h:54-63 | equals pushing each element in turn |
| `Memory.PushedAllClosed` | src/impl/base_chain.h:54-63 | pushing a range one element at a time gives the reversed range followed by the old window, cut to capacity, so the last element ends in front |
| `Memory.WindowExample` | tests/test_rember_chain.h:54-71 | with capacity 3: pushing 0,3,2 gives 2,3,0; then 4,5 gives 5,4,2; then 1 gives 1,5,4; then pushing 0 alone gives 0,1,5 |
| `Counters.BumpCount` | src/impl/forgor_chain.h:47 | recording (k, p) adds exactly one count, at position p of row k |
| `Counters.TransitCounters.Record` | src/impl/forgor_chain.h:70-72 | opens row k when it is missing, then adds one count at position p; the table changes by exactly that count |
| `Counters.TransitCounters.constructor` | src/impl/forgor_chain.h:75 | the counters start with no rows, so every row reads as empty |
| `Counters.TransitCounters.AddInRow` | src/impl/forgor_chain.h:47 | adding on an existing row raises its count at p by one and changes no other row |
| `Counters.TransitCounters.Open` | src/impl/forgor_chain.h:70-72 | after the call, row k exists; a missing row is created empty, so every count reads the same |
| `Counters.TransitCounters.Total` | src/impl/forgor_chain.h:59 | returns the sum of row k's counts, 0 for a missing row |
| `Counters.TransitCounters.UpperBound` | src/impl/forgor_chain.h:60 | returns the first position of row k whose prefix sum exceeds x |
| `Counters.TransitCounters.Sum` | src/impl/rember_chain.h:135 | returns the prefix sum of row k up to the given position, with a missing row or position counting 0 |
| `Forgor.ForgorChain.constructor` | src/impl/forgor_chain.h:33-34 | the chain starts with a one-state window, empty memory and no rows |
| `Forgor.ForgorChain.FeedSequence` | src/impl/forgor_chain.h:38-53 | an empty sequence changes nothing; otherwise every adjacent pair is counted; the memory becomes the last state exactly when asked, or when it was empty, and otherwise stays; it never holds more than one state |
| `Forgor.ForgorChain.CountPairs` | src/impl/forgor_chain.h:44-49 | the counting loop leaves the table as FeedPairs of the old table and the sequence |
| `Forgor.FeedPairsCount` | src/impl/forgor_chain.h:44-49 | feeding adds, at position p of row k, one count for each adjacent pair (k, p) of the sequence, and nothing else |
| `Forgor.ForgorChain.PredictState` | src/impl/forgor_chain.h:57-65 | needs a non-empty memory and a positive row total; for x = draw mod total the prediction r satisfies Sum(r - 1) <= x < Sum(r) in the current row, has a positive count there, and is the row's first position above x; the counts never change, and the memory becomes [r] exactly when asked |
| `Forgor.FollowedPredicts` | src/impl/forgor_chain.h:57-65 | when state k is always followed by p, every draw from row k predicts p, and row k has a positive total if k occurs before the end |
| `Forgor.CycleExample` | tests/test_forgor_chain.h:56-64 | after feeding 0,1,2,0,1,2,0,1,2, every draw predicts 0 from 2, 1 from 0 and 2 from 1, so the walk from 2 is 0, 1, 2, 0 |
| `Rember.RemberChain.constructor` | src/impl/rember_chain.h:39-41 | the window holds memorizePrevious + 1 states, the memory is empty, maxState is 0, and there are no rows |
| `Rember.RemberChain.FeedSequence` | src/impl/rember_chain.h:54-81 | an empty sequence changes nothing; otherwise every lagged pair is counted and maxState becomes max(old, max(s)); when asked, or when the memory was empty, the memory becomes the trailing window of s followed by the old memory, cut to the window size, and otherwise it stays |
| `Rember.RemberChain.CountLagged` | src/impl/rember_chain.h:60-77 | the counting loop leaves the table as FeedLagged of the old table, keeps the trailing window as the last min(len of s, memory size) states most recent first, and tracks the maximum |
| `Rember.RemberChain.CountFrom` | src/impl/rember_chain.h:68-71 | the inner loop adds one count at position p in row (w[d], d) for every depth d of the window |
| `Rember.BumpDepthsCount` | src/impl/rember_chain.h:68-71 | the inner loop adds, in row (k, d), one count at p exactly when d is a depth of the window and the window holds k at depth d |
| `Rember.FeedLaggedCount` | src/impl/rember_chain.h:64-77 | feeding adds, at position p of row (k, d), one count for each i with s[i] = p and s[i-1-d] = k and d < min(i, memory size), and nothing else |
| `Rember.WindowAt` | src/impl/rember_chain.h:60-77 | depth d of the trailing window is the state d + 1 steps back |
| `Rember.Slid` | src/impl/rember_chain.h:72-75 | the pop-when-full and push-front on the trailing window: for a window within the capacity it is the bounded push of the new state in front |
| `Rember.SlidWindow` | src/impl/rember_chain.h:72-75 | sliding the trailing window of s[..i] over s[i] gives the trailing window of s[..i+1] |
| `Rember.WindowStep` | src/impl/rember_chain.h:72-75 | one bounded push moves the trailing window on by one state |
| `Rember.WindowPushed` | src/impl/rember_chain.h:78-80 | pushing the reversed window into the memory puts the window in front of the old memory, cut to capacity |
| `Rember.MaxOfBounds` | src/impl/rember_chain.h:61 | the running maximum bounds every state fed and is one of them |
| `Rember.FeedLaggedKeeps` | src/impl/rember_chain.h:64-77 | feeding codes no larger than maxState keeps every depth below the memory size and every row within maxState + 1 positions |
| `Rember.FeedLaggedNonNeg` | src/impl/rember_chain.h:64-77 | feeding only adds counts, so a table of non-negative counts stays non-negative |
| `Rember.RemberChain.SumTotals` | src/impl/rember_chain.h:105-112 | returns the sum over depths d of the total of row (memory[d], d), with missing rows counting 0 |
| `Rember.RemberChain.SumPrefixes` | src/impl/rember_chain.h:133-136 | returns the sum over depths d of the prefix sum of row (memory[d], d) up to c |
| `Rember.AcrossMonotone` | src/impl/rember_chain.h:129-142 | the prefix sums summed across depths are non-decreasing in the code, which makes the binary search sound |
| `Rember.AcrossFull` | src/impl/rember_chain.h:129-142 | at any code at or past the longest row, the summed prefix is the summed total |
| `Rember.RemberChain.UpperBound` | src/impl/rember_chain.h:125-144 | returns a code in 0..maxState; every code below it has summed prefix at most x; when x is below the summed total, the code's own summed prefix exceeds x, so it is the first such code |
| `Rember.RemberChain.PredictState` | src/impl/rember_chain.h:85-93 | needs a non-empty memory and a positive summed total; for x = draw mod total the prediction r is within 0..maxState, is bracketed by the summed prefixes around x, and has a positive count summed across depths; the counts never change, and the memory gets r pushed in front exactly when asked |
| `Rember.FeedMemoryExample` | tests/test_rember_chain.h:13-51 | the memories after feeding, with window size 2 and then 3, are 0,1; 0,0; 0,3,2; 2,4,1; 2,3,4; 3,2,2; 0,3,2 |
| `Rember.ShortRowProbe` | src/impl/rember_chain.h:135 | fed 5,0,5 with one state of memory, the search's first probe, code 2, lies past the end of the one-position row it reads |
| `Coder.StateCoder.constructor` | src/impl/state_coder.h:21 | the coder starts with no codes |
| `Coder.StateCoder.Encode` | src/impl/state_coder.h:24-30 | a known state gets its old code, and the maps do not change; a new state gets the number of states seen before it and is appended to both maps; Decode(Encode(s)) == s and the maps stay inverse |
| `Coder.StateCoder.Decode` | src/impl/state_coder.h:33-36 | needs a code that was handed out; returns the state whose code it is |
| `Coder.InverseCodes` | src/impl/state_coder.h:39-42 | when encoder and decoder are inverse, distinct states have distinct codes, and the codes in use are exactly 0..len(decoder) - 1 |
| `Coder.InverseGrow` | src/impl/state_coder.h:25-28 | appending a new state under the next free code keeps encoder and decoder inverse |
| `Coder.WordsExample` | test/test_state_coder.h:12-23 | encoding Tests, should, be, should, repeatable gives 0, 1, 2, 1, 3, and codes 1 and 0 decode back to should and Tests |

## Left out

- Sequences stand in for the C++ containers. The node `std::vector` and the
  memory deque are `seq<int>` fields that the methods reassign. The order-N
  chain's trailing-window deque is a local `seq<int>`, as in the code. The row
  maps are Dafny `map`s. Element storage and aliasing inside the standard containers
  are not modelled.
- Machine integer widths are not modelled. All counts, codes and sums are
  unbounded integers. The code truncates 64-bit sums into `int` at
  src/impl/fenwick_tree.h:59 and src/impl/rember_chain.h:107 and 133.
- The random engine (`std::mt19937_64`) and its seed are left out. Each
  prediction takes the raw draw as a parameter. The modulo bias of
  `draw % total` is not modelled.
- `Forgor.ForgorChain.PredictState` and `Rember.RemberChain.PredictState`
  require a positive total. The code divides by zero when the total is 0.
- The chains call `TotalTransitions()` and `TotalSum()` on their rows. The
  tree only defines `Total()`. Both are modelled as `Total`.
- Reading a missing row creates an empty row in the code (the map's
  `operator[]`, and the vector resize in the order-N chain's `Get`). The model
  creates rows only when counting. Predictions and sums read a missing row as
  empty, which gives the same counts.
- The order-N chain keeps a vector of rows per source code. The model keys
  rows by the pair (source, depth).
- `Fenwick.FenwickTree.Sum` clamps rb to Size() - 1. The code reads past the
  node vector when rb >= Size() (see Findings).
- Shrinking `Resize` is left out, because `Add` never reaches it and it would
  leave `total_` stale. `Fenwick.FenwickTree.Resize` requires a new size at
  least the old one.
- `Fenwick.FenwickTree.OfSize` takes a `nat`, and no caller passes a negative
  size. In the code a negative size wraps in the `size_t` cast: -1 gives a
  tree with an empty node vector and `Size() == -1`, and anything lower makes
  the vector constructor throw `std::length_error`.
- `Fenwick.FenwickTree.Add` requires idx >= 0. A negative index is undefined
  in the code.
- Fed sequences satisfy `Targets`: every state after the first is a code,
  hence non-negative. Codes come from the state coder.
- `Rember.RemberChain.constructor` takes memorizePrevious as a `nat`, so the
  window size is at least 1.
- The bodies of the counting and summing loops are separate methods:
  `CountPairs`, `CountLagged`, `CountFrom`, `SumTotals` and `SumPrefixes`.
  Each keeps the order of the code's loop.
- The statistical prediction tests, which count predictions over 100 draws,
  are not modelled. What the model proves about a single draw is the bracket
  and positive-count property.
- I/O is left out: the `std::cout` in `Decode` and the tree's `dbg`.
- The iterator plumbing (`EncodingIter`), the `MarkovChain` wrappers and the
  language bindings are not part of this model.

## Findings

| source | as written | input that shows it | evidently intended | confidence | as-written member | corrected member |
|---|---|---|---|---|---|---|
| src/impl/rember_chain.h:135 | The binary search probes every code md up to maxState with `Sum(md)` on each depth's row. The prefix-sum loop (src/impl/fenwick_tree.h:44-51) indexes `tree_[md + 1]` without a bounds check. A row shorter than md + 1 positions is read out of bounds. | Use one state of memory (memorizePrevious 0) and feed 5, 0, 5, then predict. The memory is [5], and row (5, 0) has a single position. maxState is 5, so the first probe is md = 2. | Positions at or past a row's end count 0. | not executed | `Fenwick.FenwickTree.SumWithin`, `Rember.ShortRowProbe` | `Fenwick.FenwickTree.Sum` |
