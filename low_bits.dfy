/** The bit arithmetic of a Fenwick tree on positive indices: `i & -i` (the lowest
    set bit of i) and `bit_floor` (the largest power of two not above n), stated
    arithmetically. */
module LowBits {

  function Pow2(k: nat): (p: nat)
    ensures p >= 1
  {
    if k == 0 then 1 else 2 * Pow2(k - 1)
  }

  /** The largest power of two dividing i, i.e. the value of `i & -i` for i > 0. */
  function Lowbit(i: nat): (r: nat)
    requires i >= 1
    ensures 1 <= r <= i
  {
    if i % 2 == 1 then 1 else 2 * Lowbit(i / 2)
  }

  /** What is left of i once its trailing zero bits are shifted out. */
  function OddPart(i: nat): (o: nat)
    requires i >= 1
  {
    if i % 2 == 1 then i else OddPart(i / 2)
  }

  /** Lowbit(i) is a power of two and i is Lowbit(i) times an odd number, so
      Lowbit(i) is the lowest set bit of i. */
  lemma {:induction false} LowbitLowest(i: nat)
    requires i >= 1
    ensures exists k :: Pow2(k) == Lowbit(i)
    ensures i == Lowbit(i) * OddPart(i) && OddPart(i) % 2 == 1
  {
    if i % 2 == 0 {
      LowbitLowest(i / 2);
      var k: nat :| Pow2(k) == Lowbit(i / 2);
      assert Pow2(k + 1) == Lowbit(i);
      assert i == 2 * (i / 2);
      assert i == (2 * Lowbit(i / 2)) * OddPart(i / 2);
    } else {
      assert Pow2(0) == Lowbit(i);
    }
  }

  /** floor(log2(n)). */
  function Log2(n: nat): (k: nat)
    requires n >= 1
    ensures Pow2(k) <= n < 2 * Pow2(k)
  {
    if n == 1 then 0 else 1 + Log2(n / 2)
  }

  /** `std::bit_floor(n)` for n >= 1. */
  function BitFloor(n: nat): (p: nat)
    requires n >= 1
    ensures p == Pow2(Log2(n))
    ensures p <= n < 2 * p
  {
    Pow2(Log2(n))
  }

  /** The step `i += i & -i` lands on an index whose low bit is at least twice as
      large; hence the node it reaches still covers every index that i covers. */
  lemma {:induction false} LowbitNext(i: nat)
    requires i >= 1
    ensures Lowbit(i + Lowbit(i)) >= 2 * Lowbit(i)
  {
    if i % 2 == 0 {
      LowbitNext(i / 2);
      assert (i + Lowbit(i)) / 2 == i / 2 + Lowbit(i / 2);
    }
  }

  /** Between i and i + Lowbit(i) every index j has a low bit no larger than j - i,
      so the node at j covers nothing before i. */
  lemma {:induction false} LowbitInside(i: nat, d: nat)
    requires i >= 1 && 0 < d < Lowbit(i)
    ensures Lowbit(i + d) <= d
  {
    if d % 2 == 0 {
      LowbitInside(i / 2, d / 2);
      assert (i + d) / 2 == i / 2 + d / 2;
    }
  }

  /** i is a multiple of 2^k. */
  predicate Aligned(i: nat, k: nat) {
    if k == 0 then true else i % 2 == 0 && Aligned(i / 2, k - 1)
  }

  lemma {:induction false} AlignedZero(k: nat)
    ensures Aligned(0, k)
  {
    if k > 0 {
      AlignedZero(k - 1);
    }
  }

  /** Adding 2^k to a multiple of 2^(k+1) gives a number whose low bit is 2^k;
      both the multiple and the sum are multiples of 2^k. */
  lemma {:induction false} AlignedLowbit(i: nat, k: nat)
    requires Aligned(i, k + 1)
    ensures Lowbit(i + Pow2(k)) == Pow2(k)
    ensures Aligned(i, k) && Aligned(i + Pow2(k), k)
  {
    if k > 0 {
      AlignedLowbit(i / 2, k - 1);
      assert (i + Pow2(k)) / 2 == i / 2 + Pow2(k - 1);
    }
  }
}
