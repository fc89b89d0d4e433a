/**
 * Save-slot rotation (Core/SaveStateManager.cpp, MoveToNextSlot and
 * MoveToPreviousSlot).  The selected slot is a `uint32_t` that starts at 1;
 * `maxIndex` is the number of slots, a constant of at least 1.
 */
module Slots {
  import opened Bytes

  /** `(_lastIndex % MaxIndex) + 1`. */
  function NextSlot(i: U32, maxIndex: U32): (r: U32)
    requires maxIndex >= 1
    ensures 1 <= r <= maxIndex
  {
    i % maxIndex + 1
  }

  /**
   * `_lastIndex == 1 ? MaxIndex : _lastIndex - 1`, with the unsigned
   * subtraction written out: from 0 it would wrap to the largest `uint32_t`.
   */
  function PreviousSlot(i: U32, maxIndex: U32): (r: U32)
  {
    if i == 1 then maxIndex else if i == 0 then 0xFFFF_FFFF else i - 1
  }

  predicate InRange(i: U32, maxIndex: U32)
  {
    1 <= i <= maxIndex
  }

  /** Next moves a valid slot up by one, and from the last slot back to 1. */
  lemma NextSlotStep(i: U32, maxIndex: U32)
    requires InRange(i, maxIndex)
    ensures NextSlot(i, maxIndex) == if i == maxIndex then 1 else i + 1
  {
    if i == maxIndex {
      ModOfSum(1, maxIndex, 0);
    } else {
      ModOfSum(0, maxIndex, i);
    }
  }

  /** Both moves keep a slot in range; previous from 1 is the last slot. */
  lemma PreviousSlotInRange(i: U32, maxIndex: U32)
    requires InRange(i, maxIndex)
    ensures InRange(PreviousSlot(i, maxIndex), maxIndex)
    ensures i == 1 ==> PreviousSlot(i, maxIndex) == maxIndex
    ensures i > 1 ==> PreviousSlot(i, maxIndex) == i - 1
  {
  }

  /** Previous undoes next, and next undoes previous, on every valid slot. */
  lemma NextPreviousInverse(i: U32, maxIndex: U32)
    requires InRange(i, maxIndex)
    ensures PreviousSlot(NextSlot(i, maxIndex), maxIndex) == i
    ensures NextSlot(PreviousSlot(i, maxIndex), maxIndex) == i
  {
    NextSlotStep(i, maxIndex);
    NextSlotStep(PreviousSlot(i, maxIndex), maxIndex);
  }

  /** The slot reached after k moves to the next slot. */
  function NextSlotTimes(i: U32, maxIndex: U32, k: nat): (r: U32)
    requires maxIndex >= 1
  {
    if k == 0 then i else NextSlot(NextSlotTimes(i, maxIndex, k - 1), maxIndex)
  }

  /** k moves forward from a valid slot advance it by k, modulo the slot count. */
  lemma {:induction false} NextSlotTimesFormula(i: U32, maxIndex: U32, k: nat)
    requires InRange(i, maxIndex)
    ensures NextSlotTimes(i, maxIndex, k) == (i - 1 + k) % maxIndex + 1
  {
    if k > 0 {
      var n: nat := i - 1 + k - 1;
      NextSlotTimesFormula(i, maxIndex, k - 1);
      var previous := NextSlotTimes(i, maxIndex, k - 1);
      assert previous == n % maxIndex + 1;
      NextSlotStep(previous, maxIndex);
      ModSuccessor(n, maxIndex);
      assert i - 1 + k == n + 1;
    } else {
      ModOfSum(0, maxIndex, i - 1);
    }
  }

  lemma MulAtLeast(a: nat, m: nat)
    requires a >= 1 && m >= 1
    ensures a * m >= m
  {
  }

  /** Euclidean division is unique: x is the remainder of q * m + x. */
  lemma ModOfSum(q: nat, m: nat, x: nat)
    requires m >= 1 && x < m
    ensures (q * m + x) % m == x
  {
    var n := q * m + x;
    var d, r := n / m, n % m;
    assert n == d * m + r;
    assert (q - d) * m == r - x;
    if q - d >= 1 {
      MulAtLeast(q - d, m);
      assert false;
    }
    if d - q >= 1 {
      MulAtLeast(d - q, m);
      assert false;
    }
  }

  lemma DivMod(n: nat, m: nat) returns (q: nat, x: nat)
    requires m >= 1
    ensures n == q * m + x && x < m && x == n % m
  {
    q, x := n / m, n % m;
  }

  /** The remainder of n + 1 is one more than that of n, or wraps to 0. */
  lemma ModSuccessor(n: nat, m: nat)
    requires m >= 1
    ensures (n + 1) % m == if n % m + 1 == m then 0 else n % m + 1
  {
    var q, x := DivMod(n, m);
    if x + 1 == m {
      assert n + 1 == (q + 1) * m + 0;
      ModOfSum(q + 1, m, 0);
    } else {
      assert n + 1 == q * m + (x + 1);
      ModOfSum(q, m, x + 1);
    }
  }

  /** `maxIndex` moves forward bring every valid slot back to itself. */
  lemma NextSlotCycle(i: U32, maxIndex: U32)
    requires InRange(i, maxIndex)
    ensures NextSlotTimes(i, maxIndex, maxIndex) == i
  {
    NextSlotTimesFormula(i, maxIndex, maxIndex);
    ModOfSum(1, maxIndex, i - 1);
  }
}
