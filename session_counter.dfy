/**
 * The "exercise N of M" counter that every session advances with
 * `prev => (prev % M) + 1`.
 */
module SessionCounter {

  /** Length of the timed exercise sessions. */
  const EXERCISES_PER_SESSION: int := 25

  /** JavaScript's `%`: truncates toward zero, so the sign follows the dividend. */
  function JsRemainder(a: int, n: int): (r: int)
    requires n > 0
    ensures 0 <= a ==> 0 <= r < n
    ensures a < 0 ==> -n < r <= 0
  {
    if a >= 0 then a % n else -((-a) % n)
  }

  /** The counter after one "next". */
  function NextCount(prev: int, total: int): (next: int)
    requires total > 0
    ensures 1 <= prev <= total ==> 1 <= next <= total
    ensures prev == total ==> next == 1
    ensures 1 <= prev < total ==> next == prev + 1
  {
    JsRemainder(prev, total) + 1
  }

  /** The counter after `k` presses of "next". */
  function Advance(start: int, k: nat, total: int): int
    requires total > 0
  {
    if k == 0 then start else NextCount(Advance(start, k - 1, total), total)
  }

  /** Below the top of the range, each press adds one. */
  lemma {:induction false} AdvanceClimbs(start: int, k: nat, total: int)
    requires total > 0 && 1 <= start && start + k <= total
    ensures Advance(start, k, total) == start + k
  {
    if k > 0 {
      AdvanceClimbs(start, k - 1, total);
    }
  }

  /** Pressing `a` times and then `b` times is pressing `a + b` times. */
  lemma {:induction false} AdvanceSplits(start: int, a: nat, b: nat, total: int)
    requires total > 0
    ensures Advance(start, a + b, total) == Advance(Advance(start, a, total), b, total)
  {
    if b > 0 {
      AdvanceSplits(start, a, b - 1, total);
    }
  }

  /**
   * The counter is periodic with period exactly `total`: `total` presses
   * bring it back to its start, and no smaller positive number of presses does.
   */
  lemma AdvanceFullCycle(start: int, total: int)
    requires total > 0 && 1 <= start <= total
    ensures Advance(start, total as nat, total) == start
    ensures forall k: nat :: 0 < k < total ==> Advance(start, k, total) != start
  {
    var up := (total - start) as nat;
    AdvanceClimbs(start, up, total);
    AdvanceSplits(start, up, 1, total);
    assert Advance(start, up + 1, total) == 1;
    AdvanceSplits(start, up + 1, (start - 1) as nat, total);
    AdvanceClimbs(1, (start - 1) as nat, total);
    forall k: nat | 0 < k < total
      ensures Advance(start, k, total) != start
    {
      if k <= up {
        AdvanceClimbs(start, k, total);
      } else {
        AdvanceSplits(start, up + 1, (k - up - 1) as nat, total);
        AdvanceClimbs(1, (k - up - 1) as nat, total);
      }
    }
  }
}
