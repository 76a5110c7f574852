/**
 The millisecond clock. `millis()` is a 32-bit counter that wraps; the real
 time it stands for is unbounded.
 */
module Clock {
  import opened Bytes

  const WRAP := 0x1_0000_0000

  /** What `millis()` returns at real time `t`. */
  function Millis(t: nat): u32 {
    t % WRAP
  }

  /** `now - since` in 32-bit unsigned arithmetic. */
  function Elapsed(now: u32, since: u32): u32 {
    (now - since) % WRAP
  }

  /** `(long)(deadline - now) > 0`: the deadline lies ahead, in 32-bit signed arithmetic. */
  predicate Ahead(deadline: u32, now: u32) {
    0 < Elapsed(deadline, now) < WRAP / 2
  }

  /** Measured intervals are the real ones, less whole turns of the counter. */
  lemma ElapsedMillis(now: nat, since: nat)
    requires since <= now
    ensures Elapsed(Millis(now), Millis(since)) == (now - since) % WRAP
    ensures Elapsed(Millis(now), Millis(since)) <= now - since
    ensures now - since < WRAP ==> Elapsed(Millis(now), Millis(since)) == now - since
  {
    ModDifference(now, since);
    ModAtMost(now - since);
  }

  lemma ModDifference(a: nat, b: nat)
    requires b <= a
    ensures (a % WRAP - b % WRAP) % WRAP == (a - b) % WRAP
  {
    var qa, qb := a / WRAP, b / WRAP;
    assert a == qa * WRAP + a % WRAP && b == qb * WRAP + b % WRAP;
    var d := a % WRAP - b % WRAP;
    assert a - b == (qa - qb) * WRAP + d;
  }

  lemma ModAtMost(a: nat)
    ensures a % WRAP <= a
    ensures a < WRAP ==> a % WRAP == a
  {
  }
}
