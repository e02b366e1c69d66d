/** Worker retry delays (v2/workers/retry.go), in int64 nanoseconds that wrap around. */
module Backoff {
  import opened Numbers

  /** The doubling loop, for a number of doublings still to do. */
  function Doubled(backoff: int64, max: int64, times: nat): int64
    decreases times
  {
    if times == 0 then backoff
    else if Wrap(backoff * 2) > max then max
    else Doubled(Wrap(backoff * 2), max, times - 1)
  }

  /** Go's integer division truncates toward zero. */
  function Half(x: int): int {
    if x < 0 then -(-x / 2) else x / 2
  }

  function Delay(initial: int64, max: int64, attempt: int): int64 {
    Doubled(initial, max, if attempt > 1 then attempt - 1 else 0)
  }

  function Jittered(backoff: int64, max: int64, amount: int64): int64 {
    var sum := Wrap(backoff + amount);
    if sum > max then max else sum
  }

  /** `jitterSource` is asked for an amount below half the delay. */
  method CalculateBackoff(initial: int64, max: int64, attempt: int64, jitter: bool, jitterSource: int -> int64)
    returns (backoff: int64)
    ensures var d := Delay(initial, max, attempt);
            backoff == if jitter then Jittered(d, max, jitterSource(Half(d))) else d
  {
    backoff := initial;
    var i := 1;
    while i < attempt
      invariant i >= 1 && (i <= attempt || i == 1)
      invariant Doubled(backoff, max, if attempt > i then attempt - i else 0) == Delay(initial, max, attempt)
    {
      backoff := Wrap(backoff * 2);
      if backoff > max {
        backoff := max;
        break;
      }
      i := i + 1;
    }
    if jitter {
      var amount := jitterSource(Half(backoff));
      backoff := Wrap(backoff + amount);
      if backoff > max {
        backoff := max;
      }
    }
  }

  function Min(a: int, b: int): int {
    if a <= b then a else b
  }

  lemma WrapFits(x: int)
    requires -MAX_INT64 - 1 <= x <= MAX_INT64
    ensures Wrap(x) == x
  {
  }

  lemma DoubleFirst(b: nat, p: nat)
    requires p >= 1
    ensures b * (2 * p) == (2 * b) * p >= 2 * b
  {
    assert (2 * b) * p == 2 * b + (2 * b) * (p - 1);
  }

  lemma {:induction false} DoubledIsCapped(backoff: int64, max: int64, times: nat)
    requires 0 <= backoff <= max && 2 * max <= MAX_INT64
    ensures Doubled(backoff, max, times) == Min(backoff * Pow2(times), max)
    decreases times
  {
    if times > 0 {
      PositivePow2(times - 1);
      DoubleFirst(backoff, Pow2(times - 1));
      WrapFits(backoff * 2);
      if 2 * backoff <= max {
        DoubledIsCapped(2 * backoff, max, times - 1);
      }
    }
  }

  /**
    Main result. The delay is the initial one doubled attempt - 1 times and capped, for every
    initial delay up to max and every attempt, if and only if doubling max itself does not overflow.
   */
  lemma DelayIsCappedDoublingExactly(max: int64)
    requires max >= 0
    ensures (forall initial: int64, attempt: int ::
               0 <= initial <= max && attempt >= 1
               ==> Delay(initial, max, attempt) == Min(initial * Pow2(attempt - 1), max))
            <==> 2 * max <= MAX_INT64
  {
    if 2 * max <= MAX_INT64 {
      forall initial: int64, attempt: int | 0 <= initial <= max && attempt >= 1
        ensures Delay(initial, max, attempt) == Min(initial * Pow2(attempt - 1), max)
      {
        DoubledIsCapped(initial, max, attempt - 1);
      }
    } else {
      assert Pow2(1) == 2;
      assert Wrap(max * 2) < 0;
      assert Doubled(Wrap(max * 2), max, 0) == Wrap(max * 2);
      assert Delay(max, max, 2) == Wrap(max * 2);
    }
  }

  /** Every delay lies between the initial one and max. */
  lemma {:induction false} DoubledInRange(backoff: int64, max: int64, times: nat)
    requires 0 <= backoff <= max && 2 * max <= MAX_INT64
    ensures backoff <= Doubled(backoff, max, times) <= max
    decreases times
  {
    if times > 0 {
      WrapFits(backoff * 2);
      if 2 * backoff <= max {
        DoubledInRange(2 * backoff, max, times - 1);
      }
    }
  }

  lemma {:induction false} DoubledOnceMore(backoff: int64, max: int64, times: nat)
    requires 0 <= backoff <= max && 2 * max <= MAX_INT64
    ensures Doubled(backoff, max, times) <= Doubled(backoff, max, times + 1)
    decreases times
  {
    WrapFits(backoff * 2);
    if times == 0 {
      DoubledInRange(backoff, max, 1);
    } else if 2 * backoff <= max {
      DoubledOnceMore(2 * backoff, max, times - 1);
    }
  }

  /** Later attempts never wait less. */
  lemma {:induction false} DelayIsMonotone(initial: int64, max: int64, a: int, b: int)
    requires 0 <= initial <= max && 2 * max <= MAX_INT64 && 1 <= a <= b
    ensures initial <= Delay(initial, max, a) <= Delay(initial, max, b) <= max
    decreases b - a
  {
    DoubledInRange(initial, max, a - 1);
    if a < b {
      DoubledOnceMore(initial, max, a - 1);
      DelayIsMonotone(initial, max, a + 1, b);
    }
  }

  /** The amount a jitter source gives is added, and the sum capped. */
  lemma JitterIsAdded(initial: int64, max: int64, attempt: int, amount: int64)
    requires 0 <= initial <= max && 2 * max <= MAX_INT64 && attempt >= 1 && 0 <= amount <= max
    ensures Jittered(Delay(initial, max, attempt), max, amount) == Min(Delay(initial, max, attempt) + amount, max)
    ensures 2 * Half(Delay(initial, max, attempt)) <= Delay(initial, max, attempt)
            <= 2 * Half(Delay(initial, max, attempt)) + 1
  {
    DoubledInRange(initial, max, attempt - 1);
    WrapFits(Delay(initial, max, attempt) + amount);
  }

  /** A jitter source in range adds at most half the delay, and never passes max. */
  lemma JitterStaysInRange(initial: int64, max: int64, attempt: int, amount: int64)
    requires 0 <= initial <= max && 2 * max <= MAX_INT64 && attempt >= 1
    requires var half := Half(Delay(initial, max, attempt));
             if half > 0 then 0 <= amount < half else amount == 0
    ensures var d := Delay(initial, max, attempt);
            d <= Jittered(d, max, amount) <= Min(max, d + Half(d))
  {
    DoubledInRange(initial, max, attempt - 1);
    WrapFits(Delay(initial, max, attempt) + amount);
  }
}
