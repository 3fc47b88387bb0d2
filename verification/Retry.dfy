/** Retrying an operation with exponential backoff and full jitter. Durations are nanoseconds. */
module Retry {
  import opened Prelude

  datatype Result<T, E> = Ok(value: T) | Err(error: E)

  function Pow2(k: nat): nat {
    if k == 0 then 1 else 2 * Pow2(k - 1)
  }

  // The delay variable after k failed and delayed attempts, as the loop computes it.
  function DelayAfter(baseDelay: nat, maxDelay: nat, k: nat): nat {
    if k == 0 then baseDelay else Min(DelayAfter(baseDelay, maxDelay, k - 1) * 2, maxDelay)
  }

  lemma DoubledPower(a: nat, k: nat)
    requires k > 0
    ensures a * Pow2(k) == 2 * (a * Pow2(k - 1))
  {
    assert Pow2(k) == 2 * Pow2(k - 1);
  }

  /** In closed form; note that the first delay is not capped. */
  lemma {:induction false} DelayClosedForm(baseDelay: nat, maxDelay: nat, k: nat)
    ensures DelayAfter(baseDelay, maxDelay, k) == if k == 0 then baseDelay else Min(baseDelay * Pow2(k), maxDelay)
  {
    if k == 0 {
      assert Pow2(0) == 1;
    } else {
      DelayClosedForm(baseDelay, maxDelay, k - 1);
      DoubledPower(baseDelay, k);
      if k == 1 { assert baseDelay * Pow2(0) == baseDelay; }
    }
  }

  function SumOfDelays(baseDelay: nat, maxDelay: nat, n: nat): nat {
    if n == 0 then 0 else SumOfDelays(baseDelay, maxDelay, n - 1) + DelayAfter(baseDelay, maxDelay, n - 1)
  }

  lemma Product(a: nat, n: nat)
    requires n > 0
    ensures a * n == a * (n - 1) + a
  {
  }

  lemma DelayBounds(baseDelay: nat, maxDelay: nat, k: nat)
    ensures DelayAfter(baseDelay, maxDelay, k) <= baseDelay * Pow2(k)
    ensures k > 0 ==> DelayAfter(baseDelay, maxDelay, k) <= maxDelay
    ensures baseDelay * Pow2(k) <= maxDelay ==> DelayAfter(baseDelay, maxDelay, k) == baseDelay * Pow2(k)
  {
    DelayClosedForm(baseDelay, maxDelay, k);
  }

  /** The total sleep before giving up is at most one base delay and then the cap each time. */
  lemma {:induction false} SumOfDelaysCapped(baseDelay: nat, maxDelay: nat, n: nat)
    requires n > 0
    ensures SumOfDelays(baseDelay, maxDelay, n) <= baseDelay + maxDelay * (n - 1)
  {
    if n == 1 {
      assert SumOfDelays(baseDelay, maxDelay, 0) == 0;
    } else {
      SumOfDelaysCapped(baseDelay, maxDelay, n - 1);
      DelayBounds(baseDelay, maxDelay, n - 1);
      Product(maxDelay, n - 1);
    }
  }

  /** It is also at most the geometric sum, and equals it while the cap is out of reach. */
  lemma {:induction false} SumOfDelaysGeometric(baseDelay: nat, maxDelay: nat, n: nat)
    ensures SumOfDelays(baseDelay, maxDelay, n) + baseDelay <= baseDelay * Pow2(n)
    ensures baseDelay * Pow2(n) <= maxDelay ==> SumOfDelays(baseDelay, maxDelay, n) + baseDelay == baseDelay * Pow2(n)
  {
    if n > 0 {
      SumOfDelaysGeometric(baseDelay, maxDelay, n - 1);
      DelayBounds(baseDelay, maxDelay, n - 1);
      DoubledPower(baseDelay, n);
    }
  }

  /** From c on, and not before, doubling has reached the cap; the first delay never counts as capped. */
  predicate ReachesCapAt(baseDelay: nat, maxDelay: nat, c: nat) {
    c > 0 && maxDelay <= baseDelay * Pow2(c) && (c > 1 ==> baseDelay * Pow2(c - 1) < maxDelay)
  }

  lemma {:induction false} Pow2Exceeds(k: nat)
    ensures k < Pow2(k)
  {
    if k > 0 { Pow2Exceeds(k - 1); }
  }

  lemma AtLeastFactor(a: nat, b: nat)
    requires a > 0
    ensures b <= a * b
  {
  }

  lemma {:induction false} FindCap(baseDelay: nat, maxDelay: nat, k: nat) returns (c: nat)
    requires baseDelay > 0 && k > 0 && (k > 1 ==> baseDelay * Pow2(k - 1) < maxDelay)
    ensures ReachesCapAt(baseDelay, maxDelay, c)
    decreases maxDelay - k
  {
    if maxDelay <= baseDelay * Pow2(k) {
      c := k;
    } else {
      Pow2Exceeds(k);
      AtLeastFactor(baseDelay, Pow2(k));
      c := FindCap(baseDelay, maxDelay, k + 1);
    }
  }

  lemma {:induction false} PowersGrow(a: nat, j: nat, k: nat)
    requires j <= k
    ensures a * Pow2(j) <= a * Pow2(k)
  {
    if j < k {
      PowersGrow(a, j, k - 1);
      DoubledPower(a, k);
    }
  }

  lemma DelayAround(baseDelay: nat, maxDelay: nat, c: nat, k: nat)
    requires ReachesCapAt(baseDelay, maxDelay, c)
    ensures DelayAfter(baseDelay, maxDelay, k) == if k < c then baseDelay * Pow2(k) else maxDelay
  {
    DelayClosedForm(baseDelay, maxDelay, k);
    if k == 0 {
      assert baseDelay * Pow2(0) == baseDelay;
    } else if k < c {
      PowersGrow(baseDelay, k, c - 1);
    } else {
      PowersGrow(baseDelay, c, k);
    }
  }

  /** Exactly: the total is the geometric sum up to the point where doubling reaches the cap, and the cap
      each time after that. */
  lemma {:induction false} SumOfDelaysAround(baseDelay: nat, maxDelay: nat, c: nat, n: nat)
    requires ReachesCapAt(baseDelay, maxDelay, c)
    ensures SumOfDelays(baseDelay, maxDelay, n) ==
            if n <= c then baseDelay * Pow2(n) - baseDelay
            else baseDelay * Pow2(c) - baseDelay + maxDelay * (n - c)
  {
    if n == 0 {
      assert baseDelay * Pow2(0) == baseDelay;
    } else {
      SumOfDelaysAround(baseDelay, maxDelay, c, n - 1);
      DelayAround(baseDelay, maxDelay, c, n - 1);
      if n <= c { DoubledPower(baseDelay, n); } else { Product(maxDelay, n - c); }
    }
  }

  /** Such a point exists unless the base delay is zero, and then there is no delay at all. */
  lemma {:induction false} SumOfDelaysExact(baseDelay: nat, maxDelay: nat, n: nat) returns (c: nat)
    ensures baseDelay == 0 ==> SumOfDelays(baseDelay, maxDelay, n) == 0
    ensures baseDelay > 0 ==>
              && ReachesCapAt(baseDelay, maxDelay, c)
              && SumOfDelays(baseDelay, maxDelay, n) ==
                 if n <= c then baseDelay * Pow2(n) - baseDelay
                 else baseDelay * Pow2(c) - baseDelay + maxDelay * (n - c)
  {
    c := 0;
    if baseDelay > 0 {
      c := FindCap(baseDelay, maxDelay, 1);
      SumOfDelaysAround(baseDelay, maxDelay, c, n);
    } else if n > 0 {
      var _ := SumOfDelaysExact(baseDelay, maxDelay, n - 1);
      DelayBounds(baseDelay, maxDelay, n - 1);
    }
  }

  // A jitter is whole milliseconds between zero and the delay, counted in 64 bits.
  function JitterLimit(delay: nat): nat {
    (delay / 1_000_000) % (U64_MAX + 1)
  }

  // The draw, brought into its range.
  function Jitter(delay: nat, choice: nat): nat {
    Millis(choice % (JitterLimit(delay) + 1))
  }

  /** A draw within the range is slept as it is, in milliseconds. */
  lemma JitterIsTheDraw(delay: nat, choice: nat)
    requires delay / 1_000_000 <= 0xFFFF_FFFF_FFFF_FFFF && choice <= delay / 1_000_000
    ensures Jitter(delay, choice) == 1_000_000 * choice
  {
    SmallMod(delay / 1_000_000, U64_MAX + 1);
    SmallMod(choice, JitterLimit(delay) + 1);
  }

  lemma SmallMod(a: nat, m: nat)
    requires a < m
    ensures a % m == a
  {
  }

  function TotalOf(s: seq<nat>): nat {
    if s == [] then 0 else TotalOf(s[..|s| - 1]) + s[|s| - 1]
  }

  lemma TotalOfAppend(s: seq<nat>, x: nat)
    ensures TotalOf(s + [x]) == TotalOf(s) + x
  {
    assert (s + [x])[..|s|] == s;
  }

  // The sleeps after n failed and delayed attempts.
  function Sleeps(baseDelay: nat, maxDelay: nat, choice: nat -> nat, n: nat): (slept: seq<nat>)
    ensures |slept| == n
  {
    if n == 0 then []
    else Sleeps(baseDelay, maxDelay, choice, n - 1) + [Jitter(DelayAfter(baseDelay, maxDelay, n - 1), choice(n - 1))]
  }

  lemma {:induction false} SleepAt(baseDelay: nat, maxDelay: nat, choice: nat -> nat, n: nat, k: nat)
    requires k < n
    ensures Sleeps(baseDelay, maxDelay, choice, n)[k] == Jitter(DelayAfter(baseDelay, maxDelay, k), choice(k))
  {
    if k < n - 1 { SleepAt(baseDelay, maxDelay, choice, n - 1, k); }
  }

  /** Where delays fit 64 bits of milliseconds and every draw is in range, each sleep is the draw. */
  lemma SleepIsTheDraw(baseDelay: nat, maxDelay: nat, choice: nat -> nat, n: nat, k: nat)
    requires k < n && DelayAfter(baseDelay, maxDelay, k) / 1_000_000 <= 0xFFFF_FFFF_FFFF_FFFF
    requires choice(k) <= DelayAfter(baseDelay, maxDelay, k) / 1_000_000
    ensures Sleeps(baseDelay, maxDelay, choice, n)[k] == 1_000_000 * choice(k)
  {
    SleepAt(baseDelay, maxDelay, choice, n, k);
    JitterIsTheDraw(DelayAfter(baseDelay, maxDelay, k), choice(k));
  }

  // How far the sleeps so far respect the caps.
  ghost predicate WithinCaps(slept: seq<nat>, baseDelay: nat, maxDelay: nat) {
    && (forall k :: 0 <= k < |slept| ==> slept[k] <= DelayAfter(baseDelay, maxDelay, k))
    && TotalOf(slept) <= SumOfDelays(baseDelay, maxDelay, |slept|)
  }

  lemma WithinCapsStep(slept: seq<nat>, baseDelay: nat, maxDelay: nat, sleep: nat)
    requires WithinCaps(slept, baseDelay, maxDelay) && sleep <= DelayAfter(baseDelay, maxDelay, |slept|)
    ensures WithinCaps(slept + [sleep], baseDelay, maxDelay)
  {
    TotalOfAppend(slept, sleep);
  }

  lemma JitterWithinDelay(delay: nat, choice: nat)
    ensures Jitter(delay, choice) <= delay
  {
    assert JitterLimit(delay) <= delay / 1_000_000;
    assert choice % (JitterLimit(delay) + 1) <= JitterLimit(delay);
  }

  /** Each sleep is at most the delay at that point, for every draw, and so is their total at most the sum. */
  lemma {:induction false} SleepsWithinCaps(baseDelay: nat, maxDelay: nat, choice: nat -> nat, n: nat)
    ensures WithinCaps(Sleeps(baseDelay, maxDelay, choice, n), baseDelay, maxDelay)
  {
    if n > 0 {
      SleepsWithinCaps(baseDelay, maxDelay, choice, n - 1);
      var delay := DelayAfter(baseDelay, maxDelay, n - 1);
      JitterWithinDelay(delay, choice(n - 1));
      WithinCapsStep(Sleeps(baseDelay, maxDelay, choice, n - 1), baseDelay, maxDelay, Jitter(delay, choice(n - 1)));
    }
  }

  /** `operation` and `choice` stand for the outcome of each attempt and the random draw before each
      retry. The first success or the last error is returned; the counter never leaves 8 bits. */
  method RetryWithBackoff<T, E>(operation: nat -> Result<T, E>, maxAttempts: nat, baseDelay: nat, maxDelay: nat,
                                choice: nat -> nat)
    returns (r: Result<T, E>, attempts: nat, slept: seq<nat>)
    requires maxAttempts <= 255
    ensures 1 <= attempts <= (if maxAttempts == 0 then 1 else maxAttempts)
    ensures r == operation(attempts - 1)
    ensures forall k :: 0 <= k < attempts - 1 ==> operation(k).Err?
    ensures r.Err? ==> attempts == if maxAttempts == 0 then 1 else maxAttempts
    ensures slept == Sleeps(baseDelay, maxDelay, choice, attempts - 1)
    ensures |slept| == attempts - 1 && WithinCaps(slept, baseDelay, maxDelay)
  {
    attempts := 0;
    var delay := baseDelay;
    slept := [];
    while true
      invariant attempts == 0 || attempts < maxAttempts
      invariant forall k :: 0 <= k < attempts ==> operation(k).Err?
      invariant slept == Sleeps(baseDelay, maxDelay, choice, attempts)
      invariant delay == DelayAfter(baseDelay, maxDelay, attempts)
      decreases 255 - attempts
    {
      assert attempts < 255;
      SleepsWithinCaps(baseDelay, maxDelay, choice, attempts);
      attempts := attempts + 1;
      r := operation(attempts - 1);
      if r.Ok? { return; }
      if attempts >= maxAttempts { return; }
      slept := slept + [Jitter(delay, choice(attempts - 1))];
      delay := Min(delay * 2, maxDelay);
    }
  }
}
