/** The two retry loops. An operation is a script of outcomes, one per call, so a
    run is a prefix of some script: a loop that outlives its script is `Running`. */
module Retry {
  import opened Common

  datatype StorageError =
    | Configuration
    | Network
    | Timeout
    | PermissionDenied
    | NotFound
    | Serialization
    | Generic
  {
    predicate IsRetryable() {
      Network? || Timeout? || Generic?
    }
  }

  /** The HTTP status of a failed request, if there was one, as an error. */
  function ClassifyError(status: Option<nat>): StorageError {
    match status
    case Some(401) => PermissionDenied
    case Some(403) => PermissionDenied
    case Some(404) => NotFound
    case Some(408) => Timeout
    case Some(code) => if code == 429 || 500 <= code <= 599 then Network else Generic
    case None => Network
  }

  /** Failures classified from 401, 403 and 404 stop a retry; all others do not. */
  lemma StopsExactlyOnDenied(status: Option<nat>)
    ensures !ClassifyError(status).IsRetryable() <==> status in {Some(401), Some(403), Some(404)}
  {
  }

  datatype RetryConfig = RetryConfig(maxRetries: u32, initialDelayMs: u64, maxDelayMs: u64)

  predicate Validate(c: RetryConfig) {
    c.maxRetries != 0 && c.initialDelayMs <= c.maxDelayMs
  }

  datatype Call = Succeeds | Fails(error: StorageError)

  datatype Outcome = Running | Stored | GaveUp(error: StorageError)

  /** 64-bit multiplication by two, as a release build computes it. */
  function Doubled(delay: u64): u64 {
    if delay < TWO_63 then 2 * delay else 2 * delay - TWO_64
  }

  /** 32-bit increment, as a release build computes it. */
  function Next32(n: u32): u32 {
    if n == TWO_32 - 1 then 0 else n + 1
  }

  /** A 32-bit counter after `n` increments. */
  function Counted(n: nat): u32 {
    if n == 0 then 0 else Next32(Counted(n - 1))
  }

  lemma {:induction false} CountedExact(n: nat)
    requires n < TWO_32
    ensures Counted(n) == n
  {
    if n > 0 {
      CountedExact(n - 1);
    }
  }

  /** `d * 2^k` */
  function Scaled(d: nat, k: nat): nat {
    if k == 0 then d else 2 * Scaled(d, k - 1)
  }

  lemma {:induction false} ScaledIs(d: nat, k: nat)
    ensures Scaled(d, k) == d * Pow2(k)
  {
    if k > 0 {
      ScaledIs(d, k - 1);
      assert d * (2 * Pow2(k - 1)) == 2 * (d * Pow2(k - 1));
    }
  }

  lemma {:induction false} ScaledMonotone(d: nat, j: nat, k: nat)
    requires j <= k
    ensures Scaled(d, j) <= Scaled(d, k)
  {
    if j < k {
      ScaledMonotone(d, j, k - 1);
    }
  }

  // ----- storage: capped backoff --------------------------------------------

  /** The delay in force after `k` retries. */
  function DelayAfter(c: RetryConfig, k: nat): u64 {
    if k == 0 then c.initialDelayMs else Min(Doubled(DelayAfter(c, k - 1)), c.maxDelayMs)
  }

  /** The delays slept before the calls 1, ..., k. */
  function Delays(c: RetryConfig, k: nat): (ds: seq<u64>)
    ensures |ds| == k
  {
    if k == 0 then [] else Delays(c, k - 1) + [DelayAfter(c, k - 1)]
  }

  lemma {:induction false} DelaysAt(c: RetryConfig, k: nat, i: nat)
    requires i < k
    ensures Delays(c, k)[i] == DelayAfter(c, i)
  {
    if i < k - 1 {
      DelaysAt(c, k - 1, i);
    }
  }

  predicate Retries(c: RetryConfig, call: Call, index: nat) {
    && call.Fails? && call.error.IsRetryable()
    && Counted(index + 1) <= c.maxRetries
  }

  /** A failure is followed by another call exactly if it is a network failure, a timeout
      or a generic one, and the budget is not spent, or is the largest 32-bit value. */
  lemma RetriesExactly(c: RetryConfig, call: Call, index: nat)
    requires index < TWO_32 - 1
    ensures Retries(c, call, index)
       <==> && call.Fails? && (call.error.Network? || call.error.Timeout? || call.error.Generic?)
            && (index < c.maxRetries || c.maxRetries == TWO_32 - 1)
  {
    CountedExact(index + 1);
  }

  /** A script that never ends the loop. */
  predicate KeepsGoing(c: RetryConfig, script: seq<Call>) {
    forall i :: 0 <= i < |script| ==> Retries(c, script[i], i)
  }

  /** The loop makes a further call exactly as long as every call so far failed
      with a retryable error within the retry budget; it sleeps once before each
      of them, and records one outcome when it ends. */
  method RetryOperation(c: RetryConfig, script: seq<Call>)
    returns (outcome: Outcome, calls: nat, sleeps: seq<u64>, recorded: seq<bool>)
    ensures calls <= |script|
    ensures forall i :: 0 <= i < calls - 1 ==> Retries(c, script[i], i)
    ensures outcome.Running? <==> KeepsGoing(c, script)
    ensures outcome.Running? ==> calls == |script| && sleeps == Delays(c, calls) && recorded == []
    ensures !outcome.Running? ==> calls > 0 && sleeps == Delays(c, calls - 1) && recorded == [outcome.Stored?]
    ensures outcome.Stored? ==> script[calls - 1].Succeeds?
    ensures outcome.GaveUp? ==> script[calls - 1] == Fails(outcome.error)
                                && !Retries(c, script[calls - 1], calls - 1)
  {
    var delayMs := c.initialDelayMs;
    var attempts: u32 := 0;
    calls, sleeps, recorded := 0, [], [];
    while calls < |script|
      invariant calls <= |script| && recorded == []
      invariant attempts == Counted(calls)
      invariant delayMs == DelayAfter(c, calls)
      invariant sleeps == Delays(c, calls)
      invariant forall i :: 0 <= i < calls ==> Retries(c, script[i], i)
    {
      var result := script[calls];
      calls := calls + 1;
      match result {
        case Succeeds =>
          recorded := recorded + [true];
          return Stored, calls, sleeps, recorded;
        case Fails(e) =>
          attempts := Next32(attempts);
          if !e.IsRetryable() {
            recorded := recorded + [false];
            return GaveUp(e), calls, sleeps, recorded;
          }
          if attempts > c.maxRetries {
            recorded := recorded + [false];
            return GaveUp(e), calls, sleeps, recorded;
          }
          sleeps := sleeps + [delayMs];
          delayMs := Min(Doubled(delayMs), c.maxDelayMs);
      }
    }
    outcome := Running;
  }

  /** An operation that fails on and on, `n` calls of it. */
  function Failing(n: nat): (script: seq<Call>)
    ensures |script| == n
  {
    seq(n, _ => Fails(Network))
  }

  /** Sleep `k` happens in some run: the loop outlives `k + 1` failures. */
  predicate Slept(c: RetryConfig, k: nat) {
    KeepsGoing(c, Failing(k + 1))
  }

  lemma SleptWithinBudget(c: RetryConfig, k: nat)
    ensures Slept(c, k) <==> k < c.maxRetries || c.maxRetries == TWO_32 - 1
  {
    if c.maxRetries < TWO_32 - 1 {
      if k < c.maxRetries {
        forall i: nat | i < k + 1
          ensures Retries(c, Fails(Network), i)
        {
          CountedExact(i + 1);
        }
      } else {
        CountedExact(c.maxRetries + 1);
        assert !Retries(c, Failing(k + 1)[c.maxRetries], c.maxRetries);
      }
    }
  }

  /** `d0 * 2^k`, capped. */
  function CappedDelay(c: RetryConfig, k: nat): nat {
    Min(Scaled(c.initialDelayMs, k), c.maxDelayMs)
  }

  /** Delay `k` follows the closed form if the one before it can be doubled. */
  lemma {:induction false} DelayIsCapped(c: RetryConfig, k: nat)
    requires Validate(c)
    requires k > 0 ==> c.maxDelayMs < TWO_63 || Scaled(c.initialDelayMs, k - 1) < TWO_63
    ensures DelayAfter(c, k) == CappedDelay(c, k)
  {
    if k > 0 {
      if k > 1 {
        ScaledMonotone(c.initialDelayMs, k - 2, k - 1);
      }
      DelayIsCapped(c, k - 1);
    }
  }

  /** A delay of `2^63` or more makes the next one wrap. */
  lemma WrapsNext(c: RetryConfig, k: nat)
    requires Validate(c) && c.maxDelayMs >= TWO_63 && Scaled(c.initialDelayMs, k) >= TWO_63
    requires DelayAfter(c, k) == CappedDelay(c, k)
    ensures DelayAfter(c, k + 1) != CappedDelay(c, k + 1)
  {
  }

  lemma SevenDoublings(d: nat, k: nat)
    ensures Scaled(d, k + 7) == 0x80 * Scaled(d, k)
  {
    assert Scaled(d, k + 2) == 4 * Scaled(d, k);
    assert Scaled(d, k + 4) == 16 * Scaled(d, k);
    assert Scaled(d, k + 6) == 64 * Scaled(d, k);
  }

  /** No nonzero delay survives 63 doublings below `2^63`. */
  lemma DoublingEnds(d0: nat, n: nat)
    requires d0 > 0 && n >= 63
    ensures Scaled(d0, n) >= TWO_63
  {
    SevenDoublings(d0, 0);
    SevenDoublings(d0, 7);
    SevenDoublings(d0, 14);
    SevenDoublings(d0, 21);
    SevenDoublings(d0, 28);
    SevenDoublings(d0, 35);
    SevenDoublings(d0, 42);
    SevenDoublings(d0, 49);
    SevenDoublings(d0, 56);
    ScaledMonotone(d0, 63, n);
  }

  lemma SleptIsDoubled(c: RetryConfig, k: nat)
    requires Validate(c) && Slept(c, k)
    requires c.maxRetries == 1 || c.maxDelayMs < TWO_63 || Scaled(c.initialDelayMs, c.maxRetries - 2) < TWO_63
    ensures k > 0 ==> c.maxDelayMs < TWO_63 || Scaled(c.initialDelayMs, k - 1) < TWO_63
  {
    var d0 := c.initialDelayMs;
    SleptWithinBudget(c, k);
    if k > 0 && c.maxDelayMs >= TWO_63 {
      if c.maxRetries < TWO_32 - 1 {
        ScaledMonotone(d0, k - 1, c.maxRetries - 2);
      } else if d0 > 0 {
        DoublingEnds(d0, c.maxRetries - 2);
      } else {
        ScaledIs(0, k - 1);
      }
    }
  }

  /** Every delay that is ever slept is `min(d0 * 2^k, cap)` exactly when there is at
      most one, or the cap is below `2^63`, or the last delay but one is. */
  lemma ClosedForm(c: RetryConfig)
    requires Validate(c)
    ensures (forall k: nat :: Slept(c, k) ==> DelayAfter(c, k) == CappedDelay(c, k))
       <==> || c.maxRetries == 1
            || c.maxDelayMs < TWO_63
            || Scaled(c.initialDelayMs, c.maxRetries - 2) < TWO_63
  {
    var d0 := c.initialDelayMs;
    if c.maxRetries == 1 || c.maxDelayMs < TWO_63 || Scaled(d0, c.maxRetries - 2) < TWO_63 {
      forall k: nat | Slept(c, k)
        ensures DelayAfter(c, k) == CappedDelay(c, k)
      {
        SleptIsDoubled(c, k);
        DelayIsCapped(c, k);
      }
    } else {
      var k := c.maxRetries - 2;
      SleptWithinBudget(c, k);
      SleptWithinBudget(c, k + 1);
      if DelayAfter(c, k) == CappedDelay(c, k) {
        WrapsNext(c, k);
      }
    }
  }

  /** A configuration that validates, and a run of it that sleeps `2^63` milliseconds
      and then not at all, where the closed form asks for the cap. */
  method WrappedRun() returns (c: RetryConfig, sleeps: seq<u64>)
    ensures Validate(c) && sleeps == [TWO_63, 0]
    ensures CappedDelay(c, 0) == TWO_63 && CappedDelay(c, 1) == c.maxDelayMs > 0
  {
    c := RetryConfig(2, TWO_63, TWO_64 - 1);
    var script := [Fails(Network), Fails(Network), Succeeds];
    var outcome, calls, recorded;
    outcome, calls, sleeps, recorded := RetryOperation(c, script);
    assert Counted(1) == 1 && Counted(2) == 2;
    assert Retries(c, script[0], 0) && Retries(c, script[1], 1) && !Retries(c, script[2], 2);
    assert calls == 3;
    assert DelayAfter(c, 0) == TWO_63 && DelayAfter(c, 1) == 0;
    assert Delays(c, 1) == [TWO_63] && Delays(c, 2) == [TWO_63, 0];
    assert Scaled(c.initialDelayMs, 1) == TWO_64;
  }

  function Total(ds: seq<u64>): nat {
    if ds == [] then 0 else Total(ds[..|ds| - 1]) + ds[|ds| - 1]
  }

  lemma TotalSnoc(ds: seq<u64>, d: u64)
    ensures Total(ds + [d]) == Total(ds) + d
  {
    assert (ds + [d])[..|ds|] == ds;
  }

  lemma OneMore(k: nat, m: nat)
    requires k > 0
    ensures k * m == (k - 1) * m + m
  {
  }

  /** Whatever wraps, no sleep is longer than the cap. */
  lemma {:induction false} TotalCapped(c: RetryConfig, k: nat)
    requires Validate(c)
    ensures Total(Delays(c, k)) <= k * c.maxDelayMs
  {
    if k > 0 {
      TotalCapped(c, k - 1);
      TotalSnoc(Delays(c, k - 1), DelayAfter(c, k - 1));
      OneMore(k, c.maxDelayMs);
    }
  }

  /** What validation asks for, exactly: some retry, and no sleep longer than the cap. */
  lemma ValidatedExactly(c: RetryConfig)
    ensures Validate(c) <==> c.maxRetries > 0 && forall k: nat :: DelayAfter(c, k) <= c.maxDelayMs
  {
    assert DelayAfter(c, 0) == c.initialDelayMs;
  }

  /** The budget bounds every run exactly when it is below the largest 32-bit value:
      then the call after `maxRetries` failures ends it whatever its result, so at
      most `maxRetries + 1` calls are made; at that value the counter wraps to 0
      and no number of failures ends the loop. */
  lemma AttemptBound(c: RetryConfig)
    ensures (forall script :: KeepsGoing(c, script) ==> |script| <= c.maxRetries) <==> c.maxRetries < TWO_32 - 1
    ensures c.maxRetries == TWO_32 - 1 ==> forall n: nat :: KeepsGoing(c, Failing(n))
  {
    if c.maxRetries < TWO_32 - 1 {
      CountedExact(c.maxRetries + 1);
      forall script | |script| > c.maxRetries
        ensures !KeepsGoing(c, script)
      {
        assert !Retries(c, script[c.maxRetries], c.maxRetries);
      }
    } else {
      assert KeepsGoing(c, Failing(TWO_32));
      assert |Failing(TWO_32)| > c.maxRetries;
    }
  }

  // ----- StoreCts: uncapped backoff -----------------------------------------

  /** The delay in force after `k` retries. */
  function StoreCtsDelay(initialDelayMs: u64, k: nat): u64 {
    if k == 0 then initialDelayMs else Doubled(StoreCtsDelay(initialDelayMs, k - 1))
  }

  function StoreCtsDelays(initialDelayMs: u64, k: nat): (ds: seq<u64>)
    ensures |ds| == k
  {
    if k == 0 then [] else StoreCtsDelays(initialDelayMs, k - 1) + [StoreCtsDelay(initialDelayMs, k - 1)]
  }

  lemma {:induction false} StoreCtsDelaysAt(d0: u64, k: nat, i: nat)
    requires i < k
    ensures StoreCtsDelays(d0, k)[i] == StoreCtsDelay(d0, i)
  {
    if i < k - 1 {
      StoreCtsDelaysAt(d0, k - 1, i);
    }
  }

  /** Every failure is retried until the budget is spent. `script[i]` tells whether
      call `i` succeeds. */
  method StoreCtsRetryable(maxRetries: u32, initialDelayMs: u64, script: seq<bool>)
    returns (outcome: Option<bool>, calls: nat, sleeps: seq<u64>, recorded: seq<bool>)
    ensures calls <= |script| && calls <= maxRetries + 1
    ensures forall i :: 0 <= i < calls - 1 ==> !script[i]
    ensures outcome.None? <==> |script| <= maxRetries && forall i :: 0 <= i < |script| ==> !script[i]
    ensures outcome.None? ==> calls == |script| && sleeps == StoreCtsDelays(initialDelayMs, calls) && recorded == []
    ensures outcome.Some? ==> calls > 0 && outcome.value == script[calls - 1]
                              && sleeps == StoreCtsDelays(initialDelayMs, calls - 1) && recorded == [outcome.value]
    ensures outcome == Some(false) ==> calls == maxRetries + 1
  {
    var delayMs := initialDelayMs;
    var retriesLeft: u32 := maxRetries;
    calls, sleeps, recorded := 0, [], [];
    while calls < |script|
      invariant calls <= |script| && calls <= maxRetries && recorded == []
      invariant retriesLeft == maxRetries - calls
      invariant delayMs == StoreCtsDelay(initialDelayMs, calls)
      invariant sleeps == StoreCtsDelays(initialDelayMs, calls)
      invariant forall i :: 0 <= i < calls ==> !script[i]
    {
      var ok := script[calls];
      calls := calls + 1;
      if ok {
        recorded := recorded + [true];
        return Some(true), calls, sleeps, recorded;
      }
      if retriesLeft == 0 {
        recorded := recorded + [false];
        return Some(false), calls, sleeps, recorded;
      }
      retriesLeft := retriesLeft - 1;
      sleeps := sleeps + [delayMs];
      delayMs := Doubled(delayMs);
    }
    outcome := None;
  }

  lemma {:induction false} StoreCtsDelayExact(d0: u64, k: nat)
    requires Scaled(d0, k) < TWO_64
    ensures StoreCtsDelay(d0, k) == Scaled(d0, k)
  {
    if k > 0 {
      StoreCtsDelayExact(d0, k - 1);
    }
  }

  /** No sleep of a run with budget `maxRetries` wraps, so sleep `k` is `d0 * 2^k`,
      exactly when the last one fits 64 bits. */
  lemma StoreCtsClosedForm(maxRetries: u32, d0: u64)
    requires maxRetries > 0
    ensures (forall k: nat :: k < maxRetries ==> StoreCtsDelay(d0, k) == Scaled(d0, k))
       <==> Scaled(d0, maxRetries - 1) < TWO_64
  {
    if Scaled(d0, maxRetries - 1) < TWO_64 {
      forall k: nat | k < maxRetries
        ensures StoreCtsDelay(d0, k) == Scaled(d0, k)
      {
        ScaledMonotone(d0, k, maxRetries - 1);
        StoreCtsDelayExact(d0, k);
      }
    } else {
      assert StoreCtsDelay(d0, maxRetries - 1) < TWO_64;
    }
  }

  /** Without wrapping, `k` sleeps take `d0 * (2^k - 1)` in all. */
  lemma {:induction false} StoreCtsTotal(d0: u64, k: nat)
    requires k > 0 ==> Scaled(d0, k - 1) < TWO_64
    ensures Total(StoreCtsDelays(d0, k)) == Scaled(d0, k) - d0
  {
    if k > 0 {
      if k > 1 {
        ScaledMonotone(d0, k - 2, k - 1);
      }
      StoreCtsTotal(d0, k - 1);
      StoreCtsDelayExact(d0, k - 1);
      TotalSnoc(StoreCtsDelays(d0, k - 1), StoreCtsDelay(d0, k - 1));
    }
  }

  /** The endpoint's settings: 5 retries from one second, 31 seconds of sleep at most. */
  lemma EndpointBudget(k: nat)
    requires k <= 5
    ensures Total(StoreCtsDelays(1000, k)) <= Total(StoreCtsDelays(1000, 5)) == 31_000
  {
    assert Scaled(1000, 1) == 2000;
    assert Scaled(1000, 2) == 4000;
    assert Scaled(1000, 3) == 8000;
    assert Scaled(1000, 4) == 16_000;
    assert Scaled(1000, 5) == 32_000;
    ScaledMonotone(1000, k, 5);
    if k > 0 {
      ScaledMonotone(1000, k - 1, 5);
    }
    StoreCtsTotal(1000, k);
    StoreCtsTotal(1000, 5);
  }
}
