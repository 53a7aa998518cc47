/**
  `withRetry` of src/testt.ts: run an operation, and when it throws a
  timeout or network error, wait with exponential backoff and run it again,
  up to `RETRY_CONFIG.maxRetries` retries. The operation's outcome on each
  call is a parameter indexed by the retry count of that call; the waits are
  returned as the list of delays slept, in order.
*/
module Retry {
  import opened Wrappers

  /** `RETRY_CONFIG` */
  const MaxRetries: nat := 3
  const InitialDelay: nat := 1000
  const MaxDelay: nat := 5000

  /** The two fields of a thrown error that `withRetry` inspects: `error.code` and `error.type`. */
  datatype ErrorInfo = ErrorInfo(code: Option<string>, kind: Option<string>)

  /** What one call of the operation did. */
  datatype Attempt<T> = Succeeded(value: T) | Threw(error: ErrorInfo)

  /** The settled outcome of `withRetry` and the delays it slept before it. */
  datatype Run<T> = Run(outcome: Attempt<T>, delays: seq<nat>)

  function Pow2(k: nat): (r: nat)
    ensures r >= 1
  {
    if k == 0 then 1 else 2 * Pow2(k - 1)
  }

  /** `Math.min(initialDelay * 2^retryCount, maxDelay)` */
  function Delay(retryCount: nat): (r: nat)
    ensures InitialDelay <= r <= MaxDelay
    ensures r == MaxDelay || r == InitialDelay * Pow2(retryCount)
    ensures r <= InitialDelay * Pow2(retryCount)
  {
    if InitialDelay * Pow2(retryCount) < MaxDelay then InitialDelay * Pow2(retryCount) else MaxDelay
  }

  /** Only `ETIMEDOUT`, `ECONNREFUSED` or an error of type `system` is retried. */
  predicate Retryable(e: ErrorInfo) {
    e.code == Some("ETIMEDOUT") || e.code == Some("ECONNREFUSED") || e.kind == Some("system")
  }

  /**
    `withRetry(operation, retryCount)`. A success is returned as it came; a
    throw is rethrown once `retryCount` has reached the maximum or when the
    error is not retryable; otherwise the next call runs with the count one
    higher after sleeping `Delay(retryCount)`.
  */
  function WithRetry<T>(op: nat -> Attempt<T>, retryCount: nat): (r: Run<T>)
    decreases if retryCount < MaxRetries then MaxRetries - retryCount else 0
    ensures retryCount >= MaxRetries ==> r.delays == []
    ensures retryCount < MaxRetries ==> |r.delays| <= MaxRetries - retryCount
    ensures forall i :: 0 <= i < |r.delays| ==> r.delays[i] == Delay(retryCount + i)
    ensures forall n :: retryCount <= n < retryCount + |r.delays| ==> op(n).Threw? && Retryable(op(n).error)
    ensures r.outcome == op(retryCount + |r.delays|)
    ensures r.outcome.Threw? ==> retryCount + |r.delays| >= MaxRetries || !Retryable(r.outcome.error)
  {
    match op(retryCount)
    case Succeeded(v) => Run(Succeeded(v), [])
    case Threw(e) =>
      if retryCount >= MaxRetries || !Retryable(e) then Run(Threw(e), [])
      else
        var rest := WithRetry(op, retryCount + 1);
        Run(rest.outcome, [Delay(retryCount)] + rest.delays)
  }

  /**
    Started at zero, the delays slept are a prefix of 1000, 2000, 4000
    milliseconds: the 5000 ms cap is never reached.
  */
  lemma DelaysFromZero<T>(op: nat -> Attempt<T>)
    ensures WithRetry(op, 0).delays <= [1000, 2000, 4000]
  {
    var ds := WithRetry(op, 0).delays;
    assert Delay(0) == 1000 && Delay(1) == 2000 && Delay(2) == 4000 by {
      assert Pow2(0) == 1 && Pow2(1) == 2 && Pow2(2) == 4;
    }
    assert ds == [1000, 2000, 4000][..|ds|];
  }

  /** An operation that never throws is called once and its value returned. */
  lemma SuccessFirstTime<T>(op: nat -> Attempt<T>, retryCount: nat)
    requires op(retryCount).Succeeded?
    ensures WithRetry(op, retryCount) == Run(op(retryCount), [])
  {
  }

  /** An error that is not retryable is rethrown at once, without sleeping. */
  lemma NonRetryableRethrown<T>(op: nat -> Attempt<T>, retryCount: nat)
    requires op(retryCount).Threw? && !Retryable(op(retryCount).error)
    ensures WithRetry(op, retryCount) == Run(op(retryCount), [])
  {
  }

  /** Delays double until they reach the cap, so they never decrease. */
  lemma {:induction false} DelayMonotone(j: nat, k: nat)
    requires j <= k
    ensures Delay(j) <= Delay(k)
    decreases k - j
  {
    if j < k {
      DelayMonotone(j + 1, k);
      assert Pow2(j + 1) == 2 * Pow2(j);
    }
  }
}
