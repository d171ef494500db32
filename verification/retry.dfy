/**
 The retry wrapper placed around the square-root operation. It invokes the
 operation at most `MaxRetries` times, stops at the first success, and after
 every failure (the last one included) waits `BaseDelay * retries` milliseconds.

 The operation is abstract: `attempt(i)` is what its `i`-th invocation (counting
 from 0) returns. Waiting is not performed; the delays are reported instead.
 */
module Retry {
  import opened Outcomes

  /** The attempt budget: the loop runs while fewer than this many attempts failed. */
  const MaxRetries: nat := 3
  /** The backoff step in milliseconds. */
  const BaseDelay: nat := 100
  /** The message of the 500 reply sent when every attempt failed. */
  const ExhaustedMessage := "Operation failed after multiple attempts"

  /** What one run of the wrapper did: the reply it sent, how many times it invoked
      the operation, its final `retries` counter, and the waits it performed in order. */
  datatype Report<+V> = Report(response: Response<V>, invocations: nat, retries: nat, delays: seq<nat>)

  /** The waits recorded after `k` failures, built as the loop builds them: the
      `k`-th failure appends a wait of `BaseDelay * k` ms. The schedule is linear,
      100, 200, ..., 100 * k ms, one wait per failure. */
  function Backoff(k: nat): (d: seq<nat>)
    ensures |d| == k
    ensures forall i :: 0 <= i < k ==> d[i] == BaseDelay * (i + 1)
  {
    if k == 0 then [] else Backoff(k - 1) + [BaseDelay * k]
  }

  /** Every one of the first `k` invocations fails. */
  ghost predicate FailsBefore<V>(attempt: nat -> Outcome<V>, k: nat) {
    forall i: nat :: i < k ==> attempt(i).Err?
  }

  /** The error held in the loop's `error` variable once `retries` attempts failed
      (`undefined`, here `None`, before the first failure). */
  function LastError<V>(attempt: nat -> Outcome<V>, retries: nat): Option<string> {
    if retries == 0 then None
    else match attempt(retries - 1)
      case Err(m) => Some(m)
      case Ok(_) => None
  }

  /** The reply-and-report facts a finished run satisfies: the operation was
      invoked once per failure plus once for a success, the reply is the first
      success or, with the budget spent, the exhausted 500 carrying the last error,
      and one backoff wait followed each failure. */
  ghost predicate Finished<V>(attempt: nat -> Outcome<V>, r: Report<V>) {
    && 1 <= r.invocations <= MaxRetries
    && FailsBefore(attempt, r.invocations - 1)
    && r.delays == Backoff(r.retries)
    && (r.response.Success? <==> attempt(r.invocations - 1).Ok?)
    && (r.response.Success? ==>
          r.response.result == attempt(r.invocations - 1).value
          && r.retries == r.invocations - 1)
    && (r.response.Failure? ==>
          r.invocations == MaxRetries
          && r.retries == MaxRetries
          && r.response == Failure(500, ExhaustedMessage, Some(attempt(MaxRetries - 1).message)))
  }

  /** The `while (retries < maxRetries && !success)` loop, entered with `retries`
      failed attempts behind it, the waits recorded so far and the last error. */
  function Attempts<V>(attempt: nat -> Outcome<V>, retries: nat, delays: seq<nat>, error: Option<string>): (r: Report<V>)
    requires retries <= MaxRetries
    requires FailsBefore(attempt, retries)
    requires delays == Backoff(retries)
    requires error == LastError(attempt, retries)
    ensures Finished(attempt, r)
    decreases MaxRetries - retries
  {
    if retries < MaxRetries then
      match attempt(retries)
      case Ok(v) => Report(Success(v), retries + 1, retries, delays)
      case Err(m) => Attempts(attempt, retries + 1, delays + [BaseDelay * (retries + 1)], Some(m))
    else
      Report(Failure(500, ExhaustedMessage, error), retries, retries, delays)
  }

  /** The wrapped handler: one run of the retry loop from a clean start. */
  function WithRetry<V>(attempt: nat -> Outcome<V>): (r: Report<V>)
    ensures Finished(attempt, r)
  {
    Attempts(attempt, 0, [], None)
  }

  /** An operation whose first invocation succeeds is invoked once, with no
      retries and no wait. */
  lemma FirstAttemptSucceeds<V>(attempt: nat -> Outcome<V>)
    requires attempt(0).Ok?
    ensures WithRetry(attempt) == Report(Success(attempt(0).value), 1, 0, [])
  {
  }

  /** An operation that fails exactly `k < MaxRetries` times and then succeeds is
      reported as a success after `k` retries, having waited 100, ..., 100 * k ms. */
  lemma FailThenSucceed<V>(attempt: nat -> Outcome<V>, k: nat)
    requires k < MaxRetries
    requires FailsBefore(attempt, k)
    requires attempt(k).Ok?
    ensures WithRetry(attempt) == Report(Success(attempt(k).value), k + 1, k, Backoff(k))
  {
  }

  /** An operation that always fails is invoked exactly `MaxRetries` times; the reply
      is a 500 carrying the last error, after waits of 100, 200 and 300 ms, the last
      of them after the final failure. */
  lemma AllAttemptsFail<V>(attempt: nat -> Outcome<V>)
    requires FailsBefore(attempt, MaxRetries)
    ensures WithRetry(attempt) ==
      Report(Failure(500, ExhaustedMessage, Some(attempt(2).message)), 3, 3, [100, 200, 300])
  {
  }

  /** The wrapper never invokes the operation after a success: whatever the
      attempts beyond the first success return, the report is the same. */
  lemma StopsAtFirstSuccess<V>(a: nat -> Outcome<V>, b: nat -> Outcome<V>, k: nat)
    requires k < MaxRetries
    requires forall i: nat :: i <= k ==> a(i) == b(i)
    requires a(k).Ok?
    ensures WithRetry(a) == WithRetry(b)
  {
    var j := 0;
    while j < k && a(j).Err?
      invariant 0 <= j <= k
      invariant FailsBefore(a, j)
      decreases k - j
    {
      j := j + 1;
    }
    assert FailsBefore(b, j);
    FailThenSucceed(a, j);
    FailThenSucceed(b, j);
  }

  /** Scenario: an operation that fails twice and then succeeds is reported as a
      success with two retries. */
  lemma TwoFailuresThenSuccess(e1: string, e2: string, v: int)
    ensures var r := WithRetry((i: nat) => if i == 0 then Err(e1) else if i == 1 then Err(e2) else Ok(v));
      r.response == Success(v) && r.retries == 2 && r.invocations == 3 && r.delays == [100, 200]
  {
    var attempt := (i: nat) => if i == 0 then Err(e1) else if i == 1 then Err(e2) else Ok(v);
    FailThenSucceed(attempt, 2);
  }
}
