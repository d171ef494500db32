/**
 The circuit breaker placed around the exponent operation: a three-state machine
 (closed, open, half-open) with a failure counter and the time of the last failure.

 One call of the protected handler is one `Execute` step. The handler never
 suspends, so a call runs to completion before the next one starts and the
 breaker is a sequence of such steps. `now` is the clock reading of the call
 and `outcome` is what the operation returns if the breaker invokes it.
 */
module CircuitBreaker {
  import opened Outcomes

  datatype State = Closed | Open | HalfOpen

  /** The breaker's three variables. `lastFailureTime` is `null` (here `None`) until
      the first failure. */
  datatype Breaker = Breaker(state: State, failureCount: nat, lastFailureTime: Option<int>)

  /** Failures needed to open the breaker from closed. */
  const FailureThreshold: nat := 5
  /** Milliseconds an open breaker waits before letting a trial call through. */
  const ResetTimeout: int := 30000

  const OperationFailedMessage := "Operation failed"
  const UnavailableMessage := "Service temporarily unavailable"

  /** The result of one call: the breaker afterwards, the reply sent, and whether the
      operation was invoked. */
  datatype Step<+V> = Step(next: Breaker, response: Response<V>, invoked: bool)

  /** The breaker as created: closed, no failures, no failure time. */
  function Init(): Breaker {
    Breaker(Closed, 0, None)
  }

  /** Milliseconds since the last failure. Subtracting `null` from a number treats it
      as 0, so with no failure recorded this is the clock reading itself. */
  function Elapsed(b: Breaker, now: int): int {
    now - (match b.lastFailureTime case None => 0 case Some(t) => t)
  }

  /** True when an open breaker has waited long enough to admit a trial call
      (the boundary itself admits). */
  predicate TimedOut(b: Breaker, now: int) {
    Elapsed(b, now) >= ResetTimeout
  }

  /** The reply for an operation failure: 500 with the error's message as details. */
  function FailureReply<V>(message: string): Response<V> {
    Failure(500, OperationFailedMessage, Some(message))
  }

  /** The reply for a short-circuited call: 503 with no details. */
  function UnavailableReply<V>(): Response<V> {
    Failure(503, UnavailableMessage, None)
  }

  /** One call of the protected handler. */
  function Execute<V>(b: Breaker, now: int, outcome: Outcome<V>): (s: Step<V>)
    // An open breaker inside its window rejects with 503, changes nothing and
    // does not touch the operation.
    ensures b.state == Open && !TimedOut(b, now) ==>
      s == Step(b, UnavailableReply(), false)
    // Otherwise the operation is invoked exactly once and its outcome decides the reply.
    ensures !(b.state == Open && !TimedOut(b, now)) ==>
      && s.invoked
      && (outcome.Ok? ==> s.response == Success(outcome.value))
      && (outcome.Err? ==> s.response == FailureReply(outcome.message))
    // Every failure counts and is timestamped, whatever the state.
    ensures s.invoked && outcome.Err? ==>
      s.next.failureCount == b.failureCount + 1 && s.next.lastFailureTime == Some(now)
    // A success from closed changes nothing: in particular the count is not reset.
    ensures b.state == Closed && outcome.Ok? ==> s.next == b
    // A closed breaker opens exactly when the failure brings the count to the threshold.
    ensures b.state == Closed && outcome.Err? ==>
      (s.next.state == Open <==> b.failureCount + 1 >= FailureThreshold)
      && (s.next.state == Open || s.next.state == Closed)
    // A trial call (timed-out open, or half-open) closes and resets on success,
    // and reopens on failure.
    ensures (b.state == HalfOpen || (b.state == Open && TimedOut(b, now))) ==>
      && (outcome.Ok? ==> s.next == Breaker(Closed, 0, b.lastFailureTime))
      && (outcome.Err? ==> s.next.state == Open)
  {
    if b.state == Open && !TimedOut(b, now) then
      Step(b, UnavailableReply(), false)
    else
      var state := if b.state == Open then HalfOpen else b.state;
      match outcome
      case Ok(v) =>
        var next := if state == HalfOpen then Breaker(Closed, 0, b.lastFailureTime) else b.(state := state);
        Step(next, Success(v), true)
      case Err(m) =>
        var count := b.failureCount + 1;
        var opens := (state == Closed && count >= FailureThreshold) || state == HalfOpen;
        Step(Breaker(if opens then Open else state, count, Some(now)), FailureReply(m), true)
  }

  /** The reset timeout is measured inclusively: a call exactly 30000 ms after the
      last failure gets the trial invocation, and one a millisecond earlier is
      rejected with 503. */
  lemma ResetBoundary<V>(count: nat, t: int, outcome: Outcome<V>)
    ensures Execute(Breaker(Open, count, Some(t)), t + ResetTimeout, outcome).invoked
    ensures var s := Execute(Breaker(Open, count, Some(t)), t + ResetTimeout - 1, outcome);
      !s.invoked && s.response == UnavailableReply<V>() && s.next == Breaker(Open, count, Some(t))
  {
  }

  /** The breaker's invariant between calls: half-open is never observed (a trial
      call always resolves it), a closed breaker has fewer failures than the
      threshold, and an open breaker has reached it and has a failure time. */
  predicate Valid(b: Breaker) {
    match b.state
    case Closed => b.failureCount < FailureThreshold
    case Open => b.failureCount >= FailureThreshold && b.lastFailureTime.Some?
    case HalfOpen => false
  }

  /** The created breaker satisfies the invariant. */
  lemma InitValid()
    ensures Valid(Init())
  {
  }

  /** Every call preserves the invariant; in particular the breaker is never left
      half-open, and whenever it is open the failure time is set. */
  lemma ExecutePreservesValid<V>(b: Breaker, now: int, outcome: Outcome<V>)
    requires Valid(b)
    ensures Valid(Execute(b, now, outcome).next)
    ensures Execute(b, now, outcome).next.state != HalfOpen
    ensures Execute(b, now, outcome).next.state == Open ==>
      Execute(b, now, outcome).next.lastFailureTime.Some?
  {
  }
}
