/**
 Sequences of calls through one circuit breaker. The breaker's state is shared by
 every request routed through the protected operation, and each call runs to
 completion before the next, so a run is a left fold of `Execute` over the calls.
 */
module BreakerRuns {
  import opened Outcomes
  import opened CircuitBreaker

  /** One request: the clock reading when it arrives and what the operation would
      return if invoked. */
  datatype Call<+V> = Call(now: int, outcome: Outcome<V>)

  /** The breaker after a run, the replies in call order, and how many times the
      operation was invoked. */
  datatype Run<+V> = Run(final: Breaker, responses: seq<Response<V>>, invocations: nat)

  /** The reply an invoked operation's outcome produces. */
  function OutcomeReply<V>(outcome: Outcome<V>): Response<V> {
    match outcome
    case Ok(v) => Success(v)
    case Err(m) => FailureReply(m)
  }

  /** How many of the replies are the open breaker's 503. */
  function Rejections<V>(responses: seq<Response<V>>): nat
    decreases |responses|
  {
    if |responses| == 0 then 0
    else
      Rejections(responses[..|responses| - 1])
      + (if responses[|responses| - 1].Status() == 503 then 1 else 0)
  }

  /** Feeds the calls to the breaker in order, as successive requests reach the one
      breaker shared by the protected route. Every call gets exactly one reply: the
      503, or the reply its own outcome produces (never a 503). The operation is
      invoked once for each call not answered 503. */
  function RunCalls<V>(b: Breaker, calls: seq<Call<V>>): (r: Run<V>)
    ensures |r.responses| == |calls|
    ensures forall i :: 0 <= i < |calls| ==>
      r.responses[i] == UnavailableReply() || r.responses[i] == OutcomeReply(calls[i].outcome)
    ensures r.invocations + Rejections(r.responses) == |calls|
    decreases |calls|
  {
    if |calls| == 0 then Run(b, [], 0)
    else
      var before := RunCalls(b, calls[..|calls| - 1]);
      var call := calls[|calls| - 1];
      var s := Execute(before.final, call.now, call.outcome);
      var responses := before.responses + [s.response];
      assert responses[..|responses| - 1] == before.responses;
      Run(s.next, responses, before.invocations + (if s.invoked then 1 else 0))
  }

  /** How many of the calls' outcomes are failures. Every call fails exactly when
      every call counts. */
  function Failures<V>(calls: seq<Call<V>>): (n: nat)
    ensures n <= |calls|
    ensures n == |calls| <==> forall i :: 0 <= i < |calls| ==> calls[i].outcome.Err?
    decreases |calls|
  {
    if |calls| == 0 then 0
    else
      var prefix := calls[..|calls| - 1];
      assert forall i :: 0 <= i < |prefix| ==> prefix[i] == calls[i];
      Failures(prefix) + (if calls[|calls| - 1].outcome.Err? then 1 else 0)
  }

  /** The clock reading of the last failing call, or `b`'s own failure time if none fails. */
  function LastFailure<V>(b: Breaker, calls: seq<Call<V>>): Option<int>
    decreases |calls|
  {
    if |calls| == 0 then b.lastFailureTime
    else if calls[|calls| - 1].outcome.Err? then Some(calls[|calls| - 1].now)
    else LastFailure(b, calls[..|calls| - 1])
  }

  /** The breaker's invariant holds after any run that starts from a valid breaker. */
  lemma {:induction false} RunPreservesValid<V>(b: Breaker, calls: seq<Call<V>>)
    requires Valid(b)
    ensures Valid(RunCalls(b, calls).final)
    decreases |calls|
  {
    if |calls| > 0 {
      var prefix := calls[..|calls| - 1];
      var call := calls[|calls| - 1];
      RunPreservesValid(b, prefix);
      ExecutePreservesValid(RunCalls(b, prefix).final, call.now, call.outcome);
    }
  }

  /** While a closed breaker stays under the threshold it invokes the operation on
      every call and replies with the operation's own outcome. Failures add up
      across the successes between them: a closed success does not reset the count. */
  lemma {:induction false} FailuresAccumulateWhileClosed<V>(b: Breaker, calls: seq<Call<V>>)
    requires b.state == Closed
    requires b.failureCount + Failures(calls) < FailureThreshold
    ensures RunCalls(b, calls).final ==
      Breaker(Closed, b.failureCount + Failures(calls), LastFailure(b, calls))
    ensures RunCalls(b, calls).invocations == |calls|
    ensures forall i :: 0 <= i < |calls| ==>
      RunCalls(b, calls).responses[i] == OutcomeReply(calls[i].outcome)
    decreases |calls|
  {
    if |calls| > 0 {
      var prefix := calls[..|calls| - 1];
      FailuresAccumulateWhileClosed(b, prefix);
      var before := RunCalls(b, prefix);
      var r := RunCalls(b, calls);
      assert r.responses == before.responses + [OutcomeReply(calls[|calls| - 1].outcome)];
      forall i | 0 <= i < |calls|
        ensures r.responses[i] == OutcomeReply(calls[i].outcome)
      {
        if i < |calls| - 1 {
          assert calls[i] == prefix[i];
        }
      }
    }
  }

  /** The failure that brings a closed breaker's count to the threshold both is
      answered with the operation's 500 and opens the breaker at that call's time;
      the failures before it left the breaker closed. */
  lemma OpensOnThresholdFailure<V>(b: Breaker, calls: seq<Call<V>>)
    requires b.state == Closed
    requires |calls| > 0 && calls[|calls| - 1].outcome.Err?
    requires b.failureCount + Failures(calls) == FailureThreshold
    ensures RunCalls(b, calls[..|calls| - 1]).final.state == Closed
    ensures RunCalls(b, calls).final ==
      Breaker(Open, FailureThreshold, Some(calls[|calls| - 1].now))
    ensures RunCalls(b, calls).responses[|calls| - 1] ==
      FailureReply(calls[|calls| - 1].outcome.message)
    ensures RunCalls(b, calls).invocations == |calls|
  {
    FailuresAccumulateWhileClosed(b, calls[..|calls| - 1]);
  }

  /** An open breaker short-circuits every call that arrives before its reset
      timeout: each gets the 503 reply, the operation is never invoked, and the
      breaker is unchanged. */
  lemma {:induction false} OpenWindowRejectsAll<V>(b: Breaker, calls: seq<Call<V>>)
    requires b.state == Open
    requires forall i :: 0 <= i < |calls| ==> !TimedOut(b, calls[i].now)
    ensures RunCalls(b, calls).final == b
    ensures RunCalls(b, calls).invocations == 0
    ensures forall i :: 0 <= i < |calls| ==> RunCalls(b, calls).responses[i] == UnavailableReply()
    decreases |calls|
  {
    if |calls| > 0 {
      var prefix := calls[..|calls| - 1];
      assert forall i :: 0 <= i < |prefix| ==> prefix[i] == calls[i];
      OpenWindowRejectsAll(b, prefix);
      var r := RunCalls(b, calls);
      assert r.responses == RunCalls(b, prefix).responses + [UnavailableReply()];
    }
  }

  /** Four failures, whatever successes come between them, leave a new breaker closed. */
  lemma FourFailuresStayClosed<V>(calls: seq<Call<V>>)
    requires Failures(calls) == FailureThreshold - 1
    ensures RunCalls(Init(), calls).final.state == Closed
    ensures RunCalls(Init(), calls).final.failureCount == FailureThreshold - 1
  {
    FailuresAccumulateWhileClosed(Init(), calls);
  }

  /** Scenario: five failing calls to a new breaker; the fifth is answered with the
      operation's 500 and opens the breaker, and a sixth call arriving less than the
      reset timeout after the fifth is answered 503 without invoking the operation. */
  lemma {:induction false} FifthFailureOpensSixthRejected<V>(calls: seq<Call<V>>, sixth: Call<V>)
    requires |calls| == 5
    requires forall i :: 0 <= i < 5 ==> calls[i].outcome.Err?
    requires sixth.now - calls[4].now < ResetTimeout
    ensures RunCalls(Init(), calls).final.state == Open
    ensures RunCalls(Init(), calls).responses[4] == FailureReply(calls[4].outcome.message)
    ensures RunCalls(Init(), calls + [sixth]).responses[5] == UnavailableReply()
    ensures RunCalls(Init(), calls + [sixth]).invocations == 5
  {
    OpensOnThresholdFailure(Init(), calls);
    var all := calls + [sixth];
    assert all[..|all| - 1] == calls;
  }

  /** After the reset timeout an open breaker lets exactly one trial call invoke the
      operation; a successful trial closes the breaker with its count reset, and a
      failed one reopens it at the trial's time. */
  lemma TrialCallDecides<V>(b: Breaker, call: Call<V>)
    requires b.state == Open
    requires TimedOut(b, call.now)
    ensures RunCalls(b, [call]).invocations == 1
    ensures call.outcome.Ok? ==>
      RunCalls(b, [call]).final == Breaker(Closed, 0, b.lastFailureTime)
    ensures call.outcome.Err? ==>
      RunCalls(b, [call]).final == Breaker(Open, b.failureCount + 1, Some(call.now))
  {
    assert [call][..0] == [];
  }
}
