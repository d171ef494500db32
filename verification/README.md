# Calculator service: retry wrapper, circuit breaker and input validator

This project models the control-flow core of a small calculator HTTP service, written in JavaScript.
The core has three parts:

- **Input validator.** It runs before every arithmetic route. It rejects a request with a 400 reply when a number fails to parse, when the square-root radicand is negative, or when the divisor of `/divide` is zero. Otherwise it hands the parsed numbers to the route.
- **Retry wrapper.** It wraps the square-root operation. The operation is invoked at most three times, and the wrapper stops at the first success. After every failure, the last one included, it waits `100 * retries` ms. If all attempts fail, it replies 500 with the last error's message.
- **Circuit breaker.** It wraps the exponent operation. It is a closed / open / half-open machine with a failure counter and a last-failure timestamp. The breaker opens when the counter reaches 5. An open breaker replies 503 without invoking the operation until 30000 ms have passed since the last failure. After that, one trial call decides: success closes the breaker and resets the counter, failure reopens it.

Modules:

- `Outcomes` (`outcomes.dfy`): the shared types. `Option` stands for `null`/NaN, `Outcome` is one invocation's value or thrown message, and `Response` is the reply with its status code.
- `Validation` (`validation.dfy`): the validator. A NaN parse is `None`, and a parsed number is `Num`: finite, `+Infinity` or `-Infinity`.
- `Retry` (`retry.dfy`): the retry loop as a recursive function. The operation is a function from the attempt index to its outcome.
- `CircuitBreaker` (`breaker.dfy`): the breaker's state record, the pure step `Execute`, and its invariant `Valid`.
- `BreakerRuns` (`breaker_runs.dfy`): sequences of calls through one breaker, modelled as a fold of `Execute`, with the threshold, accumulation and open-window properties.

The handler is `async`, but it has no `await`, so each call through the breaker runs to completion before the next one starts. A sequential step function is therefore a faithful model of the shared breaker state.

The breaker is created closed, with a count of 0 and no failure time (`lastFailureTime` is `null`, app.js:123-125); `CircuitBreaker.Init` is that value. The open check computes `now - lastFailureTime` (app.js:135). `CircuitBreaker.Elapsed` models it, and JavaScript's coercion of `null` to 0 in a subtraction means that with no failure recorded the elapsed time is `now` itself. `CircuitBreaker.TimedOut` compares it with 30000 using `>=`.

Behaviour of the code that the model keeps:

- A success while the breaker is closed does not reset `failureCount` (app.js:149-153). Only a half-open success resets it. Failures therefore need not be consecutive (`FailuresAccumulateWhileClosed`).
- A failed half-open trial increments `failureCount` as well as setting `lastFailureTime` (app.js:161-162).

## Model

| member | source | states |
|---|---|---|
| `Validation.ValidateInput` | app.js:36-78 | The request passes exactly when it is acceptable. On `/sqrt` that means `num1` parsed and is not negative. On other paths both numbers parsed, and on `/divide` the divisor is not zero. A passed request carries the input numbers unchanged (`num2` is unset on `/sqrt`). Every rejection message starts with "Invalid input" (a rejection is sent as a 400 with no details, `Verdict.Reply`). |
| `Validation.RejectionMessages` | app.js:40-72 | Each of the four messages has exactly one cause, and the checks run in a fixed order. On `/sqrt`, a parse failure is reported before a negative radicand. Elsewhere, a parse failure of either number is reported before a zero divisor. |
| `Validation.SqrtIgnoresSecondNumber` | app.js:40-56 | On `/sqrt`, `num2` plays no part in the decision and is never passed on. |
| `Validation.ZeroDivisorOnlyRejectedOnDivide` | app.js:67-72 | A zero second number is rejected on `/divide` and accepted on every other non-sqrt path. |
| `Validation.DivideByZeroExample` | calculator.test.js:36-41 | `/divide?num1=10&num2=0` is rejected with a message containing "divide by zero". |
| `Validation.SquareRootExamples` | calculator.test.js:53-65 | `/sqrt?num1=-4` is rejected with a message containing "negative number". `/sqrt?num1=16` passes 16 on. |
| `Validation.NonNumericExamples` | calculator.test.js:77-88 | `/add?num1=abc&num2=5` is rejected with a message containing "Invalid input". `/multiply?num1=5` is rejected. |
| `Retry.Backoff` | app.js:92-96 | The waits recorded after k failures, built the way the loop appends one wait of `100 * retries` ms per failure, form the linear schedule 100, 200, ..., 100k ms: exactly k waits, the i-th (from 0) being 100(i+1) ms. |
| `Retry.Attempts` | app.js:88-113 | From any point of the loop, the finished run satisfies these facts. Invocations are between 1 and 3. Every invocation before the last failed. The reply is a success exactly when the last invocation succeeded, and then it carries that value with `retries` equal to the number of earlier failures. Otherwise the reply is the 500 "Operation failed after multiple attempts" with the third error's message as details. The recorded waits are 100, 200, ... up to one per failure. |
| `Retry.WithRetry` | app.js:80-115 | A complete run from a clean start satisfies the same facts as `Retry.Attempts`. |
| `Retry.FirstAttemptSucceeds` | app.js:88-105 | When the first invocation succeeds, the operation is invoked once, with 0 retries and no wait. |
| `Retry.FailThenSucceed` | app.js:88-105 | When the operation fails k < 3 times and then succeeds, it is invoked k+1 times and the reply is that success. The report shows k retries and waits 100, ..., 100k ms. |
| `Retry.AllAttemptsFail` | app.js:88-113 | When every invocation fails, the operation is invoked exactly 3 times. The reply is the 500 carrying the third error's message. The waits are 100, 200 and 300 ms, the last one after the final failure. |
| `Retry.StopsAtFirstSuccess` | app.js:88-91 | Outcomes after the first success within the budget cannot change the report, because those attempts are never made. |
| `Retry.TwoFailuresThenSuccess` | app.js:80-105 | Scenario: two failures and then a success give a success with 2 retries, 3 invocations and waits of 100 and 200 ms. |
| `CircuitBreaker.Execute` | app.js:129-176 | An open breaker inside its window replies 503, does not invoke the operation and changes nothing. Every other call invokes the operation once and replies 200 with its value, or 500 with its message. Every failure increments the count and records `now`. A closed success changes no field, so the count is not reset. A closed breaker opens exactly when a failure brings the count to 5. A trial call closes with count 0 on success and reopens on failure. |
| `CircuitBreaker.ResetBoundary` | app.js:133-144 | The reset timeout is inclusive. A call exactly 30000 ms after the last failure invokes the operation. A call 29999 ms after it gets 503 and leaves the breaker unchanged. |
| `CircuitBreaker.InitValid` | app.js:123-127 | The new breaker (closed, count 0, no failure time) satisfies the invariant. |
| `CircuitBreaker.ExecutePreservesValid` | app.js:133-169 | Every call preserves the invariant. Half-open is never left standing between calls. A closed breaker's count is below 5. An open breaker's count is at least 5 and its failure time is set. |
| `BreakerRuns.RunCalls` | app.js:129-180 | Successive requests through the one shared breaker (app.js:182, 212) are a fold of `Execute`. Every call gets exactly one reply. Each reply is either the 503 or the reply that call's own outcome produces (200 with its value or 500 with its message, never 503). The operation is invoked once for each call not answered 503: invocations plus 503 replies equal the number of calls. |
| `BreakerRuns.RunPreservesValid` | app.js:129-180 | The invariant holds after any sequence of calls from a valid breaker. |
| `BreakerRuns.FailuresAccumulateWhileClosed` | app.js:147-169 | Assume a closed breaker whose count plus the failures among the calls stays under 5. Then every call invokes the operation and gets the operation's own reply. The breaker ends closed, its count equal to the old count plus all failures, even with successes in between, and its failure time equal to the last failure's time. |
| `BreakerRuns.OpensOnThresholdFailure` | app.js:159-175 | The failure that brings a closed breaker's count to 5 is answered with the operation's 500. That failure opens the breaker with its time. The calls before it left the breaker closed. |
| `BreakerRuns.OpenWindowRejectsAll` | app.js:133-144 | Every call to an open breaker before its reset timeout gets 503, the operation is never invoked, and the breaker ends unchanged. |
| `BreakerRuns.FourFailuresStayClosed` | app.js:161-169 | Four failures, with any successes between them, leave a new breaker closed with count 4. |
| `BreakerRuns.FifthFailureOpensSixthRejected` | app.js:133-175 | Scenario: five failures open a new breaker, and the fifth is answered 500. A sixth call less than 30000 ms later gets 503, and the operation has been invoked exactly 5 times. |
| `BreakerRuns.TrialCallDecides` | app.js:133-167 | Once the reset timeout has passed (the boundary included), an open breaker invokes the operation exactly once. A success closes it with count 0. A failure reopens it with the count incremented and the trial's time recorded. |

## Left out

- Express wiring is not modelled: the routes, the unwrapped arithmetic handlers, `/health`, static files, the UI route, `app.listen` and the error middleware (app.js:1-33, 182-241). These are framework plumbing.
- Winston logging is not modelled. It is a side effect that never changes control flow.
- Floating-point arithmetic and `parseFloat` are not modelled. The wrapped operations are abstract outcomes (`Ok(value)` or `Err(message)`). A parsed number is `Num`, and NaN is `None`. Negative zero is identified with zero, because it compares equal to zero under both `<` and `===`.
- Timers and the clock are not modelled. `Date.now()` is the `now` parameter of each breaker call, and the backoff waits are recorded as values, not slept.
- CircuitBreaker.Execute: the code reads the clock twice in one call of an open breaker, once for the open check (app.js:134) and once for the failure time (app.js:162). The model uses one reading `now` for both, which assumes the operation takes no time. In the code, a failed trial records the later reading, so its reopened window may end later than the model's by the operation's running time. On a closed breaker only the second reading exists, and `now` is that reading.
- The JSON body is reduced to status, message and details. The `error: true/false` flag follows from the status.
- Concurrency is not modelled. The breaker handler never awaits, so its calls run one after another. The retry handler does suspend at each backoff wait (app.js:96), so concurrent `/sqrt` requests interleave. Its variables `retries`, `success`, `result` and `error` are local to each request (app.js:82-86), though, so interleaving cannot change a run.
