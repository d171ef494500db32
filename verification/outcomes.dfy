/**
 Shared value types of the calculator service's resilience core: the optional
 value (used for a missing timestamp and for a NaN parse), the outcome of one
 invocation of a numeric operation, and the HTTP response the handlers send.
 */
module Outcomes {

  /** A value that may be absent: JavaScript's `null`/`undefined`, or a NaN parse. */
  datatype Option<+T> = None | Some(value: T)

  /** What one invocation of a wrapped numeric operation produced: a value, or a
      thrown error carrying its message. */
  datatype Outcome<+V> = Ok(value: V) | Err(message: string)

  /** The response a handler sends. `Success` is the 200 reply `{ error: false, result }`;
      `Failure` is an error reply `{ error: true, message, details? }` with its status code. */
  datatype Response<+V> =
    | Success(result: V)
    | Failure(status: nat, message: string, details: Option<string>)
  {
    /** The HTTP status code of the reply. */
    function Status(): nat {
      match this
      case Success(_) => 200
      case Failure(status, _, _) => status
    }
  }

  /** True when `prefix` is a prefix of `s` (used to state what error messages say). */
  predicate StartsWith(s: string, prefix: string) {
    |prefix| <= |s| && s[..|prefix|] == prefix
  }

  /** True when `sub` occurs in `s` starting at index `i`. */
  predicate OccursAt(s: string, sub: string, i: int) {
    0 <= i <= |s| - |sub| && s[i..i + |sub|] == sub
  }

  /** True when `sub` occurs somewhere inside `s`, as a substring test does. */
  ghost predicate Contains(s: string, sub: string) {
    exists i :: OccursAt(s, sub, i)
  }
}
