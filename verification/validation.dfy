/**
 The request validator that runs before every arithmetic route. It decides, from
 the request path and the two already-parsed query numbers, whether to reject the
 request with a 400 reply or to pass the numbers on to the route's handler.
 A number that failed to parse (JavaScript's NaN) is `None`.
 */
module Validation {
  import opened Outcomes

  /** A parsed JavaScript number other than NaN. Negative zero compares like zero
      under both `<` and `===`, so it is `Finite(0.0)` here. */
  datatype Num = Finite(r: real) | PosInf | NegInf

  /** JavaScript's `n < 0`. */
  predicate IsNegative(n: Num) {
    match n
    case Finite(r) => r < 0.0
    case PosInf => false
    case NegInf => true
  }

  /** JavaScript's `n === 0`. */
  predicate IsZero(n: Num) {
    n == Finite(0.0)
  }

  const SqrtPath := "/sqrt"
  const DividePath := "/divide"

  /** Every rejection message opens with this phrase. */
  const InvalidInput := "Invalid input"
  const NotANumberMessage := InvalidInput + ": num1 must be a number"
  const NegativeRootMessage := InvalidInput + ": Cannot calculate square root of negative number"
  const BothNumbersMessage := InvalidInput + ": Both num1 and num2 must be numbers"
  const DivideByZeroMessage := InvalidInput + ": Cannot divide by zero"

  /** The validator's decision: a 400 reply, or the numbers handed to the route
      (`req.num1` / `req.num2`; the square-root route never sets `num2`). */
  datatype Verdict =
    | Reject(message: string)
    | Pass(num1: Num, num2: Option<Num>)
  {
    /** The reply sent for a rejection: status 400 with the message and no details. */
    function Reply<V>(): Response<V>
      requires Reject?
    {
      Failure(400, message, None)
    }
  }

  /** The conditions under which a request on `path` is acceptable, stated
      independently of the order in which the validator checks them. */
  predicate Acceptable(path: string, num1: Option<Num>, num2: Option<Num>) {
    if path == SqrtPath then
      num1.Some? && !IsNegative(num1.value)
    else
      num1.Some? && num2.Some? && !(path == DividePath && IsZero(num2.value))
  }

  /** The validator. On the square-root path only `num1` is examined; on every other
      path both numbers must parse, and on the division path the divisor must not be zero. */
  function ValidateInput(path: string, num1: Option<Num>, num2: Option<Num>): (v: Verdict)
    ensures v.Pass? <==> Acceptable(path, num1, num2)
    ensures v.Pass? ==> Some(v.num1) == num1
    ensures v.Pass? ==> v.num2 == (if path == SqrtPath then None else num2)
    ensures v.Reject? ==> StartsWith(v.message, InvalidInput)
  {
    if path == SqrtPath then
      if num1.None? then Reject(NotANumberMessage)
      else if IsNegative(num1.value) then Reject(NegativeRootMessage)
      else Pass(num1.value, None)
    else if num1.None? || num2.None? then
      Reject(BothNumbersMessage)
    else if path == DividePath && IsZero(num2.value) then
      Reject(DivideByZeroMessage)
    else
      Pass(num1.value, num2)
  }

  /** Which message a rejection carries: a parse failure is reported before a
      negative radicand or a zero divisor, and each message has exactly one cause. */
  lemma RejectionMessages(path: string, num1: Option<Num>, num2: Option<Num>)
    ensures var v := ValidateInput(path, num1, num2);
      && (v == Reject(NotANumberMessage) <==> path == SqrtPath && num1.None?)
      && (v == Reject(NegativeRootMessage) <==>
            path == SqrtPath && num1.Some? && IsNegative(num1.value))
      && (v == Reject(BothNumbersMessage) <==>
            path != SqrtPath && (num1.None? || num2.None?))
      && (v == Reject(DivideByZeroMessage) <==>
            path == DividePath && num1.Some? && num2.Some? && IsZero(num2.value))
  {
  }

  /** On the square-root path the second number plays no part in the decision. */
  lemma SqrtIgnoresSecondNumber(num1: Option<Num>, a: Option<Num>, b: Option<Num>)
    ensures ValidateInput(SqrtPath, num1, a) == ValidateInput(SqrtPath, num1, b)
    ensures ValidateInput(SqrtPath, num1, a).Pass? ==> ValidateInput(SqrtPath, num1, a).num2.None?
  {
  }

  /** A zero divisor is accepted on every path except division. */
  lemma ZeroDivisorOnlyRejectedOnDivide(path: string, x: Num)
    requires path != SqrtPath
    ensures ValidateInput(path, Some(x), Some(Finite(0.0))).Reject? <==> path == DividePath
  {
  }

  /** The test suite's case `/divide?num1=10&num2=0` is a 400 whose message
      mentions "divide by zero". */
  lemma DivideByZeroExample()
    ensures var v := ValidateInput(DividePath, Some(Finite(10.0)), Some(Finite(0.0)));
      v.Reject? && Contains(v.message, "divide by zero")
  {
    var tail := ": Cannot divide by zero";
    assert tail[9..] == "divide by zero";
    assert OccursAt(InvalidInput + tail, "divide by zero", 22);
  }

  /** In the test suite's cases, `/sqrt?num1=-4` is a 400 whose message mentions
      "negative number", and `/sqrt?num1=16` passes 16 on. */
  lemma SquareRootExamples()
    ensures var v := ValidateInput(SqrtPath, Some(Finite(-4.0)), None);
      v.Reject? && Contains(v.message, "negative number")
    ensures ValidateInput(SqrtPath, Some(Finite(16.0)), None) == Pass(Finite(16.0), None)
  {
    var tail := ": Cannot calculate square root of negative number";
    assert tail[34..] == "negative number";
    assert OccursAt(InvalidInput + tail, "negative number", 47);
  }

  /** In the test suite's cases, `/add?num1=abc&num2=5` is a 400 whose message
      mentions "Invalid input", and `/multiply?num1=5` (no `num2`) is a 400. */
  lemma NonNumericExamples()
    ensures var v := ValidateInput("/add", None, Some(Finite(5.0)));
      v.Reject? && Contains(v.message, "Invalid input")
    ensures ValidateInput("/multiply", Some(Finite(5.0)), None).Reject?
  {
    assert OccursAt(BothNumbersMessage, InvalidInput, 0);
  }
}
