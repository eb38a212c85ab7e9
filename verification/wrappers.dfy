/** Failure-compatible result types and the numeric builtins (`abs`, `min`,
    `max`, integer powers) shared by every valuation module.

    The Python code signals failure by raising; each raise the model keeps
    becomes an `Err` carrying the exception class that would have been raised.
 */
module Wrappers {

  /** Python's `None` / present value. */
  datatype Option<+T> = None | Some(value: T) {

    /** The value, or `default` when absent. */
    function GetOr(default: T): T {
      match this
      case Some(v) => v
      case None => default
    }
  }

  /** The exception classes the modelled code can raise. */
  datatype Error =
    | ValueError
    | IndexError
    | KeyError
    | ZeroDivisionError
    | UnboundLocalError

  /** Either a computed value or the exception raised while computing it. */
  datatype Result<+T> = Ok(value: T) | Err(error: Error) {

    predicate IsFailure() {
      Err?
    }

    function PropagateFailure<U>(): Result<U>
      requires Err?
    {
      Err(error)
    }

    function Extract(): T
      requires Ok?
    {
      value
    }
  }

  /** Python truthiness of an optional float: present and non-zero. */
  predicate Truthy(x: Option<real>) {
    x.Some? && x.value != 0.0
  }

  function Abs(x: real): real {
    if x < 0.0 then -x else x
  }

  function Max(a: real, b: real): real {
    if a < b then b else a
  }

  function Min(a: real, b: real): real {
    if b < a then b else a
  }

  lemma MulNonNegative(a: real, b: real)
    requires a >= 0.0 && b >= 0.0
    ensures a * b >= 0.0
  {
  }

  /** A quotient `s / t` is one exactly when `s == t`. */
  lemma UnitQuotient(q: real, t: real, s: real)
    requires t != 0.0 && q * t == s
    ensures q == 1.0 <==> s == t
  {
    if s == t {
      assert (q - 1.0) * t == 0.0;
    }
  }

  /** `x ** n` for a non-negative integer exponent. */
  function Pow(x: real, n: nat): real {
    if n == 0 then 1.0 else x * Pow(x, n - 1)
  }

  /** A power vanishes only for a zero base and a positive exponent, and a
      positive base gives a positive power. */
  lemma {:induction false} PowSign(x: real, n: nat)
    ensures Pow(x, n) == 0.0 <==> x == 0.0 && n > 0
    ensures x > 0.0 ==> Pow(x, n) > 0.0
  {
    if n > 0 {
      PowSign(x, n - 1);
    }
  }
}
