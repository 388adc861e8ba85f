/** Failure values for the exceptions the C# core throws.
    Every operation that can throw returns a `Result`, so the error paths are part of the model. */
module Outcomes {

  /** The exception classes raised by the core, named after their .NET types. */
  datatype Fault =
    | ArgumentNull
    | ArgumentOutOfRange
    | Argument
    | InvalidOperation
    | IndexOutOfRange
    | KeyNotFound
    | NullReference
    | Overflow
    | DivideByZero

  /** A value, or the exception that replaced it. Failure-compatible, so `:-` propagates faults. */
  datatype Result<+T> = Ok(value: T) | Fail(fault: Fault) {

    predicate IsFailure() {
      Fail?
    }

    function PropagateFailure<U>(): Result<U>
      requires Fail?
    {
      Fail(fault)
    }

    function Extract(): T
      requires Ok?
    {
      value
    }
  }

  /** A nullable reference or nullable value type (`int?`, `Tile?`). */
  datatype Option<+T> = None | Some(value: T)

  /** `Need(c, f)` succeeds when `c` holds and fails with `f` otherwise (a guard clause that throws). */
  function Need(condition: bool, fault: Fault): (r: Result<()>)
    ensures r.Ok? <==> condition
    ensures r.Fail? ==> r.fault == fault
  {
    if condition then Ok(()) else Fail(fault)
  }
}
