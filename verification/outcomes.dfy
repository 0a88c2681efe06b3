/** Failure kinds of the perpetual state machine and the failure-compatible
    result type every transition returns. A failed assertion in the contract
    rejects the whole transaction, so a transition either produces its next
    state or one of these errors and nothing else. */
module Outcomes {

  datatype Error =
    | LeverageExceeded     // size is more than 100 times the collateral
    | InconsistentWitness  // the witness does not lead to the committed root
    | NotOwner             // the sender is not the position's owner
    | PositionNotOpen      // the position's open flag is not 1
    | Overflow             // a 64-bit unsigned result does not fit
    | Underflow            // a 64-bit unsigned subtraction goes below zero
    | DivisionByZero       // a 64-bit unsigned division by zero
    | ZeroEntryPrice       // an open at price zero (only in the guarded open)

  datatype Result<+T> = Ok(value: T) | Err(error: Error) {

    predicate IsFailure() {
      Err?
    }

    function PropagateFailure<U>(): Result<U>
      requires Err?
    {
      Err(error)
    }

    function Extract(): T
      requires Ok?
    {
      value
    }
  }
}
