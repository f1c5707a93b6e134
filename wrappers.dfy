/** Failure-carrying datatypes shared by every module of the model. */
module Wrappers {

  datatype Option<+T> = None | Some(value: T)

  /** The Python exception (or Java throwable) that ends an operation. */
  datatype Exc =
    | ValueError        // int() rejected a string, max() of an empty sequence, bad slice step
    | IndexError        // list index out of range
    | KeyError          // missing dictionary key
    | AssertionError    // a failed `assert` of the source
    | UnboundLocalError // a variable read before the branch that sets it ran
    | StopIteration     // next() on an exhausted file
    | ZeroDivisionError
    | AttributeError    // method call on None
    | TypeError         // an operation applied to a value of the wrong type
    | StringIndexOutOfBoundsException // Java: charAt past the end of a string
    | ArrayIndexOutOfBoundsException  // Java: array index past the end
    | IndexOutOfBoundsException       // Java: List.get past the end
    | NumberFormatException           // Java: Integer.parseInt / Long.parseLong rejected a string
    | NullPointerException            // Java: method call on a missing map entry

  datatype Result<+T> = Ok(value: T) | Err(error: Exc)

  /** Pass or fail, for operations that only change state. */
  datatype Outcome = Pass | Fail(error: Exc)
}
