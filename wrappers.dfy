/** Result values standing in for the Python exceptions the scripts can raise. */
module Wrappers {

  /** The exceptions a core operation can end in. */
  datatype Error =
    | KeyError          // a dict lookup of a missing key
    | IndexError        // a list or string index out of range
    | ValueError        // `str.index` that finds nothing, a bad `int()` or a bad unpacking
    | ZeroDivisionError // a float division by zero
    | UnboundLocal      // a local read before any branch assigned it
    | AttributeError    // a call on an object that lacks the method
    | TypeError         // a call with a missing argument

  datatype Result<T> = Ok(value: T) | Err(error: Error) {
    predicate IsFailure() { Err? }

    function PropagateFailure<U>(): Result<U>
      requires Err?
    {
      Err(error)
    }

    function Extract(): T
      requires Ok?
    {
      value
    }
  }

  datatype Option<T> = None | Some(value: T)
}
