/** Failure-compatible result types shared by every module of the model, and
    the kinds of Python exception the modelled code can raise. */
module Wrappers {

  datatype Option<+T> = None | Some(value: T) {
    predicate IsFailure() { None? }

    function PropagateFailure<U>(): Option<U>
      requires None?
    {
      None
    }

    function Extract(): T
      requires Some?
    {
      value
    }
  }

  /** The exception a Python statement raises, by class. */
  datatype Error =
    | IndexError        // positional access past the end (`iloc[0]` on an empty frame, list index)
    | KeyError          // dictionary lookup of a missing key
    | ValueError        // scipy/numpy argument check, or an explicit `raise ValueError`
    | UnboundLocalError // a local variable read before any assignment reached it
    | BroadcastError    // numpy slice assignment whose shapes cannot be broadcast

  datatype Result<+R> = Ok(value: R) | Err(error: Error) {
    predicate IsFailure() { Err? }

    function PropagateFailure<U>(): Result<U>
      requires Err?
    {
      Err(error)
    }

    function Extract(): R
      requires Ok?
    {
      value
    }
  }
}
