/** Failure-aware result types shared by every module. */
module Wrappers {

  datatype Option<+T> = None | Some(value: T)

  /** What a Go call can do: return a value, return an error, or panic. */
  datatype Result<+T> = Ok(value: T) | Error(reason: string) | Panic {

    predicate IsFailure() {
      !Ok?
    }

    function PropagateFailure<U>(): Result<U>
      requires !Ok?
    {
      if Panic? then Panic else Error(reason)
    }

    function Extract(): T
      requires Ok?
    {
      value
    }
  }
}
