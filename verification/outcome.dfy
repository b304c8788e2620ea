/** Failure-carrying datatypes shared by every module of the model.

    A Rust `panic!`, `unwrap` on an error, `assert!` failure or `unreachable!`
    is modelled as an `Err` carrying a description of the failure, so that no
    operation needs a precondition that the source does not impose. */
module Outcome {

  datatype Option<+T> = None | Some(value: T) {
    predicate IsFailure() { None? }

    function PropagateFailure<U>(): Option<U>
      requires None?
    {
      None
    }

    function Extract(): T
      requires Some?
    {
      value
    }

    function GetOr(default: T): T {
      match this
      case Some(v) => v
      case None => default
    }
  }

  datatype Result<+T, +E> = Ok(value: T) | Err(error: E) {
    predicate IsFailure() { Err? }

    function PropagateFailure<U>(): Result<U, E>
      requires Err?
    {
      Err(error)
    }

    function Extract(): T
      requires Ok?
    {
      value
    }

    function MapFailure<F>(f: E -> F): (r: Result<T, F>)
      ensures r.Ok? <==> Ok?
      ensures Ok? ==> r.value == value
      ensures Err? ==> r.error == f(error)
    {
      match this
      case Ok(v) => Ok(v)
      case Err(e) => Err(f(e))
    }
  }
}
