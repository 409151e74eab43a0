// Optional values and error results, used where the TypeScript code returns `undefined` or throws.
module Wrappers {

  datatype Option<+T> = None | Some(value: T) {
    predicate IsFailure() {
      None?
    }

    function PropagateFailure<U>(): Option<U>
      requires None?
    {
      None
    }

    function Extract(): T
      requires Some?
    {
      value
    }
  }

  // `Error` stands for a thrown exception.
  datatype Result<+T, +E> = Ok(value: T) | Error(error: E) {
    predicate IsFailure() {
      Error?
    }

    function PropagateFailure<U>(): Result<U, E>
      requires Error?
    {
      Error(error)
    }

    function Extract(): T
      requires Ok?
    {
      value
    }
  }
}
