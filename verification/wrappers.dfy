/** Failure-compatible result types shared by every module of the model.
    A `Result` stands for the source's exceptions (a decoding or syntax
    error carries its message); an `Option` stands for a nullable return. */
module Wrappers {

  datatype Option<+T> = None | Some(value: T)

  datatype Result<+T> = Ok(value: T) | Err(msg: string) {

    predicate IsFailure() {
      Err?
    }

    function PropagateFailure<U>(): Result<U>
      requires Err?
    {
      Err(msg)
    }

    function Extract(): T
      requires Ok?
    {
      value
    }
  }
}
