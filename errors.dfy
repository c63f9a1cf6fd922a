/** Error kinds of the interpreter and the failure-compatible wrappers used to return them. */
module Errors {

  /** The four error kinds a query can fail with. */
  datatype SqlError =
    | InvalidTable   // a table could not be processed
    | InvalidColumn  // a column could not be processed
    | InvalidSyntax  // a query could not be processed
    | Error          // any other error

  /** `Result<T, SqlError>`: a value or the error that stopped the computation. */
  datatype Result<+T> = Ok(value: T) | Err(error: SqlError) {
    predicate IsFailure() { Err? }

    function PropagateFailure<U>(): Result<U>
      requires Err?
    {
      Err(error)
    }

    function Extract(): T
      requires Ok?
    {
      value
    }
  }

  datatype Option<+T> = None | Some(value: T)
}
