/** Option and result types that replace the source's std::optional and its exceptions. */
module Wrappers {

  datatype Option<+T> = None | Some(value: T)

  /** The error taxonomy of the storage core: a value the caller must inspect instead of an exception. */
  datatype Failure =
    | ParseError(line: string)        // a line that cannot be tokenised into a record
    | ValidationError(what: string)   // a record that violates the data-model invariants
    | IOError(what: string)           // a file that cannot be opened, written, removed or renamed
    | InvalidArgument(what: string)   // a structurally invalid parameter, such as a zero chunk size
    | Duplicate(id: string)           // an insertion of an id that is already present

  datatype Result<+T> = Ok(value: T) | Err(error: Failure)

  /** A result without a value: the outcome of an operation run for its effect. */
  datatype Outcome = Pass | Fail(error: Failure)
}
