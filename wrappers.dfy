/** Option and Result, and the Python exceptions the dataset code lets propagate. */
module Wrappers {

  datatype Option<+T> = None | Some(value: T)

  /** The exceptions raised by the indexers and not caught by them. */
  datatype PyError =
    | IndexError                  // list or tensor index out of range, `[...][0]` on an empty list
    | SliceStepZero               // ValueError: slice step cannot be zero
    | InvalidLiteral(text: string) // ValueError: invalid literal for int() with base 10
    | NotImplementedError         // an argument of an unsupported type
    | EmptyReduction              // ValueError: zero-size array to reduction operation

  datatype Result<+T> = Ok(value: T) | Err(error: PyError)
}
