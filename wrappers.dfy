/** Failure-carrying values shared by every module of the model. The source
    signals failures with Java exceptions and `null`; here they are values. */
module Wrappers {

  datatype Option<+T> = None | Some(value: T)

  /** The exceptions the source throws, by kind. */
  datatype Error =
    | NullArgument                   // NullPointerException from a null argument
    | IllegalArgument(nullIndex: int) // IllegalArgumentException wrapping a NullCharacterException
    | IllegalState                   // IllegalStateException("Corpus is empty")
    | IndexOutOfBounds(index: int)   // from List.get with a bad index
    | NoSuchElement                  // Iterator.next past the end

  datatype Result<+T> = Ok(value: T) | Err(error: Error)
}
