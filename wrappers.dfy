/** Option and the conversion result shared by every module of the model. */
module Wrappers {

  datatype Option<+T> = None | Some(value: T)

  /** The error half of `from_pest::ConversionError<Void>`: the `Malformed`
      variant carries the uninhabited `Void` and so never occurs. */
  datatype ConversionError = NoMatch | Extraneous(currentNode: string)

  /** A conversion either yields a value or fails with a `ConversionError`. */
  datatype Result<+T> = Ok(value: T) | Err(error: ConversionError)
}
