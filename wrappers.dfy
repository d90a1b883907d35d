/** Option and Result, with the Python exceptions the modelled code can raise. */
module Wrappers {

  datatype Option<+T> = None | Some(value: T)

  /** The exceptions raised by the modelled functions. */
  datatype PyError =
    | NameError          // a local variable read before it was ever assigned
    | KeyError           // a dictionary lookup with a missing key
    | ZeroDivisionError  // a mean or a percentage over an empty string
    | ValueError         // rejected arguments, or too few values to unpack

  datatype Result<+T> = Success(value: T) | Failure(error: PyError)
}
