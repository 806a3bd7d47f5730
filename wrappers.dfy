/** Small helper datatypes shared by the other modules. */
module Wrappers {

  /** Python's `None` or a present value. */
  datatype Option<+T> = None | Some(value: T)

  /** The exceptions the modelled Python code can raise. */
  datatype PyError = AssertionError | IndexError | AttributeError | ValueError

  /** How a Python call ends: it returns a value, or an exception propagates out of it. */
  datatype Result<+T> = Returned(value: T) | Raised(error: PyError)
}
