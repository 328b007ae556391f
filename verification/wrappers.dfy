/** Optional values and the Python exceptions that escape the modelled code. */
module Wrappers {

  /** Python's `None`-or-a-value. */
  datatype Option<+T> = None | Some(value: T)

  /** The exceptions the modelled code lets escape to the web framework. */
  datatype PyError = TypeError | KeyError | ValueError | AttributeError

  /** A Python call either returns a value or raises an exception its caller does not catch
      (the web framework then answers 500). */
  datatype Outcome<+T> = Returned(value: T) | Raised(error: PyError)
}
