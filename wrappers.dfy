/** Optional values and validation results, standing in for Python's `None`
    and for a validator that either returns its value or raises `ValueError`. */
module Wrappers {

  datatype Option<+T> = None | Some(value: T)

  /** `Invalid` carries the message the validator raises with. */
  datatype Result<+T> = Valid(value: T) | Invalid(message: string)
}
