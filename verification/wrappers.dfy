/** Failure-carrying datatypes shared by the model. `None` plays the role
    of Python's `None`, which the commitment code uses as the group identity. */
module Wrappers {

  datatype Option<+T> = None | Some(value: T)

  datatype Result<+R, +E> = Success(value: R) | Failure(error: E)
}
