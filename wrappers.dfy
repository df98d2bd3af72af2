/** Result and error values of the modelled operations.

    The Python code signals failure by raising an exception or by returning the
    `NotImplemented` singleton; the model returns a `Failure` carrying which one. */
module Wrappers {

  datatype Option<T> = None | Some(value: T)

  /** The exceptions raised, or the `NotImplemented` value returned, by the modelled code. */
  datatype Error =
    | TypeError
    | ValueError
    | AttributeError
    | AssertionError
    | IndexError
    | NotImplemented

  datatype Result<T> = Success(value: T) | Failure(error: Error)
}
