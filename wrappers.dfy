/** Optional values and results with an error, shared by the decoder and the
    window model.  A JavaScript `throw` in the modelled code becomes a
    `Failure`/`Fail` value; a JavaScript `null` (or a missing property or
    parameter, `undefined`) becomes `None`. */
module Wrappers {

  datatype Option<+T> = None | Some(value: T)

  datatype Result<+R, +E> = Success(value: R) | Failure(error: E)

  datatype Outcome<+E> = Pass | Fail(error: E)
}
