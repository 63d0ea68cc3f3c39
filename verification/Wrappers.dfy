/** The two result shapes shared by every component of the model. */
module Wrappers {

  /** A value the source may hold as `null` or `undefined`. */
  datatype Option<+T> = None | Some(value: T)

  /** A call that either returns or throws. */
  datatype Result<+T> = Ok(value: T) | Thrown(message: string)
}
