/** Option and Result values shared by the model. */
module Wrappers {

  /** A value that may be absent (`null` / `undefined` in the bot). */
  datatype Option<+T> = None | Some(value: T)

  /** The result of a call that may throw: its value, or the fact that it threw. */
  datatype Result<+T> = Success(value: T) | Failure
}
