/** Shared value types: an optional value, and the opaque Go `error` values
    that the store and the random source hand back. */
module Wrappers {

  datatype Option<+T> = None | Some(value: T)

  /** A Go `error`: the model never inspects it, it only passes it on. */
  datatype Error = Error(message: string)
}
