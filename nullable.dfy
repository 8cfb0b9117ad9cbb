/** Kotlin's nullable types `T?`: a missing map entry, a missing back pointer. */
module Nullable {
  datatype Option<T> = None | Some(value: T)
}
