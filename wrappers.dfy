/** Option type used for Go's `error` results (None is nil) and for panics. */
module Wrappers {

  datatype Option<+T> = None | Some(value: T)
}
