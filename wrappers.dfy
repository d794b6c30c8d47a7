/** Rust's `Option`, used for colours (`Option<Color>`) and for the panics a model turns into a result. */
module Wrappers {
  datatype Option<+T> = None | Some(value: T)
}
