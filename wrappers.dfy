/** Rust's `Option`, as far as the rule needs it. */
module Wrappers {

  datatype Option<+T> = None | Some(value: T)
}
