/** Optional values, for the places where the auditor's code uses Rust's `Option`. */
module Wrappers {

  datatype Option<+T> = None | Some(value: T)
}
