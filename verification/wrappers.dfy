/** Optional values: the model's stand-in for a Rust `unwrap` that may panic
    and for a page fetch that may fail. */
module Wrappers {

  datatype Option<+T> = None | Some(value: T)
}
