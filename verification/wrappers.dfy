/** Optional values, used where the Rust source returns an `Option`, or a
    `Result` whose error payload is not observed. */
module Wrappers {

  datatype Option<+T> = None | Some(value: T)
}
