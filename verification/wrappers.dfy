/** Optional values and results. A Rust `panic!`/`unwrap()` on the modelled
    paths becomes a `Failure` carrying a description of the cause. */
module Wrappers {

  datatype Option<+T> = None | Some(value: T)

  datatype Result<+T> = Success(value: T) | Failure(error: string)
}
