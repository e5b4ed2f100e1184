/** Small result types shared by the modules of this model. */
module Wrappers {

  /** Rust's `Option`. */
  datatype Option<+T> = None | Some(value: T)

  /** The outcome of a build step that either finishes with a value or aborts
      the build with a panic (an `unwrap`/`expect` failure or a bad slice). */
  datatype Outcome<+T, +E> = Done(value: T) | Panicked(reason: E)
}
