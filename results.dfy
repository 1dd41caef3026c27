/** Failure-compatible wrappers shared by every module of the model.
    `Option` mirrors Rust's `Option`; `Result` adds `Panic`, the model of a Rust
    `panic!`, `expect`, `todo!`, an out-of-bounds index or a debug-build overflow:
    the run stops there and nothing after it happens. */
module Results {

  datatype Option<+T> = None | Some(value: T)

  datatype Result<+T> = Ok(value: T) | Panic(msg: string) {
    predicate IsFailure() { Panic? }

    function PropagateFailure<U>(): Result<U>
      requires Panic?
    {
      Panic(msg)
    }

    function Extract(): T
      requires Ok?
    {
      value
    }
  }
}
