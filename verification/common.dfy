/** Small building blocks shared by every module: Rust's `Option` and
    `Result`, and a no-repeats predicate on sequences. */
module Common {

  /** Rust's `Option<T>`. */
  datatype Option<+T> = None | Some(value: T)

  /** Rust's `Result<T, E>`; the error type is a datatype of the model
      instead of the source's message strings. */
  datatype Result<+T, +E> = Ok(value: T) | Err(error: E)

  /** Every element of `s` occurs at most once. */
  ghost predicate NoDup<T>(s: seq<T>) {
    forall i, j :: 0 <= i < j < |s| ==> s[i] != s[j]
  }
}
