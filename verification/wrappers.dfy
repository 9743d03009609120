/** Option and Result, the two failure-carrying shapes the cursor's Rust
    signatures use (`Option<RowID>` and `Result<T>` over the store's error). */
module Wrappers {

  datatype Option<+T> = None | Some(value: T)

  datatype Result<+R, +E> = Success(value: R) | Failure(error: E)
}
