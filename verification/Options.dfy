/** Optional values and results, used wherever the store returns `Option` or `Result`. */
module Options {
  datatype Option<+T> = None | Some(value: T)

  datatype Result<+T, +E> = Ok(value: T) | Err(error: E)

  /** The error type of the store crate; the message text is not modelled. */
  datatype StoreError = Storage | SnapshotExpired(requested: nat, oldestAvailable: nat)
}
