// Shared vocabulary of the storage-layer models: bytes and options.
module Bytes {
  type byte = x: int | 0 <= x < 256

  datatype Option<+T> = None | Some(value: T)
}
