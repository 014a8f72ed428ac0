/** Shared wrappers used by every component of the model. */
module Prelude {

  datatype Option<+T> = None | Some(value: T)

  datatype Result<+T, +E> = Ok(value: T) | Err(error: E)

  type Byte = x: int | 0 <= x < 256

  type Bytes = seq<Byte>

  /** The three process modes; `maintenance.rs` stores them in one atomic byte. */
  datatype Mode = Normal | ReadOnly | Offline {
    predicate AllowsRead() { !Offline? }

    predicate AllowsWrite() { Normal? }
  }
}
