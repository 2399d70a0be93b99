/** Types shared by the key/value store and the CASPaxos node. */
module Common {

  /** The largest value of Rust's `usize` on a 64-bit target. */
  const USIZE_MAX: nat := 0xFFFF_FFFF_FFFF_FFFF

  /** Rust's `usize`: keys, values and ballot numbers all have this type. */
  type Usize = n: nat | n <= USIZE_MAX

  datatype Option<+T> = None | Some(value: T)

  /** The two error codes of the message protocol that the core produces. */
  datatype ErrorCode = KeyDoesNotExist | PreconditionFailed
}
