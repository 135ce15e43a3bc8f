/** The result shapes shared by all components, and the word size. */
module Wrappers {

  /** The source's Option. */
  datatype Option<+T> = None | Some(value: T)

  /** One more than the largest 64-bit word. */
  const WORD_LIMIT: nat := 0x1_0000_0000_0000_0000

  /** Result of an operation that may stop the kernel: a failed `assert!` or `expect` is `Abort`. */
  datatype Outcome<+T> = Done(value: T) | Abort
}
