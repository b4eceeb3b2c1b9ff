/** Shared vocabulary of the host protocol: the two choices, bytes and an
    Option. */
module Vocabulary {

  /** A byte of a `Uint8Array` (the random mask buffers). */
  type Byte = b: int | 0 <= b < 256

  /** A party's private input: '🙂' (friendship) or '😍' (love). */
  datatype Choice = Friendship | Love

  datatype Option<+T> = None | Some(value: T)
}
