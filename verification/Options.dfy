/** Optional values, and the results of parsing. */
module Options {
  datatype Option<+T> = None | Some(value: T)

  /** A value read from a bit string and the position after it, or a negative error code. */
  datatype Parse<+T> = Got(value: T, pos: nat) | Failed(code: int)
}
