/** Small shared vocabulary: an optional value standing for a nullable C pointer,
    and the byte type used for file contents and packed records. */
module Base {

  /** `None` plays the role of a NULL pointer, `Some(v)` of a pointer to `v`. */
  datatype Option<+T> = None | Some(value: T)

  /** An unsigned 8-bit value (`uint8_t`). */
  type byte = x: int | 0 <= x < 256
}
