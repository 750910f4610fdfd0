/** Value types shared by the codec, the chunking arithmetic and the session. */
module Types {

  /** One octet of a file, as a `Uint8Array` element holds it. */
  type Byte = x: int | 0 <= x < 256

  /** A value that may be missing: JavaScript's `null`/`undefined`. */
  datatype Option<+T> = None | Some(value: T)
}
