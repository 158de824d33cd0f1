/** Shared vocabulary: Go byte strings and an optional value. */
module Base {

  /** A Go byte. Go `string` and `[]byte` values are both byte sequences, so
      `len(s)` in the source is `|s|` here. */
  type byte = x: int | 0 <= x < 256

  type Bytes = seq<byte>

  datatype Option<+T> = None | Some(value: T)
}
