module ByteStrings {
  /** Bytes as bit patterns, where the code masks and shifts them. */
  type Bytes = seq<bv8>

  /** Bytes as numbers, where the code copies and compares them. */
  type Octet = x: int | 0 <= x < 0x100
  type Octets = seq<Octet>

  datatype Option<+T> = None | Some(value: T)
}
