/** Bytes and Unicode scalar values. */
module Unicode {

  /** An octet. */
  type Byte = b: int | 0 <= b < 0x100

  /** The code point of the byte order mark, which the ReliableTXT preamble encodes. */
  const BOM: char := '\U{FEFF}'

  /** A Unicode scalar value: a code point that is not a surrogate. Exactly
      these are the values of a Dafny `char`. */
  predicate IsScalarValue(n: int) {
    0 <= n < 0xD800 || 0xE000 <= n < 0x11_0000
  }
}
