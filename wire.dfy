/**
 * Value types shared by the codec: bytes, Go's 64-bit integers, and the errors
 * that the reader, the writer and the standard-library helpers they call can return.
 */
module Wire {

  /** A Go `byte`. */
  type byte = b: int | 0 <= b < 0x100

  const MinInt64: int := -0x8000_0000_0000_0000
  const MaxInt64: int := 0x7FFF_FFFF_FFFF_FFFF
  const Two64: int := 0x1_0000_0000_0000_0000

  /** A Go `int64` (and a Go `int` on a 64-bit platform). */
  type int64 = x: int | -0x8000_0000_0000_0000 <= x <= 0x7FFF_FFFF_FFFF_FFFF

  /** A Go `uint64`. */
  type uint64 = x: int | 0 <= x < 0x1_0000_0000_0000_0000

  /** The longest varint encoding of a 64-bit value (`binary.MaxVarintLen64`). */
  const MaxVarintLen64: nat := 10

  /** A byte slice: its length is a Go `int`, so at most MaxInt64. */
  type Payload = s: seq<byte> | |s| <= 0x7FFF_FFFF_FFFF_FFFF

  datatype Option<+T> = None | Some(value: T)

  /** The errors the codec returns; `None` in an `Option<Error>` is Go's `nil`. */
  datatype Error =
    | EOF            // io.EOF: the source ended before the first byte of a read
    | UnexpectedEOF  // io.ErrUnexpectedEOF: the source ended part-way through a read
    | Overflow       // encoding/binary: the varint does not fit in 64 bits
    | BufferTooSmall // ErrBufferTooSmall: the caller's buffer cannot hold the payload
    | NegativeLength // a negative decoded length, on which slicing `data[:msgLen]` panics
    | WriteFailed    // the sink refused a write

  function Min(a: int, b: int): int { if a <= b then a else b }
}
