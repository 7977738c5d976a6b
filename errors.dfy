/**
 * Results and errors shared by every reader.  The decoders' panics are not
 * process aborts here: each becomes an error of kind `Panic`, so that every
 * path of the source has an outcome the contracts can speak about.
 */
module Errors {

  datatype Result<+T, +E> = Success(value: T) | Failure(error: E) {
    predicate IsFailure() { Failure? }

    function PropagateFailure<U>(): Result<U, E>
      requires Failure?
    {
      Failure(error)
    }

    function Extract(): T
      requires Success?
    {
      value
    }
  }

  /** The `std::io::ErrorKind`s a read or a seek of an in-memory cursor can report. */
  datatype IoErrorKind = UnexpectedEof | InvalidInput

  /** The condition behind each `panic!`, `unwrap` or `expect` that input can reach. */
  datatype PanicKind =
    | LongFormWithoutLength // BER first byte 0x80
    | ValueTooLarge         // more than 128 significant bits after stripping leading zeros
    | EmptyBitLoad          // `load_be` of an empty bit slice
    | LengthExceedsU64      // a BER length that does not fit a u64
    | OffsetExceedsI64      // a length that does not fit the i64 of `seek_relative`
    | SeekOutOfRange        // `seek_relative` beyond the u64 range of positions

  datatype Error =
    | Io(kind: IoErrorKind)
    | Decoding(name: string) // `encoding::Error::DecodingError`, carrying the integer kind
    | Panic(reason: PanicKind)

  /** What a decoder yields for the bytes at a position: the value and how many bytes it occupies. */
  datatype Decoded<+T> = Decoded(value: T, size: nat)

  /**
   * A cursor read that began at `start` and left the cursor at `end` agrees
   * with `spec`, the decoding of the bytes at `start`: it returns the same
   * value or error; on success it moved exactly past the decoded bytes; an
   * I/O error leaves the cursor at the end of the data (`eof`), as
   * `std::io::Cursor::read_exact` does; a decoding error consumed nothing.
   * After a panic the process has ended, so no position is promised.
   */
  ghost predicate Matches<T>(r: Result<T, Error>, spec: Result<Decoded<T>, Error>, start: nat, end: nat, eof: nat)
  {
    match spec
    case Success(d) => r == Success(d.value) && end == start + d.size
    case Failure(e) => r == Failure(e) && (e.Io? ==> end == eof) && (e.Decoding? ==> end == start)
  }
}
