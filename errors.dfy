/** The error values the codecs, the block device and the builder report, and
    the result types that carry them in place of Go's `(value, error)` pairs. */
module Errors {
  import opened Bytes

  datatype Error =
    | UnexpectedEof                        // io.ErrUnexpectedEOF: too few bytes
    | Eof                                  // io.EOF: a read ran past the end of the file
    | GptNotPresent                        // ErrGPTNotPresent: wrong signature
    | GptUnsupportedRevision(revision: u32) // ErrGPTUnsupported, "revision %v"
    | GptUnsupportedSize(size: u32)        // ErrGPTUnsupported, "size %v"
    | InvalidSize                          // diskbuilder.ErrInvalidSize
    | IoError                              // any other failure of the file

  datatype Result<T> = Ok(value: T) | Err(error: Error)

  /** A Go `error` return that may be nil. */
  datatype Outcome = Pass | Fail(error: Error)
}
