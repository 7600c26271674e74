/** Option and Result, and the error kinds the modelled classes raise. */
module Wrappers {

  datatype Option<T> = None | Some(value: T)

  /** The outcome of an operation that may throw: a value, or the exception it raises. */
  datatype Result<T> = Ok(value: T) | Err(error: Error)

  /** The outcome of an operation that returns nothing but may throw. */
  datatype Outcome = Done | Fail(error: Error)

  /**
   * Exceptions raised by the modelled code. The PHP class that carries each one
   * is named beside it.
   */
  datatype Error =
    | InvalidPort           // \InvalidArgumentException from Uri::setPort
    | InvalidRequestTarget  // \InvalidArgumentException from Request::withRequestTarget
    | InvalidFilename       // \InvalidArgumentException from UploadedFile::setClientFilename
    | NegativeSize          // \RuntimeException from UploadedFile::setSize
    | AlreadyMoved          // \RuntimeException from UploadedFile::getStream
    | NotAResource          // \InvalidArgumentException from Stream::__construct
    | NoResource            // \RuntimeException: the stream has no open resource
    | NotReadable           // \RuntimeException: read from a non-readable stream
    | NotWritable           // \RuntimeException: write to a non-writable stream
    | NotSeekable           // \RuntimeException: seek on a non-seekable stream
    | SeekFailed            // \RuntimeException: fseek returned -1
    | PositionUnknown       // \RuntimeException: ftell returned false
    | WriteFailed           // \RuntimeException: fwrite returned false
    | KeyNotFound           // \Exception from Data::get
}
