/** Optional values and the error kinds the image pipeline reports. */
module Wrappers {

  /** A Go interface value that may be nil: None plays the part of nil. */
  datatype Option<+T> = None | Some(value: T)

  /** The errors the core returns; Go builds each but the last from a fixed message. */
  datatype Error =
    | SourceNotInitialized   // no source image loaded (filter, negative, improve)
    | InvalidMaskSize        // mask size even, below 3 or too large for the image
    | ImageNotInitialized    // histogram of an image that was never produced
    | TargetNotInitialized   // dump of an image that was never produced
    | DecodeFailed           // the decoder's own error

  /** A value or an error, for Go's `(value, error)` result pairs. */
  datatype Result<+T> = Ok(value: T) | Err(error: Error)
}
