/**
 * Values shared by every part of the blobstore samples model: optional values
 * (Java's null, Go's "absent"), results carrying the exception a call throws,
 * and the exceptions themselves.
 */
module Common {

  /** An 8-bit value read from an input stream. */
  newtype byte = x: int | 0 <= x < 256

  /** A possibly absent value; `None` stands for Java's `null`. */
  datatype Option<+T> = None | Some(value: T)

  /**
   * The exceptions the services raise or let through. The messages of the
   * exceptions the services create themselves are fixed by the source.
   */
  datatype Error =
    | FileIsNull             // new Exception("File is null")
    | InvalidRangeFormat     // new Exception("Invalid range format")
    | InvalidRangeSpecified  // new Exception("Invalid range specified ", cause)
    | NullPointer            // a NullPointerException from dereferencing null
    | IllegalArgument        // an IllegalArgumentException from a library's argument check
    | Backend(id: nat)       // an exception thrown by the storage client or the input stream

  /** The value a call returns, or the exception it throws. */
  datatype Result<+T> = Ok(value: T) | Err(error: Error)
}
