/** Failure-carrying values shared by every component of the task tracker. */
module Results {

  /** A value that may be absent: a line that decodes to no task, a text
      that is not a number. */
  datatype Option<+T> = None | Some(value: T)

  /** The two ways an operation of the core can fail: a user-facing error
      carrying its message (the application's own exception), or a string
      index past the end of the line, which is what Java raises when a
      command word is longer than the text it is cut from. */
  datatype Error = Failure(message: string) | IndexOutOfBounds

  /** The outcome of an operation that either yields a value or fails. */
  datatype Result<+T> = Ok(value: T) | Err(error: Error)
}
