/** Failure values for the operations of the model: every exception the
    modelled C# code raises or lets escape becomes an `Error`. */
module Outcomes {

  /** The exceptions that can leave the modelled operations. */
  datatype Error =
    | NotConnected                  // I/O on an instrument with no open VISA session (a null session in the source)
    | ConnectFailed(message: string) // the session could not be opened
    | BusTimeout                    // a read got no answer before the session timeout
    | IndexOutOfRange               // an array index past the end
    | BadNumber                     // long.Parse on text that is not an integer
    | NumberOverflow                // long.Parse on an integer outside the 64-bit range
    | RuntimeBinderFailure          // the dynamic conversion of a binary block to a string fails
    | NameTooLong(message: string)   // a waveform name the MXG cannot store
    | FileNotFound(path: string)     // the waveform file could not be read

  /** A value or the exception that replaced it. */
  datatype Result<+T> = Ok(value: T) | Err(error: Error)

  /** Normal completion of a void operation, or its exception. */
  datatype Outcome = Pass | Fail(error: Error)

  /** A C# reference that may be null. */
  datatype Option<+T> = None | Some(value: T)
}
