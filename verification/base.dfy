/** Shared result types. The source signals failures with Python exceptions; the
    model returns them as values so that every error path is explicit. */
module Base {

  datatype Option<+T> = None | Some(value: T)

  /** The exception classes the contact book raises or lets escape. */
  datatype Error =
    | IndexError   // too few command arguments
    | KeyError     // no record under that name
    | NameError    // record already exists (or an unbound local, a NameError subclass)
    | ValueError   // invalid phone, or a date that does not exist
    | PhoneError   // phone not found in the record
    | DateError    // birthday missing or unparsable

  datatype Result<+T> = Ok(value: T) | Err(error: Error)
}
