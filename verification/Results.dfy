/** Error values and result types shared by every component.  The exceptions of
    src/arpc/errors.h that the modelled code throws become constructors of Error. */
module Results {

  datatype Error =
    | Eof            // errors::eof
    | DataMismatch   // errors::data_mismatch
    | NotFound       // errors::not_found
    | OutOfRange     // errors::out_of_range and std::out_of_range
    | TryAgain       // errors::try_again
    | InvalidState   // errors::invalid_state
    | LengthError    // std::length_error, raised by std::string::resize
    | Cancelled      // errors::cancelled
    | DeadlineExceeded // errors::deadline_exceeded

  datatype Option<+T> = None | Some(value: T)

  datatype Result<+T> = Ok(value: T) | Err(error: Error) {
    predicate IsFailure() {
      Err?
    }

    function PropagateFailure<U>(): Result<U>
      requires Err?
    {
      Err(error)
    }

    function Extract(): T
      requires Ok?
    {
      value
    }
  }
}
