/**
 * The ways an address-book operation can end abruptly. Only
 * `InvalidAddressException` is declared by the program; the others are
 * the runtime exceptions its code lets escape.
 */
module Exceptions {
  import opened JavaText

  /** What an `InvalidAddressException` with a message complains about. */
  datatype Invalid =
    | InvalidName    // the name is empty after trimming
    | InvalidSex     // the sex is neither "female" nor "male", ignoring case
    | InvalidDate    // a date token has the wrong length

  datatype Error =
    /** `InvalidAddressException` whose message quotes the line counter `line`. */
    | InvalidAddress(line: int32, reason: Invalid)
    /**
     * `InvalidAddressException` wrapping the `NumberFormatException` of a
     * date token that is not an integer; its message is the cause's and
     * quotes no line.
     */
    | InvalidNumber
    /** `ArrayIndexOutOfBoundsException`: too few comma or slash fields. */
    | ArrayIndexOutOfBounds
    /** `DateTimeException` from `LocalDate.of`: month or day out of range. */
    | DateTimeError
    /** `NoSuchElementException` from `Optional.get()` on an empty result. */
    | NoSuchElement

  /** A value, or the exception that ended the computation. */
  datatype Result<+T> = Success(value: T) | Failure(error: Error) {
    predicate IsFailure() {
      Failure?
    }

    function PropagateFailure<U>(): Result<U>
      requires Failure?
    {
      Failure(error)
    }

    function Extract(): T
      requires Success?
    {
      value
    }
  }
}
