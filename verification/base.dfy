/** Null-able values and Java exceptions, as plain values.
    A Java reference that may be null is an `Option`; a call that may throw
    returns a `Result` whose failure names the exception. */
module Base {

  /** A Java reference that may be null. */
  datatype Option<+T> = None | Some(value: T)

  /** The unchecked exceptions the modelled code can raise. */
  datatype JavaException =
    | NullPointer
    | IllegalArgument(text: string)
    | IndexOutOfBounds

  /** A possibly-null String as string concatenation and
      StringBuilder.append write it: null becomes the four characters "null". */
  function NullText(s: Option<string>): string {
    match s
    case Some(t) => t
    case None => "null"
  }

  /** The outcome of a Java call: a value, or the exception it throws. */
  datatype Result<+T> = Success(value: T) | Failure(error: JavaException)
}
