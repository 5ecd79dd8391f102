/**
 * The ways the modelled Java code can end abnormally, as values.
 *
 * Where the Java code dereferences a map lookup that returned null, calls
 * charAt(0) on an empty string or throws on purpose, the model returns a
 * Failure carrying the exception kind instead of excluding the input.
 */
module Outcomes {

  datatype Option<+T> = None | Some(value: T)

  /** The unchecked exceptions the modelled code can raise. */
  datatype Exception =
    | NullPointer                 // a lookup returned null and was used
    | IndexOutOfBounds            // charAt(0) on an empty string
    | IllegalArgument(c: char)    // the lexer met a character it does not know

  datatype Result<+T> = Success(value: T) | Failure(error: Exception)
}
