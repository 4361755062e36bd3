/** The parser's exception classes, each of which carries only a message, and
    the Java runtime exceptions its code can raise on paths it does not guard. */
module Errors {

  datatype Option<T> = None | Some(value: T)

  datatype ArgError =
    | Help(message: string)                       // HelpException
    | UnrecognizedArgument(message: string)       // UnrecognizedArgumentException
    | MissingRequiredArgument(message: string)    // MissingRequiredArgumentException
    | InvalidType(message: string)                // InvalidTypeException
    | UnacceptedValue(message: string)            // UnacceptedValueException
    | MutuallyExclusiveArgument(message: string)  // MutuallyExclusiveArgumentException
    | BadXML                                      // BadXMLException, which has no message
    | NoSuchElement      // Queue.remove() on an empty queue
    | ClassCast          // a plain Argument cast to NamedArgument, or a non-text event read as text
    | NullPointer        // a method called on the null that a failed map lookup returned
    | NumberFormat       // Integer.parseInt of a string that is not a 32-bit ASCII decimal numeral
    | IndexOutOfBounds   // String.substring past the end of a name

  /** How a void Java method ends: normally, or by throwing. */
  datatype Outcome = Success | Failure(error: ArgError)

  /** How a Java method with a result ends. */
  datatype Result<T> = Ok(value: T) | Err(error: ArgError)
}
