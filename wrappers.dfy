/** Option and Result types, and the Java exceptions the modelled code can raise. */
module Wrappers {

  /** A Java reference that may be null. */
  datatype Option<+T> = None | Some(value: T)

  /** The Java exception classes whose raising the model distinguishes. */
  datatype Exc =
    | IndexOutOfBounds    // StringIndexOutOfBoundsException from substring
    | NumberFormat        // NumberFormatException from Integer.parseInt
    | IllegalArgument     // IllegalArgumentException
    | NullPointer         // NullPointerException (a null reader, a null date, ...)
    | IOFailure           // IOException and its subclasses (ZipException, NoSuchFileException, ...)
    | AlfrescoRuntime     // AlfrescoRuntimeException
    | DuplicateChildName  // the content store refuses a second child with the same name
    | InvalidType         // the content store refuses to read content from a non-content node

  /** The outcome of a Java call that returns a value or raises an exception. */
  datatype Result<+T> = Ok(value: T) | Throws(exc: Exc)
}
