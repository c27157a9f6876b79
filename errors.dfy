/**
 * The failures that the element-tree view reports to its callers.  The Java
 * code throws exceptions; here every operation that can throw returns a
 * `Result` or an `Outcome` instead.
 */
module Errors {

  /** The kinds of exception the modelled code can raise. */
  datatype Error =
    | XmlException           // org.rrlib.xml.XMLException
    | NumberFormatException  // from Integer.parseInt / Long.parseLong
    | DomNotFound            // DOMException NOT_FOUND_ERR from Node.removeChild
    | NullPointer            // NullPointerException from an exhausted child iterator
    | UnsupportedOperation   // RuntimeException from the child iterator's remove

  /** The value of an operation that either returns a value or throws. */
  datatype Result<+T> = Success(value: T) | Failure(error: Error)

  /** The value of a void operation that may throw. */
  datatype Outcome = Pass | Fail(error: Error)

  /** A value or nothing: the position of a child that may be absent. */
  datatype Option<+T> = None | Some(value: T)
}
