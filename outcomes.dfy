/** How the list's operations end. The source signals every failure by throwing a Java
    exception; here an operation returns the exception it would throw. */
module Outcomes {

  /** The exceptions the list and its iterator throw. */
  datatype Error =
    | NullElement       // NullPointerException: a null element was passed in
    | IndexOutOfBounds  // IndexOutOfBoundsException: an index outside the operation's range
    | EmptyList         // IllegalStateException: the operation needs a non-empty list
    | NoSuchElement     // NoSuchElementException: the iterator is exhausted
    | NullDereference   // NullPointerException: a walk stepped past the tail and read null

  /** The outcome of an operation that returns a value. */
  datatype Result<+R> = Success(value: R) | Failure(error: Error)

  /** The outcome of an operation that returns nothing of interest. */
  datatype Status = Pass | Fail(error: Error)

  /** A Java reference argument, which may be null. Elements stored in the list never are. */
  datatype Nullable<+T> = Null | NonNull(value: T)
}
