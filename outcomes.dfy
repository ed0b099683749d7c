/** Argument and result shapes shared by the sequence extensions: references
    the caller may pass as null, the two exceptions the extensions throw, and
    the choices that tell one selection overload from another. */
module Outcomes {

  /** A reference argument (a sequence, a delegate, a generator) that the
      caller may pass as null. */
  datatype Nullable<+T> = Null | NonNull(value: T)

  /** The exceptions the extensions throw. */
  datatype Error =
    | ArgumentNull(paramName: string)    // ArgumentNullException(nameof(paramName))
    | InvalidOperation(message: string)  // InvalidOperationException(message)

  /** Either the value an extension returns or the exception it throws. */
  datatype Result<+T> = Ok(value: T) | Err(error: Error)

  /** The message of the exception that the strict selections throw. */
  const SequenceWasEmpty: string := "Sequence was empty"

  /** What a selection does when it has nothing to return: the "OrDefault"
      overloads return default(TSource), the others throw. */
  datatype EmptyPolicy = OrDefault | Throw

  /** Where a selection overload draws its random numbers from: the shared
      thread-local generator (never null), or an explicit Random argument,
      which the caller may pass as null. */
  datatype RandomArg = Shared | Explicit(isNull: bool)
}
