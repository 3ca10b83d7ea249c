/** Failure-carrying results for the operations of the serializer.
    The source reports every failure by throwing a .NET exception; the model returns
    `Failure(e)` where `e` names the exception class that would have been thrown. */
module Wrappers {

  /** The .NET exception classes the modelled code throws (directly or through the runtime). */
  datatype Exception =
    | EndOfStream           // System.IO.EndOfStreamException: the stream ended early
    | InvalidData           // System.IO.InvalidDataException: a varint that does not terminate
    | MalformedText         // DecoderFallbackException: invalid UTF-8 in a string payload
    | KeyNotFound           // KeyNotFoundException from the type dictionary indexer
    | IndexOutOfRange       // IndexOutOfRangeException from the type-id list indexer
    | NullReference         // NullReferenceException (a null descriptor or routine)
    | NotSupported          // NotSupportedException (open generic, no handler, not [Serializable])
    | NotImplemented        // NotImplementedException (serialization callbacks on a value type)
    | Argument              // ArgumentException (configuration errors, invalid decimal bits, short copy target)
    | InvalidOperation      // InvalidOperationException from Enumerable.First finding no match
    | InvalidCast           // InvalidCastException from a trampoline's unbox or cast
    | Unexpected            // System.Exception thrown by the delegate factories
    | OutOfMemory           // OutOfMemoryException: an array longer than Array.MaxLength

  datatype Option<T> = None | Some(value: T)

  datatype Result<T> = Success(value: T) | Failure(error: Exception) {
    predicate IsFailure() { Failure? }

    function PropagateFailure<U>(): Result<U>
      requires Failure?
    {
      Failure(error)
    }

    function Extract(): T
      requires Success?
    {
      value
    }
  }
}
