/**
 * Failure reporting shared by every codec: the exceptions the Java engine
 * raises, and a failure-compatible Result type for `:-`.
 */
module Results {

  /** The exceptions a build, an encode or a decode can end with. */
  datatype Error =
    /** ExternalizorException "Not empty public constructor for the type ...", raised at build time */
    | MissingConstructor(className: string)
    /** ClassCastException / ArrayIndexOutOfBoundsException from reading a field's generic type arguments */
    | GenericTypeError(fieldName: string)
    /** ExternalizorException "Can't create an instance of ...", raised when a class codec decodes */
    | CannotCreateInstance(className: string)
    /** the raw ReflectiveOperationException of a collection or map constructor that cannot instantiate */
    | InstantiationFailure(className: string)
    /** ExternalizorException "Not implemented" (standalone primitive codecs' readExternal) */
    | NotImplemented
    /** ExternalizorException "Not available" (standalone lang and time codecs' readExternal) */
    | NotAvailable
    /** EOFException: the input ends before a fixed-width read completes */
    | EndOfStream
    /** UTFDataFormatException on write: the modified UTF-8 form is longer than 65535 bytes */
    | UtfTooLong
    /** UTFDataFormatException on read: a malformed modified UTF-8 body */
    | MalformedUtf
    /** NegativeArraySizeException: an array count read from the stream is negative */
    | NegativeArraySize
    /** NullPointerException, with the message when the source gives one */
    | NullPointer(message: string)
    /** a value that is not of the field's declared type (ClassCastException / IllegalArgumentException) */
    | TypeMismatch
    /** an array or collection with more elements than a Java int can count */
    | TooManyElements

  datatype Result<+T> = Success(value: T) | Failure(error: Error) {
    predicate IsFailure() {
      Failure?
    }

    function PropagateFailure<U>(): Result<U>
      requires Failure?
    {
      Failure(error)
    }

    function Extract(): T
      requires Success?
    {
      value
    }
  }

  datatype Option<+T> = None | Some(value: T)
}
