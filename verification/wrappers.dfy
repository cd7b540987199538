/** Optional values, results and the exceptions the store raises. */
module Wrappers {

  datatype Option<T> = None | Some(value: T)

  /** The Java exceptions that leave the modelled code, by kind. */
  datatype Error =
    | IOError(reason: string)        // java.io.IOException
    | EndOfFile                      // java.io.EOFException from readByte/readInt/readLong
    | StoreError(reason: string)     // org.atri.platodb.store.StoreError
    | StoreInconsistency             // StoreInconsistencyException
    | IllegalArgument(reason: string)
    | NoSuchElement
    | UnsupportedOperation
    | LockObtainFailed
    | NullPointer                    // a method called on a reference that is null
    | IndexOutOfBounds               // ArrayIndexOutOfBoundsException
    | Diverges                       // a chain walk longer than the bound it is given: the Java loop would not stop there

  datatype Result<T> = Ok(value: T) | Err(error: Error) {
    predicate IsFailure() {
      Err?
    }

    function PropagateFailure<U>(): Result<U>
      requires Err?
    {
      Err(error)
    }

    function Extract(): T
      requires Ok?
    {
      value
    }
  }

  /** The outcome of a Java method returning `void`. */
  datatype Outcome = Pass | Fail(error: Error)
}
