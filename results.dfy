/** Errors raised by the engine, and the Result type that carries them.
    Each constructor stands for one Python exception class the core raises. */
module Results {

  datatype Error =
    | ValueError
    | IntegrityError      // a subclass of ValueError (steel/byte/fields/integrity.py:11)
    | TypeError
    | IOError           // raised by the mode checks of a structure
    | EOFError          // raised by EOFBytesIO on a short read
    | AttributeError
    | NotImplementedError
    | KeyError
    | NameError         // an unbound local variable
    | IndexError        // pop from an empty list
  {
    /** `except ValueError` catches the error: true of ValueError and of its subclass IntegrityError. */
    predicate IsValueError() {
      ValueError? || IntegrityError?
    }
  }

  datatype Result<+T> = Ok(value: T) | Err(error: Error) {
    predicate IsFailure() {
      Err?
    }

    function PropagateFailure<U>(): Result<U>
      requires Err?
    {
      Err(error)
    }

    function Extract(): T
      requires Ok?
    {
      value
    }
  }

  datatype Option<+T> = None | Some(value: T)
}
