/** The exceptions the toolkit raises, folded into one datatype, and the
    result wrappers every fallible operation returns. */
module Errors {

  datatype Error =
    | SizeMismatch          // MatrixSizeMismatchError
    | IndexOutOfBounds      // MatrixIndexOutOfBoundsError
    | NoInverse             // MatrixHasNoInverseError
    | DivideByZero          // ZeroDivisionError raised by divide / int_divide
    | ListIndexError        // Python's IndexError on a list assignment past the end
    | KeyNotInt             // TypeError: a point key that is not an int
    | KeyOutOfRange         // ValueError: a point key outside [0, ndims)
    | WrongArity            // ValueError: a point built with the wrong number of values
    | ValueNotNumber        // TypeError: a point component that is not a number
    | TupleItemAssignment   // TypeError: item assignment on the tuple that stores a point
    | MissingAttribute      // AttributeError: the attribute does not exist on the object
    | NoneAttribute         // AttributeError: an attribute looked up on None
    | NotAFloat             // ValueError raised by float() on a token that is not a number
    | FileNotFound          // "File not found" raised by the STL loader
    | NotImplemented        // "Not implemented yet" raised for binary STL files
    | NoModeSpecified       // "No mode specified" raised by the STL loader for an unknown mode
    | UnsupportedOperand    // TypeError: a matrix operator given an operand it does not handle
    | FormatArgs            // TypeError: a `%` format given more values than it has placeholders

  datatype Result<T> = Ok(value: T) | Err(error: Error) {
    predicate IsFailure() { Err? }

    function PropagateFailure<U>(): Result<U>
      requires Err?
    {
      Err(error)
    }

    function Extract(): T
      requires Ok?
    {
      value
    }
  }

  /** The outcome of an operation that returns nothing (a Python `None`) or raises. */
  datatype Outcome = Pass | Fail(error: Error)

  datatype Option<T> = None | Some(value: T)
}
