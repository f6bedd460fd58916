/** Option and Result values standing for Python's None and raised exceptions. */
module Wrappers {

  datatype Option<+T> = None | Some(value: T)

  /** The exceptions the HPROF reader can raise, named after the Python exception classes. */
  datatype Error =
    | EOFError            // a read got fewer bytes than asked for
    | KeyError            // a dictionary lookup of a missing key
    | ValueError          // an instance field entry that does not unpack into (name_id, tp)
    | AttributeError      // a missing method or attribute (e.g. `None.children`)
    | TypeError           // a constructor called through the wrong `super`
    | AssertionError      // `assert` in check_position_in_bound or read_hprof
    | StructError         // struct.unpack given a slice of the wrong length
    | UnboundLocalError   // a local read before it was ever assigned
    | NameError           // a call to a name that is not defined

  datatype Result<+T> = Success(value: T) | Failure(error: Error) {
    predicate IsFailure() {
      Failure?
    }

    function PropagateFailure<U>(): Result<U>
      requires Failure?
    {
      Failure(error)
    }

    function Extract(): T
      requires Success?
    {
      value
    }
  }
}
