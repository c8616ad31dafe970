/** Optional values and results with an error, as every SDK returns them
    (None / nil / null, and raised exceptions or Go error values). */
module Wrappers {

  datatype Option<T> = None | Some(value: T)

  datatype Result<T, E> = Ok(value: T) | Err(error: E)
  {
    predicate IsFailure() { Err? }

    function PropagateFailure<U>(): Result<U, E>
      requires Err?
    {
      Err(error)
    }

    function Extract(): T
      requires Ok?
    {
      value
    }
  }
}

/** The three implementations of the SDK; every divergence between them is a
    case split on this type. */
module Sdk {

  datatype Platform = Python | Go | Java
}
