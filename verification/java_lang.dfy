/** Java-level vocabulary shared by the whole model: references that may be
    null, optional values, the unchecked exceptions the modelled code throws,
    and the outcome of a call that either returns or throws. */
module JavaLang {

  /** A Java reference that may be null. */
  datatype Nullable<+T> = Null | Ref(deref: T)

  /** An optional value: a parse or a search that may find nothing. */
  datatype Option<+T> = None | Some(value: T)

  /** The unchecked exceptions raised by the modelled code. */
  datatype Exception =
    | NullPointerException
    | IllegalArgumentException
    | IllegalStateException

  /** The outcome of a Java call: the value it returns, or the exception it
      throws. Most modelled calls throw before changing anything; enabling the
      store is the exception (see `SavedData.Enable`). */
  datatype Result<+T> = Ok(value: T) | Throw(exception: Exception)

  /** The components a nullable reference contributes to an array: none for
      null, the referent otherwise. */
  function Elements<T>(r: Nullable<T>): seq<T>
  {
    match r
    case Null => []
    case Ref(x) => [x]
  }
}
