/** Result types and error kinds shared by the models, and a fact about sequences that several of them need. */
module Results {

  datatype Option<+T> = None | Some(value: T)

  datatype Result<+T, +E> = Ok(value: T) | Err(error: E)

  /** The part of the source's `FsError` that the modelled code can return. */
  datatype FsError =
    | NotFound
    | Exists
    | Forbidden
    | TooLarge
    | InsufficientStorage
    | GeneralFailure

  type FsResult<+T> = Result<T, FsError>

  lemma EmptyOrMember<T>(s: seq<T>)
    ensures s == [] || exists x :: x in s
  {
    if s != [] { assert s[0] in s; }
  }
}
